/** Character classes and string measures shared by the validators, the entry
    rules and the history filter. Strings are sequences of Unicode scalar values. */
module Text {

  predicate IsAsciiLower(c: char) { 'a' <= c <= 'z' }

  predicate IsAsciiUpper(c: char) { 'A' <= c <= 'Z' }

  predicate IsAsciiLetter(c: char) { IsAsciiLower(c) || IsAsciiUpper(c) }

  /** `\d` without the UNICODE_CHARACTER_CLASS flag: ASCII digits only. */
  predicate IsAsciiDigit(c: char) { '0' <= c <= '9' }

  predicate IsAsciiAlnum(c: char) { IsAsciiLetter(c) || IsAsciiDigit(c) }

  /** The characters a regex `.` refuses when neither DOTALL nor UNIX_LINES is set:
      line feed, carriage return, next line, line separator, paragraph separator. */
  predicate IsLineTerminator(c: char) {
    c == '\n' || c == '\r' || c == '\U{85}' || c == '\U{2028}' || c == '\U{2029}'
  }

  /** SQL `LOWER` on one character: only ASCII upper-case letters change. */
  function LowerAscii(c: char): (d: char)
    ensures IsAsciiUpper(c) ==> IsAsciiLower(d) && d as int == c as int + 32
    ensures !IsAsciiUpper(c) ==> d == c
  {
    if IsAsciiUpper(c) then (c as int + 32) as char else c
  }

  /** SQL `LOWER` on a string. */
  function Lower(s: string): (t: string)
    ensures |t| == |s|
    ensures forall i :: 0 <= i < |s| ==> t[i] == LowerAscii(s[i])
  {
    if s == [] then [] else [LowerAscii(s[0])] + Lower(s[1..])
  }

  /** Case-insensitive equality, as `LOWER(a) = LOWER(b)`. */
  predicate EqualsIgnoringCase(a: string, b: string) {
    Lower(a) == Lower(b)
  }

  /** Length in UTF-16 code units, as Java's `String.length()` counts it: a
      character outside the Basic Multilingual Plane takes a surrogate pair. */
  function Utf16Length(s: string): (n: nat)
    ensures |s| <= n <= 2 * |s|
  {
    if s == [] then 0
    else (if s[0] as int < 0x1_0000 then 1 else 2) + Utf16Length(s[1..])
  }

  predicate InBasicPlane(s: string) {
    forall i :: 0 <= i < |s| ==> s[i] as int < 0x1_0000
  }

  /** For text of the Basic Multilingual Plane the Java length is the character count. */
  lemma {:induction false} Utf16LengthOfBasicPlane(s: string)
    requires InBasicPlane(s)
    ensures Utf16Length(s) == |s|
  {
    if s != [] {
      assert InBasicPlane(s[1..]) by {
        forall i | 0 <= i < |s[1..]| ensures s[1..][i] as int < 0x1_0000 {
          assert s[1..][i] == s[i + 1];
        }
      }
      Utf16LengthOfBasicPlane(s[1..]);
    }
  }

  /** The Java length of a concatenation is the sum of the lengths. */
  lemma {:induction false} Utf16LengthOfAppend(a: string, b: string)
    ensures Utf16Length(a + b) == Utf16Length(a) + Utf16Length(b)
    decreases |a|
  {
    if a == [] {
      assert a + b == b;
    } else {
      assert (a + b)[0] == a[0] && (a + b)[1..] == a[1..] + b;
      Utf16LengthOfAppend(a[1..], b);
    }
  }

  /** Case-insensitive equality is an equivalence: it relates a string to itself
      and to its own lower-case form. */
  lemma {:induction false} LowerIsIdempotent(s: string)
    ensures Lower(Lower(s)) == Lower(s)
    ensures EqualsIgnoringCase(s, Lower(s))
  {
    if s != [] {
      LowerIsIdempotent(s[1..]);
      assert Lower(s)[1..] == Lower(s[1..]);
    }
  }
}
