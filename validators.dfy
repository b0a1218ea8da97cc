/** The registration validators `isValidName`, `isValidPassword` and
    `isValidEmail`. Each is a `String.matches` of a regular expression, which must
    match the whole string; each is written here as a direct reading of its
    expression and then characterised by character classes. */
module Validators {
  import opened Text

  /** Regex `[cls]+`: one or more characters of the class. */
  predicate OneOrMore(s: string, cls: char -> bool)
    decreases |s|
  {
    |s| >= 1 && cls(s[0]) && (|s| == 1 || OneOrMore(s[1..], cls))
  }

  /** `[cls]+` matches exactly the non-empty strings drawn from the class. */
  lemma {:induction false} OneOrMoreIff(s: string, cls: char -> bool)
    ensures OneOrMore(s, cls) <==> |s| > 0 && forall i :: 0 <= i < |s| ==> cls(s[i])
    decreases |s|
  {
    if |s| > 1 {
      OneOrMoreIff(s[1..], cls);
      assert forall i :: 1 <= i < |s| ==> s[i] == s[1..][i - 1];
    }
  }

  // ---- isValidName: ^[a-zA-Z0-9]+$

  predicate IsValidName(s: string) {
    OneOrMore(s, IsAsciiAlnum)
  }

  /** A valid name is a non-empty string of ASCII letters and digits, and every
      such string is valid. */
  lemma NameRule(s: string)
    ensures IsValidName(s) <==> |s| > 0 && forall i :: 0 <= i < |s| ==> IsAsciiAlnum(s[i])
  {
    OneOrMoreIff(s, IsAsciiAlnum);
  }

  // ---- isValidPassword: ^(?=.*[a-z])(?=.*[A-Z])(?=.*\d)(?=.*[^A-Za-z0-9]).{8,}$

  /** `[^A-Za-z0-9]`: anything but an ASCII letter or digit. */
  predicate IsSpecial(c: char) {
    !IsAsciiAlnum(c)
  }

  /** The lookahead `(?=.*[cls])` at the start: some character of the class
      follows a run of characters that `.` accepts. */
  predicate LookaheadFinds(s: string, cls: char -> bool) {
    exists k :: 0 <= k < |s| && cls(s[k]) && forall j :: 0 <= j < k ==> !IsLineTerminator(s[j])
  }

  /** `.{n,}$` over the whole string: at least `n` characters, none a line terminator. */
  predicate DotsAtLeast(s: string, n: nat) {
    |s| >= n && forall i :: 0 <= i < |s| ==> !IsLineTerminator(s[i])
  }

  predicate IsValidPassword(s: string) {
    LookaheadFinds(s, IsAsciiLower) && LookaheadFinds(s, IsAsciiUpper)
    && LookaheadFinds(s, IsAsciiDigit) && LookaheadFinds(s, IsSpecial)
    && DotsAtLeast(s, 8)
  }

  predicate Has(s: string, cls: char -> bool) {
    exists i :: 0 <= i < |s| && cls(s[i])
  }

  /** A password is valid exactly when it has at least 8 characters, no line
      terminator, and at least one lower-case letter, one upper-case letter, one
      digit and one character that is none of these. */
  lemma PasswordRule(s: string)
    ensures IsValidPassword(s) <==>
              |s| >= 8 && (forall i :: 0 <= i < |s| ==> !IsLineTerminator(s[i]))
              && Has(s, IsAsciiLower) && Has(s, IsAsciiUpper)
              && Has(s, IsAsciiDigit) && Has(s, IsSpecial)
  {
    if DotsAtLeast(s, 8) {
      LookaheadIsHas(s, IsAsciiLower);
      LookaheadIsHas(s, IsAsciiUpper);
      LookaheadIsHas(s, IsAsciiDigit);
      LookaheadIsHas(s, IsSpecial);
    }
  }

  /** Once the whole string is free of line terminators, a lookahead is a plain search. */
  lemma LookaheadIsHas(s: string, cls: char -> bool)
    requires forall i :: 0 <= i < |s| ==> !IsLineTerminator(s[i])
    ensures LookaheadFinds(s, cls) <==> Has(s, cls)
  {
    if Has(s, cls) {
      var k :| 0 <= k < |s| && cls(s[k]);
      assert forall j :: 0 <= j < k ==> !IsLineTerminator(s[j]);
    }
  }

  /** A password with every class is accepted from eight characters on. */
  lemma EightCharacterPassword()
    ensures IsValidPassword("aA1!aA1!")
  {
    var p := "aA1!aA1!";
    assert DotsAtLeast(p, 8);
    assert IsAsciiLower(p[0]) && IsAsciiUpper(p[1]) && IsAsciiDigit(p[2]) && IsSpecial(p[3]);
    PasswordRule(p);
  }

  // ---- isValidEmail: ^[A-Za-z0-9+_.-]+@[A-Za-z0-9.-]+\.[A-Za-z]{2,}$

  /** `[A-Za-z0-9+_.-]`: the characters of the local part. */
  predicate IsLocalChar(c: char) {
    IsAsciiAlnum(c) || c == '+' || c == '_' || c == '.' || c == '-'
  }

  /** `[A-Za-z0-9.-]`: the characters of the domain before the last dot. */
  predicate IsDomainChar(c: char) {
    IsAsciiAlnum(c) || c == '.' || c == '-'
  }

  /** One way the expression can match: the '@' at `at`, the literal dot at `dot`. */
  predicate EmailSplit(s: string, at: int, dot: int) {
    0 <= at < dot < |s| && s[at] == '@' && s[dot] == '.'
    && OneOrMore(s[..at], IsLocalChar)
    && OneOrMore(s[at + 1..dot], IsDomainChar)
    && |s| - (dot + 1) >= 2 && OneOrMore(s[dot + 1..], IsAsciiLetter)
  }

  predicate IsValidEmail(s: string) {
    exists at, dot | 0 <= at < dot < |s| :: EmailSplit(s, at, dot)
  }

  /** The last position holding `c`, or -1. Used for the split point of the email
      expression: the greedy `[A-Za-z0-9.-]+` takes every '.' but the last, which
      it hands back to the literal `\.`. */
  function LastIndexOf(s: string, c: char): (r: int)
    ensures -1 <= r < |s|
    ensures r >= 0 ==> s[r] == c && forall k :: r < k < |s| ==> s[k] != c
    ensures r == -1 ==> forall k :: 0 <= k < |s| ==> s[k] != c
    decreases |s|
  {
    if s == [] then -1
    else if s[|s| - 1] == c then |s| - 1
    else LastIndexOf(s[..|s| - 1], c)
  }

  /** The rule by positions: cut at the last '@' and the last '.'; the local part
      is non-empty over its class, the domain part non-empty over its class, and
      at least two ASCII letters end the address. */
  predicate EmailRule(s: string) {
    var at := LastIndexOf(s, '@');
    var dot := LastIndexOf(s, '.');
    0 < at && at + 1 < dot && dot + 2 < |s|
    && (forall k :: 0 <= k < at ==> IsLocalChar(s[k]))
    && (forall k :: at < k < dot ==> IsDomainChar(s[k]))
    && (forall k :: dot < k < |s| ==> IsAsciiLetter(s[k]))
  }

  /** The expression matches exactly the addresses the positional rule accepts:
      the only possible split is at the one '@' and at the last '.'. */
  lemma EmailRuleIff(s: string)
    ensures IsValidEmail(s) <==> EmailRule(s)
  {
    if IsValidEmail(s) {
      var at, dot :| EmailSplit(s, at, dot);
      EmailSplitIsUnique(s, at, dot);
      OneOrMoreIff(s[..at], IsLocalChar);
      OneOrMoreIff(s[at + 1..dot], IsDomainChar);
      OneOrMoreIff(s[dot + 1..], IsAsciiLetter);
      assert forall k :: at < k < dot ==> s[k] == s[at + 1..dot][k - at - 1];
      assert forall k :: dot < k < |s| ==> s[k] == s[dot + 1..][k - dot - 1];
    }
    if EmailRule(s) {
      var at, dot := LastIndexOf(s, '@'), LastIndexOf(s, '.');
      OneOrMoreIff(s[..at], IsLocalChar);
      OneOrMoreIff(s[at + 1..dot], IsDomainChar);
      OneOrMoreIff(s[dot + 1..], IsAsciiLetter);
      assert EmailSplit(s, at, dot);
    }
  }

  /** In any match the '@' is the only one in the address and the literal dot is
      the last dot. */
  lemma EmailSplitIsUnique(s: string, at: int, dot: int)
    requires EmailSplit(s, at, dot)
    ensures forall k :: 0 <= k < |s| && s[k] == '@' ==> k == at
    ensures forall k :: dot < k < |s| ==> s[k] != '.'
    ensures LastIndexOf(s, '@') == at && LastIndexOf(s, '.') == dot
  {
    OneOrMoreIff(s[..at], IsLocalChar);
    OneOrMoreIff(s[at + 1..dot], IsDomainChar);
    OneOrMoreIff(s[dot + 1..], IsAsciiLetter);
    forall k | 0 <= k < |s| && k != at ensures s[k] != '@' {
      if k < at {
        assert s[..at][k] == s[k];
      } else if at < k < dot {
        assert s[at + 1..dot][k - at - 1] == s[k];
      } else if dot < k {
        assert s[dot + 1..][k - dot - 1] == s[k];
      }
    }
    forall k | dot < k < |s| ensures s[k] != '.' {
      assert s[dot + 1..][k - dot - 1] == s[k];
    }
  }

  /** A dot may appear in the local part and inside the domain. */
  lemma EmailAccepted()
    ensures IsValidEmail("a.b@x.y.io")
  {
    var good := "a.b@x.y.io";
    assert good[..3] == "a.b" && good[4..7] == "x.y" && good[8..] == "io";
    assert OneOrMore("a.b", IsLocalChar);
    assert OneOrMore("x.y", IsDomainChar);
    assert OneOrMore("io", IsAsciiLetter);
    assert EmailSplit(good, 3, 7);
  }

  /** An address whose last dot is followed by a single letter is refused. */
  lemma EmailRefused()
    ensures !IsValidEmail("a@b.c")
  {
    EmailRuleIff("a@b.c");
    assert LastIndexOf("a@b.c", '.') == 3;
  }
}
