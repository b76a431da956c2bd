/** Input validation for registration: password strength and email format. */
module Validation {
  import opened JsText

  const MinPasswordLength := 8
  const LengthError := "Password must be at least 8 characters"
  const LetterError := "Password must contain at least one letter"
  const NumberError := "Password must contain at least one number"

  predicate IsAsciiLetter(c: char) { 'a' <= c <= 'z' || 'A' <= c <= 'Z' }

  predicate IsAsciiDigit(c: char) { '0' <= c <= '9' }

  /** `/[a-zA-Z]/.test(p)` */
  predicate HasLetter(p: string) { exists i | 0 <= i < |p| :: IsAsciiLetter(p[i]) }

  /** `/[0-9]/.test(p)` */
  predicate HasDigit(p: string) { exists i | 0 <= i < |p| :: IsAsciiDigit(p[i]) }

  datatype PasswordValidation = PasswordValidation(valid: bool, errors: seq<string>)

  /** The position of each message in the order the rules are checked. */
  function Rank(e: string): nat {
    if e == LengthError then 0 else if e == LetterError then 1 else if e == NumberError then 2 else 3
  }

  /** The messages `validatePassword` collects: one per broken rule, in the
      order length, letter, digit. The length is `password.length`, counted
      in UTF-16 code units. */
  function PasswordErrors(p: string): (errs: seq<string>)
    ensures LengthError in errs <==> Utf16Length(p) < MinPasswordLength
    ensures LetterError in errs <==> !HasLetter(p)
    ensures NumberError in errs <==> !HasDigit(p)
    ensures forall i | 0 <= i < |errs| :: Rank(errs[i]) < 3
    ensures forall i, j | 0 <= i < j < |errs| :: Rank(errs[i]) < Rank(errs[j])
    ensures |errs| <= 3
    ensures errs == [] <==> Utf16Length(p) >= MinPasswordLength && HasLetter(p) && HasDigit(p)
  {
    (if Utf16Length(p) < MinPasswordLength then [LengthError] else [])
    + (if HasLetter(p) then [] else [LetterError])
    + (if HasDigit(p) then [] else [NumberError])
  }

  /** `validatePassword`: push one message per broken rule. */
  method ValidatePassword(p: string) returns (v: PasswordValidation)
    ensures v.errors == PasswordErrors(p)
    ensures v.valid <==> v.errors == []
  {
    var errors: seq<string> := [];
    if Utf16Length(p) < MinPasswordLength {
      errors := errors + [LengthError];
    }
    if !HasLetter(p) {
      errors := errors + [LetterError];
    }
    if !HasDigit(p) {
      errors := errors + [NumberError];
    }
    v := PasswordValidation(|errors| == 0, errors);
  }

  lemma PasswordTooShort()
    ensures PasswordErrors("short1") == [LengthError]
  {
    var p := "short1";
    assert Utf16Length(p) == 6 by {
      assert forall i | 0 <= i < |p| :: !IsAstral(p[i]);
      Utf16LengthCounts(p);
    }
    assert HasLetter(p) by { assert IsAsciiLetter(p[0]); }
    assert HasDigit(p) by { assert IsAsciiDigit(p[5]); }
  }

  lemma PasswordWithoutLetter()
    ensures PasswordErrors("12345678") == [LetterError]
  {
    var p := "12345678";
    assert !HasLetter(p) by {
      forall i | 0 <= i < |p| ensures !IsAsciiLetter(p[i]) {
        assert '0' <= p[i] <= '9';
      }
    }
    assert forall i | 0 <= i < |p| :: !IsAstral(p[i]);
    Utf16LengthCounts(p);
    assert IsAsciiDigit(p[0]);
  }

  lemma PasswordWithoutDigit()
    ensures PasswordErrors("abcdefgh") == [NumberError]
  {
    var p := "abcdefgh";
    assert !HasDigit(p) by {
      forall i | 0 <= i < |p| ensures !IsAsciiDigit(p[i]) {
        assert 'a' <= p[i] <= 'z';
      }
    }
    assert forall i | 0 <= i < |p| :: !IsAstral(p[i]);
    Utf16LengthCounts(p);
    assert IsAsciiLetter(p[0]);
  }

  lemma PasswordAccepted()
    ensures PasswordErrors("abcd1234") == []
  {
    var p := "abcd1234";
    assert HasLetter(p) by { assert IsAsciiLetter(p[0]); }
    assert HasDigit(p) by { assert IsAsciiDigit(p[4]); }
    assert Utf16Length(p) == 8 by {
      assert forall i | 0 <= i < |p| :: !IsAstral(p[i]);
      Utf16LengthCounts(p);
    }
  }

  /** `password.length` counts UTF-16 code units: two ASCII characters and
      three emoji make eight units, long enough. */
  lemma PasswordCountsSurrogates()
    ensures PasswordErrors("a1\U{1F600}\U{1F600}\U{1F600}") == []
  {
    var p := "a1\U{1F600}\U{1F600}\U{1F600}";
    var e := p[2..];
    assert forall i | 0 <= i < |e| :: IsAstral(e[i]);
    Utf16LengthCounts(e);
    assert p[1..][1..] == e;
    assert IsAsciiLetter(p[0]) && IsAsciiDigit(p[1]);
  }

  /** Characters of the Basic Multilingual Plane count once each, accented
      ones included: "a1éé" is four units, too short. */
  lemma PasswordCountsBmpOnce()
    ensures PasswordErrors("a1\U{E9}\U{E9}") == [LengthError]
  {
    var q := "a1\U{E9}\U{E9}";
    assert forall i | 0 <= i < |q| :: !IsAstral(q[i]);
    Utf16LengthCounts(q);
    assert IsAsciiLetter(q[0]) && IsAsciiDigit(q[1]);
  }

  /** `[^\s@]`: a character any of the three runs of the email pattern may hold. */
  predicate IsEmailChar(c: char) { !IsWhitespace(c) && c != '@' }

  predicate AllEmailChars(s: string) { forall i | 0 <= i < |s| :: IsEmailChar(s[i]) }

  /** `/^[^\s@]+@[^\s@]+\.[^\s@]+$/.test(email)`: the three non-empty runs are
      email[..at], email[at + 1..dot] and email[dot + 1..]. */
  predicate ValidateEmail(email: string) {
    exists at | 0 < at < |email| ::
      exists dot | at + 1 < dot < |email| - 1 ::
        && email[at] == '@'
        && email[dot] == '.'
        && AllEmailChars(email[..at])
        && AllEmailChars(email[at + 1..dot])
        && AllEmailChars(email[dot + 1..])
  }

  function Count(s: string, c: char): nat {
    if s == [] then 0 else (if s[0] == c then 1 else 0) + Count(s[1..], c)
  }

  /** The first position of `c` in `s`, or |s| when there is none. */
  function IndexOf(s: string, c: char): (i: nat)
    ensures i <= |s|
    ensures i < |s| ==> s[i] == c
    ensures forall k | 0 <= k < i :: s[k] != c
  {
    if s == [] then 0 else if s[0] == c then 0 else 1 + IndexOf(s[1..], c)
  }

  predicate NoWhitespace(s: string) { forall i | 0 <= i < |s| :: !IsWhitespace(s[i]) }

  /** `d` has a '.' with at least one character on each side. */
  predicate HasInnerDot(d: string) { exists j | 0 < j < |d| - 1 :: d[j] == '.' }

  /** What the pattern demands, rule by rule: exactly one '@', no
      whitespace, a non-empty part before the '@', and a domain holding a
      '.' that is neither its first nor its last character. */
  predicate EmailShape(email: string) {
    var at := IndexOf(email, '@');
    && Count(email, '@') == 1
    && NoWhitespace(email)
    && 0 < at < |email|
    && HasInnerDot(email[at + 1..])
  }

  lemma {:induction false} CountAppend(a: string, b: string, c: char)
    ensures Count(a + b, c) == Count(a, c) + Count(b, c)
  {
    if a == [] {
      assert a + b == b;
    } else {
      assert (a + b)[1..] == a[1..] + b;
      CountAppend(a[1..], b, c);
    }
  }

  lemma {:induction false} CountZero(s: string, c: char)
    ensures Count(s, c) == 0 <==> forall k | 0 <= k < |s| :: s[k] != c
  {
    if s != [] {
      CountZero(s[1..], c);
      assert forall k | 1 <= k < |s| :: s[k] == s[1..][k - 1];
    }
  }

  lemma CountAround(s: string, c: char, i: nat)
    requires i < |s|
    ensures Count(s, c) == Count(s[..i], c) + (if s[i] == c then 1 else 0) + Count(s[i + 1..], c)
  {
    assert s == s[..i] + [s[i]] + s[i + 1..];
    CountAppend(s[..i] + [s[i]], s[i + 1..], c);
    CountAppend(s[..i], [s[i]], c);
    assert [s[i]][1..] == [];
  }

  /** The pattern's domain part, runs and dot together, is free of '@' and whitespace. */
  lemma DomainChars(email: string, at: int, dot: int)
    requires 0 < at && at + 1 < dot < |email| - 1 && email[dot] == '.'
    requires AllEmailChars(email[at + 1..dot]) && AllEmailChars(email[dot + 1..])
    ensures AllEmailChars(email[at + 1..])
  {
    var mid, tail, post := email[at + 1..dot], email[dot + 1..], email[at + 1..];
    forall k | 0 <= k < |post| ensures IsEmailChar(post[k]) {
      if k < |mid| {
        assert post[k] == mid[k];
      } else if k > |mid| {
        assert post[k] == tail[k - |mid| - 1];
      } else {
        assert post[k] == email[dot];
      }
    }
  }

  /** Around a single '@', email characters on both sides leave no
      whitespace, exactly one '@', and that '@' first. */
  lemma SingleAt(email: string, at: int)
    requires 0 <= at < |email| && email[at] == '@'
    requires AllEmailChars(email[..at]) && AllEmailChars(email[at + 1..])
    ensures NoWhitespace(email) && Count(email, '@') == 1 && IndexOf(email, '@') == at
  {
    var pre, post := email[..at], email[at + 1..];
    CountAround(email, '@', at);
    CountZero(pre, '@');
    CountZero(post, '@');
    assert forall k | 0 <= k < at :: email[k] == pre[k];
    forall k | 0 <= k < |email| ensures !IsWhitespace(email[k]) {
      if k < at {
        assert email[k] == pre[k];
      } else if at < k {
        assert email[k] == post[k - at - 1];
      }
    }
  }

  lemma EmailPatternHasShape(email: string)
    requires ValidateEmail(email)
    ensures EmailShape(email)
  {
    var at, dot :| 0 < at < |email| && at + 1 < dot < |email| - 1
      && email[at] == '@' && email[dot] == '.'
      && AllEmailChars(email[..at]) && AllEmailChars(email[at + 1..dot])
      && AllEmailChars(email[dot + 1..]);
    DomainChars(email, at, dot);
    SingleAt(email, at);
    var post := email[at + 1..];
    assert post[dot - at - 1] == '.';
  }

  lemma SliceChars(s: string, lo: int, hi: int)
    requires AllEmailChars(s) && 0 <= lo <= hi <= |s|
    ensures AllEmailChars(s[lo..hi])
  {
    assert forall k | 0 <= k < hi - lo :: s[lo..hi][k] == s[lo + k];
  }

  lemma EmailShapeMatchesPattern(email: string)
    requires EmailShape(email)
    ensures ValidateEmail(email)
  {
    var at := IndexOf(email, '@');
    var pre, post := email[..at], email[at + 1..];
    CountAround(email, '@', at);
    CountZero(pre, '@');
    CountZero(post, '@');
    assert AllEmailChars(post);
    var j :| 0 < j < |post| - 1 && post[j] == '.';
    var dot := at + 1 + j;
    SliceChars(post, 0, j);
    SliceChars(post, j + 1, |post|);
    assert email[at + 1..dot] == post[0..j];
    assert email[dot + 1..] == post[j + 1..|post|];
    assert email[dot] == '.';
  }

  /** The email pattern accepts exactly the addresses of the shape above. */
  lemma EmailCharacterization(email: string)
    ensures ValidateEmail(email) <==> EmailShape(email)
  {
    if ValidateEmail(email) {
      EmailPatternHasShape(email);
    }
    if EmailShape(email) {
      EmailShapeMatchesPattern(email);
    }
  }

  lemma EmailExamples()
    ensures ValidateEmail("a@b.co")
    ensures !ValidateEmail("a@b")
    ensures !ValidateEmail("a.com")
    ensures !ValidateEmail("@b.com")
  {
    var e := "a@b.co";
    assert e[..1] == "a" && e[2..3] == "b" && e[4..] == "co";
    assert e[1] == '@' && e[3] == '.';
    assert AllEmailChars(e[..1]) && AllEmailChars(e[2..3]) && AllEmailChars(e[4..]);
    assert exists dot | 2 < dot < |e| - 1 ::
      (e[1] == '@' && e[dot] == '.'
       && AllEmailChars(e[..1]) && AllEmailChars(e[2..dot]) && AllEmailChars(e[dot + 1..]));
  }
}
