/** The password policy of `PasswordEncoder.isPasswordValid`, and the Argon2
    hasher reduced to the two function types the controllers use. */
module PasswordEncoder {
  import opened Common
  import opened JavaString

  /** `encode(raw)`: an Argon2id hash, abstract here. */
  type Encoder = string -> string

  /** `matches(raw, encoded)`: Argon2 verification, abstract here. */
  type Matcher = (string, string) -> bool

  const MIN_LENGTH: int := 8
  const MAX_LENGTH: int := 128

  /** The alternatives of `(?i)^(password|123456|admin|qwerty).*`. */
  const WEAK_PREFIXES: seq<string> := ["password", "123456", "admin", "qwerty"]

  /** The members of the character class `[!@#$%^&*()_+\-=\[\]{};':"\\|,.<>\/?]`. */
  const SPECIAL_CHARACTERS: string := "!@#$%^&*()_+-=[]{};':\"\\|,.<>/?"

  /** The four character classes a password must draw from. */
  datatype CharClass = Digit | Lower | Upper | Special

  predicate InClass(k: CharClass, c: char) {
    match k
    case Digit => '0' <= c <= '9'
    case Lower => 'a' <= c <= 'z'
    case Upper => 'A' <= c <= 'Z'
    case Special => c in SPECIAL_CHARACTERS
  }

  // ---------------------------------------------------------------------------
  // The regular expressions, read the way `String.matches` reads them: the
  // whole string must match, and `.` does not match a line terminator.

  /** Every character of `s` is matched by `.`. */
  predicate AllDots(s: string) {
    forall k | 0 <= k < |s| :: !IsLineTerminator(s[k])
  }

  /** `s.matches(".*[k].*")`: some position holds a `k` character and both
      sides of it are runs of `.`. */
  predicate MatchesClassSomewhere(s: string, k: CharClass) {
    exists i | 0 <= i < |s| :: AllDots(s[..i]) && InClass(k, s[i]) && AllDots(s[i + 1..])
  }

  /** `s` begins with `w` when ASCII letters are compared without case. */
  predicate PrefixIgnoringAsciiCase(s: string, w: string) {
    |w| <= |s| && forall k | 0 <= k < |w| :: AsciiLower(s[k]) == w[k]
  }

  /** `s.matches("(?i)^(password|123456|admin|qwerty).*")`. */
  predicate MatchesWeakPattern(s: string) {
    exists w | w in WEAK_PREFIXES :: PrefixIgnoringAsciiCase(s, w) && AllDots(s[|w|..])
  }

  /** `isPasswordValid`, check by check in the order of the source. */
  function IsPasswordValid(password: Option<string>): (valid: bool)
    ensures valid <==> password.Some? && Acceptable(password.value)
  {
    if password.None? || Utf16Length(password.value) < MIN_LENGTH then false
    else if Utf16Length(password.value) > MAX_LENGTH then false
    else if MatchesWeakPattern(password.value) then false
    else
      var p := password.value;
      MatchesIff(p);
      MatchesClassSomewhere(p, Digit) && MatchesClassSomewhere(p, Lower)
      && MatchesClassSomewhere(p, Upper) && MatchesClassSomewhere(p, Special)
  }

  // ---------------------------------------------------------------------------
  // The policy stated without regular expressions.

  predicate Contains(s: string, k: CharClass) {
    exists i | 0 <= i < |s| :: InClass(k, s[i])
  }

  predicate HasWeakPrefix(s: string) {
    exists w | w in WEAK_PREFIXES :: PrefixIgnoringAsciiCase(s, w)
  }

  /** An acceptable password: 8 to 128 UTF-16 units, no weak prefix in any
      letter case, no line terminator, and at least one digit, one ASCII
      lower-case letter, one ASCII upper-case letter and one special
      character. */
  predicate Acceptable(p: string) {
    && MIN_LENGTH <= Utf16Length(p) <= MAX_LENGTH
    && !HasWeakPrefix(p)
    && AllDots(p)
    && Contains(p, Digit) && Contains(p, Lower) && Contains(p, Upper) && Contains(p, Special)
  }

  lemma ClassCharIsNoLineTerminator(k: CharClass, c: char)
    requires InClass(k, c)
    ensures !IsLineTerminator(c)
  {
  }

  /** `.*[k].*` matches exactly the line-terminator-free strings holding a
      `k` character. */
  lemma {:induction false} MatchesClassSomewhereIff(s: string, k: CharClass)
    ensures MatchesClassSomewhere(s, k) <==> AllDots(s) && Contains(s, k)
  {
    if MatchesClassSomewhere(s, k) {
      var i :| 0 <= i < |s| && AllDots(s[..i]) && InClass(k, s[i]) && AllDots(s[i + 1..]);
      ClassCharIsNoLineTerminator(k, s[i]);
      forall j | 0 <= j < |s|
        ensures !IsLineTerminator(s[j])
      {
        if j < i {
          assert s[j] == s[..i][j];
        } else if j > i {
          assert s[j] == s[i + 1..][j - i - 1];
        }
      }
    }
    if AllDots(s) && Contains(s, k) {
      var i :| 0 <= i < |s| && InClass(k, s[i]);
      assert AllDots(s[..i]) && AllDots(s[i + 1..]);
    }
  }

  /** The weak-prefix pattern, on a line-terminator-free string, is the plain
      prefix test. */
  lemma WeakPatternIff(s: string)
    requires AllDots(s)
    ensures MatchesWeakPattern(s) <==> HasWeakPrefix(s)
  {
    if HasWeakPrefix(s) {
      var w :| w in WEAK_PREFIXES && PrefixIgnoringAsciiCase(s, w);
      assert AllDots(s[|w|..]);
    }
  }

  lemma MatchesIff(p: string)
    ensures MatchesClassSomewhere(p, Digit) <==> AllDots(p) && Contains(p, Digit)
    ensures MatchesClassSomewhere(p, Lower) <==> AllDots(p) && Contains(p, Lower)
    ensures MatchesClassSomewhere(p, Upper) <==> AllDots(p) && Contains(p, Upper)
    ensures MatchesClassSomewhere(p, Special) <==> AllDots(p) && Contains(p, Special)
    ensures AllDots(p) ==> (MatchesWeakPattern(p) <==> HasWeakPrefix(p))
  {
    MatchesClassSomewhereIff(p, Digit);
    MatchesClassSomewhereIff(p, Lower);
    MatchesClassSomewhereIff(p, Upper);
    MatchesClassSomewhereIff(p, Special);
    if AllDots(p) {
      WeakPatternIff(p);
    }
  }

  // ---------------------------------------------------------------------------
  // Consequences.

  /** Any accepted password has between 8 and 128 UTF-16 units; null is
      never accepted. */
  lemma AcceptedLengthBounds(password: Option<string>)
    ensures IsPasswordValid(password) ==> MIN_LENGTH <= Utf16Length(password.value) <= MAX_LENGTH
    ensures password.None? ==> !IsPasswordValid(password)
  {
  }

  /** A line terminator anywhere rejects the password: the weak-prefix test
      then fails to match, but so does every composition test. */
  lemma LineTerminatorRejected(p: string, i: int)
    requires 0 <= i < |p| && IsLineTerminator(p[i])
    ensures !IsPasswordValid(Some(p))
  {
  }

  /** Printable ASCII: no line terminator, one UTF-16 unit per character. */
  predicate PrintableAscii(s: string) {
    forall k | 0 <= k < |s| :: ' ' <= s[k] <= '~'
  }

  lemma PrintableAsciiFacts(s: string)
    requires PrintableAscii(s)
    ensures Utf16Length(s) == |s|
    ensures AllDots(s)
  {
  }

  /** A printable password of acceptable length with the four classes at the
      given positions and no weak prefix is accepted. */
  lemma AcceptedWhen(p: string, d: nat, l: nat, u: nat, x: nat)
    requires PrintableAscii(p) && MIN_LENGTH <= |p| <= MAX_LENGTH
    requires d < |p| && InClass(Digit, p[d])
    requires l < |p| && InClass(Lower, p[l])
    requires u < |p| && InClass(Upper, p[u])
    requires x < |p| && InClass(Special, p[x])
    requires !HasWeakPrefix(p)
    ensures IsPasswordValid(Some(p))
  {
    PrintableAsciiFacts(p);
  }

  /** A printable password of the wrong length is rejected, whatever it holds. */
  lemma RejectedLength(p: string)
    requires PrintableAscii(p) && (|p| < MIN_LENGTH || MAX_LENGTH < |p|)
    ensures !IsPasswordValid(Some(p))
  {
    PrintableAsciiFacts(p);
  }

  lemma SevenIsPrintable()
    ensures PrintableAscii("Abcde1!")
  {
  }

  lemma PaddedIsPrintable(head: string, n: nat)
    requires PrintableAscii(head)
    ensures PrintableAscii(head + seq(n, _ => 'x'))
  {
  }

  /** The shortest length is accepted and one less is not. */
  lemma ShortestLengthBoundary()
    ensures IsPasswordValid(Some("Abcdef1!"))
    ensures !IsPasswordValid(Some("Abcde1!"))
  {
    var p := "Abcdef1!";
    assert PrintableAscii(p);
    NotWeak(p);
    AcceptedWhen(p, 6, 1, 0, 7);
    SevenIsPrintable();
    RejectedLength("Abcde1!");
  }

  /** The longest length is accepted and one more is not. */
  lemma LongestLengthBoundary()
    ensures IsPasswordValid(Some("Abcdef1!" + seq(120, _ => 'x')))
    ensures !IsPasswordValid(Some("Abcdef1!" + seq(121, _ => 'x')))
  {
    var head := "Abcdef1!";
    assert PrintableAscii(head);
    var p := head + seq(120, _ => 'x');
    PaddedIsPrintable(head, 120);
    NotWeak(p);
    AcceptedWhen(p, 6, 1, 0, 7);
    var q := head + seq(121, _ => 'x');
    PaddedIsPrintable(head, 121);
    RejectedLength(q);
  }

  /** A weak word at the start rejects the password in any letter case. */
  lemma WeakPrefixRejected()
    ensures !IsPasswordValid(Some("PassWord1!"))
  {
    assert PrefixIgnoringAsciiCase("PassWord1!", WEAK_PREFIXES[0]);
  }

  /** The weak words are looked for at the start only: one further in does
      not reject the password. */
  lemma WeakWordInsideAccepted()
    ensures IsPasswordValid(Some("MyPassword1!"))
  {
    var p := "MyPassword1!";
    assert PrintableAscii(p);
    NotWeak(p);
    AcceptedWhen(p, 10, 1, 0, 11);
  }

  /** A string whose first letter differs from every weak prefix's first
      letter has no weak prefix. */
  lemma NotWeak(s: string)
    requires |s| > 0 && AsciiLower(s[0]) !in {'p', '1', 'q'}
    requires AsciiLower(s[0]) == 'a' ==> |s| > 1 && AsciiLower(s[1]) != 'd'
    ensures !HasWeakPrefix(s)
  {
    forall w | w in WEAK_PREFIXES
      ensures !PrefixIgnoringAsciiCase(s, w)
    {
      if w == "admin" {
        if AsciiLower(s[0]) == 'a' {
          assert AsciiLower(s[1]) != w[1];
        } else {
          assert AsciiLower(s[0]) != w[0];
        }
      } else {
        assert AsciiLower(s[0]) != w[0];
      }
    }
  }
}
