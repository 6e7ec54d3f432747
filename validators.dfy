/**
 * `Validators`: the credential rules shared by self-registration and the
 * admin user pages. The password policy is written the way the source
 * evaluates it: `String.length()` counts UTF-16 code units, and each
 * `password.matches(".*[X].*")` accepts only a string that holds a character
 * of class X and no line terminator anywhere (Java's `.` stops at them).
 */
module Validators {
  import opened Domain
  import opened Repository

  /** The four character classes the policy demands, each ASCII-only. */
  datatype CharClass = Upper | Lower | Digit | Symbol

  /** The members of the bracket expression `[!@#$%^&*()_+\-=\[\]{};':"\\|,.<>/?]`. */
  const Symbols: set<char> := {'!', '@', '#', '$', '%', '^', '&', '*', '(', ')', '_', '+', '-', '=', '[', ']', '{', '}', ';', '\'', ':', '"', '\\', '|', ',', '.', '<', '>', '/', '?'}

  predicate InClass(c: char, k: CharClass)
  {
    match k
    case Upper => 'A' <= c <= 'Z'
    case Lower => 'a' <= c <= 'z'
    case Digit => '0' <= c <= '9'
    case Symbol => c in Symbols
  }

  /** The characters Java's `.` does not match outside DOTALL mode. */
  predicate IsLineTerminator(c: char)
  {
    c == '\n' || c == '\r' || c == '\U{85}' || c == '\U{2028}' || c == '\U{2029}'
  }

  lemma ClassCharIsNotLineTerminator(c: char, k: CharClass)
    requires InClass(c, k)
    ensures !IsLineTerminator(c)
  {
  }

  ghost predicate NoLineTerminator(s: string)
  {
    forall j :: 0 <= j < |s| ==> !IsLineTerminator(s[j])
  }

  /** `s` is in the language of the regex `.*[k].*`: a `k` character with `.`-matchable text on both sides. */
  ghost predicate InRegexLanguage(s: string, k: CharClass)
  {
    exists i :: 0 <= i < |s| && InClass(s[i], k) && NoLineTerminator(s[..i]) && NoLineTerminator(s[i + 1..])
  }

  function FreeOfLineTerminators(s: string): (b: bool)
    ensures b <==> NoLineTerminator(s)
  {
    if s == [] then true else !IsLineTerminator(s[0]) && FreeOfLineTerminators(s[1..])
  }

  /** `password` holds at least one character of class `k`. */
  ghost predicate HasClass(password: string, k: CharClass)
  {
    exists i :: 0 <= i < |password| && InClass(password[i], k)
  }

  function ContainsClass(s: string, k: CharClass): (b: bool)
    ensures b <==> HasClass(s, k)
  {
    if s == [] then false
    else if InClass(s[0], k) then true
    else
      var b := ContainsClass(s[1..], k);
      assert forall i :: 1 <= i < |s| ==> s[i] == s[1..][i - 1];
      b
  }

  /** `s.matches(".*[k].*")`. */
  function Matches(s: string, k: CharClass): (b: bool)
    ensures b <==> InRegexLanguage(s, k)
  {
    var b := FreeOfLineTerminators(s) && ContainsClass(s, k);
    assert b ==> InRegexLanguage(s, k) by {
      if b {
        var i :| 0 <= i < |s| && InClass(s[i], k);
        assert forall j :: 0 <= j < i ==> s[..i][j] == s[j];
        var after := s[i + 1..];
        assert forall j :: 0 <= j < |after| ==> after[j] == s[i + 1 + j];
      }
    }
    assert InRegexLanguage(s, k) ==> b by {
      if InRegexLanguage(s, k) {
        var i :| 0 <= i < |s| && InClass(s[i], k) && NoLineTerminator(s[..i]) && NoLineTerminator(s[i + 1..]);
        ClassCharIsNotLineTerminator(s[i], k);
        forall j | 0 <= j < |s| ensures !IsLineTerminator(s[j]) {
          if j < i {
            assert s[j] == s[..i][j];
          } else if j > i {
            assert s[j] == s[i + 1..][j - i - 1];
          }
        }
      }
    }
    b
  }

  /** `String.length()`: UTF-16 code units, so a character outside the BMP counts twice. */
  function Utf16Length(s: string): (n: nat)
    ensures |s| <= n <= 2 * |s|
    ensures (forall i :: 0 <= i < |s| ==> s[i] as int <= 0xFFFF) ==> n == |s|
  {
    if s == [] then 0
    else
      assert forall i :: 1 <= i < |s| ==> s[i] == s[1..][i - 1];
      (if s[0] as int > 0xFFFF then 2 else 1) + Utf16Length(s[1..])
  }

  /** `isPasswordInvalid`: too short, or one of the four classes cannot be matched. */
  function IsPasswordInvalid(password: string): (b: bool)
    ensures b <==> Utf16Length(password) < 8 || exists k :: !InRegexLanguage(password, k)
  {
    || Utf16Length(password) < 8
    || !Matches(password, Upper)
    || !Matches(password, Lower)
    || !Matches(password, Digit)
    || !Matches(password, Symbol)
  }

  /**
   * The policy in plain terms: a password passes exactly when it is at least
   * eight UTF-16 units long, holds no line terminator and holds a character of
   * every class.
   */
  lemma PasswordValidIff(password: string)
    ensures !IsPasswordInvalid(password) <==>
      && Utf16Length(password) >= 8
      && NoLineTerminator(password)
      && forall k :: HasClass(password, k)
  {
    if !IsPasswordInvalid(password) {
      forall k ensures HasClass(password, k) {
        assert Matches(password, k);
      }
    }
    if Utf16Length(password) >= 8 && NoLineTerminator(password) && forall k :: HasClass(password, k) {
      assert HasClass(password, Upper) && HasClass(password, Lower) && HasClass(password, Digit) && HasClass(password, Symbol);
    }
  }

  /** Length alone rejects: below eight UTF-16 units nothing else matters. */
  lemma ShortPasswordIsInvalid(password: string)
    requires Utf16Length(password) < 8
    ensures IsPasswordInvalid(password)
  {
  }

  /** Lacking any one class rejects, whatever else the password holds. */
  lemma MissingClassIsInvalid(password: string, k: CharClass)
    requires !HasClass(password, k)
    ensures IsPasswordInvalid(password)
  {
    PasswordValidIff(password);
  }

  /** A line terminator anywhere rejects, because no `.*[X].*` can match across it. */
  lemma LineTerminatorIsInvalid(password: string, i: int)
    requires 0 <= i < |password| && IsLineTerminator(password[i])
    ensures IsPasswordInvalid(password)
  {
    PasswordValidIff(password);
  }

  /** `password` with every character of class `k` removed. */
  function Without(password: string, k: CharClass): (r: string)
    ensures |r| <= |password|
    ensures !HasClass(r, k)
    ensures forall i :: 0 <= i < |r| ==> r[i] in password
    ensures forall i :: 0 <= i < |password| && !InClass(password[i], k) ==> password[i] in r
  {
    if password == [] then []
    else
      var rest := Without(password[1..], k);
      assert forall c :: c in password[1..] ==> c in password;
      if InClass(password[0], k) then rest else [password[0]] + rest
  }

  /**
   * Taking out one class from any password, even an accepted one, makes it
   * rejected, although every character of the other classes is kept.
   */
  lemma WithoutClassIsInvalid(password: string, k: CharClass)
    ensures IsPasswordInvalid(Without(password, k))
  {
    MissingClassIsInvalid(Without(password, k), k);
  }

  /** `Character.isWhitespace`: Unicode space separators other than the no-break ones, and the ASCII controls 9-13 and 28-31. */
  predicate IsJavaWhitespace(c: char)
  {
    || ('\t' <= c <= '\r')
    || ('\U{1C}' <= c <= '\U{1F}')
    || c == ' '
    || c == '\U{1680}'
    || ('\U{2000}' <= c <= '\U{2006}')
    || ('\U{2008}' <= c <= '\U{200A}')
    || c == '\U{2028}' || c == '\U{2029}'
    || c == '\U{205F}'
    || c == '\U{3000}'
  }

  /** `String.isBlank()`: empty or only white space. */
  function IsBlank(s: string): (b: bool)
    ensures b <==> forall i :: 0 <= i < |s| ==> IsJavaWhitespace(s[i])
  {
    if s == [] then true
    else
      assert forall i :: 1 <= i < |s| ==> s[i] == s[1..][i - 1];
      IsJavaWhitespace(s[0]) && IsBlank(s[1..])
  }

  /** A blank password is always rejected by the policy too: white space belongs to no class. */
  lemma BlankPasswordIsInvalid(password: string)
    requires IsBlank(password)
    ensures IsPasswordInvalid(password)
  {
    forall i | 0 <= i < |password|
      ensures !InClass(password[i], Upper)
    {
      assert IsJavaWhitespace(password[i]);
    }
    MissingClassIsInvalid(password, Upper);
  }

  // Facts about a password stated over its characters rather than its positions;
  // Dafny can decide them for a string literal.

  /** Printable ASCII text: one UTF-16 unit per character and no line terminator. */
  lemma PrintableAsciiText(s: string)
    requires forall c | c in s :: ' ' <= c <= '~'
    ensures Utf16Length(s) == |s| && NoLineTerminator(s)
  {
    assert forall i :: 0 <= i < |s| ==> s[i] in s;
  }

  lemma ClassAbsent(s: string, k: CharClass)
    requires forall c | c in s :: !InClass(c, k)
    ensures !HasClass(s, k)
  {
    assert forall i :: 0 <= i < |s| ==> s[i] in s;
  }

  // The rejected examples of the validator tests: too short, then each lacking one class.

  lemma TooShortExample()
    ensures IsPasswordInvalid("Ab1!")
  {
    PrintableAsciiText("Ab1!");
  }

  lemma NoUppercaseExample()
    ensures IsPasswordInvalid("password1!")
  {
    ClassAbsent("password1!", Upper);
    MissingClassIsInvalid("password1!", Upper);
  }

  lemma NoLowercaseExample()
    ensures IsPasswordInvalid("PASSWORD1!")
  {
    ClassAbsent("PASSWORD1!", Lower);
    MissingClassIsInvalid("PASSWORD1!", Lower);
  }

  lemma NoDigitExample()
    ensures IsPasswordInvalid("Password!")
  {
    ClassAbsent("Password!", Digit);
    MissingClassIsInvalid("Password!", Digit);
  }

  lemma NoSymbolExample()
    ensures IsPasswordInvalid("Password1")
  {
    ClassAbsent("Password1", Symbol);
    MissingClassIsInvalid("Password1", Symbol);
  }

  lemma ClassesPresent(p: string, u: nat, l: nat, d: nat, s: nat)
    requires u < |p| && l < |p| && d < |p| && s < |p|
    requires InClass(p[u], Upper) && InClass(p[l], Lower) && InClass(p[d], Digit) && InClass(p[s], Symbol)
    ensures forall k :: HasClass(p, k)
  {
    forall k ensures HasClass(p, k) {
      match k
      case Upper => assert InClass(p[u], k);
      case Lower => assert InClass(p[l], k);
      case Digit => assert InClass(p[d], k);
      case Symbol => assert InClass(p[s], k);
    }
  }

  lemma AcceptedExampleShape()
    ensures Utf16Length("Valid08!") >= 8 && NoLineTerminator("Valid08!") && forall k :: HasClass("Valid08!", k)
  {
    PrintableAsciiText("Valid08!");
    ClassesPresent("Valid08!", 0, 1, 5, 7);
  }

  /** The accepted example of the validator tests: the four classes together with eight units suffice. */
  lemma AcceptedExample()
    ensures !IsPasswordInvalid("Valid08!")
  {
    AcceptedExampleShape();
    PasswordValidIff("Valid08!");
  }

  /** `passwordMatches`: exact string equality. */
  function PasswordMatches(password: string, confirmPassword: string): (b: bool)
    ensures b <==> |password| == |confirmPassword| && forall i :: 0 <= i < |password| ==> password[i] == confirmPassword[i]
  {
    password == confirmPassword
  }

  lemma PasswordMatchesIsEquivalence(a: string, b: string, c: string)
    ensures PasswordMatches(a, a)
    ensures PasswordMatches(a, b) <==> PasswordMatches(b, a)
    ensures PasswordMatches(a, b) && PasswordMatches(b, c) ==> PasswordMatches(a, c)
    ensures PasswordMatches(a, b) <==> a == b
  {
  }

  /** `usernameExists`: a read-only lookup that is true exactly when some row carries `username`. */
  function UsernameExists(repo: UserRepository, username: string): (b: bool)
    reads repo
    requires repo.Valid() && UniqueUsernames(repo.users)
    ensures b <==> HasUsername(repo.users, username)
  {
    repo.FindByUsername(username).Some?
  }
}
