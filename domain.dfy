/**
 * The values the account-lifecycle code passes around: the stored `User`
 * entity, the form objects the controllers bind (`UserDto`, `RegisterDto`),
 * the field errors a `BindingResult` collects, and the HTTP failures the
 * services raise as `ResponseStatusException`.
 */
module Domain {

  datatype Option<+T> = None | Some(value: T)

  datatype Result<+T, +E> = Success(value: T) | Failure(error: E)

  /** How a service call ends: it returns normally, or it raises `error`. */
  datatype Outcome<+E> = Pass | Fail(error: E)

  /** The `users` table row. `id` is generated by the store on first save. */
  datatype User = User(id: int, username: string, password: string, fullname: string, role: string)

  /**
   * The admin form object and the view model of the user pages. `password` is
   * `None` where the source leaves the Java field `null` (the list view).
   */
  datatype UserDto = UserDto(id: int, fullname: string, username: string, password: Option<string>, role: string)

  /** The self-registration form. */
  datatype RegisterDto = RegisterDto(fullname: string, username: string, password: string, confirmPassword: string)

  /** One `rejectValue(field, code, message)` entry of a binding result. */
  datatype FieldError = FieldError(field: string, code: string, message: string)

  datatype HttpStatus = Forbidden | NotFound | InternalServerError
  {
    function Code(): (c: int)
      ensures 400 <= c < 600
    {
      match this
      case Forbidden => 403
      case NotFound => 404
      case InternalServerError => 500
    }
  }

  /** What the services throw: a `ResponseStatusException` or Spring Security's `UsernameNotFoundException`. */
  datatype ServiceError = ResponseStatus(status: HttpStatus, reason: string) | UsernameNotFound(message: string)

  /** The authenticated principal of the current request. */
  datatype Principal = UserPrincipal(user: User) | OtherPrincipal

  // Field errors, exactly as the services reject them.
  const UsernameUsed := FieldError("username", "error.username", "This username is already used")
  const PasswordPolicy := FieldError("password", "error.password", "MDP : 8 char minimum : 1 MAJ, 1 min, 1 chiffre, 1 symbole")
  const PasswordMandatory := FieldError("password", "error.password", "Password is mandatory")
  const PasswordMismatch := FieldError("password", "error.password", "Passwords do not match")
  const ConfirmPasswordMismatch := FieldError("confirmPassword", "error.confirmPassword", "Passwords do not match")

  const RoleUser := "ROLE_USER"

  /** The five field errors are pairwise different, so each can be told apart in a binding result. */
  lemma FieldErrorsDistinct()
    ensures UsernameUsed != PasswordPolicy && UsernameUsed != PasswordMandatory
    ensures UsernameUsed != PasswordMismatch && UsernameUsed != ConfirmPasswordMismatch
    ensures PasswordPolicy != PasswordMandatory && PasswordPolicy != PasswordMismatch && PasswordPolicy != ConfirmPasswordMismatch
    ensures PasswordMandatory != PasswordMismatch && PasswordMandatory != ConfirmPasswordMismatch
    ensures PasswordMismatch != ConfirmPasswordMismatch
  {
    assert UsernameUsed.field[0] == 'u' && ConfirmPasswordMismatch.field[0] == 'c';
    assert PasswordPolicy.field[0] == 'p' && PasswordMandatory.field[0] == 'p' && PasswordMismatch.field[0] == 'p';
    assert |PasswordPolicy.message| == 57 && |PasswordMandatory.message| == 21 && |PasswordMismatch.message| == 22;
  }

  function DigitChar(d: nat): (c: char)
    requires d < 10
    ensures '0' <= c <= '9' && c as int - '0' as int == d
  {
    ('0' as int + d) as char
  }

  /** The decimal digits of `n`, most significant first, without leading zeros. */
  function NatDigits(n: nat): (s: string)
    ensures 1 <= |s|
    ensures forall i :: 0 <= i < |s| ==> '0' <= s[i] <= '9'
    ensures s[0] == '0' <==> n == 0
    decreases n
  {
    if n < 10 then [DigitChar(n)] else NatDigits(n / 10) + [DigitChar(n % 10)]
  }

  /** The value of a string of decimal digits. */
  function DigitsValue(s: string): nat
    requires forall i :: 0 <= i < |s| ==> '0' <= s[i] <= '9'
  {
    if s == [] then 0 else 10 * DigitsValue(s[..|s| - 1]) + (s[|s| - 1] as int - '0' as int)
  }

  lemma {:induction false} NatDigitsValue(n: nat)
    ensures DigitsValue(NatDigits(n)) == n
    decreases n
  {
    if n >= 10 {
      var s := NatDigits(n);
      assert s[..|s| - 1] == NatDigits(n / 10);
      NatDigitsValue(n / 10);
    }
  }

  /** `String.format("%d", n)`: an optional minus sign, then the digits of |n|. */
  function FormatInt(n: int): (s: string)
    ensures 1 <= |s|
    ensures (s[0] == '-') <==> n < 0
    ensures forall i :: 0 <= i < |s| && !(i == 0 && n < 0) ==> '0' <= s[i] <= '9'
    ensures var d := if n < 0 then s[1..] else s; 1 <= |d| && (d[0] == '0' <==> n == 0)
  {
    if n < 0 then "-" + NatDigits(-n) else NatDigits(n)
  }

  /** Reads back what `FormatInt` writes. */
  function ParseInt(s: string): int
    requires IsIntText(s)
  {
    if s[0] == '-' then 0 - DigitsValue(s[1..]) as int else DigitsValue(s)
  }

  /** The characters `FormatInt` writes are the ones `ParseInt` reads. */
  ghost predicate IsIntText(s: string)
  {
    && 1 <= |s|
    && (s[0] == '-' || '0' <= s[0] <= '9')
    && forall i :: 0 < i < |s| ==> '0' <= s[i] <= '9'
  }

  /**
   * The one way `%d` writes a number: no leading zero, and no sign on zero, so
   * "-05", "007" and "-0" are excluded.
   */
  ghost predicate IsCanonicalIntText(s: string)
  {
    && IsIntText(s)
    && var d := if s[0] == '-' then s[1..] else s;
    && 1 <= |d|
    && (d[0] == '0' ==> s == "0")
  }

  lemma FormatIntRoundTrip(n: int)
    ensures IsCanonicalIntText(FormatInt(n)) && ParseInt(FormatInt(n)) == n
  {
    var s := FormatInt(n);
    if n < 0 {
      var d := NatDigits(-n);
      assert s == "-" + d;
      assert s[1..] == d;
      forall i | 0 < i < |s| ensures '0' <= s[i] <= '9' {
        assert s[i] == d[i - 1];
      }
      NatDigitsValue(-n);
    } else {
      NatDigitsValue(n);
    }
  }

  /** A digit string's value is at least its leading digit. */
  lemma {:induction false} LeadingDigitBound(s: string)
    requires 1 <= |s| && forall i :: 0 <= i < |s| ==> '0' <= s[i] <= '9'
    ensures DigitsValue(s) >= s[0] as int - '0' as int
    decreases |s|
  {
    if |s| > 1 {
      var prefix := s[..|s| - 1];
      assert prefix[0] == s[0];
      LeadingDigitBound(prefix);
    }
  }

  /** A digit string without a leading zero (or "0" itself) is what `NatDigits` writes for its value. */
  lemma {:induction false} NatDigitsOfValue(d: string)
    requires 1 <= |d| && forall i :: 0 <= i < |d| ==> '0' <= d[i] <= '9'
    requires d[0] == '0' ==> |d| == 1
    ensures NatDigits(DigitsValue(d)) == d
    decreases |d|
  {
    if |d| > 1 {
      var prefix := d[..|d| - 1];
      assert prefix[0] == d[0];
      LeadingDigitBound(prefix);
      NatDigitsOfValue(prefix);
      var v := DigitsValue(prefix);
      var last := d[|d| - 1] as int - '0' as int;
      assert DigitsValue(d) == 10 * v + last;
      assert (10 * v + last) / 10 == v && (10 * v + last) % 10 == last;
      assert d == prefix + [d[|d| - 1]];
    }
  }

  /** `%d` is the only canonical text of a number: any canonical text is what `FormatInt` writes for its value. */
  lemma CanonicalIntTextIsFormatInt(s: string)
    requires IsCanonicalIntText(s)
    ensures FormatInt(ParseInt(s)) == s
  {
    if s[0] == '-' {
      var d := s[1..];
      assert forall i :: 0 <= i < |d| ==> d[i] == s[i + 1];
      NatDigitsOfValue(d);
      LeadingDigitBound(d);
      assert s == "-" + d;
    } else {
      NatDigitsOfValue(s);
    }
  }

  const NotFoundHead := "Le user avec l'id "
  const NotFoundTail := " n'existe pas"

  /** The NOT_FOUND reason `getUser` gives for a missing id. */
  function UserNotFoundReason(id: int): string
  {
    NotFoundHead + FormatInt(id) + NotFoundTail
  }

  /** The failure `getUser` raises for a missing id: status 404, and the id can be read back from the reason. */
  function UserNotFound(id: int): (r: ServiceError)
    ensures r.ResponseStatus? && r.status == NotFound && r.status.Code() == 404
    ensures |NotFoundHead| + |NotFoundTail| < |r.reason|
    ensures r.reason[..|NotFoundHead|] == NotFoundHead && r.reason[|r.reason| - |NotFoundTail|..] == NotFoundTail
    ensures var digits := r.reason[|NotFoundHead|..|r.reason| - |NotFoundTail|];
      IsCanonicalIntText(digits) && ParseInt(digits) == id
  {
    var reason := UserNotFoundReason(id);
    FormatIntRoundTrip(id);
    assert reason[|NotFoundHead|..|reason| - |NotFoundTail|] == FormatInt(id);
    assert reason[..|NotFoundHead|] == NotFoundHead;
    assert reason[|reason| - |NotFoundTail|..] == NotFoundTail;
    ResponseStatus(NotFound, reason)
  }

  /** Distinct ids never share a NOT_FOUND reason: the id can be read back from the message. */
  lemma UserNotFoundNamesTheId(a: int, b: int)
    ensures UserNotFound(a) == UserNotFound(b) <==> a == b
  {
    var ra, rb := UserNotFound(a).reason, UserNotFound(b).reason;
    if ra == rb {
      assert ra[|NotFoundHead|..|ra| - |NotFoundTail|] == rb[|NotFoundHead|..|rb| - |NotFoundTail|];
    }
  }

}
