/**
 * `AccessService.register`: self-registration. Three checks always run and
 * append their errors to the binding result in order; the account is saved,
 * with role `ROLE_USER` and the encoded password, only when the binding result
 * holds no error at all afterwards (errors bound before the call included).
 */
module AccessServices {
  import opened Domain
  import opened Repository
  import opened Binding
  import opened Validators

  // The 500 reason of a failed registration, around the letter after "cr".
  const SaveFailureHead := "Une erreur est survenue lors de la cr"
  const SaveFailureTail := "ation de l'utilisateur"

  /**
   * The reason as the source file spells it: the two characters U+221A U+00A9
   * stand where the word "création" has its accented letter.
   */
  const RegisterSaveFailureAsWritten := ResponseStatus(InternalServerError, SaveFailureHead + "\U{221a}\U{a9}" + SaveFailureTail)

  /** The reason the registration tests expect, with U+00E9; the rest of the model raises this one. */
  const RegisterSaveFailure := ResponseStatus(InternalServerError, SaveFailureHead + "\U{e9}" + SaveFailureTail)

  /** The reason as written is not the one the tests expect: it is one character longer. */
  lemma SaveFailureAsWrittenDiffers()
    ensures |RegisterSaveFailureAsWritten.reason| == |RegisterSaveFailure.reason| + 1
    ensures RegisterSaveFailureAsWritten != RegisterSaveFailure
  {
  }

  /** Latin-1 text: every character fits in one byte of ISO 8859-1, as in every other message of the services. */
  ghost predicate IsLatin1(s: string)
  {
    forall i | 0 <= i < |s| :: s[i] as int <= 0xFF
  }

  lemma Latin1Concat(a: string, b: string, c: string)
    requires IsLatin1(a) && IsLatin1(b) && IsLatin1(c)
    ensures IsLatin1(a + b + c)
  {
  }

  lemma SaveFailureHeadIsLatin1()
    ensures IsLatin1(SaveFailureHead)
  {
  }

  lemma SaveFailureTailIsLatin1()
    ensures IsLatin1(SaveFailureTail)
  {
  }

  /** The intended reason is Latin-1 text; the reason as written holds a character outside Latin-1. */
  lemma SaveFailureEncoding()
    ensures IsLatin1(RegisterSaveFailure.reason)
    ensures !IsLatin1(RegisterSaveFailureAsWritten.reason)
  {
    SaveFailureHeadIsLatin1();
    SaveFailureTailIsLatin1();
    Latin1Concat(SaveFailureHead, "\U{e9}", SaveFailureTail);
    assert RegisterSaveFailureAsWritten.reason[|SaveFailureHead|] == '\U{221a}';
  }

  /**
   * The errors `register` appends, in the order it checks, given whether the
   * username is taken, the password breaks the policy and the confirmation differs.
   */
  function RegisterErrorsOf(taken: bool, invalid: bool, mismatch: bool): seq<FieldError>
  {
    (if taken then [UsernameUsed] else [])
    + (if invalid then [PasswordPolicy] else [])
    + (if mismatch then [PasswordMismatch, ConfirmPasswordMismatch] else [])
  }

  /** The errors `register` appends for `dto` against the table `users`. */
  ghost function RegisterErrors(users: map<int, User>, dto: RegisterDto): seq<FieldError>
  {
    RegisterErrorsOf(HasUsername(users, dto.username), IsPasswordInvalid(dto.password), !PasswordMatches(dto.password, dto.confirmPassword))
  }

  /** The row a successful registration of `dto` stores under the generated `id`. */
  function RegisteredUser(dto: RegisterDto, encode: string -> string, id: int): User
  {
    User(id, dto.username, encode(dto.password), dto.fullname, RoleUser)
  }

  /**
   * Each check contributes its own error exactly when it fails, a mismatch
   * flags both fields, nothing else is ever added, the list is empty exactly
   * when every check passes, and with all three failing the errors come in
   * check order.
   */
  lemma RegisterErrorsOfMeaning(taken: bool, invalid: bool, mismatch: bool)
    ensures var errs := RegisterErrorsOf(taken, invalid, mismatch);
      && (UsernameUsed in errs <==> taken)
      && (PasswordPolicy in errs <==> invalid)
      && (PasswordMismatch in errs <==> mismatch)
      && (ConfirmPasswordMismatch in errs <==> mismatch)
      && (forall e :: e in errs ==> e in [UsernameUsed, PasswordPolicy, PasswordMismatch, ConfirmPasswordMismatch])
      && (errs == [] <==> !taken && !invalid && !mismatch)
      && (taken && invalid && mismatch ==> errs == [UsernameUsed, PasswordPolicy, PasswordMismatch, ConfirmPasswordMismatch])
  {
    FieldErrorsDistinct();
  }

  /** `RegisterErrorsOfMeaning` for the three checks `register` runs on `dto`. */
  lemma RegisterErrorsMeaning(users: map<int, User>, dto: RegisterDto)
    ensures var errs := RegisterErrors(users, dto);
      && (UsernameUsed in errs <==> HasUsername(users, dto.username))
      && (PasswordPolicy in errs <==> IsPasswordInvalid(dto.password))
      && (PasswordMismatch in errs <==> dto.password != dto.confirmPassword)
      && (ConfirmPasswordMismatch in errs <==> dto.password != dto.confirmPassword)
      && (errs == [] <==> !HasUsername(users, dto.username) && !IsPasswordInvalid(dto.password) && dto.password == dto.confirmPassword)
  {
    RegisterErrorsOfMeaning(HasUsername(users, dto.username), IsPasswordInvalid(dto.password), !PasswordMatches(dto.password, dto.confirmPassword));
  }

  class AccessService {
    const userRepository: UserRepository
    /** The password encoder, as a fixed function: the same password always gets the same hash. */
    const encode: string -> string

    constructor (userRepository: UserRepository, encode: string -> string)
      ensures this.userRepository == userRepository && this.encode == encode
    {
      this.userRepository := userRepository;
      this.encode := encode;
    }

    method Register(dto: RegisterDto, result: BindingResult, saveFails: bool) returns (outcome: Outcome<ServiceError>)
      requires userRepository.Valid() && UniqueUsernames(userRepository.users)
      modifies userRepository, result
      ensures userRepository.Valid() && UniqueUsernames(userRepository.users)
      ensures result.errors == old(result.errors) + RegisterErrors(old(userRepository.users), dto)
      ensures result.errors != [] ==>
        outcome == Pass && userRepository.users == old(userRepository.users) && userRepository.nextId == old(userRepository.nextId)
      ensures result.errors == [] && saveFails ==>
        outcome == Fail(RegisterSaveFailure) && userRepository.users == old(userRepository.users)
      ensures result.errors == [] && !saveFails ==>
        && outcome == Pass
        && old(userRepository.nextId) !in old(userRepository.users)
        && userRepository.users == old(userRepository.users)[old(userRepository.nextId) := RegisteredUser(dto, encode, old(userRepository.nextId))]
    {
      ghost var users, before := userRepository.users, result.errors;
      if UsernameExists(userRepository, dto.username) {
        result.RejectValue("username", "error.username", "This username is already used");
      }
      ghost var usernameErrors := if HasUsername(users, dto.username) then [UsernameUsed] else [];
      assert result.errors == before + usernameErrors;
      if IsPasswordInvalid(dto.password) {
        result.RejectValue("password", "error.password", "MDP : 8 char minimum : 1 MAJ, 1 min, 1 chiffre, 1 symbole");
      }
      ghost var policyErrors := if IsPasswordInvalid(dto.password) then [PasswordPolicy] else [];
      assert result.errors == before + usernameErrors + policyErrors;
      if !PasswordMatches(dto.password, dto.confirmPassword) {
        result.RejectValue("password", "error.password", "Passwords do not match");
        result.RejectValue("confirmPassword", "error.confirmPassword", "Passwords do not match");
      }
      ghost var matchErrors := if !PasswordMatches(dto.password, dto.confirmPassword) then [PasswordMismatch, ConfirmPasswordMismatch] else [];
      assert result.errors == before + usernameErrors + policyErrors + matchErrors;
      AppendRounds(before, usernameErrors, policyErrors, matchErrors);
      assert userRepository.users == users;
      if result.HasErrors() {
        return Pass;
      }
      RegisterErrorsMeaning(users, dto);
      InsertKeepsUnique(users, userRepository.nextId, RegisteredUser(dto, encode, userRepository.nextId));
      var newUser := User(0, dto.username, encode(dto.password), dto.fullname, RoleUser);
      var saved := userRepository.Save(newUser, saveFails);
      if !saved {
        return Fail(RegisterSaveFailure);
      }
      return Pass;
    }
  }
}
