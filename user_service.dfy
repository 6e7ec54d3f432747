/**
 * `UserService`: the admin pages' account management. Lookups fail with
 * NOT_FOUND on an unknown id; `addUser` and `updateUser` collect their field
 * errors before deciding, and save nothing when the binding result holds any
 * error; `deleteUser` refuses the caller's own account before any lookup.
 */
module UserServices {
  import opened Domain
  import opened Repository
  import opened Binding
  import opened Validators

  const AddSaveFailure := ResponseStatus(InternalServerError, "Une erreur est survenue lors de la creation du user")
  const UpdateSaveFailure := ResponseStatus(InternalServerError, "Une erreur est survenue lors de la modification du user")
  const DeleteFailure := ResponseStatus(InternalServerError, "Une erreur est survenue lors de la suppression du user")
  const SelfDeletion := ResponseStatus(Forbidden, "Vous ne pouvez pas supprimer votre propre user.")
  const NoSuchUsername := UsernameNotFound("User not found")

  lemma UserNotFoundExample()
    ensures UserNotFound(1) == ResponseStatus(NotFound, "Le user avec l'id 1 n'existe pas")
  {
    assert FormatInt(1) == "1";
  }

  /** A row as the list page shows it: the password is left unset. */
  function ListView(u: User): (r: UserDto)
    ensures r.password.None?
    ensures r.id == u.id && r.fullname == u.fullname && r.username == u.username && r.role == u.role
  {
    UserDto(u.id, u.fullname, u.username, None, u.role)
  }

  /** `getConnectedUserId`: the id of the principal when it is a `User`, otherwise none. */
  function ConnectedUserId(principal: Principal): (r: Option<int>)
    ensures r.Some? <==> principal.UserPrincipal?
    ensures r.Some? ==> r.value == principal.user.id
  {
    match principal
    case UserPrincipal(u) => Some(u.id)
    case OtherPrincipal => None
  }

  /** The errors `addUser` appends, in the order it checks. */
  ghost function AddUserErrors(users: map<int, User>, dto: UserDto): seq<FieldError>
    requires dto.password.Some?
  {
    var password := dto.password.value;
    (if HasUsername(users, dto.username) then [UsernameUsed] else [])
    + (if IsBlank(password) then [PasswordMandatory] else [])
    + (if IsPasswordInvalid(password) then [PasswordPolicy] else [])
  }

  /** The row a successful `addUser` stores under the generated `id`: the role is the submitted one. */
  function AddedUser(dto: UserDto, encode: string -> string, id: int): User
    requires dto.password.Some?
  {
    User(id, dto.username, encode(dto.password.value), dto.fullname, dto.role)
  }

  /**
   * Each `addUser` check contributes its error exactly when it fails; a blank
   * password draws both password errors; the errors are empty exactly when the
   * username is free and the password passes the policy.
   */
  lemma AddUserErrorsMeaning(users: map<int, User>, dto: UserDto)
    requires dto.password.Some?
    ensures var errs := AddUserErrors(users, dto); var password := dto.password.value;
      && (UsernameUsed in errs <==> HasUsername(users, dto.username))
      && (PasswordMandatory in errs <==> IsBlank(password))
      && (PasswordPolicy in errs <==> IsPasswordInvalid(password))
      && (IsBlank(password) ==> PasswordMandatory in errs && PasswordPolicy in errs)
      && (errs == [] <==> !HasUsername(users, dto.username) && !IsPasswordInvalid(password))
  {
    var password := dto.password.value;
    FieldErrorsDistinct();
    if IsBlank(password) {
      BlankPasswordIsInvalid(password);
    }
  }

  /** The errors `updateUser` appends for the stored row `stored`, in the order it checks. */
  ghost function UpdateUserErrors(users: map<int, User>, stored: User, dto: UserDto): seq<FieldError>
    requires dto.password.Some?
  {
    var password := dto.password.value;
    (if stored.username != dto.username && HasUsername(users, dto.username) then [UsernameUsed] else [])
    + (if !IsBlank(password) && IsPasswordInvalid(password) then [PasswordPolicy] else [])
  }

  /** The row a successful `updateUser` stores: a blank password keeps the stored hash. */
  function UpdatedUser(stored: User, dto: UserDto, encode: string -> string): User
    requires dto.password.Some?
  {
    var password := dto.password.value;
    stored.(
      fullname := dto.fullname,
      username := dto.username,
      role := dto.role,
      password := if IsBlank(password) then stored.password else encode(password))
  }

  /**
   * Resubmitting the stored username never reports it as taken; a blank
   * password never draws the policy error; otherwise each error appears
   * exactly when its check fails.
   */
  lemma UpdateUserErrorsMeaning(users: map<int, User>, stored: User, dto: UserDto)
    requires dto.password.Some?
    ensures var errs := UpdateUserErrors(users, stored, dto); var password := dto.password.value;
      && (dto.username == stored.username ==> UsernameUsed !in errs)
      && (UsernameUsed in errs <==> dto.username != stored.username && HasUsername(users, dto.username))
      && (IsBlank(password) ==> PasswordPolicy !in errs)
      && (PasswordPolicy in errs <==> !IsBlank(password) && IsPasswordInvalid(password))
      && (errs == [] <==>
            (dto.username == stored.username || !HasUsername(users, dto.username))
            && (IsBlank(password) || !IsPasswordInvalid(password)))
  {
    FieldErrorsDistinct();
  }

  /**
   * An update whose username check passes keeps usernames unique, changes only
   * the row `id` and keeps its id; a blank password keeps the stored hash and
   * any other password stores its encoding.
   */
  lemma UpdateCommitMeaning(users: map<int, User>, id: int, dto: UserDto, encode: string -> string)
    requires UniqueUsernames(users) && id in users && dto.password.Some?
    requires dto.username == users[id].username || !HasUsername(users, dto.username)
    ensures var users' := users[id := UpdatedUser(users[id], dto, encode)];
      && UniqueUsernames(users')
      && users'.Keys == users.Keys
      && (forall j :: j in users && j != id ==> users'[j] == users[j])
      && users'[id].id == users[id].id
      && (users'[id].password == users[id].password <== IsBlank(dto.password.value))
      && (!IsBlank(dto.password.value) ==> users'[id].password == encode(dto.password.value))
  {
    OverwriteKeepsUnique(users, id, UpdatedUser(users[id], dto, encode));
  }

  class UserService {
    const userRepository: UserRepository
    /** The password encoder, as a fixed function: the same password always gets the same hash. */
    const encode: string -> string

    constructor (userRepository: UserRepository, encode: string -> string)
      ensures this.userRepository == userRepository && this.encode == encode
    {
      this.userRepository := userRepository;
      this.encode := encode;
    }

    /** `getUsers`: every row once, as the list page shows it. */
    method GetUsers() returns (views: seq<UserDto>)
      requires userRepository.Valid()
      ensures forall i :: 0 <= i < |views| ==>
        views[i].id in userRepository.users && views[i] == ListView(userRepository.users[views[i].id])
      ensures forall id :: id in userRepository.users ==> exists i :: 0 <= i < |views| && views[i].id == id
      ensures forall i, j :: 0 <= i < j < |views| ==> views[i].id != views[j].id
    {
      var all := userRepository.FindAll();
      views := seq(|all|, i requires 0 <= i < |all| => ListView(all[i]));
      forall id | id in userRepository.users
        ensures exists i :: 0 <= i < |views| && views[i].id == id
      {
        var i :| 0 <= i < |all| && all[i].id == id;
        assert views[i].id == id;
      }
    }

    /** `getUser`: the row with this id, or NOT_FOUND naming the id. */
    function GetUser(id: int): (r: Result<User, ServiceError>)
      reads userRepository
      ensures r.Success? <==> id in userRepository.users
      ensures r.Success? ==> r.value == userRepository.users[id]
      ensures r.Failure? ==> r.error == UserNotFound(id)
    {
      match userRepository.FindById(id)
      case Some(u) => Success(u)
      case None => Failure(UserNotFound(id))
    }

    /** `findUserToUpdate`: the edit form of a row; its password field is always blank. */
    function FindUserToUpdate(id: int): (r: Result<UserDto, ServiceError>)
      reads userRepository
      requires userRepository.Valid()
      ensures r.Failure? <==> id !in userRepository.users
      ensures r.Failure? ==> r.error == UserNotFound(id)
      ensures r.Success? ==>
        var u := userRepository.users[id];
        r.value == UserDto(id, u.fullname, u.username, Some(""), u.role)
    {
      match GetUser(id)
      case Failure(e) => Failure(e)
      case Success(user) => Success(UserDto(user.id, user.fullname, user.username, Some(""), user.role))
    }

    /** `loadUserByUsername`: the row carrying this username, or "User not found". */
    function LoadUserByUsername(username: string): (r: Result<User, ServiceError>)
      reads userRepository
      requires userRepository.Valid() && UniqueUsernames(userRepository.users)
      ensures r.Success? <==> HasUsername(userRepository.users, username)
      ensures r.Success? ==> r.value.username == username && r.value.id in userRepository.users && userRepository.users[r.value.id] == r.value
      ensures r.Failure? ==> r.error == NoSuchUsername
    {
      match userRepository.FindByUsername(username)
      case Some(u) => Success(u)
      case None => Failure(NoSuchUsername)
    }

    method AddUser(dto: UserDto, result: BindingResult, saveFails: bool) returns (outcome: Outcome<ServiceError>)
      requires userRepository.Valid() && UniqueUsernames(userRepository.users)
      requires dto.password.Some?
      modifies userRepository, result
      ensures userRepository.Valid() && UniqueUsernames(userRepository.users)
      ensures result.errors == old(result.errors) + AddUserErrors(old(userRepository.users), dto)
      ensures result.errors != [] ==>
        outcome == Pass && userRepository.users == old(userRepository.users) && userRepository.nextId == old(userRepository.nextId)
      ensures result.errors == [] && saveFails ==>
        outcome == Fail(AddSaveFailure) && userRepository.users == old(userRepository.users)
      ensures result.errors == [] && !saveFails ==>
        && outcome == Pass
        && old(userRepository.nextId) !in old(userRepository.users)
        && userRepository.users == old(userRepository.users)[old(userRepository.nextId) := AddedUser(dto, encode, old(userRepository.nextId))]
    {
      var password := dto.password.value;
      ghost var users, before := userRepository.users, result.errors;
      if UsernameExists(userRepository, dto.username) {
        result.RejectValue("username", "error.username", "This username is already used");
      }
      ghost var usernameErrors := if HasUsername(users, dto.username) then [UsernameUsed] else [];
      assert result.errors == before + usernameErrors;
      if IsBlank(password) {
        result.RejectValue("password", "error.password", "Password is mandatory");
      }
      ghost var blankErrors := if IsBlank(password) then [PasswordMandatory] else [];
      assert result.errors == before + usernameErrors + blankErrors;
      if IsPasswordInvalid(password) {
        result.RejectValue("password", "error.password", "MDP : 8 char minimum : 1 MAJ, 1 min, 1 chiffre, 1 symbole");
      }
      ghost var policyErrors := if IsPasswordInvalid(password) then [PasswordPolicy] else [];
      assert result.errors == before + usernameErrors + blankErrors + policyErrors;
      AppendRounds(before, usernameErrors, blankErrors, policyErrors);
      if result.HasErrors() {
        return Pass;
      }
      AddUserErrorsMeaning(userRepository.users, dto);
      InsertKeepsUnique(userRepository.users, userRepository.nextId, AddedUser(dto, encode, userRepository.nextId));
      var user := User(0, dto.username, encode(password), dto.fullname, dto.role);
      var saved := userRepository.Save(user, saveFails);
      if !saved {
        return Fail(AddSaveFailure);
      }
      return Pass;
    }

    method UpdateUser(id: int, dto: UserDto, result: BindingResult, saveFails: bool) returns (outcome: Outcome<ServiceError>)
      requires userRepository.Valid() && UniqueUsernames(userRepository.users)
      requires dto.password.Some?
      modifies userRepository, result
      ensures userRepository.Valid() && UniqueUsernames(userRepository.users)
      ensures userRepository.nextId == old(userRepository.nextId)
      ensures id !in old(userRepository.users) ==>
        outcome == Fail(UserNotFound(id)) && result.errors == old(result.errors) && userRepository.users == old(userRepository.users)
      ensures id in old(userRepository.users) ==>
        result.errors == old(result.errors) + UpdateUserErrors(old(userRepository.users), old(userRepository.users)[id], dto)
      ensures id in old(userRepository.users) && result.errors != [] ==>
        outcome == Pass && userRepository.users == old(userRepository.users)
      ensures id in old(userRepository.users) && result.errors == [] && saveFails ==>
        outcome == Fail(UpdateSaveFailure) && userRepository.users == old(userRepository.users)
      ensures id in old(userRepository.users) && result.errors == [] && !saveFails ==>
        && outcome == Pass
        && userRepository.users == old(userRepository.users)[id := UpdatedUser(old(userRepository.users)[id], dto, encode)]
    {
      var found := GetUser(id);
      if found.Failure? {
        return Fail(found.error);
      }
      var user := found.value;
      ghost var users, before := userRepository.users, result.errors;
      if user.username != dto.username {
        if UsernameExists(userRepository, dto.username) {
          result.RejectValue("username", "error.username", "This username is already used");
        }
      }
      ghost var usernameErrors := if user.username != dto.username && HasUsername(users, dto.username) then [UsernameUsed] else [];
      assert result.errors == before + usernameErrors;
      var password := dto.password.value;
      if !IsBlank(password) {
        if IsPasswordInvalid(password) {
          result.RejectValue("password", "error.password", "MDP : 8 char minimum : 1 MAJ, 1 min, 1 chiffre, 1 symbole");
        }
        // The new hash is staged on the loaded copy before the error check.
        user := user.(password := encode(password));
      }
      ghost var policyErrors := if !IsBlank(password) && IsPasswordInvalid(password) then [PasswordPolicy] else [];
      AppendRounds(before, usernameErrors, policyErrors, []);
      assert result.errors == before + UpdateUserErrors(users, users[id], dto) by {
        assert usernameErrors + policyErrors + [] == UpdateUserErrors(users, users[id], dto);
      }
      if result.HasErrors() {
        return Pass;
      }
      user := user.(fullname := dto.fullname, username := dto.username, role := dto.role);
      assert user == UpdatedUser(userRepository.users[id], dto, encode);
      UpdateUserErrorsMeaning(users, users[id], dto);
      UpdateCommitMeaning(users, id, dto, encode);
      var saved := userRepository.Save(user, saveFails);
      if !saved {
        return Fail(UpdateSaveFailure);
      }
      return Pass;
    }

    /**
     * `deleteUser`: the caller's own id is refused FORBIDDEN whether or not
     * the row exists; a principal that is not a `User` matches no id.
     */
    method DeleteUser(id: int, principal: Principal, deleteFails: bool) returns (outcome: Outcome<ServiceError>)
      requires userRepository.Valid() && UniqueUsernames(userRepository.users)
      modifies userRepository
      ensures userRepository.Valid() && UniqueUsernames(userRepository.users)
      ensures ConnectedUserId(principal) == Some(id) ==>
        outcome == Fail(SelfDeletion) && userRepository.users == old(userRepository.users)
      ensures ConnectedUserId(principal) != Some(id) && id !in old(userRepository.users) ==>
        outcome == Fail(UserNotFound(id)) && userRepository.users == old(userRepository.users)
      ensures ConnectedUserId(principal) != Some(id) && id in old(userRepository.users) && deleteFails ==>
        outcome == Fail(DeleteFailure) && userRepository.users == old(userRepository.users)
      ensures ConnectedUserId(principal) != Some(id) && id in old(userRepository.users) && !deleteFails ==>
        outcome == Pass && userRepository.users == old(userRepository.users) - {id}
    {
      var currentUserId := ConnectedUserId(principal);
      if currentUserId == Some(id) {
        return Fail(SelfDeletion);
      }
      var found := GetUser(id);
      if found.Failure? {
        return Fail(found.error);
      }
      var deleted := userRepository.Delete(found.value, deleteFails);
      if !deleted {
        return Fail(DeleteFailure);
      }
      return Pass;
    }
  }
}
