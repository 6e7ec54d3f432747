# Account management of the Poseidon trading app, in Dafny

This project models the account core of a Spring Boot web application. It covers:

- self-registration (`AccessService.register`);
- the admin pages' user management (`UserService`): list, show, edit form, add, update, delete, and the lookup that Spring Security uses at login;
- the credential rules that registration and user management share (`Validators`);
- the `/error` endpoint that turns a servlet error status into a `ResponseStatusException` (`CustomErrorController.handleError`).

The modules follow the program's structure:

| module | file | models |
|---|---|---|
| `Domain` | `domain.dfy` | the `User` row and the two forms; field errors; HTTP statuses and the exceptions thrown; the `%d` formatting in the NOT_FOUND message |
| `Binding` | `binding_result.dfy` | Spring's `BindingResult` as a class with an append-only error list |
| `Repository` | `user_repository.dfy` | the `users` table as a class over `map<int, User>`, with a generated-id counter, plus `findById`, `findByUsername`, `findAll`, `save` and `delete` |
| `Validators` | `validators.dfy` | `usernameExists`, `isPasswordInvalid` and `passwordMatches`, as pure functions |
| `AccessServices` | `access_service.dfy` | `register` as a method on the repository and the binding result |
| `UserServices` | `user_service.dfy` | `UserService` as a class: lookups are functions, while add, update and delete are methods |
| `ErrorController` | `custom_error_controller.dfy` | `handleError` as a function |

The services' inputs are modelled as follows:

- **Password encoder.** It is a function value `encode` held by each service. It is deterministic, and nothing else is assumed about it (see "## Left out").
- **Backend failure.** Whether `save` or `delete` throws is an input flag. A failure becomes the service's 500 `ResponseStatusException`.
- **Connected principal.** It is an explicit `Principal` argument.
- **Exceptions.** A thrown `ResponseStatusException` is `Fail(ResponseStatus(status, reason))`. Normal completion is `Pass`.

The source never states that usernames are unique, and no uniqueness constraint on the table is part of this model. The services only keep usernames unique because they check before they save. The model states this as the invariant `Repository.UniqueUsernames`. Every state-changing service method is proved to preserve it.

The password policy follows the source's actual semantics:

- **Length.** `String.length()` counts UTF-16 code units.
- **Character classes.** `String.matches(".*[X].*")` needs a character of class X and no line terminator anywhere in the string. Java's `.` does not match `\n`, `\r`, U+0085, U+2028 or U+2029.
- **Blank passwords.** `isBlank` uses the `Character.isWhitespace` set.

## Model

| member | source | states |
|---|---|---|
| Validators.UsernameExists | src/main/java/com/nnk/springboot/services/Validators.java:27-32 | true exactly when some stored row carries the username |
| Validators.Matches | src/main/java/com/nnk/springboot/services/Validators.java:54-56 | `matches(".*[X].*")` holds exactly when the string splits around a class-X character into two pieces free of line terminators |
| Validators.Utf16Length | src/main/java/com/nnk/springboot/services/Validators.java:54 | `length()` lies between the character count and twice it, and equals the character count for text inside the BMP |
| Validators.IsPasswordInvalid | src/main/java/com/nnk/springboot/services/Validators.java:51-57 | rejected iff fewer than 8 UTF-16 units, or one of the four regexes `.*[X].*` fails to match the whole string (in terms of the regex language, not of the scan that computes it) |
| Validators.PasswordValidIff | src/main/java/com/nnk/springboot/services/Validators.java:51-57 | a password is accepted iff it has at least 8 UTF-16 units, no line terminator, and an upper-case letter, a lower-case letter, a digit and a listed symbol |
| Validators.ShortPasswordIsInvalid | src/main/java/com/nnk/springboot/services/Validators.java:54 | under 8 units a password is rejected whatever it contains |
| Validators.MissingClassIsInvalid | src/main/java/com/nnk/springboot/services/Validators.java:54-56 | lacking any one of the four classes rejects the password |
| Validators.LineTerminatorIsInvalid | src/main/java/com/nnk/springboot/services/Validators.java:54-56 | a line terminator anywhere rejects the password, even when every class is present |
| Validators.WithoutClassIsInvalid | src/main/java/com/nnk/springboot/services/Validators.java:54-56 | removing every character of one class, and keeping every other character, makes any password rejected |
| Validators.IsBlank | src/main/java/com/nnk/springboot/services/UserService.java:120 | `isBlank()` holds exactly when every character is Java white space |
| Validators.BlankPasswordIsInvalid | src/main/java/com/nnk/springboot/services/UserService.java:120-127 | a blank password is also rejected by the policy, so `addUser` reports both password errors for it |
| Validators.TooShortExample | src/test/java/com/nnk/springboot/unitTests/ValidatorsTests.java:51-54 | "Ab1!" is rejected |
| Validators.NoUppercaseExample | src/test/java/com/nnk/springboot/unitTests/ValidatorsTests.java:57-60 | "password1!" is rejected |
| Validators.NoLowercaseExample | src/test/java/com/nnk/springboot/unitTests/ValidatorsTests.java:63-66 | "PASSWORD1!" is rejected |
| Validators.NoDigitExample | src/test/java/com/nnk/springboot/unitTests/ValidatorsTests.java:69-72 | "Password!" is rejected |
| Validators.NoSymbolExample | src/test/java/com/nnk/springboot/unitTests/ValidatorsTests.java:75-78 | "Password1" is rejected |
| Validators.AcceptedExample | src/test/java/com/nnk/springboot/unitTests/ValidatorsTests.java:81-84 | "Valid08!" is accepted |
| Validators.PasswordMatches | src/main/java/com/nnk/springboot/services/Validators.java:66-70 | `equals`: true iff both strings have the same length and the same character at every position |
| Validators.PasswordMatchesIsEquivalence | src/main/java/com/nnk/springboot/services/Validators.java:66-70 | `passwordMatches` is exact, case-sensitive equality: reflexive, symmetric and transitive |
| Domain.FormatIntRoundTrip | src/main/java/com/nnk/springboot/services/UserService.java:69-70 | the `%d` rendering of an id is canonical (no leading zero, no "-0") and reads back as that id |
| Domain.UserNotFoundNamesTheId | src/main/java/com/nnk/springboot/services/UserService.java:69-70 | two NOT_FOUND failures are equal iff they are for the same id |
| Domain.CanonicalIntTextIsFormatInt | src/main/java/com/nnk/springboot/services/UserService.java:69-70 | `%d` is the only canonical text of a number: any text without a leading zero or "-0" is the `%d` rendering of the value it reads as |
| Domain.FormatInt | src/main/java/com/nnk/springboot/services/UserService.java:69-70 | `%d`: a minus sign exactly for negative ids, then decimal digits only; the digits after the sign start with '0' exactly when the id is 0, so no leading zero for any sign |
| Domain.UserNotFound | src/main/java/com/nnk/springboot/services/UserService.java:69-72 | NOT_FOUND (404) with the reason "Le user avec l'id ", the id, " n'existe pas"; the text between the two fixed parts is canonical and parses back to the id, so with `Domain.CanonicalIntTextIsFormatInt` the reason is fixed for every id, negative ones included |
| Binding.BindingResult.RejectValue | src/main/java/com/nnk/springboot/services/AccessService.java:35 | appends one field error and keeps earlier errors in order |
| Binding.BindingResult.HasErrors | src/main/java/com/nnk/springboot/services/AccessService.java:50 | true iff some error is recorded, whether bound before the call or rejected by the service |
| Repository.UserRepository.FindById | src/main/java/com/nnk/springboot/services/UserService.java:66 | the row stored under the id, or none when there is no row under it |
| Repository.UserRepository.FindByUsername | src/main/java/com/nnk/springboot/repositories/UserRepository.java:21 | the row carrying the username, present iff some row carries it |
| Repository.UserRepository.FindAll | src/main/java/com/nnk/springboot/services/UserService.java:43 | every stored row exactly once, unchanged, in ascending id order |
| Repository.UserRepository.Save | src/main/java/com/nnk/springboot/services/AccessService.java:62 | an entity with id 0 is inserted under a fresh generated id; any other entity overwrites its row; on failure nothing changes |
| Repository.UserRepository.Delete | src/main/java/com/nnk/springboot/services/UserService.java:214 | removes the entity's row; on failure nothing changes |
| Repository.InsertKeepsUnique | src/main/java/com/nnk/springboot/services/AccessService.java:33-62 | inserting a row whose username is free keeps usernames unique |
| Repository.OverwriteKeepsUnique | src/main/java/com/nnk/springboot/services/UserService.java:162-186 | overwriting a row with its own username or a free one keeps usernames unique |
| AccessServices.RegisterErrorsOfMeaning | src/main/java/com/nnk/springboot/services/AccessService.java:33-48 | each check adds its errors exactly when it fails, and a mismatch flags both fields; no other error is added; the list is empty iff all checks pass; when all fail, the errors come in check order |
| AccessServices.RegisterErrorsMeaning | src/main/java/com/nnk/springboot/services/AccessService.java:33-48 | for a form: "already used" appears iff the username is taken; the policy error appears iff the password breaks the policy; both mismatch errors appear iff the confirmation differs; the list is empty iff all three checks pass |
| AccessServices.SaveFailureAsWrittenDiffers | src/main/java/com/nnk/springboot/services/AccessService.java:67 | the 500 reason as the source spells it differs from, and is one character longer than, the one the registration test expects |
| AccessServices.SaveFailureEncoding | src/main/java/com/nnk/springboot/services/AccessService.java:67 | the intended reason is Latin-1 text; the reason as written contains U+221A, which is outside Latin-1 |
| AccessServices.AccessService.Register | src/main/java/com/nnk/springboot/services/AccessService.java:32-69 | all three checks run and append their errors; with any error in the binding result nothing is saved; otherwise the row (given fields, encoded password, ROLE_USER) is inserted under a fresh id, or on save failure a 500 "création" failure is raised and nothing changes |
| UserServices.UserNotFoundExample | src/main/java/com/nnk/springboot/services/UserService.java:69-70 | the NOT_FOUND reason for id 1 is "Le user avec l'id 1 n'existe pas" |
| UserServices.ConnectedUserId | src/main/java/com/nnk/springboot/services/UserService.java:79-84 | the principal's id when the principal is a `User`, otherwise none |
| UserServices.ListView | src/main/java/com/nnk/springboot/services/UserService.java:45-52 | a list entry copies the row's id, full name, username and role, and never carries the password hash |
| UserServices.AddUserErrorsMeaning | src/main/java/com/nnk/springboot/services/UserService.java:116-127 | each `addUser` check adds its error exactly when it fails; a blank password draws both "mandatory" and the policy error; the list is empty iff the username is free and the password passes |
| UserServices.UpdateUserErrorsMeaning | src/main/java/com/nnk/springboot/services/UserService.java:162-175 | keeping one's own username never draws "already used"; a blank password never draws the policy error; otherwise each error appears exactly when its check fails |
| UserServices.UpdateCommitMeaning | src/main/java/com/nnk/springboot/services/UserService.java:168-186 | an update whose username check passes keeps usernames unique, touches only its own row, keeps the id; a blank password keeps the stored hash, and any other password stores its encoding |
| UserServices.UserService.GetUsers | src/main/java/com/nnk/springboot/services/UserService.java:40-54 | one entry per stored row, without duplicates, each with the row's id, names and role and no password |
| UserServices.UserService.GetUser | src/main/java/com/nnk/springboot/services/UserService.java:63-72 | the stored row, or NOT_FOUND naming the id exactly when no row has it |
| UserServices.UserService.FindUserToUpdate | src/main/java/com/nnk/springboot/services/UserService.java:93-104 | the row's id, names and role with a blank password, or NOT_FOUND naming the id |
| UserServices.UserService.LoadUserByUsername | src/main/java/com/nnk/springboot/services/UserService.java:231-239 | the row carrying the username, or "User not found" exactly when none does |
| UserServices.UserService.AddUser | src/main/java/com/nnk/springboot/services/UserService.java:113-147 | all three checks run and append their errors; with any error nothing is saved; otherwise the row with the submitted role and encoded password is inserted under a fresh id, or a 500 "creation" failure is raised and nothing changes |
| UserServices.UserService.UpdateUser | src/main/java/com/nnk/springboot/services/UserService.java:157-193 | an unknown id fails NOT_FOUND before any check; with any error the table is unchanged; otherwise the row is overwritten with the new names and role, and the password is re-encoded or kept when blank; a save failure raises the 500 "modification" failure and changes nothing |
| UserServices.UserService.DeleteUser | src/main/java/com/nnk/springboot/services/UserService.java:201-221 | the caller's own id is refused FORBIDDEN before any lookup; an unknown id fails NOT_FOUND; otherwise the row is removed, or the 500 "suppression" failure is raised and nothing changes |
| ErrorController.HandleError | src/main/java/com/nnk/springboot/controllers/CustomErrorController.java:35-53 | nothing is raised iff the request carries no status code; otherwise a `ResponseStatusException` is raised |
| ErrorController.HandleErrorClassifies | src/main/java/com/nnk/springboot/controllers/CustomErrorController.java:41-51 | 403 and 404 are raised with their own status; every other code is raised as 500; each status carries its one fixed message |
| ErrorController.HandleErrorIsStable | src/main/java/com/nnk/springboot/controllers/CustomErrorController.java:37-51 | handling the status code of a raised error raises the same error again |
| ErrorController.OtherCodesCollapse | src/main/java/com/nnk/springboot/controllers/CustomErrorController.java:48-51 | all codes other than 403 and 404 give the same 500 failure, 4xx client errors included |

## Left out

- **CRUD modules.** The bid list, curve point, rating, rule name and trade services, and their controllers, are not part of this model.
- **Security setup.** `SecurityConfig`, sessions, login and the role checks on routes are left out. `getConnectedUserId` takes the principal as an argument instead of reading `SecurityContextHolder`.
- **Controllers.** View names, redirects and the model attributes of the controllers are left out. So is `ExceptionHandlerController`, which renders the thrown failures.
- **Logging and timestamps.** These have no effect on the behaviour modelled.
- **Status parsing.** `handleError` receives the status already parsed as an integer. `Integer.parseInt` of the attribute, and the `NumberFormatException` it can throw, are left out.
- **Concurrency.** Two requests racing between the username check and the save can break username uniqueness. The model is sequential.
- **Integer width.** Ids are unbounded integers. Java's 32-bit `int` id column and its overflow are not modelled.
- **Bean validation.** The `@NotBlank` checks on the forms run before the services. Their errors appear only as the errors already in the binding result when a service is called.
- **Null passwords.** `UserServices.UserService.AddUser` and `UserServices.UserService.UpdateUser` require the form's password to be present. The source dereferences it unconditionally, and a null password would be a `NullPointerException`.
- **Entity changes on failed updates.** `UserServices.UserService.UpdateUser` treats the entity loaded by `findById` as a value copy. On the error path, the new hash is staged on that copy and never reaches the table. Write-back of a managed entity without an explicit `save` is not modelled.
- **Order of `findAll`.** The order is not specified by the source. `Repository.UserRepository.FindAll` lists rows in ascending id order.
- **Password hashing.** BCrypt is an opaque function value, and nothing is proved about the hashes it makes. `encode` is a deterministic function, so two encodings of one password are equal in the model. `register` creates a fresh BCrypt encoder, and BCrypt salts every hash, so the program gives a different hash on every call. No contract compares two hashes, but the model does not capture the salt.
- AccessServices.AccessService.Register: raises the 500 failure with the reason the registration test expects ("création", U+00E9). The program as written raises "cr" U+221A U+00A9 "ation" instead; see "## Findings".
- Repository.UserRepository.FindByUsername, Validators.UsernameExists, UserServices.UserService.LoadUserByUsername, AccessServices.AccessService.Register, UserServices.UserService.AddUser, UserServices.UserService.UpdateUser, UserServices.UserService.DeleteUser: require that no two rows share a username. Nothing in the table enforces that. With two such rows, Spring Data's `findByUsername` throws `IncorrectResultSizeDataAccessException`, and the model excludes that case. In the sequential model the state is unreachable, because every method that writes the table is proved to keep usernames unique. It is reachable only through the concurrent races listed above.
- **Unpaired surrogates.** Dafny strings hold Unicode scalar values, so a Java `String` with an unpaired surrogate cannot be expressed. `Validators.Utf16Length`, `Validators.IsBlank` and `Validators.Matches` are stated for well-formed text only.

## Findings

| source | as written | input that shows it | evidently intended | confidence | as-written member | corrected member |
|---|---|---|---|---|---|---|
| src/main/java/com/nnk/springboot/services/AccessService.java:67 | the 500 reason of a failed registration spells "création" with the two characters U+221A U+00A9 (UTF-8 "é" decoded as Mac Roman, then saved again) | any registration whose save fails: the reason is "…cr√©ation de l'utilisateur", while src/test/java/com/nnk/springboot/unitTests/AccessServiceTests.java:124 expects "…création de l'utilisateur" | "création" with U+00E9, Latin-1 text like every other message | high, not executed; the line's bytes are E2 88 9A C2 A9 where the test has C3 A9 | AccessServices.SaveFailureAsWrittenDiffers | AccessServices.SaveFailureEncoding |
