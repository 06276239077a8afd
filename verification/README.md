# User and role administration, modelled in Dafny

This project models the state-changing core of a small Laravel application.
Administrators manage user accounts and roles through it. The model covers
the admin checks, the validation rules and the resulting database changes.

- `UserController`: `update`, `destroy` and `store`.
- `RoleController`: its admin-only middleware and `store`, `update` and `destroy`.
- `InitialAdminSeeder::run` and `AdminSeeder::run`: the seeders that build the initial data.

The database is an immutable value (`Store.Store`). It holds two tables as
maps from auto-increment keys to rows, plus one counter per table. The
`Store` type itself guarantees that every key in use is below its table's
counter, so every insert gets a fresh key. Each controller action is a pure
function. It takes the acting user, the database and the request. It returns
a `Reply`, which holds an `Outcome` (`Done`, `Created(key)` or
`Refused(error)`) and the database after the action.

Validation works the way the framework does it. Each action hands a rule
table to `Validation.Violations` (for example `name => [Required, IsString,
Max(255)]`). That function reports the inputs that have a failing rule. The
actions' contracts then say in plain terms what those tables accept, for
example `AcceptableName` and `AcceptableEmail`. The `*RulesMeaning` lemmas
prove that the table and the plain statement agree.

The model follows the code, quirks included:

- The user controller's check refuses an actor only when the actor's role
  resolves AND its name is not 'admin'. An actor with no role gets through,
  and so does an actor whose role was deleted.
- `store` on users checks no actor at all.
- User deletion has no last-administrator guard and no self-deletion guard.
- Role deletion does not look at the users that refer to the role.
- `AdminSeeder` inserts its roles without looking at what is already there.

The code therefore has no fail-closed authorization, no last-admin guard,
no role-in-use guard, no restriction of self-service edits to one's own
name and email, and no case-insensitive role names. The lemmas
`DestroyCanRemoveLastAdmin`, `DestroyRoleStrandsUsers` and
`DeletedRoleOpensUserGate` exhibit the first three of these gaps.

## Model

| member | source | states |
|---|---|---|
| UserController.UpdateUser | app/Http/Controllers/UserController.php:37-72 | An actor whose role resolves to a name other than 'admin' is refused with the database unchanged. A role-less actor passes. The update succeeds exactly when the `id` input names an existing user, the name is non-blank and at most 255 characters, the email is well-formed and held by no other user, and `role_id` names an existing role. Any other failure is the generic caught error, with nothing changed. On success only that user's name, email and role change: the credential, every other user and the roles are kept. Email uniqueness is preserved. |
| UserController.DestroyUser | app/Http/Controllers/UserController.php:77-97 | The same admin check as `update`. An unknown key gives the generic error with nothing changed. Otherwise exactly that user is removed and every other row is kept. Email uniqueness is preserved. |
| UserController.StoreUser | app/Http/Controllers/UserController.php:100-117 | There is no actor check. Creation succeeds exactly when the name, email (unused by any user), password (at least 8 characters and equal to its confirmation) and role are acceptable. A refusal names exactly the failing inputs and changes nothing. On success exactly one user is added under a fresh key, with credential `hash(password)` and the given role. Existing users and roles are kept, and email uniqueness is preserved. |
| UserController.NameRulesMeaning | app/Http/Controllers/UserController.php:51 | `required, string, max:255` accepts exactly a non-blank text of at most 255 characters. |
| UserController.EmailRulesMeaning | app/Http/Controllers/UserController.php:52-56 | `required`, `email` and `unique` (ignoring the given key) accept exactly a non-blank, well-formed address that no other user holds. |
| UserController.PasswordRulesMeaning | app/Http/Controllers/UserController.php:105 | `required, string, min:8, confirmed` accepts exactly a non-blank text of at least 8 characters that `password_confirmation` repeats. |
| UserController.RoleIdRulesMeaning | app/Http/Controllers/UserController.php:57 | `required, exists:roles,id` accepts exactly the key of an existing role. |
| UserController.UpdateAcceptsOwnEmail | app/Http/Controllers/UserController.php:52-56 | When emails are distinct, resubmitting the target's own email does not trip the uniqueness rule, so the update succeeds. |
| UserController.UpdateRejectsOthersEmail | app/Http/Controllers/UserController.php:52-56 | Giving the target another user's email fails the update and leaves the database unchanged. |
| UserController.DestroyCanRemoveLastAdmin | app/Http/Controllers/UserController.php:81-87 | An administrator can delete the only administrator, and afterwards no user has the admin role. |
| UserController.ProfileUpdateNeverApplies | app/Http/Controllers/UserController.php:41-48 | A request without an `id` input, such as the profile form's, never updates anything. An actor whose role resolves to a name other than 'admin' is refused by the admin check. Every other actor gets the generic caught error. The database is unchanged either way. |
| RoleController.Gate | app/Http/Controllers/RoleController.php:13-19 | Lets the actor through exactly when the actor's role resolves to the name 'admin' (case-sensitive). A null role crashes the check. Any other role name is redirected as unauthorized. |
| RoleController.NameRulesMeaning | app/Http/Controllers/RoleController.php:38-40 | `required, string, unique:roles,name[,key]` reports `name` exactly when it is absent, blank, or used by a role other than the ignored key. |
| RoleController.StoreRole | app/Http/Controllers/RoleController.php:36-44 | A non-admin is refused with nothing changed. An admin's request succeeds exactly when the name is non-blank and unused by any role. On success exactly one role with that name is added under a fresh key, and existing roles and all users are kept. Otherwise the refusal names `name`. Distinct role names stay distinct. |
| RoleController.UpdateRole | app/Http/Controllers/RoleController.php:53-61 | An unknown key is not found. A non-admin is refused. The rename succeeds exactly when the new name is non-blank and unused by any other role; otherwise an admin's request is refused naming `name`. Only that role's name changes. Every refusal leaves the database unchanged. Distinct role names stay distinct. |
| RoleController.DestroyRole | app/Http/Controllers/RoleController.php:64-68 | An unknown key is not found and a non-admin is refused, with nothing changed. Otherwise exactly that role is removed, other roles are kept and the users table is untouched. |
| RoleController.UpdateRoleAcceptsOwnName | app/Http/Controllers/RoleController.php:55-57 | When names are distinct, an admin keeping a role's current name succeeds and changes nothing. |
| RoleController.DestroyRoleStrandsUsers | app/Http/Controllers/RoleController.php:64-67 | Deleting a role that a user still refers to succeeds. The user keeps the dangling `role_id`, so not every role reference resolves any more. |
| InitialAdminSeeder.FirstRoleNamed | database/seeders/InitialAdminSeeder.php:15 | The lookup finds the lowest key in range of a role with the given name, or reports that no role in range has it. |
| InitialAdminSeeder.FirstOrCreateRole | database/seeders/InitialAdminSeeder.php:15 | If a role with the name exists, the lowest-keyed one is reused and the roles are unchanged. Otherwise exactly one role with that name is added under a fresh key. Users are untouched. |
| InitialAdminSeeder.Run | database/seeders/InitialAdminSeeder.php:12-23 | Adds no role when an 'admin' role exists and exactly one 'admin' role otherwise, so distinct role names stay distinct. Adds exactly one user under a fresh key: 'Admin User', admin@example.com, credential `hash('password123')`, linked to the lowest-keyed 'admin' role. Distinct emails stay distinct when admin@example.com was not yet in use. |
| InitialAdminSeeder.RunIgnoresTakenEmail | database/seeders/InitialAdminSeeder.php:18-20 | If admin@example.com is already used, seeding leaves two users with that email. |
| AdminSeeder.Run | database/seeders/AdminSeeder.php:10-14 | Adds exactly two roles under fresh keys, 'admin' under the smaller key and 'user' under the larger. Users and existing roles are untouched. |
| AdminSeeder.AfterInitialAdminSeederDuplicatesAdmin | database/seeders/AdminSeeder.php:12 | Run after the initial-admin seeder, it leaves two roles named 'admin', so role names are no longer distinct. |
| AdminSeeder.BeforeInitialAdminSeederKeepsNamesDistinct | database/seeders/AdminSeeder.php:12-13 | Run first on a database with distinct names and no 'admin' or 'user' role, it keeps the names distinct even after the initial-admin seeder runs. |
| Scenarios.RolelessActorPassesOnlyUserGate | app/Http/Controllers/UserController.php:41 | An actor without a resolvable role passes the user controller's check but crashes the role controller's check. |
| Scenarios.DeletedRoleOpensUserGate | app/Http/Controllers/RoleController.php:64-67 | A holder of a non-admin role is refused by the user controller's check. Once an admin deletes that role, the same holder is let through. |
| Scenarios.AdminSeederOnEmptyStore | database/seeders/AdminSeeder.php:12-13 | On an empty database, with keys starting at 1, 'admin' gets key 1 and 'user' gets key 2. |
| Scenarios.SeedersOnEmptyStore | database/seeders/InitialAdminSeeder.php:15-22 | After the admin seeder, the initial-admin seeder reuses role 1 and creates user 1, linked to it. |
| Scenarios.StoreAcceptsJohn | app/Http/Controllers/UserController.php:100-114 | On the seeded database, a valid request for John with role 2 ('user') creates exactly user 2 with credential `hash('password1')`. |
| Scenarios.JohnCannotDeleteAdmin | app/Http/Controllers/UserController.php:81-83 | John, whose role resolves to 'user', is refused when deleting the administrator, and both users remain. |

## Left out

- Password hashing (`bcrypt`, `Hash::make`) is the opaque `Services.hash`. It is a function, so the random salt those calls add is abstracted away: the model compares credentials as `hash(password)`, which the real hashes would not match byte for byte. The email syntax check of the `email` rule is the opaque `Services.isEmail`.
- Views, redirects, flash messages and the logging calls in the catch blocks are left out. They collapse into `Outcome`. The delete button that the user list hides for administrators is presentation only, not a server-side guard.
- `show`, `create`, `edit` and `index` are left out: they only render views.
- Authentication and routing are left out. The actor is an already authenticated `User` value. Route-model binding in the role controller's `update` and `destroy` becomes `NotFound` for an unknown key. It is modelled as running before the constructor's middleware, as the framework orders route middleware before controller middleware. The order only decides which error is reported. The base `Controller` class is not part of this model.
- RoleController.Gate assumes the base `Controller` extends the framework's routing controller, which supplies `middleware()`. With an empty base class, as in the framework's newer skeleton, constructing the role controller fails before any action, and none of `Gate`, `StoreRole`, `UpdateRole` or `DestroyRole` runs.
- The `/profile` routes are not modelled separately. `PUT /profile` calls the same `update`, but the profile form sends no `id` input. A request that passes the admin check therefore always ends in the caught error, and any other actor is refused by that check. Either way nothing changes (`UserController.ProfileUpdateNeverApplies`). `DELETE /profile` has no route parameter, so `destroy($id)` gets no argument and fails before its first line. That failure is a dispatch error, outside `DestroyUser`.
- Migrations, column types, foreign keys and database unique indexes are left out. In particular, a unique index on `users.email` would make a second initial-admin seeding fail rather than duplicate the address, and a foreign key on `role_id` could block role deletion. Neither is visible, so neither is modelled.
- Mass assignment is reduced to the fields the actions name. `Role::create($request->all())` and `$role->update($request->all())` take only `name`.
- Request inputs are modelled as they reach the controller. The framework's global trimming middleware is not modelled. Numeric inputs (`id`, `role_id`) are `Number` values. A text value in those inputs matches no key.
- The `max`/`min` rules measure the length of a text value only. Here they are only applied to text inputs.
- Email and role-name comparison is exact string equality. Collation-dependent case-insensitive matching in some databases is not modelled.
- `where('name', 'admin')->first()` has no ordering in the source. The model takes the lowest key.
- Concurrency and transactions are left out: each action is one sequential request.
- The registration controller that the feature test exercises is not part of this model.
