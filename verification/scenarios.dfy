/** Properties that span more than one controller or seeder: how the two
    admin checks differ, and what a freshly seeded database allows. */
module Scenarios {
  import opened Store
  import opened Validation
  import opened Responses
  import UserController
  import RoleController
  import InitialAdminSeeder
  import AdminSeeder

  /** The two admin checks part ways on an actor without a resolvable role:
      the user controller lets it through, the role controller's middleware
      crashes on it. */
  lemma RolelessActorPassesOnlyUserGate(actor: User, roles: map<RoleId, Role>)
    requires RoleOf(actor, roles).None?
    ensures !UserController.GateRefuses(actor, roles)
    ensures RoleController.Gate(actor, roles) == Some(Crashed)
  {
  }

  /** Deleting a non-admin role lifts the user controller's check for every
      user that held it: their `role_id` stops resolving, and a null role is
      let through. */
  lemma DeletedRoleOpensUserGate(admin: User, s: Store, id: RoleId, actor: User)
    requires IsAdmin(admin, s.roles)
    requires id in s.roles && s.roles[id].name != "admin"
    requires actor.roleId == Some(id)
    ensures UserController.GateRefuses(actor, s.roles)
    ensures RoleController.DestroyRole(admin, s, id).outcome.Done?
    ensures !UserController.GateRefuses(actor, RoleController.DestroyRole(admin, s, id).store.roles)
  {
  }

  const SeededRoles: map<RoleId, Role> := map[1 := Role("admin"), 2 := Role("user")]

  function SeededStore(services: Services): Store {
    InitialAdminSeeder.Run(services, AdminSeeder.Run(EmptyStore))
  }

  /** `AdminSeeder` on an empty database: 'admin' gets key 1, 'user' key 2. */
  lemma AdminSeederOnEmptyStore()
    ensures AdminSeeder.Run(EmptyStore) == Tables(map[], SeededRoles, 1, 3)
  {
  }

  /** `InitialAdminSeeder` next reuses role 1 and creates user 1. */
  lemma SeedersOnEmptyStore(services: Services)
    ensures SeededStore(services) == SeededTables(services)
  {
  }

  function JohnRequest(): Request {
    map[NameInput := Text("John"), EmailInput := Text("john@x.com"),
        PasswordInput := Text("password1"), ConfirmationOf(PasswordInput) := Text("password1"),
        RoleIdInput := Number(2)]
  }

  function John(services: Services): User {
    User("John", "john@x.com", services.hash("password1"), Some(2))
  }

  /** The seeded database, row by row. */
  function SeededTables(services: Services): Store {
    Tables(map[1 := InitialAdminSeeder.AdminUser(services, 1)], SeededRoles, 2, 3)
  }

  /** On the seeded database (`SeedersOnEmptyStore`), `store` creates John
      with the 'user' role under key 2. */
  lemma StoreAcceptsJohn(services: Services)
    requires services.isEmail("john@x.com")
    ensures UserController.StoreUser(services, SeededTables(services), JohnRequest()) ==
      Reply(Created(2), Tables(map[1 := InitialAdminSeeder.AdminUser(services, 1), 2 := John(services)], SeededRoles, 3, 3))
  {
    var s := SeededTables(services);
    var req := JohnRequest();
    assert !Blank("John") by { assert "John"[0] !in TrimmedChars; }
    assert !Blank("john@x.com") by { assert "john@x.com"[0] !in TrimmedChars; }
    assert !Blank("password1") by { assert "password1"[0] !in TrimmedChars; }
    assert !EmailTaken(s.users, "john@x.com", None);
    assert UserController.AcceptableName(Input(req, NameInput));
    assert UserController.AcceptableEmail(Input(req, EmailInput), s.users, None, services);
    assert UserController.AcceptablePassword(req);
    assert UserController.ExistingRoleRef(Input(req, RoleIdInput), s.roles);
  }

  /** John, whose role resolves to 'user', is refused when deleting the
      administrator, and both users remain. */
  lemma JohnCannotDeleteAdmin(services: Services)
    ensures
      var s: Store := Tables(map[1 := InitialAdminSeeder.AdminUser(services, 1), 2 := John(services)], SeededRoles, 3, 3);
      var r := UserController.DestroyUser(John(services), s, 1);
      r.outcome == Refused(Forbidden) && |r.store.users| == 2
  {
  }
}
