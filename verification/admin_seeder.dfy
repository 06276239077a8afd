/** `AdminSeeder::run`: insert the roles 'admin' and 'user', in that order,
    without looking at what is already there. */
module AdminSeeder {
  import opened Store
  import InitialAdminSeeder

  /** Adds exactly two roles, 'admin' under the smaller of two fresh keys
      and 'user' under the larger; users and existing roles are untouched. */
  function Run(s: Store): (r: Store)
    ensures r.users == s.users && r.nextUserId == s.nextUserId
    ensures exists admin: RoleId, user: RoleId ::
      && admin !in s.roles && user !in s.roles && admin < user
      && r.roles == s.roles[admin := Role("admin")][user := Role("user")]
  {
    var (s1, _) := InsertRole(s, Role("admin"));
    InsertRole(s1, Role("user")).0
  }

  /** Run after the initial administrator seeder, this seeder adds a second
      role named 'admin': the names stop being distinct. */
  lemma AfterInitialAdminSeederDuplicatesAdmin(services: Services, s: Store)
    ensures !RoleNamesDistinct(Run(InitialAdminSeeder.Run(services, s)).roles)
  {
    var s1 := InitialAdminSeeder.Run(services, s);
    var uid, rid :| && uid !in s.users
                    && rid in s1.roles && s1.roles[rid].name == "admin"
                    && s1.users == s.users[uid := InitialAdminSeeder.AdminUser(services, rid)];
    var r := Run(s1);
    var admin, user :| && admin !in s1.roles && user !in s1.roles && admin < user
                       && r.roles == s1.roles[admin := Role("admin")][user := Role("user")];
    assert rid != admin && r.roles[rid].name == r.roles[admin].name;
  }

  /** Run before it instead, on a database without roles named 'admin' or
      'user', the initial administrator seeder reuses the 'admin' role, and
      the role names stay distinct. */
  lemma BeforeInitialAdminSeederKeepsNamesDistinct(services: Services, s: Store)
    requires RoleNamesDistinct(s.roles)
    requires !RoleNameTaken(s.roles, "admin", None)
    requires !RoleNameTaken(s.roles, "user", None)
    ensures RoleNamesDistinct(InitialAdminSeeder.Run(services, Run(s)).roles)
  {
  }
}
