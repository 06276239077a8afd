/** `InitialAdminSeeder::run`: find or create the role named 'admin', then
    insert the first administrator and link it to that role. */
module InitialAdminSeeder {
  import opened Store

  /** The row `Role::where('name', name)->first()` returns, looking at the
      keys in `[from, bound)`: the lowest key of a role with that name. */
  function FirstRoleNamed(roles: map<RoleId, Role>, name: string, from: RoleId, bound: RoleId): (r: Option<RoleId>)
    decreases bound - from
    ensures r.Some? ==> from <= r.value < bound && r.value in roles && roles[r.value].name == name
    ensures r.Some? ==> forall id :: from <= id < r.value && id in roles ==> roles[id].name != name
    ensures r.None? ==> forall id :: from <= id < bound && id in roles ==> roles[id].name != name
  {
    if from >= bound then None
    else if from in roles && roles[from].name == name then Some(from)
    else FirstRoleNamed(roles, name, from + 1, bound)
  }

  /** `Role::firstOrCreate(['name' => name])`: the lowest-keyed role with
      that name if there is one, otherwise a new role with that name. */
  function FirstOrCreateRole(s: Store, name: string): (r: (Store, RoleId))
    ensures r.1 in r.0.roles && r.0.roles[r.1].name == name
    ensures r.0.users == s.users && r.0.nextUserId == s.nextUserId
    ensures RoleNameTaken(s.roles, name, None) ==>
      && r.0.roles == s.roles
      && (forall id :: id in s.roles && s.roles[id].name == name ==> r.1 <= id)
    ensures !RoleNameTaken(s.roles, name, None) ==> r.1 !in s.roles && r.0.roles == s.roles[r.1 := Role(name)]
  {
    match FirstRoleNamed(s.roles, name, 0, s.nextRoleId)
    case Some(id) => (s, id)
    case None => InsertRole(s, Role(name))
  }

  /** The user the seeder creates, linked to `adminRole`. */
  function AdminUser(services: Services, adminRole: RoleId): User {
    User("Admin User", "admin@example.com", services.hash("password123"), Some(adminRole))
  }

  /** Adds exactly one user, the administrator, linked to a role named
      'admin'; the lowest-keyed such role is reused when one exists, and one
      is created otherwise.
      Nothing checks whether admin@example.com is already in use. */
  function Run(services: Services, s: Store): (r: Store)
    ensures RoleNameTaken(s.roles, "admin", None) ==> r.roles == s.roles
    ensures !RoleNameTaken(s.roles, "admin", None) ==>
      exists id: RoleId :: id !in s.roles && r.roles == s.roles[id := Role("admin")]
    ensures exists uid: UserId, rid: RoleId ::
      && uid !in s.users
      && rid in r.roles && r.roles[rid].name == "admin"
      && (forall id :: id in s.roles && s.roles[id].name == "admin" ==> rid <= id)
      && r.users == s.users[uid := AdminUser(services, rid)]
    ensures RoleNamesDistinct(s.roles) ==> RoleNamesDistinct(r.roles)
    ensures EmailsDistinct(s.users) && !EmailTaken(s.users, "admin@example.com", None) ==> EmailsDistinct(r.users)
  {
    var (s1, adminRole) := FirstOrCreateRole(s, "admin");
    InsertUser(s1, AdminUser(services, adminRole)).0
  }

  /** Seeding over a database that already holds admin@example.com leaves
      two users with that address. */
  lemma RunIgnoresTakenEmail(services: Services, s: Store, holder: UserId)
    requires holder in s.users && s.users[holder].email == "admin@example.com"
    ensures !EmailsDistinct(Run(services, s).users)
  {
    var r := Run(services, s);
    var uid, rid :| && uid !in s.users
                    && rid in r.roles && r.roles[rid].name == "admin"
                    && r.users == s.users[uid := AdminUser(services, rid)];
    assert holder != uid && r.users[holder].email == r.users[uid].email;
  }
}
