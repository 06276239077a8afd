/** The persistent state the controllers and seeders act on: the `users` and
    `roles` tables, keyed by auto-increment primary keys, and the framework
    services the application calls without looking inside. */
module Store {

  datatype Option<+T> = None | Some(value: T)

  type UserId = nat
  type RoleId = nat

  /** A password after hashing. Only `Services.hash` is meant to produce one,
      and being a type of its own, a raw password string cannot be stored in
      its place. */
  datatype Credential = Credential(digest: string)

  /** Collaborators treated as opaque: `bcrypt`/`Hash::make`, and the syntax
      check behind the `email` validation rule. */
  datatype Services = Services(hash: string -> Credential, isEmail: string -> bool)

  datatype Role = Role(name: string)

  /** A row of `users`; `roleId` is the nullable `role_id` foreign key. */
  datatype User = User(name: string, email: string, credential: Credential, roleId: Option<RoleId>)

  datatype Tables = Tables(
    users: map<UserId, User>,
    roles: map<RoleId, Role>,
    nextUserId: UserId,
    nextRoleId: RoleId)
  {
    /** Every key in use was handed out by its table's counter, so the
        counter's current value is free. */
    predicate KeysBelowCounters() {
      && (forall id :: id in users ==> id < nextUserId)
      && (forall id :: id in roles ==> id < nextRoleId)
    }
  }

  /** The database as the application sees it. */
  type Store = t: Tables | t.KeysBelowCounters() witness Tables(map[], map[], 0, 0)

  /** A database with no rows; auto-increment keys start at 1. */
  const EmptyStore: Store := Tables(map[], map[], 1, 1)

  /** `User::create`: inserts `u` under a fresh key and leaves every other row alone. */
  function InsertUser(s: Store, u: User): (r: (Store, UserId))
    ensures r.1 !in s.users && r.0.users == s.users[r.1 := u]
    ensures s.nextUserId <= r.1 < r.0.nextUserId
    ensures r.0.roles == s.roles && r.0.nextRoleId == s.nextRoleId
  {
    (s.(users := s.users[s.nextUserId := u], nextUserId := s.nextUserId + 1), s.nextUserId)
  }

  /** `Role::create`: inserts `role` under a fresh key and leaves every other row alone. */
  function InsertRole(s: Store, role: Role): (r: (Store, RoleId))
    ensures r.1 !in s.roles && r.0.roles == s.roles[r.1 := role]
    ensures s.nextRoleId <= r.1 < r.0.nextRoleId
    ensures r.0.users == s.users && r.0.nextUserId == s.nextUserId
  {
    (s.(roles := s.roles[s.nextRoleId := role], nextRoleId := s.nextRoleId + 1), s.nextRoleId)
  }

  /** The `role` relation of a user: null when `role_id` is null or refers
      to a role row that no longer exists. */
  function RoleOf(u: User, roles: map<RoleId, Role>): Option<Role> {
    if u.roleId.Some? && u.roleId.value in roles then Some(roles[u.roleId.value]) else None
  }

  /** The user's role resolves and is named exactly 'admin'. */
  predicate IsAdmin(u: User, roles: map<RoleId, Role>) {
    RoleOf(u, roles) == Some(Role("admin"))
  }

  /** Some user other than `ignore` already has `email`. */
  predicate EmailTaken(users: map<UserId, User>, email: string, ignore: Option<UserId>) {
    exists id :: id in users && Some(id) != ignore && users[id].email == email
  }

  /** Some role other than `ignore` already has `name`. */
  predicate RoleNameTaken(roles: map<RoleId, Role>, name: string, ignore: Option<RoleId>) {
    exists id :: id in roles && Some(id) != ignore && roles[id].name == name
  }

  predicate EmailsDistinct(users: map<UserId, User>) {
    forall a, b :: a in users && b in users && a != b ==> users[a].email != users[b].email
  }

  predicate RoleNamesDistinct(roles: map<RoleId, Role>) {
    forall a, b :: a in roles && b in roles && a != b ==> roles[a].name != roles[b].name
  }

  /** Every `role_id` that is set refers to an existing role. */
  predicate RoleRefsResolve(s: Store) {
    forall id :: id in s.users && s.users[id].roleId.Some? ==> s.users[id].roleId.value in s.roles
  }
}
