/** The role controller: every action sits behind the closure middleware the
    constructor registers, which lets only an actor whose role is named
    exactly 'admin' through. */
module RoleController {
  import opened Store
  import opened Validation
  import opened Responses

  /** The constructor's middleware. Reading `->name` of a null role raises
      an error, so an actor without a resolvable role is stopped by a crash
      rather than by the redirect. */
  function Gate(actor: User, roles: map<RoleId, Role>): (refusal: Option<Error>)
    ensures refusal.None? <==> IsAdmin(actor, roles)
    ensures RoleOf(actor, roles).None? ==> refusal == Some(Crashed)
    ensures RoleOf(actor, roles).Some? && !IsAdmin(actor, roles) ==> refusal == Some(Forbidden)
  {
    match RoleOf(actor, roles)
    case None => Some(Crashed)
    case Some(role) => if role.name != "admin" then Some(Forbidden) else None
  }

  function NameRules(ignore: Option<RoleId>): seq<Rule> {
    [Required, IsString, UniqueRoleName(ignore)]
  }

  /** A non-blank text no role other than `ignore` is named. */
  predicate AcceptableRoleName(v: Option<Value>, roles: map<RoleId, Role>, ignore: Option<RoleId>) {
    v.Some? && v.value.Text? && !Blank(v.value.text) && !RoleNameTaken(roles, v.value.text, ignore)
  }

  /** Validating `name` against `NameRules(ignore)` reports exactly the
      names `AcceptableRoleName` rejects. */
  lemma NameRulesMeaning(req: Request, s: Store, services: Services, ignore: Option<RoleId>)
    ensures Violations(map[NameInput := NameRules(ignore)], req, s, services) ==
      (if AcceptableRoleName(Input(req, NameInput), s.roles, ignore) then {} else {NameInput})
  {
    var rules := NameRules(ignore);
    var bad := Violations(map[NameInput := rules], req, s, services);
    if AllPass(rules, NameInput, req, s, services) {
      assert Passes(rules[0], NameInput, req, s, services);
      assert Passes(rules[1], NameInput, req, s, services);
      assert Passes(rules[2], NameInput, req, s, services);
      assert NameInput !in bad;
    } else {
      assert NameInput in bad;
    }
  }

  /** `store`: create a role with the given name. */
  function StoreRole(services: Services, actor: User, s: Store, req: Request): (r: Reply)
    ensures r.outcome.Created? || r.outcome.Refused?
    ensures !IsAdmin(actor, s.roles) ==> r == Reply(Refused(Gate(actor, s.roles).value), s)
    ensures r.outcome.Created? <==> IsAdmin(actor, s.roles) && AcceptableRoleName(Input(req, NameInput), s.roles, None)
    ensures IsAdmin(actor, s.roles) && r.outcome.Refused? ==> r == Reply(Refused(Invalid({NameInput})), s)
    ensures r.outcome.Created? ==>
      && r.outcome.key !in s.roles
      && r.store.roles == s.roles[r.outcome.key := Role(req[NameInput].text)]
      && r.store.users == s.users
    ensures RoleNamesDistinct(s.roles) ==> RoleNamesDistinct(r.store.roles)
  {
    match Gate(actor, s.roles)
    case Some(refusal) => Reply(Refused(refusal), s)
    case None =>
      NameRulesMeaning(req, s, services, None);
      var bad := Violations(map[NameInput := NameRules(None)], req, s, services);
      if bad != {} then Reply(Refused(Invalid(bad)), s)
      else
        var (s', key) := InsertRole(s, Role(req[NameInput].text));
        Reply(Created(key), s')
  }

  /** `update`: rename the role bound from the URL. The uniqueness rule
      ignores the role's own key, so keeping the current name is accepted. */
  function UpdateRole(services: Services, actor: User, s: Store, id: RoleId, req: Request): (r: Reply)
    ensures id !in s.roles ==> r == Reply(Refused(NotFound), s)
    ensures id in s.roles && !IsAdmin(actor, s.roles) ==> r == Reply(Refused(Gate(actor, s.roles).value), s)
    ensures r.outcome.Done? <==>
      id in s.roles && IsAdmin(actor, s.roles) && AcceptableRoleName(Input(req, NameInput), s.roles, Some(id))
    ensures !r.outcome.Done? ==> r.store == s && r.outcome.Refused?
    ensures id in s.roles && IsAdmin(actor, s.roles) && !r.outcome.Done? ==> r.outcome == Refused(Invalid({NameInput}))
    ensures r.outcome.Done? ==>
      && r.store == s.(roles := r.store.roles)
      && r.store.roles.Keys == s.roles.Keys
      && r.store.roles[id] == Role(req[NameInput].text)
      && (forall k :: k in s.roles && k != id ==> r.store.roles[k] == s.roles[k])
    ensures RoleNamesDistinct(s.roles) ==> RoleNamesDistinct(r.store.roles)
  {
    if id !in s.roles then Reply(Refused(NotFound), s)
    else match Gate(actor, s.roles)
      case Some(refusal) => Reply(Refused(refusal), s)
      case None =>
        NameRulesMeaning(req, s, services, Some(id));
        var bad := Violations(map[NameInput := NameRules(Some(id))], req, s, services);
        if bad != {} then Reply(Refused(Invalid(bad)), s)
        else Reply(Done, s.(roles := s.roles[id := Role(req[NameInput].text)]))
  }

  /** `destroy`: delete the role bound from the URL. Users that refer to it
      are not checked and keep their `role_id`. */
  function DestroyRole(actor: User, s: Store, id: RoleId): (r: Reply)
    ensures id !in s.roles ==> r == Reply(Refused(NotFound), s)
    ensures id in s.roles && !IsAdmin(actor, s.roles) ==> r == Reply(Refused(Gate(actor, s.roles).value), s)
    ensures r.outcome.Done? <==> id in s.roles && IsAdmin(actor, s.roles)
    ensures !r.outcome.Done? ==> r.store == s && r.outcome.Refused?
    ensures r.outcome.Done? ==>
      && r.store == s.(roles := r.store.roles)
      && r.store.roles.Keys == s.roles.Keys - {id}
      && (forall k :: k in r.store.roles ==> r.store.roles[k] == s.roles[k])
    ensures RoleNamesDistinct(s.roles) ==> RoleNamesDistinct(r.store.roles)
  {
    if id !in s.roles then Reply(Refused(NotFound), s)
    else match Gate(actor, s.roles)
      case Some(refusal) => Reply(Refused(refusal), s)
      case None => Reply(Done, s.(roles := s.roles - {id}))
  }

  /** The uniqueness rule of `update` ignores the role's own key: keeping
      the current name passes, given the names were distinct. */
  lemma UpdateRoleAcceptsOwnName(services: Services, actor: User, s: Store, id: RoleId, req: Request)
    requires RoleNamesDistinct(s.roles)
    requires IsAdmin(actor, s.roles)
    requires id in s.roles && !Blank(s.roles[id].name)
    requires Input(req, NameInput) == Some(Text(s.roles[id].name))
    ensures UpdateRole(services, actor, s, id, req).outcome.Done?
    ensures UpdateRole(services, actor, s, id, req).store == s
  {
  }

  /** `destroy` does not look at the users: deleting a role still referred
      to succeeds, and the referring user keeps a `role_id` that no longer
      resolves. */
  lemma DestroyRoleStrandsUsers(actor: User, s: Store, id: RoleId, holder: UserId)
    requires IsAdmin(actor, s.roles)
    requires id in s.roles
    requires holder in s.users && s.users[holder].roleId == Some(id)
    ensures DestroyRole(actor, s, id).outcome.Done?
    ensures DestroyRole(actor, s, id).store.users[holder].roleId == Some(id)
    ensures !RoleRefsResolve(DestroyRole(actor, s, id).store)
  {
  }
}
