/** The three state-changing actions of the user controller: `update` and
    `destroy`, both behind an inline admin check, and `store`, which has no
    check at all. */
module UserController {
  import opened Store
  import opened Validation
  import opened Responses

  /** The check at the top of `update` and `destroy`. It turns the actor away
      only when the actor's role resolves and is not named 'admin'; an actor
      whose role is null (never set, or deleted since) goes through. */
  predicate GateRefuses(actor: User, roles: map<RoleId, Role>) {
    var role := RoleOf(actor, roles);
    role.Some? && role.value.name != "admin"
  }

  // The rule tables, as the controller passes them to `$request->validate`.

  const NameRules: seq<Rule> := [Required, IsString, Max(255)]
  const PasswordRules: seq<Rule> := [Required, IsString, Min(8), Confirmed]
  const RoleIdRules: seq<Rule> := [Required, ExistingRole]

  function EmailRules(ignore: Option<UserId>): seq<Rule> {
    [Required, EmailFormat, UniqueEmail(ignore)]
  }

  function UpdateRules(target: UserId): map<Field, seq<Rule>> {
    map[NameInput := NameRules, EmailInput := EmailRules(Some(target)), RoleIdInput := RoleIdRules]
  }

  const StoreRules: map<Field, seq<Rule>> :=
    map[NameInput := NameRules, EmailInput := EmailRules(None),
        PasswordInput := PasswordRules, RoleIdInput := RoleIdRules]

  // What the rule tables accept, said directly.

  /** A non-blank text of at most 255 characters. */
  predicate AcceptableName(v: Option<Value>) {
    v.Some? && v.value.Text? && !Blank(v.value.text) && |v.value.text| <= 255
  }

  /** A non-blank, well-formed address no user other than `ignore` has. */
  predicate AcceptableEmail(v: Option<Value>, users: map<UserId, User>, ignore: Option<UserId>, services: Services) {
    && v.Some? && v.value.Text? && !Blank(v.value.text)
    && services.isEmail(v.value.text)
    && !EmailTaken(users, v.value.text, ignore)
  }

  /** A non-blank text of at least 8 characters, repeated exactly in `password_confirmation`. */
  predicate AcceptablePassword(req: Request) {
    var v := Input(req, PasswordInput);
    && v.Some? && v.value.Text? && !Blank(v.value.text) && |v.value.text| >= 8
    && Input(req, ConfirmationOf(PasswordInput)) == v
  }

  /** The key of an existing role. */
  predicate ExistingRoleRef(v: Option<Value>, roles: map<RoleId, Role>) {
    v.Some? && v.value.Number? && v.value.number >= 0 && v.value.number as RoleId in roles
  }

  lemma NameRulesMeaning(req: Request, s: Store, services: Services)
    ensures AllPass(NameRules, NameInput, req, s, services) <==> AcceptableName(Input(req, NameInput))
  {
    if AllPass(NameRules, NameInput, req, s, services) {
      assert Passes(NameRules[0], NameInput, req, s, services);
      assert Passes(NameRules[1], NameInput, req, s, services);
      assert Passes(NameRules[2], NameInput, req, s, services);
    }
  }

  lemma EmailRulesMeaning(req: Request, s: Store, services: Services, ignore: Option<UserId>)
    ensures AllPass(EmailRules(ignore), EmailInput, req, s, services)
        <==> AcceptableEmail(Input(req, EmailInput), s.users, ignore, services)
  {
    var rules := EmailRules(ignore);
    if AllPass(rules, EmailInput, req, s, services) {
      assert Passes(rules[0], EmailInput, req, s, services);
      assert Passes(rules[1], EmailInput, req, s, services);
      assert Passes(rules[2], EmailInput, req, s, services);
    }
  }

  lemma PasswordRulesMeaning(req: Request, s: Store, services: Services)
    ensures AllPass(PasswordRules, PasswordInput, req, s, services) <==> AcceptablePassword(req)
  {
    if AllPass(PasswordRules, PasswordInput, req, s, services) {
      assert Passes(PasswordRules[0], PasswordInput, req, s, services);
      assert Passes(PasswordRules[1], PasswordInput, req, s, services);
      assert Passes(PasswordRules[2], PasswordInput, req, s, services);
      assert Passes(PasswordRules[3], PasswordInput, req, s, services);
    }
  }

  lemma RoleIdRulesMeaning(req: Request, s: Store, services: Services)
    ensures AllPass(RoleIdRules, RoleIdInput, req, s, services) <==> ExistingRoleRef(Input(req, RoleIdInput), s.roles)
  {
    if AllPass(RoleIdRules, RoleIdInput, req, s, services) {
      assert Passes(RoleIdRules[0], RoleIdInput, req, s, services);
      assert Passes(RoleIdRules[1], RoleIdInput, req, s, services);
    }
  }

  /** `User::findOrFail($request->input('id'))`: the target of `update`. */
  function FindTarget(req: Request, users: map<UserId, User>): Option<UserId> {
    match Input(req, IdInput)
    case Some(Number(n)) => if n >= 0 && n as UserId in users then Some(n as UserId) else None
    case _ => None
  }

  /** `update`: overwrite the name, email and role of the user whose key is
      in the `id` input. Every failure after the admin check, the missing
      user included, is caught and reported as `Failed`. */
  function UpdateUser(services: Services, actor: User, s: Store, req: Request): (r: Reply)
    ensures GateRefuses(actor, s.roles) ==> r == Reply(Refused(Forbidden), s)
    ensures r.outcome.Done? <==>
      && !GateRefuses(actor, s.roles)
      && FindTarget(req, s.users).Some?
      && AcceptableName(Input(req, NameInput))
      && AcceptableEmail(Input(req, EmailInput), s.users, FindTarget(req, s.users), services)
      && ExistingRoleRef(Input(req, RoleIdInput), s.roles)
    ensures !GateRefuses(actor, s.roles) && !r.outcome.Done? ==> r == Reply(Refused(Failed), s)
    ensures r.outcome.Done? ==>
      var t := FindTarget(req, s.users).value;
      && r.store == s.(users := r.store.users)
      && r.store.users.Keys == s.users.Keys
      && r.store.users[t] == s.users[t].(name := req[NameInput].text, email := req[EmailInput].text,
                                         roleId := Some(req[RoleIdInput].number as RoleId))
      && (forall id :: id in s.users && id != t ==> r.store.users[id] == s.users[id])
    ensures EmailsDistinct(s.users) ==> EmailsDistinct(r.store.users)
  {
    if GateRefuses(actor, s.roles) then Reply(Refused(Forbidden), s)
    else match FindTarget(req, s.users)
      case None => Reply(Refused(Failed), s)
      case Some(t) =>
        NameRulesMeaning(req, s, services);
        EmailRulesMeaning(req, s, services, Some(t));
        RoleIdRulesMeaning(req, s, services);
        var bad := Violations(UpdateRules(t), req, s, services);
        if bad != {} then Reply(Refused(Failed), s)
        else
          assert NameInput !in bad && EmailInput !in bad && RoleIdInput !in bad;
          var u := s.users[t].(name := req[NameInput].text, email := req[EmailInput].text,
                               roleId := Some(req[RoleIdInput].number as RoleId));
          Reply(Done, s.(users := s.users[t := u]))
  }

  /** `destroy($id)`: delete that user. There is no guard for the last admin
      and none against deleting oneself; an unknown key is caught and
      reported as `Failed`. */
  function DestroyUser(actor: User, s: Store, id: UserId): (r: Reply)
    ensures GateRefuses(actor, s.roles) ==> r == Reply(Refused(Forbidden), s)
    ensures !GateRefuses(actor, s.roles) && id !in s.users ==> r == Reply(Refused(Failed), s)
    ensures r.outcome.Done? <==> !GateRefuses(actor, s.roles) && id in s.users
    ensures r.outcome.Done? ==>
      && r.store == s.(users := r.store.users)
      && r.store.users.Keys == s.users.Keys - {id}
      && (forall k :: k in r.store.users ==> r.store.users[k] == s.users[k])
    ensures EmailsDistinct(s.users) ==> EmailsDistinct(r.store.users)
  {
    if GateRefuses(actor, s.roles) then Reply(Refused(Forbidden), s)
    else if id !in s.users then Reply(Refused(Failed), s)
    else Reply(Done, s.(users := s.users - {id}))
  }

  /** `store`: create a user. Nothing checks who the actor is, so the action
      takes no actor. Validation failures are reported per input. */
  function StoreUser(services: Services, s: Store, req: Request): (r: Reply)
    ensures r.outcome.Created? || r.outcome.Refused?
    ensures r.outcome.Created? <==>
      && AcceptableName(Input(req, NameInput))
      && AcceptableEmail(Input(req, EmailInput), s.users, None, services)
      && AcceptablePassword(req)
      && ExistingRoleRef(Input(req, RoleIdInput), s.roles)
    ensures r.outcome.Refused? ==>
      && r.store == s
      && r.outcome.error.Invalid?
      && r.outcome.error.fields <= {NameInput, EmailInput, PasswordInput, RoleIdInput}
      && (NameInput in r.outcome.error.fields <==> !AcceptableName(Input(req, NameInput)))
      && (EmailInput in r.outcome.error.fields <==> !AcceptableEmail(Input(req, EmailInput), s.users, None, services))
      && (PasswordInput in r.outcome.error.fields <==> !AcceptablePassword(req))
      && (RoleIdInput in r.outcome.error.fields <==> !ExistingRoleRef(Input(req, RoleIdInput), s.roles))
    ensures r.outcome.Created? ==>
      && r.outcome.key !in s.users
      && r.store.users == s.users[r.outcome.key := User(req[NameInput].text, req[EmailInput].text,
                                                        services.hash(req[PasswordInput].text),
                                                        Some(req[RoleIdInput].number as RoleId))]
      && r.store.roles == s.roles
    ensures EmailsDistinct(s.users) ==> EmailsDistinct(r.store.users)
  {
    NameRulesMeaning(req, s, services);
    EmailRulesMeaning(req, s, services, None);
    PasswordRulesMeaning(req, s, services);
    RoleIdRulesMeaning(req, s, services);
    var bad := Violations(StoreRules, req, s, services);
    if bad != {} then Reply(Refused(Invalid(bad)), s)
    else
      assert NameInput !in bad && EmailInput !in bad && PasswordInput !in bad && RoleIdInput !in bad;
      var u := User(req[NameInput].text, req[EmailInput].text, services.hash(req[PasswordInput].text),
                    Some(req[RoleIdInput].number as RoleId));
      var (s', key) := InsertUser(s, u);
      Reply(Created(key), s')
  }

  /** The uniqueness rule of `update` ignores the target's key: resubmitting
      the target's current email passes, given the emails were distinct. */
  lemma UpdateAcceptsOwnEmail(services: Services, actor: User, s: Store, req: Request, t: UserId)
    requires EmailsDistinct(s.users)
    requires !GateRefuses(actor, s.roles)
    requires t in s.users && Input(req, IdInput) == Some(Number(t))
    requires AcceptableName(Input(req, NameInput)) && ExistingRoleRef(Input(req, RoleIdInput), s.roles)
    requires Input(req, EmailInput) == Some(Text(s.users[t].email))
    requires !Blank(s.users[t].email) && services.isEmail(s.users[t].email)
    ensures UpdateUser(services, actor, s, req).outcome.Done?
  {
  }

  /** The key in the `id` input and the email of another user: refused, and
      nothing changes. */
  lemma UpdateRejectsOthersEmail(services: Services, actor: User, s: Store, req: Request, t: UserId, other: UserId)
    requires t in s.users && other in s.users && t != other
    requires Input(req, IdInput) == Some(Number(t))
    requires Input(req, EmailInput) == Some(Text(s.users[other].email))
    ensures UpdateUser(services, actor, s, req).store == s
    ensures !UpdateUser(services, actor, s, req).outcome.Done?
  {
  }

  /** `destroy` has no last-administrator guard: an administrator can delete
      the only administrator, themselves included, and none is left. */
  lemma DestroyCanRemoveLastAdmin(actor: User, s: Store, id: UserId)
    requires IsAdmin(actor, s.roles)
    requires id in s.users && IsAdmin(s.users[id], s.roles)
    requires forall k :: k in s.users && k != id ==> !IsAdmin(s.users[k], s.roles)
    ensures DestroyUser(actor, s, id).outcome.Done?
    ensures forall k :: k in DestroyUser(actor, s, id).store.users ==>
      !IsAdmin(DestroyUser(actor, s, id).store.users[k], DestroyUser(actor, s, id).store.roles)
  {
  }

  /** The profile form posts only `name` and `email`. An actor the admin
      check turns away is refused by it; for anyone else, `findOrFail` finds
      nothing without an `id` input and the caught error follows. Either way
      an `update` from that form never changes the database. */
  lemma ProfileUpdateNeverApplies(services: Services, actor: User, s: Store, req: Request)
    requires IdInput !in req
    ensures UpdateUser(services, actor, s, req).store == s
    ensures GateRefuses(actor, s.roles) ==> UpdateUser(services, actor, s, req).outcome == Refused(Forbidden)
    ensures !GateRefuses(actor, s.roles) ==> UpdateUser(services, actor, s, req).outcome == Refused(Failed)
  {
  }
}
