/** The part of the framework's request validator the controllers rely on:
    a rule table maps each input to a list of rules, and validation reports
    the inputs with at least one failing rule. */
module Validation {
  import opened Store

  /** The request inputs the controllers read; `ConfirmationOf(f)` is the
      `<f>_confirmation` input the `confirmed` rule compares against. */
  datatype Field =
    | NameInput
    | EmailInput
    | PasswordInput
    | RoleIdInput
    | IdInput
    | ConfirmationOf(field: Field)

  /** An input value as it reaches the controller. Numeric inputs (`id`,
      `role_id`) are `Number`; everything else is `Text`. */
  datatype Value = Text(text: string) | Number(number: int)

  /** The request body; a missing key is an input the client did not send. */
  type Request = map<Field, Value>

  function Input(req: Request, f: Field): Option<Value> {
    if f in req then Some(req[f]) else None
  }

  datatype Rule =
    | Required                                // required
    | IsString                                // string
    | Max(limit: nat)                         // max:n, on a string's length
    | Min(limit: nat)                         // min:n, on a string's length
    | EmailFormat                             // email
    | Confirmed                               // confirmed
    | UniqueEmail(ignoreUser: Option<UserId>)  // unique:users,email[, ignored key]
    | UniqueRoleName(ignoreRole: Option<RoleId>) // unique:roles,name[, ignored key]
    | ExistingRole                            // exists:roles,id

  /** The characters PHP's `trim` strips by default. */
  const TrimmedChars: set<char> := {' ', '\t', '\n', '\r', '\0', '\U{000B}'}

  predicate Blank(s: string) {
    forall i :: 0 <= i < |s| ==> s[i] in TrimmedChars
  }

  /** An input `required` rejects: absent, or text that trims to nothing. */
  predicate Missing(v: Option<Value>) {
    v.None? || (v.value.Text? && Blank(v.value.text))
  }

  /** What a rule other than `required` demands of a present value. */
  predicate Holds(rule: Rule, f: Field, v: Value, req: Request, s: Store, services: Services) {
    match rule
    case Required => true
    case IsString => v.Text?
    case Max(n) => v.Text? && |v.text| <= n
    case Min(n) => v.Text? && |v.text| >= n
    case EmailFormat => v.Text? && services.isEmail(v.text)
    case Confirmed => Input(req, ConfirmationOf(f)) == Some(v)
    case UniqueEmail(ignore) => !(v.Text? && EmailTaken(s.users, v.text, ignore))
    case UniqueRoleName(ignore) => !(v.Text? && RoleNameTaken(s.roles, v.text, ignore))
    case ExistingRole => v.Number? && v.number >= 0 && v.number as RoleId in s.roles
  }

  /** One rule on one input. Only `required` is implicit: every other rule
      is skipped, and so passes, when the input is absent or blank. */
  predicate Passes(rule: Rule, f: Field, req: Request, s: Store, services: Services) {
    var v := Input(req, f);
    if rule.Required? then !Missing(v)
    else Missing(v) || Holds(rule, f, v.value, req, s, services)
  }

  predicate AllPass(rules: seq<Rule>, f: Field, req: Request, s: Store, services: Services) {
    forall k :: 0 <= k < |rules| ==> Passes(rules[k], f, req, s, services)
  }

  /** `$request->validate($rules)`: the inputs that fail validation. */
  function Violations(table: map<Field, seq<Rule>>, req: Request, s: Store, services: Services): set<Field> {
    set f | f in table && !AllPass(table[f], f, req, s, services)
  }
}
