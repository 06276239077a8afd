/** What a controller action hands back: how it ended, and the database
    after it. The redirects and flash messages of the application collapse
    into `Outcome`. */
module Responses {
  import opened Store
  import opened Validation

  datatype Error =
    | Forbidden                  // the admin check redirected with an error message
    | Crashed                    // the admin check dereferenced a null role
    | NotFound                   // route-model binding found no row for the key in the URL
    | Invalid(fields: set<Field>) // validation failed on these inputs
    | Failed                     // an exception was caught and reported generically

  datatype Outcome = Done | Created(key: nat) | Refused(error: Error)

  datatype Reply = Reply(outcome: Outcome, store: Store)
}
