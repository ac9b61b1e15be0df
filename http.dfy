/** The replies of the route handlers: a status code and a JSON body. */
module Http {
  import opened Prelude
  import opened Crypto
  import opened Schema

  /** The JSON bodies the handlers send. */
  datatype Body =
    | ErrorJson(error: string)                           // `{ error: "..." }`
    | ExceptionJson                                      // `{ error: e }` for a caught exception `e`
    | Flag(flag: bool)                                   // a bare `true` / `false`
    | UserJson(user: User)                               // a `users` row
    | LoginJson(token: Token, user: User)                // `{ token, ...user }`
    | CurrentUserJson(found: Option<User>, echoed: Option<Token>)  // `{ ...user, token }`
    | TaskJson(task: Task)                               // a `tasks` row
    | TaskListJson(tasks: seq<Task>)                     // an array of `tasks` rows

  /** `res.status(status).json(body)`; `res.json(body)` alone sends status 200. */
  datatype Reply = Reply(status: int, body: Body)
}
