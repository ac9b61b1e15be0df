/**
 * The rows of the `users` and `tasks` tables and the request bodies that feed them.
 * The table definitions (db/schema.ts) are not part of this model. The fields are
 * the ones the handlers read and write.
 */
module Schema {
  import opened Prelude
  import opened Crypto

  type UserId = string
  type TaskId = string

  /**
   * A timestamp. `Parsed` is what `new Date(x)` makes of a request field (absent or
   * not). `Clock` is a server-side "now". JavaScript date parsing is not modelled.
   */
  datatype Date = Parsed(input: Option<string>) | Clock(instant: int)

  /** `new Date(x)`. */
  function ParseDate(input: Option<string>): Date {
    Parsed(input)
  }

  /** A row of `users`. `password` holds the bcrypt hash, never the password itself. */
  datatype User = User(id: UserId, name: string, email: string, password: PasswordHash,
                       createdAt: Date, updatedAt: Date)

  /** A task as a client sends it: any field may be missing, and the timestamps are still text. */
  datatype Draft = Draft(id: Option<TaskId>, title: string, description: Option<string>,
                         color: Option<string>, dueAt: Option<string>, createdAt: Option<string>,
                         updatedAt: Option<string>, uid: Option<UserId>)

  /** What a handler passes to `db.insert(tasks).values(...)`: dates parsed, owner set. */
  datatype NewTask = NewTask(id: Option<TaskId>, title: string, description: Option<string>,
                             color: Option<string>, dueAt: Date, createdAt: Option<Date>,
                             updatedAt: Option<Date>, uid: UserId)

  /** A row of `tasks`. */
  datatype Task = Task(id: TaskId, title: string, description: Option<string>,
                       color: Option<string>, dueAt: Date, createdAt: Date,
                       updatedAt: Date, uid: UserId)

  /**
   * The row the store keeps for an inserted value: the value's own fields, with the
   * column defaults (a generated id and the current time) where it left them out.
   */
  function Materialise(n: NewTask, generatedId: TaskId, now: Date): Task {
    Task(if n.id.Some? then n.id.value else generatedId, n.title, n.description, n.color, n.dueAt,
         if n.createdAt.Some? then n.createdAt.value else now,
         if n.updatedAt.Some? then n.updatedAt.value else now,
         n.uid)
  }
}
