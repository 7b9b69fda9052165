/**
 The data the badge API handles: the request fields it reads, the rows of its
 two tables (`users` and `movements`), and the responses it sends.

 The database is an abstract store of two sequences. A row's `id` is its
 position in its sequence plus one (AUTO_INCREMENT starting at 1, and nothing
 is ever deleted), so `ORDER BY id DESC` is the reverse of the sequence.
 */
module Rows {

  datatype Option<+T> = None | Some(value: T)

  /** A field of a parsed JSON request body, as destructuring `req.body` sees it:
      missing from the body, JSON `null`, or a JSON string. */
  datatype Field = Absent | Null | Text(s: string)

  /** JavaScript truthiness of a field: only a non-empty string is truthy. */
  predicate Truthy(f: Field) {
    f.Text? && f.s != ""
  }

  /** The value `f || null` binds into an INSERT: the string when it is truthy, SQL NULL otherwise. */
  function OrNull(f: Field): (r: Option<string>)
    ensures r.Some? <==> Truthy(f)
    ensures r.Some? ==> f == Text(r.value) && r.value != ""
  {
    if Truthy(f) then Some(f.s) else None
  }

  /** The direction values the alternator writes into `movements.type`. */
  const IN: string := "IN"
  const OUT: string := "OUT"

  /** A row of `users`; `email` and `role` are nullable columns. */
  datatype UserRow = UserRow(badgeId: string, name: string, email: Option<string>, role: Option<string>)

  /** A row of `movements`; `kind` is the `type` column, kept as text because the
      alternator compares it with `'IN'` by strict equality. */
  datatype MovementRow = MovementRow(badgeId: string, kind: string)

  /** The two tables, each in insertion (id) order. */
  datatype Store = Store(users: seq<UserRow>, movements: seq<MovementRow>)

  const Empty: Store := Store([], [])

  /** A row of the movement history: the movement's id, badge and type, and the
      joined user's name (`None` when the LEFT JOIN found no user). */
  datatype HistoryRow = HistoryRow(id: int, badgeId: string, kind: string, name: Option<string>)

  /** The JSON payloads the handlers send. */
  datatype Payload =
    | Message(text: string)
    | Users(users: seq<UserRow>)
    | Movement(badgeId: string, kind: string, name: Option<string>)
    | History(rows: seq<HistoryRow>)

  datatype Response = Response(status: nat, payload: Payload)

  /** What a writing handler produces: the store after the request, and the response. */
  datatype Reply = Reply(store: Store, response: Response)

  const UserFieldsRequired: string := "badge_id et name sont obligatoires"
  const UserCreated: string := "User cr\U{e9}\U{e9}"
  const BadgeRequired: string := "badge_id obligatoire"
}
