/**
 The user registry: `POST /api/users` (register), `GET /api/users` (list,
 newest first) and the name lookup `SELECT name FROM users WHERE badge_id = ?
 LIMIT 1` that the movement handler uses to enrich its response.
 */
module Registry {
  import opened Rows

  /** Index of the first (lowest id) user row carrying badge `b`, if any.
      `LIMIT 1` without `ORDER BY` is read as "the first row in id order". */
  function FirstMatch(users: seq<UserRow>, b: string): (r: Option<nat>)
    ensures r.None? <==> forall i :: 0 <= i < |users| ==> users[i].badgeId != b
    ensures r.Some? ==> r.value < |users| && users[r.value].badgeId == b
    ensures r.Some? ==> forall j :: 0 <= j < r.value ==> users[j].badgeId != b
  {
    if |users| == 0 then None
    else if users[0].badgeId == b then Some(0)
    else
      match FirstMatch(users[1..], b)
      case None => None
      case Some(k) => Some(k + 1)
  }

  /** The display name the movement handler reports for badge `b`: the name on
      the first user row for `b`, or `null` when `b` is not registered. */
  function NameFor(users: seq<UserRow>, b: string): (r: Option<string>)
    ensures r.None? <==> forall i :: 0 <= i < |users| ==> users[i].badgeId != b
    ensures r.Some? ==> exists i :: 0 <= i < |users| && users[i].badgeId == b && users[i].name == r.value
  {
    match FirstMatch(users, b)
    case None => None
    case Some(i) => Some(users[i].name)
  }

  /** `s` in reverse order. */
  function Reverse<T>(s: seq<T>): (r: seq<T>)
    ensures |r| == |s|
    ensures forall i :: 0 <= i < |s| ==> r[i] == s[|s| - 1 - i]
  {
    if |s| == 0 then [] else [s[|s| - 1]] + Reverse(s[..|s| - 1])
  }

  /** `POST /api/users`: rejects a missing or empty `badge_id` or `name` with 400
      and touches nothing; otherwise inserts one row, storing `email` and `role`
      as NULL when they are falsy, and answers 201. No duplicate check. */
  function PostUser(s: Store, badgeId: Field, name: Field, email: Field, role: Field): (r: Reply)
    ensures r.response.status == 201 <==> Truthy(badgeId) && Truthy(name)
    ensures !(Truthy(badgeId) && Truthy(name)) ==>
              r == Reply(s, Response(400, Message(UserFieldsRequired)))
    ensures Truthy(badgeId) && Truthy(name) ==>
              && r.response == Response(201, Message(UserCreated))
              && r.store.movements == s.movements
              && |r.store.users| == |s.users| + 1
              && r.store.users[..|s.users|] == s.users
              && var u := r.store.users[|s.users|];
                 && Text(u.badgeId) == badgeId && Text(u.name) == name
                 && (u.email.None? <==> !Truthy(email)) && (u.email.Some? ==> Text(u.email.value) == email)
                 && (u.role.None? <==> !Truthy(role)) && (u.role.Some? ==> Text(u.role.value) == role)
  {
    if !Truthy(badgeId) || !Truthy(name) then
      Reply(s, Response(400, Message(UserFieldsRequired)))
    else
      var row := UserRow(badgeId.s, name.s, OrNull(email), OrNull(role));
      Reply(Store(s.users + [row], s.movements), Response(201, Message(UserCreated)))
  }

  /** `GET /api/users`: every user row, highest id first. */
  function ListUsers(s: Store): (r: Response)
    ensures r.status == 200 && r.payload.Users?
    ensures |r.payload.users| == |s.users|
    ensures forall i :: 0 <= i < |s.users| ==> r.payload.users[i] == s.users[|s.users| - 1 - i]
  {
    Response(200, Users(Reverse(s.users)))
  }

  /** Number of user rows carrying badge `b`. */
  function CountBadge(users: seq<UserRow>, b: string): nat {
    if |users| == 0 then 0
    else (if users[|users| - 1].badgeId == b then 1 else 0) + CountBadge(users[..|users| - 1], b)
  }

  lemma {:induction false} CountBadgeAppend(users: seq<UserRow>, u: UserRow, b: string)
    ensures CountBadge(users + [u], b) == CountBadge(users, b) + (if u.badgeId == b then 1 else 0)
  {
    assert (users + [u])[..|users|] == users;
  }

  /** A badge has no user row exactly when its count is zero. */
  lemma {:induction false} CountBadgeZero(users: seq<UserRow>, b: string)
    ensures CountBadge(users, b) == 0 <==> forall i :: 0 <= i < |users| ==> users[i].badgeId != b
  {
    if |users| > 0 {
      var pre := users[..|users| - 1];
      CountBadgeZero(pre, b);
      assert forall i :: 0 <= i < |pre| ==> pre[i] == users[i];
    }
  }

  /** Registering a badge that is already registered adds a second row for it:
      the store keeps no uniqueness on `badge_id`. */
  lemma ReRegistrationDuplicates(s: Store, badgeId: Field, name: Field, email: Field, role: Field)
    requires Truthy(badgeId) && Truthy(name)
    requires CountBadge(s.users, badgeId.s) >= 1
    ensures PostUser(s, badgeId, name, email, role).response.status == 201
    ensures CountBadge(PostUser(s, badgeId, name, email, role).store.users, badgeId.s) >= 2
  {
    var r := PostUser(s, badgeId, name, email, role);
    assert r.store.users == s.users + [r.store.users[|s.users|]];
    CountBadgeAppend(s.users, r.store.users[|s.users|], badgeId.s);
  }

  /** Since the lookup takes the first row, registering a badge again does not
      change the name its movements are reported under. */
  lemma {:induction false} ReRegistrationKeepsName(s: Store, badgeId: Field, name: Field, email: Field, role: Field, b: string)
    requires NameFor(s.users, b).Some?
    ensures NameFor(PostUser(s, badgeId, name, email, role).store.users, b) == NameFor(s.users, b)
  {
    var users' := PostUser(s, badgeId, name, email, role).store.users;
    if users' != s.users {
      FirstMatchAppend(s.users, users'[|s.users|], b);
      assert users' == s.users + [users'[|s.users|]];
    }
  }

  /** Appending a user row changes the lookup only when the badge had no row before. */
  lemma {:induction false} FirstMatchAppend(users: seq<UserRow>, u: UserRow, b: string)
    ensures FirstMatch(users + [u], b) ==
              if FirstMatch(users, b).Some? then FirstMatch(users, b)
              else if u.badgeId == b then Some(|users|)
              else None
  {
    var all := users + [u];
    assert forall j :: 0 <= j < |users| ==> all[j] == users[j];
    assert all[|users|] == u;
    var r := FirstMatch(all, b);
    if FirstMatch(users, b).Some? {
      var k := FirstMatch(users, b).value;
      assert all[k].badgeId == b;
      assert r.Some? && r.value <= k;
      assert users[r.value].badgeId == b;
    }
  }

  /** A successful registration shows up first in the next listing, ahead of
      the previous listing unchanged. */
  lemma RegisterThenList(s: Store, badgeId: Field, name: Field, email: Field, role: Field)
    requires Truthy(badgeId) && Truthy(name)
    ensures var s' := PostUser(s, badgeId, name, email, role).store;
            ListUsers(s').payload.users ==
              [UserRow(badgeId.s, name.s, OrNull(email), OrNull(role))] + ListUsers(s).payload.users
  {
    var s' := PostUser(s, badgeId, name, email, role).store;
    var a := ListUsers(s').payload.users;
    var b := [UserRow(badgeId.s, name.s, OrNull(email), OrNull(role))] + ListUsers(s).payload.users;
    assert |a| == |b|;
    forall i | 0 <= i < |a| ensures a[i] == b[i] {
      if i > 0 {
        assert a[i] == s'.users[|s.users| - i];
      }
    }
  }
}
