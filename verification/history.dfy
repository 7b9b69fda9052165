/**
 `GET /api/movements`: the movement history, newest first, each movement
 LEFT JOINed with `users` on `badge_id`:

   SELECT m.id, m.badge_id, m.type, u.name FROM movements m
   LEFT JOIN users u ON u.badge_id = m.badge_id ORDER BY m.id DESC

 The join is modelled literally: a movement yields one row per matching user
 row (those in user id order) and a single row with a null name when no user
 matches.
 */
module History {
  import opened Rows
  import opened Registry

  /** The names of the user rows carrying badge `b`, in id order: one per user
      row the LEFT JOIN matches. */
  function MatchingNames(users: seq<UserRow>, b: string): (r: seq<string>)
    ensures |r| == CountBadge(users, b)
  {
    if |users| == 0 then []
    else
      var pre := MatchingNames(users[..|users| - 1], b);
      var u := users[|users| - 1];
      if u.badgeId == b then pre + [u.name] else pre
  }

  /** Each matched name is the name on a user row carrying badge `b`; `i` is that row. */
  lemma {:induction false} MatchingNameSource(users: seq<UserRow>, b: string, k: nat) returns (i: nat)
    requires k < |MatchingNames(users, b)|
    ensures i < |users| && users[i].badgeId == b && users[i].name == MatchingNames(users, b)[k]
  {
    var pre := users[..|users| - 1];
    var u := users[|users| - 1];
    if u.badgeId == b && k == |MatchingNames(pre, b)| {
      i := |users| - 1;
    } else {
      assert MatchingNames(users, b)[k] == MatchingNames(pre, b)[k];
      i := MatchingNameSource(pre, b, k);
      assert pre[i] == users[i];
    }
  }

  /** Each user row carrying badge `b` contributes its own name: the row at
      position `i` gives the matched name at position "how many earlier user
      rows carry `b`". */
  lemma {:induction false} MatchingNameAt(users: seq<UserRow>, b: string, i: nat)
    requires i < |users| && users[i].badgeId == b
    ensures CountBadge(users[..i], b) < |MatchingNames(users, b)|
    ensures MatchingNames(users, b)[CountBadge(users[..i], b)] == users[i].name
  {
    var pre := users[..|users| - 1];
    if i == |users| - 1 {
      assert users[..i] == pre;
    } else {
      MatchingNameAt(pre, b, i);
      assert users[..i] == pre[..i];
    }
  }

  /** The joined rows of movement `m`, whose id is `id`: one per matching user
      row, or a single unnamed row when the badge is not registered. */
  function JoinRows(id: nat, m: MovementRow, users: seq<UserRow>): (r: seq<HistoryRow>)
    ensures |r| == if CountBadge(users, m.badgeId) == 0 then 1 else CountBadge(users, m.badgeId)
    ensures forall k :: 0 <= k < |r| ==> r[k].id == id && r[k].badgeId == m.badgeId && r[k].kind == m.kind
    ensures forall k :: 0 <= k < |r| ==> (r[k].name.None? <==> CountBadge(users, m.badgeId) == 0)
    ensures forall k :: 0 <= k < |r| && r[k].name.Some? ==> r[k].name.value == MatchingNames(users, m.badgeId)[k]
  {
    var names := MatchingNames(users, m.badgeId);
    if |names| == 0 then [HistoryRow(id, m.badgeId, m.kind, None)]
    else seq(|names|, k requires 0 <= k < |names| => HistoryRow(id, m.badgeId, m.kind, Some(names[k])))
  }

  /** The joined rows of the movements `ms`, highest id first. */
  function Joined(ms: seq<MovementRow>, users: seq<UserRow>): seq<HistoryRow> {
    if |ms| == 0 then []
    else JoinRows(|ms|, ms[|ms| - 1], users) + Joined(ms[..|ms| - 1], users)
  }

  /** Row `k` of the history names an existing movement and carries its badge
      and type, and its name is null exactly when no user row carries that
      badge (otherwise it is the name on such a row). */
  lemma {:induction false} JoinedRowAt(ms: seq<MovementRow>, users: seq<UserRow>, k: nat)
    requires k < |Joined(ms, users)|
    ensures var row := Joined(ms, users)[k];
            && 1 <= row.id <= |ms|
            && row.badgeId == ms[row.id - 1].badgeId
            && row.kind == ms[row.id - 1].kind
            && (row.name.None? <==> forall i :: 0 <= i < |users| ==> users[i].badgeId != row.badgeId)
            && (row.name.Some? ==>
                  exists i :: 0 <= i < |users| && users[i].badgeId == row.badgeId && users[i].name == row.name.value)
  {
    var pre := ms[..|ms| - 1];
    var m := ms[|ms| - 1];
    var head := JoinRows(|ms|, m, users);
    var tail := Joined(pre, users);
    if k < |head| {
      assert Joined(ms, users)[k] == head[k];
      CountBadgeZero(users, m.badgeId);
      if head[k].name.Some? {
        var i := MatchingNameSource(users, m.badgeId, k);
      }
    } else {
      JoinedRowAt(pre, users, k - |head|);
      var row := tail[k - |head|];
      assert Joined(ms, users)[k] == row;
      assert ms[row.id - 1] == pre[row.id - 1];
    }
  }

  /** The history is ordered by movement id, descending. */
  lemma {:induction false} JoinedDescending(ms: seq<MovementRow>, users: seq<UserRow>, k: nat, l: nat)
    requires k < l < |Joined(ms, users)|
    ensures Joined(ms, users)[k].id >= Joined(ms, users)[l].id
  {
    var pre := ms[..|ms| - 1];
    var head := JoinRows(|ms|, ms[|ms| - 1], users);
    var tail := Joined(pre, users);
    var r := Joined(ms, users);
    if l < |head| {
      assert r[k] == head[k] && r[l] == head[l];
    } else if k < |head| {
      assert r[k] == head[k] && r[l] == tail[l - |head|];
      JoinedRowAt(pre, users, l - |head|);
    } else {
      assert r[k] == tail[k - |head|] && r[l] == tail[l - |head|];
      JoinedDescending(pre, users, k - |head|, l - |head|);
    }
  }

  /** Every movement appears in the history: `k` is the position of a row for movement `i + 1`. */
  lemma {:induction false} JoinedCoversMovements(ms: seq<MovementRow>, users: seq<UserRow>, i: nat) returns (k: nat)
    requires i < |ms|
    ensures k < |Joined(ms, users)| && Joined(ms, users)[k].id == i + 1
  {
    var pre := ms[..|ms| - 1];
    var head := JoinRows(|ms|, ms[|ms| - 1], users);
    var tail := Joined(pre, users);
    assert Joined(ms, users) == head + tail;
    if i == |ms| - 1 {
      k := 0;
      assert (head + tail)[0] == head[0];
    } else {
      var j := JoinedCoversMovements(pre, users, i);
      k := |head| + j;
      assert (head + tail)[k] == tail[j];
    }
  }

  lemma {:induction false} JoinedLength(ms: seq<MovementRow>, users: seq<UserRow>)
    ensures |Joined(ms, users)| >= |ms|
  {
    if |ms| > 0 {
      JoinedLength(ms[..|ms| - 1], users);
    }
  }

  /** A history row that describes movement `row.id` of `ms`, named from `users`. */
  predicate DescribesMovement(ms: seq<MovementRow>, users: seq<UserRow>, row: HistoryRow) {
    && 1 <= row.id <= |ms|
    && row.badgeId == ms[row.id - 1].badgeId
    && row.kind == ms[row.id - 1].kind
    && (row.name.None? <==> forall i :: 0 <= i < |users| ==> users[i].badgeId != row.badgeId)
    && (row.name.Some? ==>
          exists i :: 0 <= i < |users| && users[i].badgeId == row.badgeId && users[i].name == row.name.value)
  }

  lemma {:induction false} AllRowsDescribeMovements(ms: seq<MovementRow>, users: seq<UserRow>)
    ensures forall k :: 0 <= k < |Joined(ms, users)| ==> DescribesMovement(ms, users, Joined(ms, users)[k])
  {
    forall k | 0 <= k < |Joined(ms, users)| ensures DescribesMovement(ms, users, Joined(ms, users)[k]) {
      JoinedRowAt(ms, users, k);
    }
  }

  lemma {:induction false} AllRowsDescending(ms: seq<MovementRow>, users: seq<UserRow>)
    ensures forall k, l :: 0 <= k < l < |Joined(ms, users)| ==> Joined(ms, users)[k].id >= Joined(ms, users)[l].id
  {
    forall k, l | 0 <= k < l < |Joined(ms, users)| ensures Joined(ms, users)[k].id >= Joined(ms, users)[l].id {
      JoinedDescending(ms, users, k, l);
    }
  }

  /** Some row of `rows` is for movement `id`, of badge `b`. */
  predicate Listed(rows: seq<HistoryRow>, id: nat, b: string) {
    exists k :: 0 <= k < |rows| && rows[k].id == id && rows[k].badgeId == b
  }

  lemma {:induction false} AllMovementsCovered(ms: seq<MovementRow>, users: seq<UserRow>)
    ensures forall i :: 0 <= i < |ms| ==> Listed(Joined(ms, users), i + 1, ms[i].badgeId)
  {
    forall i | 0 <= i < |ms| ensures Listed(Joined(ms, users), i + 1, ms[i].badgeId) {
      var k := JoinedCoversMovements(ms, users, i);
      JoinedRowAt(ms, users, k);
    }
  }

  /** The rows of `rows` whose id is `id`, in order. */
  function RowsFor(rows: seq<HistoryRow>, id: int): seq<HistoryRow> {
    if |rows| == 0 then []
    else RowsFor(rows[..|rows| - 1], id) + (if rows[|rows| - 1].id == id then [rows[|rows| - 1]] else [])
  }

  lemma {:induction false} RowsForAppend(a: seq<HistoryRow>, b: seq<HistoryRow>, id: int)
    ensures RowsFor(a + b, id) == RowsFor(a, id) + RowsFor(b, id)
  {
    if |b| == 0 {
      assert a + b == a;
    } else {
      var b' := b[..|b| - 1];
      assert (a + b)[..|a + b| - 1] == a + b';
      assert (a + b)[|a + b| - 1] == b[|b| - 1];
      RowsForAppend(a, b', id);
    }
  }

  lemma {:induction false} RowsForAll(rows: seq<HistoryRow>, id: int)
    requires forall k :: 0 <= k < |rows| ==> rows[k].id == id
    ensures RowsFor(rows, id) == rows
  {
    if |rows| > 0 {
      RowsForAll(rows[..|rows| - 1], id);
      assert rows[..|rows| - 1] + [rows[|rows| - 1]] == rows;
    }
  }

  lemma {:induction false} RowsForNone(rows: seq<HistoryRow>, id: int)
    requires forall k :: 0 <= k < |rows| ==> rows[k].id != id
    ensures RowsFor(rows, id) == []
  {
    if |rows| > 0 {
      RowsForNone(rows[..|rows| - 1], id);
    }
  }

  /** The rows the history holds for movement `i + 1` are exactly that
      movement's joined rows: one per matching user row, or a single unnamed
      row. */
  lemma {:induction false} JoinedRowsFor(ms: seq<MovementRow>, users: seq<UserRow>, i: nat)
    requires i < |ms|
    ensures RowsFor(Joined(ms, users), i + 1) == JoinRows(i + 1, ms[i], users)
  {
    var pre := ms[..|ms| - 1];
    var head := JoinRows(|ms|, ms[|ms| - 1], users);
    var tail := Joined(pre, users);
    assert Joined(ms, users) == head + tail;
    RowsForAppend(head, tail, i + 1);
    if i == |ms| - 1 {
      RowsForAll(head, i + 1);
      forall k | 0 <= k < |tail| ensures tail[k].id != i + 1 {
        JoinedRowAt(pre, users, k);
      }
      RowsForNone(tail, i + 1);
    } else {
      RowsForNone(head, i + 1);
      JoinedRowsFor(pre, users, i);
      assert pre[i] == ms[i];
    }
  }

  lemma {:induction false} AllMovementsJoined(ms: seq<MovementRow>, users: seq<UserRow>)
    ensures forall i :: 0 <= i < |ms| ==> RowsFor(Joined(ms, users), i + 1) == JoinRows(i + 1, ms[i], users)
  {
    forall i | 0 <= i < |ms| ensures RowsFor(Joined(ms, users), i + 1) == JoinRows(i + 1, ms[i], users) {
      JoinedRowsFor(ms, users, i);
    }
  }

  /** `GET /api/movements`: the LEFT JOIN rows, ordered by movement id
      descending, every movement present, each row carrying its movement's
      badge and type, a null name exactly when the badge is unregistered and
      otherwise the name of a user row carrying it; the rows of each movement
      are exactly its joined rows. */
  function ListMovements(s: Store): (r: Response)
    ensures r.status == 200 && r.payload.History?
    ensures |r.payload.rows| >= |s.movements|
    ensures forall k :: 0 <= k < |r.payload.rows| ==> DescribesMovement(s.movements, s.users, r.payload.rows[k])
    ensures forall k, l :: 0 <= k < l < |r.payload.rows| ==> r.payload.rows[k].id >= r.payload.rows[l].id
    ensures forall i :: 0 <= i < |s.movements| ==> Listed(r.payload.rows, i + 1, s.movements[i].badgeId)
    ensures forall i :: 0 <= i < |s.movements| ==>
              RowsFor(r.payload.rows, i + 1) == JoinRows(i + 1, s.movements[i], s.users)
  {
    AllMovementsJoined(s.movements, s.users);
    AllRowsDescribeMovements(s.movements, s.users);
    AllRowsDescending(s.movements, s.users);
    AllMovementsCovered(s.movements, s.users);
    JoinedLength(s.movements, s.users);
    Response(200, History(Joined(s.movements, s.users)))
  }

  /** No two user rows share a badge (the store does not enforce this). */
  predicate UniqueBadges(users: seq<UserRow>) {
    forall i, j :: 0 <= i < j < |users| ==> users[i].badgeId != users[j].badgeId
  }

  /** With unique badges the join matches at most one user row, the one the
      movement handler's lookup finds. */
  lemma {:induction false} MatchingNamesUnique(users: seq<UserRow>, b: string)
    requires UniqueBadges(users)
    ensures MatchingNames(users, b) == if NameFor(users, b).Some? then [NameFor(users, b).value] else []
  {
    if |users| > 0 {
      var pre := users[..|users| - 1];
      var u := users[|users| - 1];
      assert users == pre + [u];
      UniqueBadgesPrefix(pre, u);
      MatchingNamesUnique(pre, b);
      MatchingNamesAppend(pre, u, b);
      NameForAppend(pre, u, b);
      if u.badgeId == b {
        assert forall i :: 0 <= i < |pre| ==> pre[i].badgeId != b by {
          assert forall i :: 0 <= i < |pre| ==> (pre + [u])[i] == pre[i];
        }
      }
    }
  }

  lemma UniqueBadgesPrefix(pre: seq<UserRow>, u: UserRow)
    requires UniqueBadges(pre + [u])
    ensures UniqueBadges(pre)
    ensures forall i :: 0 <= i < |pre| ==> pre[i].badgeId != u.badgeId
  {
    assert forall i :: 0 <= i < |pre| ==> (pre + [u])[i] == pre[i];
    assert (pre + [u])[|pre|] == u;
  }

  lemma MatchingNamesAppend(pre: seq<UserRow>, u: UserRow, b: string)
    ensures MatchingNames(pre + [u], b) == MatchingNames(pre, b) + (if u.badgeId == b then [u.name] else [])
  {
    assert (pre + [u])[..|pre|] == pre;
  }

  lemma NameForAppend(pre: seq<UserRow>, u: UserRow, b: string)
    ensures NameFor(pre + [u], b) ==
              if NameFor(pre, b).Some? then NameFor(pre, b)
              else if u.badgeId == b then Some(u.name)
              else None
  {
    FirstMatchAppend(pre, u, b);
    assert (pre + [u])[|pre|] == u;
    if FirstMatch(pre, b).Some? {
      assert (pre + [u])[FirstMatch(pre, b).value] == pre[FirstMatch(pre, b).value];
    }
  }

  lemma JoinRowsUnique(id: nat, m: MovementRow, users: seq<UserRow>)
    requires UniqueBadges(users)
    ensures JoinRows(id, m, users) == [HistoryRow(id, m.badgeId, m.kind, NameFor(users, m.badgeId))]
  {
    MatchingNamesUnique(users, m.badgeId);
  }

  lemma {:induction false} JoinedLengthWithUniqueBadges(ms: seq<MovementRow>, users: seq<UserRow>)
    requires UniqueBadges(users)
    ensures |Joined(ms, users)| == |ms|
  {
    if |ms| > 0 {
      JoinRowsUnique(|ms|, ms[|ms| - 1], users);
      JoinedLengthWithUniqueBadges(ms[..|ms| - 1], users);
    }
  }

  /** When no two user rows share a badge, the history has exactly one row per
      movement: row `k` is movement `|ms| - k`, named as the movement handler
      would name it. */
  lemma {:induction false} JoinedWithUniqueBadges(ms: seq<MovementRow>, users: seq<UserRow>, k: nat)
    requires UniqueBadges(users)
    ensures |Joined(ms, users)| == |ms|
    ensures k < |ms| ==>
              Joined(ms, users)[k] == HistoryRow(|ms| - k, ms[|ms| - 1 - k].badgeId, ms[|ms| - 1 - k].kind,
                                                 NameFor(users, ms[|ms| - 1 - k].badgeId))
  {
    JoinedLengthWithUniqueBadges(ms, users);
    if k < |ms| {
      var pre := ms[..|ms| - 1];
      var m := ms[|ms| - 1];
      var row := HistoryRow(|ms|, m.badgeId, m.kind, NameFor(users, m.badgeId));
      var tail := Joined(pre, users);
      assert Joined(ms, users) == [row] + tail by {
        JoinRowsUnique(|ms|, m, users);
      }
      if k > 0 {
        JoinedWithUniqueBadges(pre, users, k - 1);
        assert ([row] + tail)[k] == tail[k - 1];
        assert ms[|ms| - 1 - k] == pre[|pre| - 1 - (k - 1)];
      }
    }
  }
}
