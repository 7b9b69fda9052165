/**
 `POST /api/movements`: validate `badge_id`, read the badge's latest movement,
 append the opposite type (or `IN`), then look up the badge's name. Also the
 sequential replay of many such requests, over which the alternation
 invariant and the per-badge independence are stated.

 Requests are applied one after another: the read-then-insert of one request
 is never interleaved with another's.
 */
module Movements {
  import opened Rows
  import opened Registry
  import opened Alternator

  /** `POST /api/movements`. A missing or empty `badge_id` is answered 400 with
      the store untouched. Otherwise exactly one row `(badge_id, type)` is
      appended, where `type` is `OUT` iff the badge's latest row has type
      `'IN'`, and the response echoes the badge, the type, and the name of the
      badge's first user row (`null` when it has none). */
  function PostMovement(s: Store, badgeId: Field): (r: Reply)
    ensures !Truthy(badgeId) ==> r == Reply(s, Response(400, Message(BadgeRequired)))
    ensures Truthy(badgeId) ==>
              var b := badgeId.s;
              && r.response.status == 200
              && r.response.payload.Movement?
              && r.response.payload.badgeId == b
              && (r.response.payload.kind == OUT <==> LatestKind(s.movements, b) == Some(IN))
              && (r.response.payload.kind == IN <==> LatestKind(s.movements, b) != Some(IN))
              && r.response.payload.name == NameFor(s.users, b)
              && r.store.users == s.users
              && r.store.movements == s.movements + [MovementRow(b, r.response.payload.kind)]
  {
    if !Truthy(badgeId) then
      Reply(s, Response(400, Message(BadgeRequired)))
    else
      var b := badgeId.s;
      var kind := NextKind(s.movements, b);
      InDiffersFromOut();
      var stored := Store(s.users, s.movements + [MovementRow(b, kind)]);
      Reply(stored, Response(200, Movement(b, kind, NameFor(s.users, b))))
  }

  /** A badge with no movement yet is checked in: its first report is `IN`. */
  lemma FirstReportIsIn(s: Store, b: string)
    requires b != ""
    requires forall i :: 0 <= i < |s.movements| ==> s.movements[i].badgeId != b
    ensures PostMovement(s, Text(b)).response.payload.kind == IN
    ensures PostMovement(s, Text(b)).store.movements == s.movements + [MovementRow(b, IN)]
  {
  }

  /** A report for badge `b` changes neither another badge's movements nor the
      type that badge's next report will get. */
  lemma {:induction false} OtherBadgesUnaffected(s: Store, badgeId: Field, c: string)
    requires !(Truthy(badgeId) && badgeId.s == c)
    ensures Project(PostMovement(s, badgeId).store.movements, c) == Project(s.movements, c)
    ensures NextKind(PostMovement(s, badgeId).store.movements, c) == NextKind(s.movements, c)
  {
    var s' := PostMovement(s, badgeId).store;
    if Truthy(badgeId) {
      ProjectAppend(s.movements, s'.movements[|s.movements|], c);
      assert s'.movements == s.movements + [s'.movements[|s.movements|]];
    }
    NextKindFromProjection(s.movements, c);
    NextKindFromProjection(s'.movements, c);
  }

  /** A report for badge `b` extends `b`'s projection by the alternator's choice. */
  lemma {:induction false} ReportExtendsProjection(s: Store, badgeId: Field)
    requires Truthy(badgeId)
    ensures var p := Project(s.movements, badgeId.s);
            Project(PostMovement(s, badgeId).store.movements, badgeId.s) == p + [StepKind(p)]
  {
    var b := badgeId.s;
    var r := PostMovement(s, badgeId);
    ProjectAppend(s.movements, MovementRow(b, r.response.payload.kind), b);
    NextKindFromProjection(s.movements, b);
    LatestIsLastOfProjection(s.movements, b);
  }

  /** Every report, valid or not, preserves the alternation invariant. */
  lemma PostMovementPreservesConsistency(s: Store, badgeId: Field)
    requires Consistent(s.movements)
    ensures Consistent(PostMovement(s, badgeId).store.movements)
  {
    var ms' := PostMovement(s, badgeId).store.movements;
    forall c ensures Alternates(Project(ms', c)) {
      if Truthy(badgeId) && badgeId.s == c {
        ReportExtendsProjection(s, badgeId);
        StepKeepsAlternation(Project(s.movements, c));
      } else {
        OtherBadgesUnaffected(s, badgeId, c);
      }
    }
  }

  /** The store after applying the movement requests `reqs` in order. */
  function Run(s: Store, reqs: seq<Field>): Store {
    if |reqs| == 0 then s
    else PostMovement(Run(s, reqs[..|reqs| - 1]), reqs[|reqs| - 1]).store
  }

  /** Number of requests in `reqs` that report badge `b` (and so pass validation). */
  function Reports(reqs: seq<Field>, b: string): nat {
    if |reqs| == 0 then 0
    else Reports(reqs[..|reqs| - 1], b) + (if Truthy(reqs[|reqs| - 1]) && reqs[|reqs| - 1].s == b then 1 else 0)
  }

  /** The requests of `reqs` that report badge `b`, in order. */
  function Only(reqs: seq<Field>, b: string): seq<Field> {
    if |reqs| == 0 then []
    else Only(reqs[..|reqs| - 1], b) + (if Truthy(reqs[|reqs| - 1]) && reqs[|reqs| - 1].s == b then [reqs[|reqs| - 1]] else [])
  }

  /** `n` applications of the alternator's rule to the projection `p`. */
  function Iterate(p: seq<string>, n: nat): seq<string> {
    if n == 0 then p else var q := Iterate(p, n - 1); q + [StepKind(q)]
  }

  /** A run leaves the users untouched and only appends to the movements,
      one row per request that passes validation. */
  lemma {:induction false} RunOnlyAppends(s: Store, reqs: seq<Field>)
    ensures Run(s, reqs).users == s.users
    ensures |Run(s, reqs).movements| == |s.movements| + CountValid(reqs)
    ensures Run(s, reqs).movements[..|s.movements|] == s.movements
  {
    if |reqs| > 0 {
      RunOnlyAppends(s, reqs[..|reqs| - 1]);
    }
  }

  /** Number of requests in `reqs` that pass validation. */
  function CountValid(reqs: seq<Field>): nat {
    if |reqs| == 0 then 0
    else CountValid(reqs[..|reqs| - 1]) + (if Truthy(reqs[|reqs| - 1]) then 1 else 0)
  }

  /** Badge `b`'s projection after a run depends only on its projection before
      and on how many of the requests report `b`. */
  lemma {:induction false} RunProjection(s: Store, reqs: seq<Field>, b: string)
    ensures Project(Run(s, reqs).movements, b) == Iterate(Project(s.movements, b), Reports(reqs, b))
  {
    if |reqs| > 0 {
      var pre := reqs[..|reqs| - 1];
      var last := reqs[|reqs| - 1];
      RunProjection(s, pre, b);
      var mid := Run(s, pre);
      assert Run(s, reqs) == PostMovement(mid, last).store;
      var p := Project(s.movements, b);
      var k := Reports(pre, b);
      if Truthy(last) && last.s == b {
        assert Reports(reqs, b) == k + 1;
        ReportExtendsProjection(mid, last);
        assert Iterate(p, k + 1) == Iterate(p, k) + [StepKind(Iterate(p, k))];
      } else {
        assert Reports(reqs, b) == k;
        OtherBadgesUnaffected(mid, last, b);
      }
    }
  }

  lemma {:induction false} OnlyCounts(reqs: seq<Field>, b: string)
    ensures Reports(Only(reqs, b), b) == Reports(reqs, b)
  {
    if |reqs| > 0 {
      var pre := reqs[..|reqs| - 1];
      var last := reqs[|reqs| - 1];
      OnlyCounts(pre, b);
      var o := Only(pre, b);
      if Truthy(last) && last.s == b {
        assert Only(reqs, b) == o + [last];
        assert (o + [last])[..|o|] == o;
        assert Reports(o + [last], b) == Reports(o, b) + 1;
      } else {
        assert Only(reqs, b) == o;
      }
    }
  }

  /** Independence: interleaving other badges' reports does not change badge
      `b`'s sequence of types — running all requests gives `b` the same
      projection as running only `b`'s own requests. */
  lemma Independence(s: Store, reqs: seq<Field>, b: string)
    ensures Project(Run(s, reqs).movements, b) == Project(Run(s, Only(reqs, b)).movements, b)
  {
    RunProjection(s, reqs, b);
    RunProjection(s, Only(reqs, b), b);
    OnlyCounts(reqs, b);
  }

  lemma {:induction false} IterateKeepsAlternation(p: seq<string>, n: nat)
    requires Alternates(p)
    ensures Alternates(Iterate(p, n))
    ensures |Iterate(p, n)| == |p| + n
  {
    if n > 0 {
      IterateKeepsAlternation(p, n - 1);
      StepKeepsAlternation(Iterate(p, n - 1));
    }
  }

  /** Alternation: starting from a consistent log, any sequence of reports
      keeps every badge's projection alternating `IN, OUT, IN, ...`. */
  lemma RunPreservesConsistency(s: Store, reqs: seq<Field>)
    requires Consistent(s.movements)
    ensures Consistent(Run(s, reqs).movements)
  {
    forall b ensures Alternates(Project(Run(s, reqs).movements, b)) {
      RunProjection(s, reqs, b);
      IterateKeepsAlternation(Project(s.movements, b), Reports(reqs, b));
    }
  }

  /** From an empty log, the `n` reports of badge `b`, in any interleaving with
      other badges, have recorded `IN, OUT, IN, ...` for `b`, `n` entries long. */
  lemma AlternationFromEmpty(users: seq<UserRow>, reqs: seq<Field>, b: string)
    ensures |Project(Run(Store(users, []), reqs).movements, b)| == Reports(reqs, b)
    ensures Alternates(Project(Run(Store(users, []), reqs).movements, b))
  {
    RunProjection(Store(users, []), reqs, b);
    IterateKeepsAlternation([], Reports(reqs, b));
  }

  /** After `n > 0` reports of badge `b` from an empty log, its latest recorded
      type is `IN` exactly when `n` is odd. */
  lemma LatestAfterReports(users: seq<UserRow>, reqs: seq<Field>, b: string)
    requires Reports(reqs, b) > 0
    ensures LatestKind(Run(Store(users, []), reqs).movements, b) == Some(IN) <==> Reports(reqs, b) % 2 == 1
  {
    AlternationFromEmpty(users, reqs, b);
    LatestKindParity(Run(Store(users, []), reqs).movements, b);
  }

  /** After `n` reports of badge `b` from an empty log, its next report is
      `IN` exactly when `n` is even. */
  lemma NextAfterReports(users: seq<UserRow>, reqs: seq<Field>, b: string)
    ensures NextKind(Run(Store(users, []), reqs).movements, b) == IN <==> Reports(reqs, b) % 2 == 0
  {
    AlternationFromEmpty(users, reqs, b);
    NextKindParity(Run(Store(users, []), reqs).movements, b);
    InDiffersFromOut();
  }
}
