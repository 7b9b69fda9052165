/**
 The IN/OUT alternator behind `POST /api/movements`. A badge's presence is
 never stored: it is read off the tail of the append-only movement log. The
 handler fetches the badge's most recent row (`ORDER BY id DESC LIMIT 1`) and
 writes `OUT` when that row's type is exactly `'IN'`, `IN` in every other case.

 This module states that rule, the per-badge view of the log (`Project`), and
 the alternation invariant `IN, OUT, IN, OUT, ...` that the rule maintains.
 */
module Alternator {
  import opened Rows

  /** Index of the most recent (highest id) movement of badge `b`, if any. */
  function LatestIndex(ms: seq<MovementRow>, b: string): (r: Option<nat>)
    ensures r.None? <==> forall i :: 0 <= i < |ms| ==> ms[i].badgeId != b
    ensures r.Some? ==> r.value < |ms| && ms[r.value].badgeId == b
    ensures r.Some? ==> forall j :: r.value < j < |ms| ==> ms[j].badgeId != b
  {
    if |ms| == 0 then None
    else if ms[|ms| - 1].badgeId == b then Some(|ms| - 1)
    else LatestIndex(ms[..|ms| - 1], b)
  }

  /** `i` is the position of the most recent movement of badge `b`. */
  predicate IsLatest(ms: seq<MovementRow>, b: string, i: int) {
    0 <= i < |ms| && ms[i].badgeId == b && forall j :: i < j < |ms| ==> ms[j].badgeId != b
  }

  /** The type of badge `b`'s most recent movement: the row
      `SELECT type FROM movements WHERE badge_id = ? ORDER BY id DESC LIMIT 1`
      returns, or `None` when that query returns no row. */
  function LatestKind(ms: seq<MovementRow>, b: string): (r: Option<string>)
    ensures r.None? <==> forall i :: 0 <= i < |ms| ==> ms[i].badgeId != b
    ensures r.Some? ==> exists i :: IsLatest(ms, b, i) && ms[i].kind == r.value
  {
    match LatestIndex(ms, b)
    case None => None
    case Some(i) => Some(ms[i].kind)
  }

  /** The type the alternator writes next for badge `b`: `OUT` exactly when the
      latest row for `b` has type `'IN'`; `IN` when it has any other type or
      when `b` has no row at all. */
  function NextKind(ms: seq<MovementRow>, b: string): (k: string)
    ensures k == IN || k == OUT
    ensures k == OUT <==> exists i :: IsLatest(ms, b, i) && ms[i].kind == IN
    ensures (forall i :: 0 <= i < |ms| ==> ms[i].badgeId != b) ==> k == IN
  {
    if LatestKind(ms, b) == Some(IN) then OUT
    else
      assert forall i :: IsLatest(ms, b, i) ==> i == LatestIndex(ms, b).value;
      IN
  }

  /** The types of badge `b`'s movements in id order: the log filtered to `b`. */
  function Project(ms: seq<MovementRow>, b: string): seq<string> {
    if |ms| == 0 then []
    else Project(ms[..|ms| - 1], b) + (if ms[|ms| - 1].badgeId == b then [ms[|ms| - 1].kind] else [])
  }

  lemma ProjectAppend(ms: seq<MovementRow>, m: MovementRow, b: string)
    ensures Project(ms + [m], b) == Project(ms, b) + (if m.badgeId == b then [m.kind] else [])
  {
    assert (ms + [m])[..|ms|] == ms;
  }

  /** The latest row the alternator reads is the last entry of the badge's
      projection: the query's answer depends on `b`'s rows only. */
  lemma {:induction false} LatestIsLastOfProjection(ms: seq<MovementRow>, b: string)
    ensures var p := Project(ms, b);
            LatestKind(ms, b) == if |p| == 0 then None else Some(p[|p| - 1])
  {
    if |ms| > 0 && ms[|ms| - 1].badgeId != b {
      LatestIsLastOfProjection(ms[..|ms| - 1], b);
    }
  }

  /** The alternator's rule read on a badge's projection alone. */
  function StepKind(p: seq<string>): (k: string)
    ensures k == OUT <==> |p| > 0 && p[|p| - 1] == IN
    ensures k == IN <==> !(|p| > 0 && p[|p| - 1] == IN)
  {
    if |p| > 0 && p[|p| - 1] == IN then OUT else IN
  }

  lemma NextKindFromProjection(ms: seq<MovementRow>, b: string)
    ensures NextKind(ms, b) == StepKind(Project(ms, b))
  {
    LatestIsLastOfProjection(ms, b);
  }

  /** The expected pattern of a badge's projection: `IN` at even positions,
      `OUT` at odd ones. */
  predicate Alternates(ks: seq<string>) {
    forall i :: 0 <= i < |ks| ==> ks[i] == (if i % 2 == 0 then IN else OUT)
  }

  /** The alternation invariant: every badge's projection alternates, starting with `IN`. */
  ghost predicate Consistent(ms: seq<MovementRow>) {
    forall b :: Alternates(Project(ms, b))
  }

  lemma InDiffersFromOut()
    ensures IN != OUT
  {
    assert IN[0] != OUT[0];
  }

  /** On an alternating projection the alternator's choice is fixed by the
      parity of its length: `IN` after an even number of movements, `OUT`
      after an odd one. */
  lemma StepKindParity(p: seq<string>)
    requires Alternates(p)
    ensures StepKind(p) == (if |p| % 2 == 0 then IN else OUT)
  {
    InDiffersFromOut();
    if |p| > 0 {
      var n := |p| - 1;
      assert p[n] == (if n % 2 == 0 then IN else OUT);
      assert n % 2 == 0 <==> |p| % 2 == 1;
    }
  }

  lemma NextKindParity(ms: seq<MovementRow>, b: string)
    requires Alternates(Project(ms, b))
    ensures NextKind(ms, b) == (if |Project(ms, b)| % 2 == 0 then IN else OUT)
  {
    NextKindFromProjection(ms, b);
    StepKindParity(Project(ms, b));
  }

  /** On a non-empty alternating projection the latest type is `IN` exactly
      when the projection has odd length. */
  lemma LatestKindParity(ms: seq<MovementRow>, b: string)
    requires Alternates(Project(ms, b)) && |Project(ms, b)| > 0
    ensures LatestKind(ms, b) == Some(IN) <==> |Project(ms, b)| % 2 == 1
  {
    LatestIsLastOfProjection(ms, b);
    InDiffersFromOut();
    var p := Project(ms, b);
    var n := |p| - 1;
    assert p[n] == (if n % 2 == 0 then IN else OUT);
    assert n % 2 == 0 <==> |p| % 2 == 1;
  }

  /** Appending the alternator's choice to an alternating projection keeps it alternating. */
  lemma StepKeepsAlternation(p: seq<string>)
    requires Alternates(p)
    ensures Alternates(p + [StepKind(p)])
  {
    var q := p + [StepKind(p)];
    StepKindParity(p);
    forall i | 0 <= i < |q| ensures q[i] == (if i % 2 == 0 then IN else OUT) {
      if i < |p| {
        assert q[i] == p[i];
      }
    }
  }
}
