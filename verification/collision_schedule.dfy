/**
 * The visiting order of one collision tick (the two loops of game-world.ts
 * `handleCollisions`): the cushion check of ball i, then the pairs (i, j) for every
 * later j, for i in index order.
 */
module CollisionSchedule {

  datatype Event = CushionOf(i: nat) | PairOf(i: nat, j: nat)

  /** The pairs (i, i+1), ..., (i, j-1). */
  function PairsOf(i: nat, j: nat): seq<Event>
    decreases j
  {
    if j <= i + 1 then [] else PairsOf(i, j - 1) + [PairOf(i, j - 1)]
  }

  /** One iteration of the outer loop over n balls. */
  function Row(i: nat, n: nat): seq<Event> {
    [CushionOf(i)] + PairsOf(i, n)
  }

  /** The first i iterations of the outer loop. */
  function Rows(i: nat, n: nat): seq<Event> {
    if i == 0 then [] else Rows(i - 1, n) + Row(i - 1, n)
  }

  /** Everything one tick visits, in order, for n balls in the active list. */
  function Schedule(n: nat): seq<Event> {
    Rows(n, n)
  }

  /** How many times `e` occurs in `s`. */
  function Count(s: seq<Event>, e: Event): nat {
    if s == [] then 0 else Count(s[..|s| - 1], e) + (if s[|s| - 1] == e then 1 else 0)
  }

  lemma {:induction false} CountAppend(a: seq<Event>, b: seq<Event>, e: Event)
    ensures Count(a + b, e) == Count(a, e) + Count(b, e)
    decreases |b|
  {
    if b != [] {
      CountAppend(a, b[..|b| - 1], e);
      assert (a + b)[..|a + b| - 1] == a + b[..|b| - 1];
    } else {
      assert a + b == a;
    }
  }

  lemma {:induction false} PairsOfCount(i: nat, j: nat, e: Event)
    ensures Count(PairsOf(i, j), e) == if e.PairOf? && e.i == i && i < e.j < j then 1 else 0
    decreases j
  {
    if j > i + 1 {
      PairsOfCount(i, j - 1, e);
      CountAppend(PairsOf(i, j - 1), [PairOf(i, j - 1)], e);
    }
  }

  lemma {:induction false} RowsCount(i: nat, n: nat, e: Event)
    ensures Count(Rows(i, n), e) ==
      if (e.CushionOf? && e.i < i) || (e.PairOf? && e.i < i && e.i < e.j < n) then 1 else 0
  {
    if i > 0 {
      RowsCount(i - 1, n, e);
      PairsOfCount(i - 1, n, e);
      CountAppend(Rows(i - 1, n), Row(i - 1, n), e);
      CountAppend([CushionOf(i - 1)], PairsOf(i - 1, n), e);
    }
  }

  /** A tick checks every ball against the cushions exactly once and every unordered pair i < j exactly once, and nothing else. */
  lemma ScheduleVisitsEachOnce(n: nat, e: Event)
    ensures e.CushionOf? ==> Count(Schedule(n), e) == if e.i < n then 1 else 0
    ensures e.PairOf? ==> Count(Schedule(n), e) == if e.i < e.j < n then 1 else 0
  {
    RowsCount(n, n, e);
  }

  /** The inner loop's step: one more pair appended after any prefix. */
  lemma PairsOfSnoc(pre: seq<Event>, i: nat, j: nat)
    requires i + 1 <= j
    ensures pre + PairsOf(i, j + 1) == (pre + PairsOf(i, j)) + [PairOf(i, j)]
  {
  }

  /** The outer loop's step: a full row appended. */
  lemma RowsSnoc(i: nat, n: nat)
    ensures Rows(i + 1, n) == (Rows(i, n) + [CushionOf(i)]) + PairsOf(i, n)
  {
  }

  /** The state after visiting `evs` in order, each visit applying `step`. */
  function Fold<S>(step: (S, Event) -> S, s: S, evs: seq<Event>): S
    decreases |evs|
  {
    if evs == [] then s else step(Fold(step, s, evs[..|evs| - 1]), evs[|evs| - 1])
  }

  lemma FoldSnoc<S>(step: (S, Event) -> S, s: S, evs: seq<Event>, e: Event)
    ensures Fold(step, s, evs + [e]) == step(Fold(step, s, evs), e)
  {
    assert (evs + [e])[..|evs + [e]| - 1] == evs;
  }

  /**
   * The nested loops of `handleCollisions` over n balls,
   * with the work of one visit abstracted as `step`: they perform exactly
   * the visits of `Schedule(n)`, in order.
   */
  method VisitAll<S>(step: (S, Event) -> S, s: S, n: nat) returns (r: S)
    ensures r == Fold(step, s, Schedule(n))
  {
    r := s;
    var i := 0;
    while i < n
      invariant 0 <= i <= n
      invariant r == Fold(step, s, Rows(i, n))
    {
      FoldSnoc(step, s, Rows(i, n), CushionOf(i));
      r := step(r, CushionOf(i));
      r := VisitRow(step, s, Rows(i, n) + [CushionOf(i)], i, n, r);
      RowsSnoc(i, n);
      i := i + 1;
    }
  }

  /** The inner loop: the pairs (i, j) for every j after i. */
  method VisitRow<S>(step: (S, Event) -> S, s: S, pre: seq<Event>, i: nat, n: nat, r0: S) returns (r: S)
    requires i < n
    requires r0 == Fold(step, s, pre)
    ensures r == Fold(step, s, pre + PairsOf(i, n))
  {
    r := r0;
    var j := i + 1;
    assert pre + PairsOf(i, j) == pre;
    while j < n
      invariant i + 1 <= j <= n
      invariant r == Fold(step, s, pre + PairsOf(i, j))
    {
      FoldSnoc(step, s, pre + PairsOf(i, j), PairOf(i, j));
      PairsOfSnoc(pre, i, j);
      r := step(r, PairOf(i, j));
      j := j + 1;
    }
  }
}
