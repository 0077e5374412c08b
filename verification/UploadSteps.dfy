/**
 * The pending buffer while a drain is under way: uploads arrive between the drain's own steps, and
 * the drain may be killed at any of them.
 *
 * Main results, over any run of single steps: every id is pending, held by the drain, acknowledged,
 * cut off by the cap, or was held by a drain that was killed (NothingIsLost).  The buffer is at most
 * 2000 long after each upload (UploadsCap), and at most 2200 at all times if none arrives between a
 * drain's pop and its putting back (StaysNearCap), which is reached (CapIsExceeded); with uploads
 * in that window it has no bound (GrowsWithoutBound).  Undisturbed, the steps are one drain
 * (StepsMakeADrain).
 */
module UploadSteps {
  import opened UploadBuffer

  /** Where the drain is: it holds what it has popped, then the batch it ships. */
  datatype Drain = Idle | Popped(all: seq<int>) | Shipping(batch: seq<int>)

  datatype State = State(pending: seq<int>, drain: Drain, uploaded: set<int>, acked: set<int>, dropped: set<int>, killed: set<int>)

  datatype Step = Arrive(id: int) | Pop | PutBack | Answer(ok: bool) | Kill

  function Take(s: State, step: Step): State {
    match step
    case Arrive(id) =>
      s.(pending := Append(s.pending, id), uploaded := s.uploaded + {id}, dropped := s.dropped + Ids(CutOff(s.pending, id)))
    case Pop =>
      if !s.drain.Idle? || s.pending == [] then s
      else s.(pending := [], drain := if NonZero(s.pending) == [] then Idle else Popped(s.pending))
    case PutBack =>
      if s.drain.Popped? then
        s.(pending := Merge(s.pending, Overflow(s.drain.all)), drain := Shipping(Batch(s.drain.all)))
      else s
    case Answer(ok) =>
      if !s.drain.Shipping? then s
      else if ok then s.(drain := Idle, acked := s.acked + Ids(s.drain.batch))
      else s.(drain := Idle, pending := Merge(s.pending, s.drain.batch))
    case Kill => s.(drain := Idle, killed := s.killed + Held(s.drain))
  }

  /** What appendPending cuts off: the oldest entries beyond 2000. */
  function CutOff(pending: seq<int>, id: int): seq<int> {
    var all := pending + [id];
    if |all| > MAX_PENDING then all[..|all| - MAX_PENDING] else []
  }

  function Held(d: Drain): set<int> {
    match d
    case Idle => {}
    case Popped(all) => Ids(all) - {0}
    case Shipping(batch) => Ids(batch)
  }

  function Run(s: State, steps: seq<Step>): State
    decreases |steps|
  {
    if steps == [] then s else Run(Take(s, steps[0]), steps[1..])
  }

  lemma {:induction false} RunConcat(s: State, a: seq<Step>, b: seq<Step>)
    ensures Run(s, a + b) == Run(Run(s, a), b)
    decreases |a|
  {
    if a == [] {
      assert a + b == b;
    } else {
      assert (a + b)[1..] == a[1..] + b;
      RunConcat(Take(s, a[0]), a[1..], b);
    }
  }

  lemma RunTwo(s: State, a: Step, b: Step)
    ensures Run(s, [a, b]) == Take(Take(s, a), b)
  {
    var rest := [b];
    assert [a, b][1..] == rest && rest[1..] == [];
    assert Run(Take(s, a), rest) == Run(Take(Take(s, a), b), []);
  }

  lemma RunThree(s: State, a: Step, b: Step, c: Step)
    ensures Run(s, [a, b, c]) == Take(Take(Take(s, a), b), c)
  {
    assert [a, b, c][1..] == [b, c];
    RunTwo(Take(s, a), b, c);
  }

  /** With nothing in between, the drain's steps are the drain. */
  lemma StepsMakeADrain(s: State, ok: bool)
    requires s.drain.Idle?
    ensures Run(s, [Pop, PutBack, Answer(ok)]).pending == Drained(s.pending, ok)
    ensures Run(s, [Pop, PutBack, Answer(ok)]).drain.Idle?
  {
    RunThree(s, Pop, PutBack, Answer(ok));
    BatchFacts(s.pending);
    MergeFromEmpty(Overflow(s.pending));
    UniqueIsEmpty(NonZero(s.pending));
  }

  lemma MergeFromEmpty(ids: seq<int>)
    requires Distinct(ids)
    ensures Merge([], ids) == ids
  {
    MergeIntoEmpty(ids);
  }

  lemma UniqueIsEmpty(s: seq<int>)
    ensures Unique(s) == [] <==> s == []
  {
    if s != [] {
      UniqueIsNotEmpty(s);
    }
  }

  lemma MergeIds(pending: seq<int>, ids: seq<int>)
    ensures Ids(Merge(pending, ids)) == Ids(pending) + Ids(ids) && |Merge(pending, ids)| <= |pending| + |ids|
  {
    UniqueFacts(pending + ids);
    assert Ids(pending + ids) == Ids(pending) + Ids(ids);
  }

  // ---- nothing is lost ----------------------------------------------------------------------------

  predicate Balanced(s: State) {
    && s.uploaded == Ids(s.pending) + Held(s.drain) + s.acked + s.dropped + s.killed
    && 0 !in Ids(s.pending) && 0 !in Held(s.drain)
  }

  lemma ArriveBalances(s: State, id: int)
    requires Balanced(s) && id != 0
    ensures Balanced(Take(s, Arrive(id)))
  {
    var all := s.pending + [id];
    assert Ids(all) == Ids(s.pending) + {id};
    if |all| > MAX_PENDING {
      var n := |all| - MAX_PENDING;
      assert all == all[..n] + all[n..];
      assert Ids(all) == Ids(all[..n]) + Ids(all[n..]);
    }
  }

  lemma PopBalances(s: State)
    requires Balanced(s)
    ensures Balanced(Take(s, Pop))
  {
    NonZeroFacts(s.pending);
    assert Ids([]) == {};
    assert Ids(s.pending) - {0} == Ids(s.pending);
    if NonZero(s.pending) == [] {
      assert Ids(NonZero(s.pending)) == {};
    }
  }

  lemma PutBackBalances(s: State)
    requires Balanced(s)
    ensures Balanced(Take(s, PutBack))
  {
    if s.drain.Popped? {
      var all := s.drain.all;
      BatchFacts(all);
      MergeIds(s.pending, Overflow(all));
      assert 0 !in Ids(Batch(all)) + Ids(Overflow(all));
    }
  }

  lemma AnswerBalances(s: State, ok: bool)
    requires Balanced(s)
    ensures Balanced(Take(s, Answer(ok)))
  {
    if s.drain.Shipping? {
      MergeIds(s.pending, s.drain.batch);
    }
  }

  lemma StepBalances(s: State, step: Step)
    requires Balanced(s) && (step.Arrive? ==> step.id != 0)
    ensures Balanced(Take(s, step))
  {
    match step
    case Arrive(id) => ArriveBalances(s, id);
    case Pop => PopBalances(s);
    case PutBack => PutBackBalances(s);
    case Answer(ok) => AnswerBalances(s, ok);
    case Kill =>
  }

  predicate RealIds(steps: seq<Step>) {
    forall i :: 0 <= i < |steps| && steps[i].Arrive? ==> steps[i].id != 0
  }

  /** Every id is pending, held by the drain, acknowledged, cut off by the cap, or was held by a drain that was killed. */
  lemma {:induction false} NothingIsLost(s: State, steps: seq<Step>)
    requires Balanced(s) && RealIds(steps)
    ensures Balanced(Run(s, steps))
    decreases |steps|
  {
    if steps != [] {
      StepBalances(s, steps[0]);
      assert forall i :: 0 <= i < |steps[1..]| ==> steps[1..][i] == steps[i + 1];
      NothingIsLost(Take(s, steps[0]), steps[1..]);
    }
  }

  // ---- how long the buffer gets -------------------------------------------------------------------

  const NEAR_CAP := MAX_PENDING + MAX_BATCH

  lemma UploadsCap(s: State, id: int)
    ensures |Take(s, Arrive(id)).pending| <= MAX_PENDING
  {
  }

  predicate NearCap(s: State) {
    match s.drain
    case Idle => |s.pending| <= NEAR_CAP
    case Popped(all) => s.pending == [] && |all| <= NEAR_CAP
    case Shipping(batch) => |s.pending| <= MAX_PENDING && |batch| <= MAX_BATCH
  }

  /** No upload arrives between a drain's pop and its putting back the overflow. */
  predicate WindowIsQuiet(s: State, steps: seq<Step>)
    decreases |steps|
  {
    steps == [] || (!(steps[0].Arrive? && s.drain.Popped?) && WindowIsQuiet(Take(s, steps[0]), steps[1..]))
  }

  lemma StepStaysNearCap(s: State, step: Step)
    requires NearCap(s) && !(step.Arrive? && s.drain.Popped?)
    ensures NearCap(Take(s, step))
  {
    match step
    case PutBack =>
      if s.drain.Popped? {
        BatchFacts(s.drain.all);
        MergeFromEmpty(Overflow(s.drain.all));
      }
    case Answer(ok) =>
      if s.drain.Shipping? {
        MergeIds(s.pending, s.drain.batch);
      }
    case _ =>
  }

  /** Then the buffer is at most 2200 long, and at most 2000 while a batch is being shipped. */
  lemma {:induction false} StaysNearCap(s: State, steps: seq<Step>)
    requires NearCap(s) && WindowIsQuiet(s, steps)
    ensures NearCap(Run(s, steps)) && |Run(s, steps).pending| <= NEAR_CAP
    decreases |steps|
  {
    if steps != [] {
      StepStaysNearCap(s, steps[0]);
      StaysNearCap(Take(s, steps[0]), steps[1..]);
    }
  }

  // ---- both bounds are exact ----------------------------------------------------------------------

  /** n ids in a row. */
  function Count(from: int, n: nat): seq<int> {
    seq(n, i requires 0 <= i < n => from + i)
  }

  function Arrivals(from: int, n: nat): seq<Step> {
    seq(n, i requires 0 <= i < n => Arrive(from + i))
  }

  lemma CountFacts(from: int, n: nat)
    ensures Distinct(Count(from, n)) && forall id :: id in Count(from, n) <==> from <= id < from + n
  {
    forall id | from <= id < from + n ensures id in Count(from, n) {
      assert Count(from, n)[id - from] == id;
    }
  }

  lemma {:induction false} ArrivalsAppend(s: State, from: int, n: nat)
    requires |s.pending| + n <= MAX_PENDING
    ensures Run(s, Arrivals(from, n)).pending == s.pending + Count(from, n)
    ensures Run(s, Arrivals(from, n)).drain == s.drain
    decreases n
  {
    if n == 0 {
      assert s.pending + Count(from, 0) == s.pending;
    } else {
      var next := Take(s, Arrive(from));
      assert Arrivals(from, n)[1..] == Arrivals(from + 1, n - 1);
      ArrivalsAppend(next, from + 1, n - 1);
      assert s.pending + [from] + Count(from + 1, n - 1) == s.pending + Count(from, n);
    }
  }

  lemma MergeApart(p: seq<int>, q: seq<int>)
    requires Distinct(p) && Distinct(q) && Ids(p) !! Ids(q)
    ensures Merge(p, q) == p + q && Distinct(p + q) && Ids(p + q) == Ids(p) + Ids(q)
  {
    JoinDistinct(p, q);
    DistinctIsUnique(p + q);
    if q == [] {
      assert p + q == p;
    }
  }

  lemma RunOne(s: State, a: Step)
    ensures Run(s, [a]) == Take(s, a)
  {
    assert [a][1..] == [];
    assert Run(Take(s, a), []) == Take(s, a);
  }

  /** A drain popped, with u uploads in its window. */
  function Opening(from: int, u: nat): seq<Step> {
    [Pop] + Arrivals(from, u) + [PutBack]
  }

  /** Its batch shipped in vain, with v uploads meanwhile. */
  function FailedShipping(from: int, v: nat): seq<Step> {
    Arrivals(from, v) + [Answer(false)]
  }

  lemma OpeningPutsBack(s: State, from: int, u: nat)
    requires s.drain.Idle? && s.pending != [] && Distinct(s.pending) && 0 !in Ids(s.pending) && u <= MAX_PENDING
    requires forall id :: id in s.pending ==> !(from <= id < from + u)
    ensures var t, p := Run(s, Opening(from, u)), s.pending;
            && t.pending == Count(from, u) + Overflow(p) && t.drain == Shipping(Batch(p))
            && Distinct(t.pending) && Ids(t.pending) == Ids(Count(from, u)) + Ids(Overflow(p))
  {
    var p := s.pending;
    var popped := Run(s, [Pop] + Arrivals(from, u));
    RunConcat(s, [Pop] + Arrivals(from, u), [PutBack]);
    PopsThenArrive(s, from, u);
    RunOne(popped, PutBack);
    CountThenOverflow(p, from, u);
  }

  lemma CountThenOverflow(p: seq<int>, from: int, u: nat)
    requires Distinct(p) && 0 !in Ids(p) && forall id :: id in p ==> !(from <= id < from + u)
    ensures Merge(Count(from, u), Overflow(p)) == Count(from, u) + Overflow(p)
    ensures Distinct(Count(from, u) + Overflow(p)) && Ids(Count(from, u) + Overflow(p)) == Ids(Count(from, u)) + Ids(Overflow(p))
  {
    OverflowIsPending(p);
    CountFacts(from, u);
    MergeApart(Count(from, u), Overflow(p));
  }

  lemma OverflowIsPending(p: seq<int>)
    ensures Distinct(Overflow(p)) && forall id :: id in Ids(Overflow(p)) ==> id in p
  {
    BatchFacts(p);
    assert forall id :: id in Ids(Overflow(p)) ==> id in Ids(Batch(p)) + Ids(Overflow(p));
  }

  lemma PopsThenArrive(s: State, from: int, u: nat)
    requires s.drain.Idle? && s.pending != [] && 0 !in Ids(s.pending) && u <= MAX_PENDING
    ensures var t := Run(s, [Pop] + Arrivals(from, u));
            t.pending == Count(from, u) && t.drain == Popped(s.pending)
  {
    RunConcat(s, [Pop], Arrivals(from, u));
    RunOne(s, Pop);
    NonZeroFacts(s.pending);
    assert s.pending[0] in Ids(s.pending);
    ArrivalsAppend(Take(s, Pop), from, u);
    assert [] + Count(from, u) == Count(from, u);
  }

  lemma ShippingFails(s: State, from: int, v: nat)
    requires s.drain.Shipping? && Distinct(s.pending) && Distinct(s.drain.batch) && Ids(s.pending) !! Ids(s.drain.batch)
    requires |s.pending| + v <= MAX_PENDING || v == 0
    requires forall id :: id in s.pending || id in s.drain.batch ==> !(from <= id < from + v)
    ensures var t := Run(s, FailedShipping(from, v));
            t.drain.Idle? && t.pending == s.pending + Count(from, v) + s.drain.batch && Distinct(t.pending)
    ensures Ids(Run(s, FailedShipping(from, v)).pending) == Ids(s.pending) + Ids(Count(from, v)) + Ids(s.drain.batch)
  {
    RunConcat(s, Arrivals(from, v), [Answer(false)]);
    if v > 0 {
      ArrivalsAppend(s, from, v);
    } else {
      assert s.pending + Count(from, v) == s.pending;
    }
    var shipped := Run(s, Arrivals(from, v));
    RunOne(shipped, Answer(false));
    CountFacts(from, v);
    JoinDistinct(s.pending, Count(from, v));
    MergeApart(s.pending + Count(from, v), s.drain.batch);
  }

  const EMPTY := State([], Idle, {}, {}, {}, {})

  /** Distinct ids below `next`. */
  predicate AreBelow(ids: seq<int>, next: int) {
    Distinct(ids) && forall id :: id in Ids(ids) ==> 0 < id < next
  }

  lemma SplitBelow(p: seq<int>, next: int)
    requires AreBelow(p, next)
    ensures |Batch(p)| + |Overflow(p)| == |p| && (|p| <= MAX_BATCH ==> Overflow(p) == [])
    ensures AreBelow(Batch(p), next) && AreBelow(Overflow(p), next) && Ids(Batch(p)) !! Ids(Overflow(p))
  {
    BatchFacts(p);
    UniqueFacts(p);
    DistinctIsUnique(p);
    assert Ids(p) - {0} == Ids(p);
  }

  lemma CountBelow(from: int, n: nat)
    requires from > 0
    ensures AreBelow(Count(from, n), from + n) && forall id :: id in Ids(Count(from, n)) ==> from <= id
  {
    CountFacts(from, n);
  }

  /** A failing drain with u uploads in its window and v while it ships: all of them are added. */
  lemma FailedDrainAdds(s: State, from: int, u: nat, v: nat)
    requires s.drain.Idle? && s.pending != [] && AreBelow(s.pending, from) && u <= MAX_PENDING
    requires u + |Overflow(s.pending)| + v <= MAX_PENDING || v == 0
    ensures var t := Run(s, Opening(from, u) + FailedShipping(from + u, v));
            t.drain.Idle? && |t.pending| == |s.pending| + u + v && AreBelow(t.pending, from + u + v)
  {
    var p := s.pending;
    SplitBelow(p, from);
    RunConcat(s, Opening(from, u), FailedShipping(from + u, v));
    assert p[0] in Ids(p);
    assert forall id :: id in p ==> id in Ids(p);
    OpeningPutsBack(s, from, u);
    CountBelow(from, u);
    CountBelow(from + u, v);
    ShippingAdds(Run(s, Opening(from, u)), p, from, u, v);
  }

  lemma ShippingAdds(s: State, p: seq<int>, from: int, u: nat, v: nat)
    requires s.drain == Shipping(Batch(p)) && s.pending == Count(from, u) + Overflow(p) && Distinct(s.pending) && from > 0
    requires Ids(s.pending) == Ids(Count(from, u)) + Ids(Overflow(p))
    requires AreBelow(p, from) && (u + |Overflow(p)| + v <= MAX_PENDING || v == 0)
    ensures var t := Run(s, FailedShipping(from + u, v));
            t.drain.Idle? && |t.pending| == |p| + u + v && AreBelow(t.pending, from + u + v)
  {
    ApartFromArrivals(s.pending, p, from, u, v);
    ShippingFails(s, from + u, v);
    SplitBelow(p, from);
    AllBelow(Run(s, FailedShipping(from + u, v)).pending, p, from, u, v);
  }

  lemma ApartFromArrivals(pending: seq<int>, p: seq<int>, from: int, u: nat, v: nat)
    requires Ids(pending) == Ids(Count(from, u)) + Ids(Overflow(p)) && AreBelow(p, from) && from > 0
    ensures Ids(pending) !! Ids(Batch(p)) && Distinct(Batch(p))
    ensures forall id :: id in pending || id in Batch(p) ==> !(from + u <= id < from + u + v)
  {
    SplitBelow(p, from);
    CountBelow(from, u);
    assert forall id :: id in pending ==> id in Ids(pending);
    assert forall id :: id in Batch(p) ==> id in Ids(Batch(p));
  }

  lemma AllBelow(after: seq<int>, p: seq<int>, from: int, u: nat, v: nat)
    requires Distinct(after) && AreBelow(p, from) && from > 0
    requires Ids(after) == Ids(Count(from, u)) + Ids(Overflow(p)) + Ids(Count(from + u, v)) + Ids(Batch(p))
    ensures AreBelow(after, from + u + v)
  {
    SplitBelow(p, from);
    CountBelow(from, u);
    CountBelow(from + u, v);
  }

  lemma FirstArrivals(n: nat)
    requires n <= MAX_PENDING
    ensures var s := Run(EMPTY, Arrivals(1, n)); s.drain.Idle? && |s.pending| == n && AreBelow(s.pending, 1 + n)
  {
    ArrivalsAppend(EMPTY, 1, n);
    assert [] + Count(1, n) == Count(1, n);
    CountBelow(1, n);
  }

  /** The bound of 2200 is reached: 200 uploads, then a drain that fails with 2000 uploads while it ships. */
  lemma CapIsExceeded()
    ensures var steps := Arrivals(1, MAX_BATCH) + (Opening(201, 0) + FailedShipping(201, MAX_PENDING));
            |Run(EMPTY, steps).pending| == NEAR_CAP
  {
    RunConcat(EMPTY, Arrivals(1, MAX_BATCH), Opening(201, 0) + FailedShipping(201, MAX_PENDING));
    FirstArrivals(MAX_BATCH);
    var s := Run(EMPTY, Arrivals(1, MAX_BATCH));
    SplitBelow(s.pending, 201);
    FailedDrainAdds(s, 201, 0, MAX_PENDING);
  }

  /** Drains that all fail, each with 2000 uploads in its window. */
  function Rounds(k: nat): seq<Step> {
    if k == 0 then Arrivals(1, 1)
    else
      var from := 2 + MAX_PENDING * (k - 1);
      Rounds(k - 1) + (Opening(from, MAX_PENDING) + FailedShipping(from + MAX_PENDING, 0))
  }

  /** With uploads in the window there is no bound: each failing drain can add 2000. */
  lemma {:induction false} GrowsWithoutBound(k: nat)
    ensures var s := Run(EMPTY, Rounds(k));
            s.drain.Idle? && |s.pending| == 1 + MAX_PENDING * k && AreBelow(s.pending, 2 + MAX_PENDING * k)
  {
    if k == 0 {
      FirstArrivals(1);
    } else {
      GrowsWithoutBound(k - 1);
      var from := 2 + MAX_PENDING * (k - 1);
      RunConcat(EMPTY, Rounds(k - 1), Opening(from, MAX_PENDING) + FailedShipping(from + MAX_PENDING, 0));
      FailedDrainAdds(Run(EMPTY, Rounds(k - 1)), from, MAX_PENDING, 0);
    }
  }
}
