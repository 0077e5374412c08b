/**
 * The pending buffer of fresh uploads (AutoOptimizeUpload).
 *
 * Main results: over any serialised run of uploads and drains with arbitrary ship results the
 * buffer never exceeds 2000 and no id gets lost silently: each is pending, was in an
 * acknowledged batch, or was the oldest entry of a full buffer (NothingIsLost); a failed drain
 * keeps the set of pending ids (FailedDrainKeepsIds); k successful drains empty a buffer of up
 * to 200 k distinct ids (DrainsEmptyTheBuffer).
 */
module UploadBuffer {

  const MAX_BATCH := 200
  const MAX_PENDING := 2000

  const OPTIMIZABLE_MIMES: set<string> := {"image/jpeg", "image/jpg", "image/png", "image/gif"}

  /** array_unique: the first occurrence of each id, in order. */
  function Unique(s: seq<int>): seq<int> {
    if s == [] then []
    else
      var u := Unique(s[..|s| - 1]);
      if s[|s| - 1] in u then u else u + [s[|s| - 1]]
  }

  /** array_filter on ints: zero is dropped. */
  function NonZero(s: seq<int>): seq<int> {
    if s == [] then []
    else if s[0] == 0 then NonZero(s[1..])
    else [s[0]] + NonZero(s[1..])
  }

  function Ids(s: seq<int>): set<int> {
    set id | id in s
  }

  predicate Distinct(s: seq<int>) {
    forall i, j :: 0 <= i < j < |s| ==> s[i] != s[j]
  }

  /** appendPending: append, then keep the newest 2000. */
  function Append(pending: seq<int>, id: int): seq<int> {
    var all := pending + [id];
    if |all| > MAX_PENDING then all[|all| - MAX_PENDING..] else all
  }

  function Merge(pending: seq<int>, ids: seq<int>): seq<int> {
    if ids == [] then pending else Unique(pending + ids)
  }

  /** The batch a drain ships: the first 200 distinct ids. */
  function Batch(pending: seq<int>): seq<int> {
    var u := Unique(NonZero(pending));
    if |u| > MAX_BATCH then u[..MAX_BATCH] else u
  }

  function Overflow(pending: seq<int>): seq<int> {
    var u := Unique(NonZero(pending));
    if |u| > MAX_BATCH then u[MAX_BATCH..] else []
  }

  /** The buffer after a drain of an enrolled site. */
  function Drained(pending: seq<int>, ok: bool): seq<int> {
    if ok || Batch(pending) == [] then Overflow(pending) else Merge(Overflow(pending), Batch(pending))
  }

  class Buffer {
    var pending: seq<int>  // the option row; an absent row reads as []
    var guarded: bool      // the static re-entrancy flag

    constructor ()
      ensures pending == [] && !guarded
    {
      pending, guarded := [], false;
    }

    method SetGuard(active: bool)
      modifies this`guarded
      ensures guarded == active
    {
      guarded := active;
    }

    method AppendPending(id: int)
      modifies this`pending
      ensures pending == Append(old(pending), id)
    {
      pending := pending + [id];
      if |pending| > MAX_PENDING {
        pending := pending[|pending| - MAX_PENDING..];
      }
    }

    /** The filter callback: the metadata comes back as it went in, and a fresh image is buffered. */
    method OnGenerateMetadata<T>(metadata: T, id: int, context: string, enabled: bool, mime: string, optimized: bool)
      returns (result: T)
      modifies this`pending
      ensures result == metadata
      ensures pending == if context == "create" && !guarded && enabled && id > 0 && mime in OPTIMIZABLE_MIMES && !optimized
                         then Append(old(pending), id) else old(pending)
    {
      result := metadata;
      if context != "create" || guarded || !enabled || id <= 0 || mime !in OPTIMIZABLE_MIMES || optimized {
        return;
      }
      AppendPending(id);
    }

    method PopPending() returns (ids: seq<int>)
      modifies this`pending
      ensures pending == [] && ids == NonZero(old(pending))
    {
      if pending == [] {
        return [];
      }
      ids := NonZero(pending);
      pending := [];
    }

    method MergePending(ids: seq<int>)
      modifies this`pending
      ensures pending == Merge(old(pending), ids)
    {
      if ids == [] {
        return;
      }
      pending := Unique(pending + ids);
    }

    /** drain; `ok` is the shipper's answer.  The batch is what was handed to the shipper. */
    method Drain(enrolled: bool, ok: bool) returns (batch: seq<int>)
      modifies this`pending
      ensures !enrolled ==> pending == old(pending) && batch == []
      ensures enrolled ==> batch == Batch(old(pending)) && pending == Drained(old(pending), ok)
    {
      if !enrolled {
        return [];
      }
      var all := PopPending();
      if all == [] {
        return [];
      }
      batch := Unique(all);
      UniqueIsNotEmpty(all);
      UniqueFacts(all);
      var overflow := [];
      if |batch| > MAX_BATCH {
        overflow := batch[MAX_BATCH..];
        batch := batch[..MAX_BATCH];
      }
      if overflow != [] {
        MergeIntoEmpty(overflow);
        MergePending(overflow);
      }
      if !ok {
        MergePending(batch);
      }
    }
  }

  lemma {:induction false} UniqueIsNotEmpty(s: seq<int>)
    requires s != []
    ensures Unique(s) != []
  {
    UniqueFacts(s);
    assert s[0] in Ids(s);
  }

  lemma {:induction false} MergeIntoEmpty(ids: seq<int>)
    requires Distinct(ids)
    ensures Merge([], ids) == ids
  {
    assert [] + ids == ids;
    DistinctIsUnique(ids);
  }

  lemma {:induction false} UniqueFacts(s: seq<int>)
    ensures Ids(Unique(s)) == Ids(s) && Distinct(Unique(s)) && |Unique(s)| <= |s|
    ensures |Unique(s)| == |Ids(s)|
  {
    if s != [] {
      var init, last := s[..|s| - 1], s[|s| - 1];
      UniqueFacts(init);
      assert s == init + [last];
      assert Ids(s) == Ids(init) + {last};
      assert last in Unique(init) <==> last in Ids(Unique(init));
      if last !in Unique(init) {
        assert Ids(Unique(init) + [last]) == Ids(Unique(init)) + {last};
      }
    }
  }

  lemma {:induction false} DistinctIsUnique(s: seq<int>)
    requires Distinct(s)
    ensures Unique(s) == s
  {
    if s != [] {
      var init := s[..|s| - 1];
      DistinctIsUnique(init);
      assert s == init + [s[|s| - 1]];
    }
  }

  lemma {:induction false} NonZeroFacts(s: seq<int>)
    ensures Ids(NonZero(s)) == Ids(s) - {0} && |NonZero(s)| <= |s|
  {
    if s != [] {
      NonZeroFacts(s[1..]);
      assert s == [s[0]] + s[1..];
      assert Ids(s) == {s[0]} + Ids(s[1..]);
      if s[0] != 0 {
        assert Ids([s[0]] + NonZero(s[1..])) == {s[0]} + Ids(NonZero(s[1..]));
      }
    }
  }

  lemma {:induction false} SplitDistinct(u: seq<int>, n: nat)
    requires Distinct(u) && n <= |u|
    ensures Distinct(u[..n]) && Distinct(u[n..])
    ensures Ids(u[..n]) + Ids(u[n..]) == Ids(u) && Ids(u[..n]) !! Ids(u[n..])
  {
    assert u == u[..n] + u[n..];
    forall id | id in u[..n] ensures id !in u[n..] {
      var i :| 0 <= i < n && u[i] == id;
      assert forall k :: 0 <= k < |u[n..]| ==> u[n..][k] == u[n + k] != id;
    }
  }

  lemma {:induction false} JoinDistinct(a: seq<int>, b: seq<int>)
    requires Distinct(a) && Distinct(b) && Ids(a) !! Ids(b)
    ensures Distinct(a + b) && Ids(a + b) == Ids(a) + Ids(b)
  {
    forall i, j | 0 <= i < j < |a + b| ensures (a + b)[i] != (a + b)[j] {
      if i < |a| <= j {
        assert (a + b)[i] in Ids(a) && (a + b)[j] in Ids(b);
      }
    }
  }

  /** What a drain ships: at most 200 distinct ids, together with the overflow exactly the pending ones. */
  lemma {:induction false} BatchFacts(pending: seq<int>)
    ensures |Batch(pending)| <= MAX_BATCH && Distinct(Batch(pending)) && Distinct(Overflow(pending))
    ensures Ids(Batch(pending)) + Ids(Overflow(pending)) == Ids(pending) - {0}
    ensures Ids(Batch(pending)) !! Ids(Overflow(pending))
    ensures |Batch(pending)| + |Overflow(pending)| == |Ids(pending) - {0}| <= |pending|
    ensures Overflow(pending) != [] ==> |Batch(pending)| == MAX_BATCH
  {
    var u := Unique(NonZero(pending));
    UniqueFacts(NonZero(pending));
    NonZeroFacts(pending);
    var n := if |u| > MAX_BATCH then MAX_BATCH else |u|;
    SplitDistinct(u, n);
    assert Batch(pending) == u[..n] && Overflow(pending) == u[n..];
  }

  /** `at` are the positions at which the ids of u first occur in s, in order. */
  predicate FirstOccur(s: seq<int>, u: seq<int>, at: seq<nat>) {
    && |at| == |u|
    && (forall k :: 0 <= k < |u| ==> at[k] < |s| && s[at[k]] == u[k] && forall i :: 0 <= i < at[k] ==> s[i] != u[k])
    && (forall j, k :: 0 <= j < k < |at| ==> at[j] < at[k])
  }

  lemma {:induction false} NonZeroSnoc(s: seq<int>, id: int)
    ensures NonZero(s + [id]) == NonZero(s) + if id == 0 then [] else [id]
  {
    if s == [] {
      assert [id][1..] == [];
    } else {
      assert (s + [id])[1..] == s[1..] + [id];
      NonZeroSnoc(s[1..], id);
    }
  }

  lemma UniqueSnoc(s: seq<int>, id: int)
    ensures Unique(s + [id]) == if id in Unique(s) then Unique(s) else Unique(s) + [id]
  {
    assert (s + [id])[..|s|] == s;
  }

  lemma OneMoreId(s: seq<int>, id: int)
    ensures var u := Unique(NonZero(s));
            Unique(NonZero(s + [id])) == if id == 0 || id in u then u else u + [id]
    ensures id in Unique(NonZero(s)) <==> id in s && id != 0
  {
    NonZeroSnoc(s, id);
    NonZeroFacts(s);
    UniqueFacts(NonZero(s));
    UniqueSnoc(NonZero(s), id);
    assert NonZero(s) + [] == NonZero(s);
    assert id in Unique(NonZero(s)) <==> id in Ids(Unique(NonZero(s)));
    assert id in s <==> id in Ids(s);
  }

  /** Ids are shipped in the order in which they first came into the buffer: batch first, overflow after it. */
  lemma {:induction false} OldestShipFirst(pending: seq<int>) returns (at: seq<nat>)
    ensures Batch(pending) + Overflow(pending) == Unique(NonZero(pending))
    ensures FirstOccur(pending, Batch(pending) + Overflow(pending), at)
  {
    at := IdsFirstOccur(pending);
  }

  lemma {:induction false} IdsFirstOccur(s: seq<int>) returns (at: seq<nat>)
    ensures FirstOccur(s, Unique(NonZero(s)), at)
  {
    if s == [] {
      at := [];
    } else {
      var n := |s| - 1;
      at := IdsFirstOccur(s[..n]);
      OneMoreId(s[..n], s[n]);
      assert s == s[..n] + [s[n]];
      at := OneMorePosition(s, Unique(NonZero(s[..n])), at);
    }
  }

  lemma OneMorePosition(s: seq<int>, u: seq<int>, before: seq<nat>) returns (at: seq<nat>)
    requires s != [] && FirstOccur(s[..|s| - 1], u, before) && (s[|s| - 1] in u || s[|s| - 1] == 0 || s[|s| - 1] !in s[..|s| - 1])
    ensures var id := s[|s| - 1]; FirstOccur(s, if id == 0 || id in u then u else u + [id], at)
  {
    var n := |s| - 1;
    at := if s[n] == 0 || s[n] in u then before else before + [n];
    assert forall i :: 0 <= i < n ==> s[i] == s[..n][i];
  }

  /** A failed drain keeps the set of pending ids and lets the next drain try others first. */
  lemma {:induction false} FailedDrainKeepsIds(pending: seq<int>)
    ensures Ids(Drained(pending, false)) == Ids(pending) - {0}
    ensures Distinct(Drained(pending, false))
    ensures Drained(pending, false) == Overflow(pending) + Batch(pending)
  {
    BatchFacts(pending);
    JoinDistinct(Overflow(pending), Batch(pending));
    DistinctIsUnique(Overflow(pending) + Batch(pending));
    if Batch(pending) == [] {
      assert Overflow(pending) + Batch(pending) == Overflow(pending);
    }
  }

  /** A successful drain takes exactly its batch out. */
  lemma {:induction false} SuccessfulDrainTakesTheBatch(pending: seq<int>)
    ensures Ids(Drained(pending, true)) == Ids(pending) - {0} - Ids(Batch(pending))
  {
    BatchFacts(pending);
  }

  // ---- whole runs -----------------------------------------------------------------------------

  datatype Event = Upload(id: int) | DrainCall(enrolled: bool, ok: bool)

  /** The buffer, and what has become of every id: uploaded, acknowledged, dropped by the cap. */
  datatype Ledger = Ledger(pending: seq<int>, uploaded: set<int>, acked: set<int>, dropped: set<int>)

  function Apply(l: Ledger, e: Event): Ledger {
    match e
    case Upload(id) =>
      l.(pending := Append(l.pending, id), uploaded := l.uploaded + {id},
         dropped := if |l.pending| >= MAX_PENDING then l.dropped + {l.pending[0]} else l.dropped)
    case DrainCall(enrolled, ok) =>
      if !enrolled then l
      else l.(pending := Drained(l.pending, ok), acked := if ok then l.acked + Ids(Batch(l.pending)) else l.acked)
  }

  function RunEvents(l: Ledger, events: seq<Event>): Ledger
    decreases |events|
  {
    if events == [] then l else RunEvents(Apply(l, events[0]), events[1..])
  }

  predicate Balanced(l: Ledger) {
    && |l.pending| <= MAX_PENDING
    && (forall id :: id in l.pending ==> id > 0)
    && l.uploaded <= Ids(l.pending) + l.acked + l.dropped
    && Ids(l.pending) + l.acked + l.dropped <= l.uploaded
  }

  predicate PositiveIds(events: seq<Event>) {
    forall i :: 0 <= i < |events| && events[i].Upload? ==> events[i].id > 0
  }

  lemma AppendIds(pending: seq<int>, id: int)
    requires |pending| <= MAX_PENDING
    ensures |Append(pending, id)| <= MAX_PENDING && (forall i :: i in Append(pending, id) ==> i in pending || i == id)
    ensures Ids(Append(pending, id)) + (if |pending| >= MAX_PENDING then {pending[0]} else {}) == Ids(pending) + {id}
  {
    var all := pending + [id];
    assert forall i :: i in all <==> i in pending || i == id;
    if |all| > MAX_PENDING {
      assert all == [all[0]] + all[1..];
      assert forall i :: i in all <==> i == pending[0] || i in all[1..];
    }
  }

  lemma UploadBalances(l: Ledger, id: int)
    requires Balanced(l) && id > 0
    ensures Balanced(Apply(l, Upload(id)))
  {
    AppendIds(l.pending, id);
  }

  lemma {:induction false} DrainBalances(l: Ledger, ok: bool)
    requires Balanced(l)
    ensures Balanced(Apply(l, DrainCall(true, ok)))
  {
    BatchFacts(l.pending);
    assert Ids(l.pending) - {0} == Ids(l.pending);
    if !ok {
      FailedDrainKeepsIds(l.pending);
    }
    var after := Drained(l.pending, ok);
    forall id | id in after ensures id > 0 {
      assert id in Ids(after);
      assert id in Ids(l.pending);
    }
  }

  /** Every id ever uploaded is pending, acknowledged, or was the oldest entry when the cap dropped it. */
  lemma {:induction false} NothingIsLost(l: Ledger, events: seq<Event>)
    requires Balanced(l) && PositiveIds(events)
    ensures Balanced(RunEvents(l, events))
    decreases |events|
  {
    if events != [] {
      match events[0] {
        case Upload(id) =>
          UploadBalances(l, id);
        case DrainCall(enrolled, ok) =>
          if enrolled {
            DrainBalances(l, ok);
          }
      }
      assert forall i :: 0 <= i < |events[1..]| ==> events[1..][i] == events[i + 1];
      NothingIsLost(Apply(l, events[0]), events[1..]);
    }
  }

  /** Event i is a drain of an enrolled site that is acknowledged, and its batch holds the id. */
  predicate Acks(l: Ledger, events: seq<Event>, i: nat, id: int)
    requires i < |events|
  {
    events[i] == DrainCall(true, true) && id in Batch(RunEvents(l, events[..i]).pending)
  }

  /** Event i is an upload into a full buffer whose oldest entry is the id. */
  predicate Drops(l: Ledger, events: seq<Event>, i: nat, id: int)
    requires i < |events|
  {
    var pending := RunEvents(l, events[..i]).pending;
    events[i].Upload? && |pending| >= MAX_PENDING && pending[0] == id
  }

  lemma {:induction false} LastEvent(l: Ledger, events: seq<Event>)
    requires events != []
    ensures RunEvents(l, events) == Apply(RunEvents(l, events[..|events| - 1]), events[|events| - 1])
    decreases |events|
  {
    if |events| > 1 {
      LastEvent(Apply(l, events[0]), events[1..]);
      assert events[1..][..|events| - 2] == events[..|events| - 1][1..];
    }
  }

  /** What the ledger says of an id is what happened: uploaded by an upload, acknowledged by a drain that shipped it, dropped by the cap. */
  ghost predicate IsTrue(l: Ledger, events: seq<Event>, id: int) {
    var t := RunEvents(l, events);
    && (id in t.uploaded <==> id in l.uploaded || exists i :: 0 <= i < |events| && events[i] == Upload(id))
    && (id in t.acked <==> id in l.acked || exists i :: 0 <= i < |events| && Acks(l, events, i, id))
    && (id in t.dropped <==> id in l.dropped || exists i :: 0 <= i < |events| && Drops(l, events, i, id))
  }

  lemma {:induction false} LedgerIsTrue(l: Ledger, events: seq<Event>, id: int)
    ensures IsTrue(l, events, id)
    decreases |events|
  {
    if events != [] {
      var n := |events| - 1;
      LedgerIsTrue(l, events[..n], id);
      LastEvent(l, events);
      EarlierEvents(l, events, id);
      OneEventTells(RunEvents(l, events[..n]), events[n], id);
    }
  }

  lemma OneEventTells(l: Ledger, e: Event, id: int)
    ensures var t := Apply(l, e);
            && (id in t.uploaded <==> id in l.uploaded || e == Upload(id))
            && (id in t.acked <==> id in l.acked || (e == DrainCall(true, true) && id in Batch(l.pending)))
            && (id in t.dropped <==> id in l.dropped || (e.Upload? && |l.pending| >= MAX_PENDING && l.pending[0] == id))
  {
  }

  lemma EarlierEvents(l: Ledger, events: seq<Event>, id: int)
    requires events != []
    ensures var n := |events| - 1;
            && ((exists i :: 0 <= i < |events| && Acks(l, events, i, id))
                  <==> (exists i :: 0 <= i < n && Acks(l, events[..n], i, id)) || Acks(l, events, n, id))
            && ((exists i :: 0 <= i < |events| && Drops(l, events, i, id))
                  <==> (exists i :: 0 <= i < n && Drops(l, events[..n], i, id)) || Drops(l, events, n, id))
  {
    var n := |events| - 1;
    forall i | 0 <= i < n
      ensures Acks(l, events[..n], i, id) <==> Acks(l, events, i, id)
      ensures Drops(l, events[..n], i, id) <==> Drops(l, events, i, id)
    {
      assert events[..n][..i] == events[..i];
    }
  }

  function SuccessfulDrains(pending: seq<int>, k: nat): seq<int>
    decreases k
  {
    if k == 0 then pending else SuccessfulDrains(Drained(pending, true), k - 1)
  }

  /** k successful drains without uploads empty a buffer of up to 200 k distinct ids, and no fewer do for more. */
  lemma {:induction false} DrainsEmptyTheBuffer(pending: seq<int>, k: nat)
    requires k > 0
    ensures SuccessfulDrains(pending, k) == [] <==> |Ids(pending) - {0}| <= MAX_BATCH * k
    decreases k
  {
    var rest := Drained(pending, true);
    OneSuccessfulDrain(pending);
    if k > 1 {
      DrainsEmptyTheBuffer(rest, k - 1);
    }
  }

  lemma {:induction false} OneSuccessfulDrain(pending: seq<int>)
    ensures var n, rest := |Ids(pending) - {0}|, Drained(pending, true);
            |rest| == |Ids(rest) - {0}| == if n > MAX_BATCH then n - MAX_BATCH else 0
  {
    BatchFacts(pending);
    var rest := Drained(pending, true);
    SuccessfulDrainTakesTheBatch(pending);
    UniqueFacts(rest);
    DistinctIsUnique(rest);
    assert Ids(rest) - {0} == Ids(rest);
  }
}
