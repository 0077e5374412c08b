/**
 * The reconnect cool-down persisted between requests (FD-6 in the object cache drop-in).
 *
 * Main results: while Redis is down, at least min(15 * 2^(n-1), 300) seconds pass between the
 * failure of dial n and dial n+1 (GapsDouble), so a window of T seconds holds at most 5 + T/300 of them
 * (WindowHoldsFewDials), which is the best bound (FiveDialsIn225Seconds).
 */
module Cooldown {
  import opened Wrappers

  const BASE := 15
  const CAP := 300
  const LAST_EXACT := 63  // (int) pow(2, n - 1) leaves PHP's integer range for n > 63

  /** The state file: time of the last failure and failures in a row. */
  datatype State = State(lastFailure: int, failures: int)

  function Pow2(n: nat): nat {
    if n == 0 then 1 else 2 * Pow2(n - 1)
  }

  function Min(a: int, b: int): int {
    if a < b then a else b
  }

  /** The back-off after n failures; `wide` is what the cast gives outside the integer range. */
  function Backoff(n: int, wide: int -> int): int
    requires n > 0
  {
    Min(BASE * (if n <= LAST_EXACT then Pow2(n - 1) else wide(n)), CAP)
  }

  /** checkCooldown: whether a boot is refused. */
  predicate Refused(s: Option<State>, now: int, wide: int -> int) {
    && s.Some?
    && s.value.lastFailure > 0 && s.value.failures > 0
    && 0 <= now - s.value.lastFailure < Backoff(s.value.failures, wide)
  }

  function Failed(s: Option<State>, now: int): Option<State> {
    Some(State(now, if s.Some? then s.value.failures + 1 else 1))
  }

  /** A boot's two readings of the clock: before the dial, and when its failure is recorded. */
  datatype Span = Span(start: int, end: int)

  datatype BootResult = Skipped | Connected | DialFailed

  /** The state file and the boots that read and write it, one at a time. */
  class StateFile {
    const wide: int -> int
    var state: Option<State>

    constructor (wide: int -> int)
      ensures this.wide == wide && state == None
    {
      this.wide := wide;
      state := None;
    }

    method CheckCooldown(now: int) returns (refused: bool)
      ensures refused == Refused(state, now, wide)
    {
      if state.None? {
        return false;
      }
      var State(lastFailure, failures) := state.value;
      if lastFailure <= 0 || failures <= 0 {
        return false;
      }
      var backoff := Min(BASE * (if failures <= LAST_EXACT then Pow2(failures - 1) else wide(failures)), CAP);
      var elapsed := now - lastFailure;
      if elapsed < 0 {
        return false;
      }
      refused := elapsed < backoff;
    }

    method RecordFailure(now: int)
      modifies this`state
      ensures state == Failed(old(state), now)
    {
      var failures := if state.Some? then state.value.failures + 1 else 1;
      state := Some(State(now, failures));
    }

    method ClearState()
      modifies this`state
      ensures state == None
    {
      state := None;
    }

    /** The part of boot that dials: the clock is read before the dial, and again when its failure is recorded. */
    method Boot(now: int, later: int, up: bool) returns (r: BootResult)
      modifies this`state
      ensures r == Skipped <==> Refused(old(state), now, wide)
      ensures r == Skipped ==> state == old(state)
      ensures r == Connected ==> up && state == None
      ensures r == DialFailed ==> !up && state == Failed(old(state), later)
    {
      var refused := CheckCooldown(now);
      if refused {
        return Skipped;
      }
      if up {
        ClearState();
        return Connected;
      }
      RecordFailure(later);
      return DialFailed;
    }

    /** A run of boots with Redis down: those whose dial failed. */
    method BootsWhileDown(boots: seq<Span>) returns (dials: seq<Span>)
      modifies this`state
      ensures dials == Dials(old(state), boots, wide)
      ensures state == After(old(state), boots, wide)
    {
      dials := [];
      for i := 0 to |boots|
        invariant dials == Dials(old(state), boots[..i], wide)
        invariant state == After(old(state), boots[..i], wide)
      {
        assert boots[..i + 1][..i] == boots[..i];
        var r := Boot(boots[i].start, boots[i].end, false);
        if r == DialFailed {
          dials := dials + [boots[i]];
        }
      }
      assert boots[..|boots|] == boots;
    }
  }

  /** The state after the given boots, all with Redis down. */
  function After(s: Option<State>, boots: seq<Span>, wide: int -> int): Option<State> {
    if boots == [] then s
    else
      var before, boot := After(s, boots[..|boots| - 1], wide), boots[|boots| - 1];
      if Refused(before, boot.start, wide) then before else Failed(before, boot.end)
  }

  /** Those of the boots that dialled. */
  function Dials(s: Option<State>, boots: seq<Span>, wide: int -> int): seq<Span> {
    if boots == [] then []
    else
      var before, boot := boots[..|boots| - 1], boots[|boots| - 1];
      Dials(s, before, wide) + if Refused(After(s, before, wide), boot.start, wide) then [] else [boot]
  }

  /** Boots one after the other, on a clock that starts after the epoch and never steps back. */
  predicate Clock(boots: seq<Span>) {
    && (forall i :: 0 <= i < |boots| ==> 0 < boots[i].start <= boots[i].end)
    && (forall i, j :: 0 <= i < j < |boots| ==> boots[i].end <= boots[j].start)
  }

  /** After a run from no state: the last dial's failure and the number of dials are what the file holds. */
  lemma {:induction false} FileRecordsDials(boots: seq<Span>, wide: int -> int)
    requires Clock(boots)
    ensures var dials := Dials(None, boots, wide);
            After(None, boots, wide) == (if dials == [] then None else Some(State(dials[|dials| - 1].end, |dials|)))
    ensures forall d :: d in Dials(None, boots, wide) ==> d in boots
  {
    if boots != [] {
      FileRecordsDials(boots[..|boots| - 1], wide);
    }
  }

  /** From the failure of dial n to dial n+1 at least min(15 * 2^(n-1), 300) s pass, for n up to 63. */
  lemma {:induction false} GapsDouble(boots: seq<Span>, wide: int -> int, n: nat)
    requires Clock(boots)
    requires 0 < n < |Dials(None, boots, wide)| && n <= LAST_EXACT
    ensures var dials := Dials(None, boots, wide);
            && dials[n].start - dials[n - 1].end >= Min(BASE * Pow2(n - 1), CAP)
            && dials[n - 1].start <= dials[n - 1].end
  {
    var before := boots[..|boots| - 1];
    var earlier := Dials(None, before, wide);
    FileRecordsDials(before, wide);
    if n < |earlier| {
      GapsDouble(before, wide, n);
    } else {
      assert earlier[n - 1] in before;
    }
  }

  lemma Pow2Grows(n: nat)
    ensures Pow2(0) == 1 && Pow2(1) == 2 && Pow2(2) == 4 && Pow2(3) == 8 && Pow2(4) == 16
    ensures n >= 5 ==> Pow2(n) >= 32
  {
    if n > 5 {
      Pow2Grows(n - 1);
    }
  }

  /** The least time m gaps in a row take, from the first failure on: 15, 45, 105, 225, 465, then 300 more each. */
  function LeastSpan(m: nat): nat {
    if m == 0 then 0
    else if m == 1 then 15
    else if m == 2 then 45
    else if m == 3 then 105
    else if m == 4 then 225
    else 465 + 300 * (m - 5)
  }

  lemma {:induction false} SpanGrows(boots: seq<Span>, wide: int -> int, i: nat, j: nat)
    requires Clock(boots)
    requires i <= j < |Dials(None, boots, wide)| && j <= LAST_EXACT
    ensures Dials(None, boots, wide)[j].start - Dials(None, boots, wide)[i].start >= LeastSpan(j - i)
    decreases j - i
  {
    if i < j {
      SpanGrows(boots, wide, i, j - 1);
      GapsDouble(boots, wide, j);
      Pow2Grows(j - 1);
      Pow2Increases(j - i - 1, j - 1);
      Pow2Grows(j - i - 1);
    }
  }

  lemma {:induction false} Pow2Increases(a: nat, b: nat)
    requires a <= b
    ensures Pow2(a) <= Pow2(b)
  {
    if a < b {
      Pow2Increases(a, b - 1);
    }
  }

  /** A window of T seconds, anywhere in the run, holds at most 5 + T/300 failed dials. */
  lemma {:induction false} WindowHoldsFewDials(boots: seq<Span>, wide: int -> int, i: nat, j: nat, window: nat)
    requires Clock(boots)
    requires i <= j < |Dials(None, boots, wide)| && j <= LAST_EXACT
    requires Dials(None, boots, wide)[j].start - Dials(None, boots, wide)[i].start <= window
    ensures j - i + 1 <= 5 + window / CAP
  {
    SpanGrows(boots, wide, i, j);
  }

  /** A boot whose dial fails at once. */
  function At(t: int): Span {
    Span(t, t)
  }

  /** The bound is reached: boots at 0, 15, 45, 105 and 225 s all dial. */
  lemma {:induction false} FiveDialsIn225Seconds(t: int, wide: int -> int)
    requires t > 0
    ensures var boots := [At(t), At(t + 15), At(t + 45), At(t + 105), At(t + 225)];
            Clock(boots) && Dials(None, boots, wide) == boots
  {
    Pow2Grows(0);
    var s1 := [] + [At(t)];
    var s2 := s1 + [At(t + 15)];
    var s3 := s2 + [At(t + 45)];
    var s4 := s3 + [At(t + 105)];
    AllowedDial([], t, wide);
    AllowedDial(s1, t + 15, wide);
    AllowedDial(s2, t + 45, wide);
    AllowedDial(s3, t + 105, wide);
    AllowedDial(s4, t + 225, wide);
    assert s4 + [At(t + 225)] == [At(t), At(t + 15), At(t + 45), At(t + 105), At(t + 225)];
  }

  /** After n boots that all dialled, a boot at least the n-th back-off after the last, dials. */
  lemma {:induction false} AllowedDial(dials: seq<Span>, now: int, wide: int -> int)
    requires Dials(None, dials, wide) == dials && |dials| <= 5
    requires After(None, dials, wide) == (if dials == [] then None else Some(State(dials[|dials| - 1].end, |dials|)))
    requires dials != [] ==> now - dials[|dials| - 1].end >= BASE * Pow2(|dials| - 1)
    ensures Dials(None, dials + [At(now)], wide) == dials + [At(now)]
    ensures After(None, dials + [At(now)], wide) == Some(State(now, |dials| + 1))
  {
    NextDial(None, dials, At(now), wide);
  }

  lemma NextDial(s: Option<State>, boots: seq<Span>, boot: Span, wide: int -> int)
    ensures var before := After(s, boots, wide);
            && Dials(s, boots + [boot], wide) == Dials(s, boots, wide) + (if Refused(before, boot.start, wide) then [] else [boot])
            && After(s, boots + [boot], wide) == if Refused(before, boot.start, wide) then before else Failed(before, boot.end)
  {
    assert (boots + [boot])[..|boots|] == boots;
  }

  /** No boot 300 s or more after the last failure is refused, whatever the file says; nor is one before it. */
  lemma RefusalIsBounded(s: State, now: int, wide: int -> int)
    ensures Refused(Some(s), now, wide) ==> 0 <= now - s.lastFailure < CAP
    ensures s.failures == 1 && s.lastFailure > 0 ==> (Refused(Some(s), now, wide) <==> 0 <= now - s.lastFailure < BASE)
  {
  }

  /** Past 63 failures the bound rests on the cast: where that gives 0 or less, no boot is refused any more. */
  lemma CastEndsTheCooldown(s: State, now: int, wide: int -> int)
    requires s.failures > LAST_EXACT && s.lastFailure > 0
    ensures (forall t :: !Refused(Some(s), t, wide)) <==> wide(s.failures) <= 0
  {
    if wide(s.failures) > 0 {
      assert Refused(Some(s), s.lastFailure, wide);
    }
  }
}
