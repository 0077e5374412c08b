/**
 * The connection ledger (RedisConnection): how many handles a process dials, and what becomes of
 * each of them, under arbitrary failures of the constructor, pconnect, AUTH, SELECT, the
 * client options and PING.
 *
 * Main results: a process dials at most 12 times; every handle a connection ever dialled is
 * closed, or is the one in its field; and it never has two open at once (Valid, kept by every
 * method and so by every run, RunCalls).
 */
module RedisConnection {
  import opened Wrappers

  const MAX_DIALS := 12
  const PING_AFTER_IDLE := 60

  /** What goes wrong in one attempt of connect; all true and no jitter failure is a success. */
  datatype Dial = Dial(jitterThrows: bool, constructs: bool, connects: bool, authOk: bool, selectOk: bool, optionsOk: bool)

  predicate Succeeds(d: Dial, needsAuth: bool, attempt: int) {
    && !(attempt > 1 && d.jitterThrows)
    && d.constructs && d.connects && (needsAuth ==> d.authOk) && d.selectOk && d.optionsOk
  }

  /** How many of the first n attempts construct a handle. */
  function Constructed(dials: seq<Dial>, n: nat): nat
    requires n <= |dials|
  {
    if n == 0 then 0
    else Constructed(dials, n - 1) + if !(n > 1 && dials[n - 1].jitterThrows) && dials[n - 1].constructs then 1 else 0
  }

  /** None of the first n attempts succeeds. */
  predicate AllFail(dials: seq<Dial>, needsAuth: bool, n: nat)
    requires n <= |dials|
  {
    forall i :: 0 <= i < n ==> !Succeeds(dials[i], needsAuth, i + 1)
  }

  /** Attempt i, counted from 0, is the first that succeeds; a dial for each handle constructed up to then. */
  predicate ComesFrom(dials: seq<Dial>, needsAuth: bool, i: nat, before: nat, after: nat)
    requires i < |dials|
  {
    Succeeds(dials[i], needsAuth, i + 1) && AllFail(dials, needsAuth, i) && after == before + Constructed(dials, i + 1)
  }

  /** No attempt succeeds before they, or the dials of the process, are used up. */
  predicate IsUsedUp(dials: seq<Dial>, needsAuth: bool, attempts: nat, n: nat, before: nat, after: nat)
    requires attempts <= |dials|
  {
    n <= attempts && AllFail(dials, needsAuth, n) && after == before + Constructed(dials, n) && (n == attempts || after == MAX_DIALS)
  }

  /** The static dial counter of the process, and the handles closed in it; handle n is the n-th dialled. */
  class Process {
    var dialCount: nat
    var closed: set<nat>

    constructor ()
      ensures dialCount == 0 && closed == {}
    {
      dialCount, closed := 0, {};
    }

    method Close(handle: nat)
      modifies this`closed
      ensures closed == old(closed) + {handle}
    {
      closed := closed + {handle};
    }
  }

  datatype Call = AcquireCall(idle: int, pingOk: bool, dials: seq<Dial>) | MarkCall | SuccessCall | CloseCall

  class Connection {
    const process: Process
    const extensionLoaded: bool
    const retryCount: int
    const needsAuth: bool
    var redis: Option<nat>
    var degraded: bool
    var wasDegraded: bool
    var reconnectAttempts: nat
    ghost var dialled: set<nat>  // every handle this connection ever dialled
    ghost var peak: nat          // the most it ever had open at once

    constructor (process: Process, extensionLoaded: bool, retryCount: int, needsAuth: bool)
      requires process.dialCount <= MAX_DIALS
      ensures this.process == process && this.extensionLoaded == extensionLoaded
      ensures this.retryCount == retryCount && this.needsAuth == needsAuth
      ensures Valid() && redis == None && !degraded && dialled == {}
    {
      this.process, this.extensionLoaded, this.retryCount, this.needsAuth := process, extensionLoaded, retryCount, needsAuth;
      redis, degraded, wasDegraded, reconnectAttempts := None, false, false, 0;
      dialled, peak := {}, 0;
    }

    ghost function Open(): set<nat>
      reads this, process
    {
      dialled - process.closed
    }

    ghost predicate Valid()
      reads this, process
    {
      && process.dialCount <= MAX_DIALS
      && (forall h :: h in dialled ==> h < process.dialCount)
      && Open() == (if redis.Some? then {redis.value} else {})
      && peak <= 1
    }

    function Attempts(): (n: nat)
      ensures n >= 1
    {
      if retryCount > 1 then retryCount else 1
    }

    /** Dial a new handle: \Redis is constructed and counted. */
    method NewHandle() returns (handle: nat)
      requires Open() == {} && process.dialCount < MAX_DIALS && peak <= 1
      requires forall h :: h in dialled ==> h < process.dialCount
      requires forall h :: h in process.closed ==> h < process.dialCount
      modifies this`dialled, this`peak, process`dialCount
      ensures handle == old(process.dialCount) && process.dialCount == old(process.dialCount) + 1
      ensures dialled == old(dialled) + {handle}
      ensures Open() == {handle} && peak <= 1
    {
      handle := process.dialCount;
      process.dialCount := process.dialCount + 1;
      dialled := dialled + {handle};
      peak := if peak > |Open()| then peak else |Open()|;
      assert Open() == {handle};
    }

    ghost predicate HandlesAreCounted()
      reads this, process
    {
      forall h :: h in process.closed ==> h < process.dialCount
    }

    /** connect: None stands for the exception it throws. */
    method Connect(dials: seq<Dial>) returns (r: Option<nat>)
      requires Valid() && HandlesAreCounted() && redis == None && |dials| >= Attempts()
      modifies this`dialled, this`peak, this`reconnectAttempts, process
      ensures process.dialCount <= MAX_DIALS && peak <= 1 && HandlesAreCounted()
      ensures old(process.dialCount) <= process.dialCount <= old(process.dialCount) + Attempts()
      ensures forall h :: h in dialled <==> h in old(dialled) || old(process.dialCount) <= h < process.dialCount
      ensures Open() == if r.Some? then {r.value} else {}
      ensures r.Some? ==> r.value == process.dialCount - 1
      ensures r == None <== !extensionLoaded || old(process.dialCount) == MAX_DIALS
      ensures r.Some? ==> exists i :: 0 <= i < Attempts() && ComesFrom(dials, needsAuth, i, old(process.dialCount), process.dialCount)
      ensures r == None && extensionLoaded ==>
        exists n :: IsUsedUp(dials, needsAuth, Attempts(), n, old(process.dialCount), process.dialCount)
    {
      if !extensionLoaded {
        return None;
      }
      // The PHP variable survives an iteration: a failure before the next handle exists closes the last one again.
      var handle: Option<nat> := None;
      for attempt := 1 to Attempts() + 1
        invariant process.dialCount <= MAX_DIALS && peak <= 1 && HandlesAreCounted()
        invariant old(process.dialCount) <= process.dialCount < old(process.dialCount) + attempt
        invariant forall h :: h in dialled <==> h in old(dialled) || old(process.dialCount) <= h < process.dialCount
        invariant Open() == {}
        invariant handle.Some? ==> handle.value in process.closed
        invariant AllFail(dials, needsAuth, attempt - 1)
        invariant process.dialCount == old(process.dialCount) + Constructed(dials, attempt - 1)
      {
        if process.dialCount >= MAX_DIALS {
          assert IsUsedUp(dials, needsAuth, Attempts(), attempt - 1, old(process.dialCount), process.dialCount);
          return None;
        }
        var d := dials[attempt - 1];
        if !(attempt > 1 && d.jitterThrows) && d.constructs {
          var h := NewHandle();
          handle := Some(h);
          if d.connects && (needsAuth ==> d.authOk) && d.selectOk && d.optionsOk {
            reconnectAttempts := reconnectAttempts + 1;
            assert ComesFrom(dials, needsAuth, attempt - 1, old(process.dialCount), process.dialCount);
            return handle;
          }
        }
        if handle.Some? {
          process.Close(handle.value);
        }
      }
      assert IsUsedUp(dials, needsAuth, Attempts(), Attempts(), old(process.dialCount), process.dialCount);
      return None;
    }

    /** maybeePing. */
    method MaybePing(idle: int, pingOk: bool)
      requires Valid() && redis.Some?
      modifies this`redis, this`degraded, process`closed
      ensures Valid() && (old(HandlesAreCounted()) ==> HandlesAreCounted())
      ensures redis == if idle < PING_AFTER_IDLE || pingOk then old(redis) else None
      ensures degraded == (old(degraded) || redis.None?)
    {
      if idle < PING_AFTER_IDLE || pingOk {
        return;
      }
      process.Close(redis.value);
      redis, degraded := None, true;
    }

    /** acquire: None stands for an exception, also the TypeError after a PING that failed. */
    method Acquire(idle: int, pingOk: bool, dials: seq<Dial>) returns (r: Option<nat>)
      requires Valid() && HandlesAreCounted() && |dials| >= Attempts()
      modifies this`redis, this`degraded, this`dialled, this`peak, this`reconnectAttempts, process
      ensures Valid() && HandlesAreCounted()
      ensures r == redis && (r.Some? ==> !degraded && r.value !in process.closed)
      ensures old(process.dialCount) <= process.dialCount <= old(process.dialCount) + Attempts()
      ensures forall h :: h in dialled <==> h in old(dialled) || old(process.dialCount) <= h < process.dialCount
      ensures old(redis).Some? && !old(degraded) ==>
        process.dialCount == old(process.dialCount) && r == if idle < PING_AFTER_IDLE || pingOk then old(redis) else None
      ensures (old(redis).None? || old(degraded)) && old(process.dialCount) == MAX_DIALS ==> r == None
      ensures (old(redis).None? || old(degraded)) && r.Some? ==>
        r.value == process.dialCount - 1
        && exists i :: 0 <= i < Attempts() && ComesFrom(dials, needsAuth, i, old(process.dialCount), process.dialCount)
      ensures (old(redis).None? || old(degraded)) && r == None && extensionLoaded ==>
        exists n :: IsUsedUp(dials, needsAuth, Attempts(), n, old(process.dialCount), process.dialCount)
    {
      if redis.Some? && !degraded {
        MaybePing(idle, pingOk);
        return redis;
      }
      if redis.Some? {
        process.Close(redis.value);
        redis := None;
      }
      r := Connect(dials);
      redis := r;
      if r.Some? {
        degraded := false;
      }
    }

    method MarkDegraded()
      modifies this`degraded, this`wasDegraded
      ensures degraded && wasDegraded
    {
      degraded, wasDegraded := true, true;
    }

    method RecordSuccess()
      modifies this`degraded
      ensures !degraded
    {
      degraded := false;
    }

    method Close()
      requires Valid() && HandlesAreCounted()
      modifies this`redis, process`closed
      ensures Valid() && HandlesAreCounted() && redis == None
    {
      if redis.Some? {
        process.Close(redis.value);
        redis := None;
      }
    }

    /** Any run of calls: the ledger balances after each of them. */
    method RunCalls(calls: seq<Call>)
      requires Valid() && HandlesAreCounted()
      requires forall i :: 0 <= i < |calls| && calls[i].AcquireCall? ==> |calls[i].dials| >= Attempts()
      modifies this, process
      ensures Valid() && HandlesAreCounted()
      ensures old(dialled) <= dialled && (old(wasDegraded) ==> wasDegraded)
    {
      for i := 0 to |calls|
        invariant Valid() && HandlesAreCounted()
        invariant old(dialled) <= dialled && (old(wasDegraded) ==> wasDegraded)
        invariant old(process.dialCount) <= process.dialCount <= MAX_DIALS
      {
        match calls[i]
        case AcquireCall(idle, pingOk, dials) => var _ := Acquire(idle, pingOk, dials);
        case MarkCall => MarkDegraded();
        case SuccessCall => RecordSuccess();
        case CloseCall => Close();
      }
    }
  }
}
