/**
 * The corpus generator's worker pool, as a state machine over the steps of main, the workers and
 * the closing goroutine.
 *
 * Channels keep what was sent and not yet received, block when full or empty, and panic on a send
 * or close after close; a slug travels with its result so that results can be counted per slug.
 *
 * Main results, for any number of workers and any answers: every run keeps the invariant, never
 * panics and has a bounded number of steps (EveryRunIsSafe); a run that cannot go on has ended
 * with exactly one result per slug (StuckMeansDone); no send ever blocks (SendsNeverBlock); the
 * manifest marks as extracted exactly what it did before and the slugs that gave patterns
 * (WhatARunAchieves), and as unavailable what the text of an error says (MarkedUnavailable); every slug
 * it does not skip ends with what its deciding attempt gave (EverySlugIsFetched).
 */
module WorkerPool {
  import opened Wrappers
  import opened Patterns
  import opened FetchErrors

  datatype Entry = Entry(extracted: bool, unavailable: bool)
  type Manifest = map<string, Entry>

  /** What downloadAndExtract gives: patterns, or an error with its text. */
  datatype Answer = Got(found: SlugPatterns) | Failed(text: string)

  datatype Worker =
    | Idle
    | Holding(slug: string)                  // about to ask the manifest whether it is extracted
    | SecondLook(slug: string)               // about to ask whether it is unavailable
    | Queueing(slug: string)                 // about to lock rateMu
    | Ticking(slug: string)                  // holds rateMu and waits for the ticker
    | Fetching(slug: string, attempt: nat)
    | BackingOff(slug: string, attempt: nat)
    | Replying(slug: string, sp: Option<SlugPatterns>)
    | Exited

  datatype MainPhase = Sending | Launching | Collecting | Finished
  datatype CloserPhase = NotStarted | Waiting | Closed

  datatype Result = Result(slug: string, sp: Option<SlugPatterns>)

  /** What is fixed before the pool starts. */
  datatype Setup = Setup(slugs: seq<string>, manifest: Manifest, workers: nat)

  datatype State = State(
    main: MainPhase,
    sent: nat,                       // slugs main has put into jobs
    jobs: seq<string>,
    jobsClosed: bool,
    results: seq<Result>,
    resultsClosed: bool,
    closer: CloserPhase,
    ws: seq<Worker>,
    wg: int,
    rate: Option<nat>,               // who holds rateMu
    manifest: Manifest,
    collected: seq<Result>,          // what main has received
    patterns: map<string, SlugPatterns>,
    panicked: bool)

  /** Who makes the next step; a fetching worker also says what it gets. */
  datatype Actor = Main | Closer | Work(w: nat, answer: Answer)

  /** slugSet is a map, so its keys are distinct; the flag is clamped to 1..4. */
  ghost predicate ValidSetup(c: Setup) {
    Distinct(c.slugs) && c.workers >= 1
  }

  function Init(c: Setup): State {
    State(Sending, 0, [], false, [], false, NotStarted, seq(c.workers, _ => Idle), c.workers, None,
          c.manifest, [], map[], false)
  }

  // ---- the steps ------------------------------------------------------------------------------------

  /** None when the actor blocks or has ended. */
  function Step(c: Setup, s: State, a: Actor): Option<State> {
    if s.panicked then None
    else
      match a
      case Main => MainStep(c, s)
      case Closer => CloserStep(s)
      case Work(w, answer) => if w < |s.ws| then WorkerStep(c, s, w, answer) else None
  }

  function MainStep(c: Setup, s: State): Option<State> {
    match s.main
    case Sending =>
      if s.sent < |c.slugs| then
        if s.jobsClosed then Some(s.(panicked := true))
        else if |s.jobs| >= |c.slugs| then None
        else Some(s.(sent := s.sent + 1, jobs := s.jobs + [c.slugs[s.sent]]))
      else Some(s.(main := Launching, jobsClosed := true, panicked := s.jobsClosed))
    case Launching => Some(s.(main := Collecting, closer := Waiting))
    case Collecting =>
      if s.results != [] then
        var r := s.results[0];
        Some(s.(results := s.results[1..], collected := s.collected + [r],
                patterns := if r.sp.Some? then s.patterns[r.sp.value.slug := r.sp.value] else s.patterns))
      else if s.resultsClosed then Some(s.(main := Finished))
      else None
    case Finished => None
  }

  /** wg.Wait(); close(results). */
  function CloserStep(s: State): Option<State> {
    if s.closer == Waiting && s.wg == 0 then Some(s.(closer := Closed, resultsClosed := true, panicked := s.resultsClosed))
    else None
  }

  function WorkerStep(c: Setup, s: State, w: nat, answer: Answer): Option<State>
    requires w < |s.ws|
  {
    match s.ws[w]
    case Idle =>
      if s.jobs != [] then Some(s.(jobs := s.jobs[1..], ws := s.ws[w := Holding(s.jobs[0])]))
      else if s.jobsClosed then Some(s.(ws := s.ws[w := Exited], wg := s.wg - 1, panicked := s.wg <= 0))
      else None
    case Replying(x, sp) =>
      if s.resultsClosed then Some(s.(panicked := true))
      else if |s.results| >= |c.slugs| then None
      else Some(s.(results := s.results + [Result(x, sp)], ws := s.ws[w := Idle]))
    case Exited => None
    case _ =>
      var next := Advance(s.ws[w], w, answer, s.rate, s.manifest);
      if next.None? then None
      else Some(s.(ws := s.ws[w := next.value.worker], rate := next.value.rate, manifest := next.value.manifest))
  }

  datatype Progress = Progress(worker: Worker, rate: Option<nat>, manifest: Manifest)

  /** What worker number w does with the slug it has; None while another worker holds rateMu. */
  function Advance(worker: Worker, w: nat, answer: Answer, rate: Option<nat>, manifest: Manifest): Option<Progress>
    requires Holds(worker) && !worker.Replying?
  {
    match worker
    case Holding(x) =>
      var extracted := x in manifest && manifest[x].extracted;
      Some(Progress(if extracted then Replying(x, None) else SecondLook(x), rate, manifest))
    case SecondLook(x) =>
      var unavailable := x in manifest && manifest[x].unavailable;
      Some(Progress(if unavailable then Replying(x, None) else Queueing(x), rate, manifest))
    case Queueing(x) => if rate.Some? then None else Some(Progress(Ticking(x), Some(w), manifest))
    case Ticking(x) => Some(Progress(Fetching(x, 0), None, manifest))
    case Fetching(x, attempt) =>
      var (next, entry) := AfterFetch(x, attempt, answer);
      Some(Progress(next, rate, if entry.Some? then manifest[x := entry.value] else manifest))
    case BackingOff(x, attempt) =>
      Some(Progress(if attempt + 1 < 3 then Fetching(x, attempt + 1) else Replying(x, None), rate, manifest))
  }

  /** One attempt: where the worker goes, and what it sets in the manifest. */
  function AfterFetch(x: string, attempt: nat, answer: Answer): (Worker, Option<Entry>) {
    match answer
    case Got(found) => (Replying(x, Some(found.(slug := x))), Some(Entry(true, false)))
    case Failed(text) =>
      if Contains(text, "429") then (BackingOff(x, attempt), None)
      else if Contains(text, "404") then (Replying(x, None), Some(Entry(false, true)))
      else (Replying(x, None), None)
  }

  // ---- counting -------------------------------------------------------------------------------------

  predicate Holds(w: Worker) {
    !w.Idle? && !w.Exited?
  }

  function Sum(ws: seq<Worker>, f: Worker -> nat): nat {
    if ws == [] then 0 else f(ws[0]) + Sum(ws[1..], f)
  }

  function IsLive(w: Worker): nat {
    if w.Exited? then 0 else 1
  }

  function IsBusy(w: Worker): nat {
    if Holds(w) then 1 else 0
  }

  function IsOn(x: string): Worker -> nat {
    w => if Holds(w) && w.slug == x then 1 else 0
  }

  /** An upper bound on the steps left for the worker's slug, the receipt of its result included, and its exit. */
  function StepsLeft(w: Worker): nat {
    match w
    case Idle => 1
    case Holding(_) => 13
    case SecondLook(_) => 12
    case Queueing(_) => 11
    case Ticking(_) => 10
    case Fetching(_, attempt) => if attempt < 3 then 9 - 2 * attempt else 4
    case BackingOff(_, attempt) => if attempt < 3 then 8 - 2 * attempt else 4
    case Replying(_, _) => 3
    case Exited => 0
  }

  lemma {:induction false} SumUpdate(ws: seq<Worker>, w: nat, x: Worker, f: Worker -> nat)
    requires w < |ws|
    ensures Sum(ws[w := x], f) + f(ws[w]) == Sum(ws, f) + f(x)
  {
    if w == 0 {
      assert ws[w := x][1..] == ws[1..];
    } else {
      assert ws[w := x][1..] == ws[1..][w - 1 := x];
      SumUpdate(ws[1..], w - 1, x, f);
    }
  }

  lemma {:induction false} SumHas(ws: seq<Worker>, w: nat, f: Worker -> nat)
    requires w < |ws|
    ensures f(ws[w]) <= Sum(ws, f)
  {
    if w > 0 {
      SumHas(ws[1..], w - 1, f);
    }
  }

  lemma {:induction false} SumHasTwo(ws: seq<Worker>, v: nat, w: nat, f: Worker -> nat)
    requires v < w < |ws|
    ensures f(ws[v]) + f(ws[w]) <= Sum(ws, f)
  {
    if v > 0 {
      SumHasTwo(ws[1..], v - 1, w - 1, f);
    } else {
      SumHas(ws[1..], w - 1, f);
    }
  }

  /** A sum of 0 has only 0s; otherwise somebody counts. */
  lemma {:induction false} SumWitness(ws: seq<Worker>, f: Worker -> nat)
    ensures Sum(ws, f) == 0 ==> forall w :: 0 <= w < |ws| ==> f(ws[w]) == 0
    ensures Sum(ws, f) > 0 ==> exists w :: 0 <= w < |ws| && f(ws[w]) > 0
  {
    if ws != [] {
      SumWitness(ws[1..], f);
      if Sum(ws[1..], f) > 0 {
        var v :| 0 <= v < |ws[1..]| && f(ws[1..][v]) > 0;
        assert f(ws[v + 1]) > 0;
      }
      assert forall w :: 0 < w < |ws| ==> ws[w] == ws[1..][w - 1];
    }
  }

  function Names(rs: seq<Result>): seq<string> {
    seq(|rs|, i requires 0 <= i < |rs| => rs[i].slug)
  }

  lemma NamesSnoc(rs: seq<Result>, r: Result)
    ensures Names(rs + [r]) == Names(rs) + [r.slug]
  {
  }

  lemma NamesFirst(rs: seq<Result>)
    requires rs != []
    ensures Names(rs) == [rs[0].slug] + Names(rs[1..])
  {
  }

  /** How often a slug is anywhere: still to send, in a channel, with a worker, or answered. */
  function Copies(c: Setup, s: State, x: string): nat
    requires s.sent <= |c.slugs|
  {
    multiset(c.slugs[s.sent..])[x] + multiset(s.jobs)[x] + Sum(s.ws, IsOn(x))
      + multiset(Names(s.results))[x] + multiset(Names(s.collected))[x]
  }

  // ---- the invariant --------------------------------------------------------------------------------

  ghost predicate Protocol(c: Setup, s: State) {
    && s.sent <= |c.slugs| && !s.panicked && |s.ws| == c.workers >= 1
    && s.wg == Sum(s.ws, IsLive)
    && s.jobsClosed == !s.main.Sending?
    && (s.jobsClosed ==> s.sent == |c.slugs|)
    && s.closer.NotStarted? == (s.main.Sending? || s.main.Launching?)
    && s.resultsClosed == s.closer.Closed?
    && (s.closer.Closed? ==> s.wg == 0)
    && (s.main.Finished? ==> s.resultsClosed && s.results == [])
    && (forall w :: 0 <= w < |s.ws| ==> WorkerOk(s, w))
    && (s.rate.Some? ==> s.rate.value < |s.ws| && s.ws[s.rate.value].Ticking?)
  }

  predicate WorkerOk(s: State, w: nat)
    requires w < |s.ws|
  {
    && (s.ws[w].Ticking? ==> s.rate == Some(w))
    && (s.ws[w].Exited? ==> s.jobsClosed && s.jobs == [])
    && AttemptOk(s.ws[w])
  }

  predicate AttemptOk(w: Worker) {
    w.Fetching? || w.BackingOff? ==> w.attempt < 3
  }

  ghost predicate Accounts(c: Setup, s: State)
    requires s.sent <= |c.slugs|
  {
    && (forall x :: Copies(c, s, x) == multiset(c.slugs)[x])
    && |s.jobs| + Sum(s.ws, IsBusy) + |s.results| + |s.collected| == s.sent
  }

  lemma InitKeeps(c: Setup)
    requires ValidSetup(c)
    ensures Protocol(c, Init(c)) && Accounts(c, Init(c))
  {
    var s := Init(c);
    assert c.slugs[0..] == c.slugs;
    AllIdle(s.ws, IsLive, 1);
    AllIdle(s.ws, IsBusy, 0);
    forall x ensures Copies(c, s, x) == multiset(c.slugs)[x] {
      AllIdle(s.ws, IsOn(x), 0);
    }
  }

  lemma {:induction false} AllIdle(ws: seq<Worker>, f: Worker -> nat, k: nat)
    requires f(Idle) == k && forall w :: 0 <= w < |ws| ==> ws[w] == Idle
    ensures Sum(ws, f) == k * |ws|
  {
    if ws != [] {
      AllIdle(ws[1..], f, k);
    }
  }

  // ---- each step keeps the protocol part ------------------------------------------------------------

  lemma MainProtocol(c: Setup, s: State)
    requires Protocol(c, s) && MainStep(c, s).Some?
    ensures Protocol(c, MainStep(c, s).value)
  {
    var t := MainStep(c, s).value;
    forall w | 0 <= w < |t.ws| ensures WorkerOk(t, w) {
      assert WorkerOk(s, w);
    }
  }

  lemma CloserProtocol(c: Setup, s: State)
    requires Protocol(c, s) && CloserStep(s).Some?
    ensures Protocol(c, CloserStep(s).value)
  {
    var t := CloserStep(s).value;
    forall w | 0 <= w < |t.ws| ensures WorkerOk(t, w) {
      assert WorkerOk(s, w);
    }
  }

  /** A worker with work keeps the closer waiting. */
  lemma BusyKeepsOpen(c: Setup, s: State, w: nat)
    requires Protocol(c, s) && w < |s.ws| && !s.ws[w].Exited?
    ensures s.wg > 0 && !s.resultsClosed
  {
    SumHas(s.ws, w, IsLive);
  }

  lemma AdvanceMoves(worker: Worker, w: nat, answer: Answer, rate: Option<nat>, manifest: Manifest)
    requires Holds(worker) && !worker.Replying? && AttemptOk(worker)
    ensures var next := Advance(worker, w, answer, rate, manifest);
            && (next.None? <==> worker.Queueing? && rate.Some?)
            && (next.Some? ==>
                 var q := next.value;
                 && Holds(q.worker) && q.worker.slug == worker.slug && AttemptOk(q.worker)
                 && StepsLeft(q.worker) < StepsLeft(worker)
                 && (q.worker.Ticking? ==> worker.Queueing? && rate == None && q.rate == Some(w))
                 && (worker.Ticking? ==> q.rate == None)
                 && (!q.worker.Ticking? && !worker.Ticking? ==> q.rate == rate))
  {
  }

  lemma AlongProtocol(c: Setup, s: State, w: nat, answer: Answer)
    requires Protocol(c, s) && w < |s.ws| && Holds(s.ws[w]) && !s.ws[w].Replying? && WorkerStep(c, s, w, answer).Some?
    ensures Protocol(c, WorkerStep(c, s, w, answer).value)
  {
    var t := WorkerStep(c, s, w, answer).value;
    assert WorkerOk(s, w);
    AdvanceMoves(s.ws[w], w, answer, s.rate, s.manifest);
    SumUpdate(s.ws, w, t.ws[w], IsLive);
    assert t.ws == s.ws[w := t.ws[w]];
    forall v | 0 <= v < |t.ws| ensures WorkerOk(t, v) {
      assert WorkerOk(s, v);
    }
  }

  lemma WorkerProtocol(c: Setup, s: State, w: nat, answer: Answer)
    requires Protocol(c, s) && w < |s.ws| && WorkerStep(c, s, w, answer).Some?
    ensures Protocol(c, WorkerStep(c, s, w, answer).value)
  {
    if Holds(s.ws[w]) && !s.ws[w].Replying? {
      AlongProtocol(c, s, w, answer);
    } else {
      var t := WorkerStep(c, s, w, answer).value;
      BusyKeepsOpen(c, s, w);
      SumUpdate(s.ws, w, t.ws[w], IsLive);
      forall v | 0 <= v < |t.ws| ensures WorkerOk(t, v) {
        assert WorkerOk(s, v);
      }
    }
  }

  // ---- each step moves at most one slug from one place to the next ------------------------------------

  lemma SendAccounts(c: Setup, s: State)
    requires Protocol(c, s) && Accounts(c, s) && s.main.Sending? && s.sent < |c.slugs|
    ensures Accounts(c, s.(sent := s.sent + 1, jobs := s.jobs + [c.slugs[s.sent]]))
  {
    var t := s.(sent := s.sent + 1, jobs := s.jobs + [c.slugs[s.sent]]);
    assert c.slugs[s.sent..] == [c.slugs[s.sent]] + c.slugs[t.sent..];
    assert forall x :: Copies(c, t, x) == Copies(c, s, x);
  }

  lemma CollectAccounts(c: Setup, s: State, patterns: map<string, SlugPatterns>)
    requires Protocol(c, s) && Accounts(c, s) && s.results != []
    ensures Accounts(c, s.(results := s.results[1..], collected := s.collected + [s.results[0]], patterns := patterns))
  {
    var t := s.(results := s.results[1..], collected := s.collected + [s.results[0]], patterns := patterns);
    NamesFirst(s.results);
    NamesSnoc(s.collected, s.results[0]);
    assert forall x :: Copies(c, t, x) == Copies(c, s, x);
  }

  lemma MainAccounts(c: Setup, s: State)
    requires Protocol(c, s) && Accounts(c, s) && MainStep(c, s).Some?
    ensures Protocol(c, MainStep(c, s).value) && Accounts(c, MainStep(c, s).value)
  {
    MainProtocol(c, s);
    var t := MainStep(c, s).value;
    if s.main.Sending? && s.sent < |c.slugs| {
      SendAccounts(c, s);
    } else if s.main.Collecting? && s.results != [] {
      CollectAccounts(c, s, t.patterns);
    } else {
      SameAccounts(c, s, t);
    }
  }

  lemma SameAccounts(c: Setup, s: State, t: State)
    requires s.sent <= |c.slugs| && Accounts(c, s)
    requires t.sent == s.sent && t.jobs == s.jobs && t.ws == s.ws && t.results == s.results && t.collected == s.collected
    ensures Accounts(c, t)
  {
    assert forall x :: Copies(c, t, x) == Copies(c, s, x);
  }

  lemma CloserAccounts(c: Setup, s: State)
    requires Protocol(c, s) && Accounts(c, s) && CloserStep(s).Some?
    ensures Protocol(c, CloserStep(s).value) && Accounts(c, CloserStep(s).value)
  {
    CloserProtocol(c, s);
    SameAccounts(c, s, CloserStep(s).value);
  }

  lemma AlongAccounts(c: Setup, s: State, w: nat, answer: Answer)
    requires Protocol(c, s) && Accounts(c, s)
    requires w < |s.ws| && Holds(s.ws[w]) && !s.ws[w].Replying? && WorkerStep(c, s, w, answer).Some?
    ensures Accounts(c, WorkerStep(c, s, w, answer).value)
  {
    var t := WorkerStep(c, s, w, answer).value;
    assert WorkerOk(s, w);
    AdvanceMoves(s.ws[w], w, answer, s.rate, s.manifest);
    assert t.ws == s.ws[w := t.ws[w]];
    SumUpdate(s.ws, w, t.ws[w], IsBusy);
    forall x ensures Copies(c, t, x) == multiset(c.slugs)[x] {
      SumUpdate(s.ws, w, t.ws[w], IsOn(x));
      assert Copies(c, s, x) == multiset(c.slugs)[x];
    }
  }

  lemma TakeAccounts(c: Setup, s: State, w: nat)
    requires Protocol(c, s) && Accounts(c, s) && w < |s.ws| && s.ws[w].Idle? && s.jobs != []
    ensures Accounts(c, s.(jobs := s.jobs[1..], ws := s.ws[w := Holding(s.jobs[0])]))
  {
    var y := s.jobs[0];
    SumUpdate(s.ws, w, Holding(y), IsBusy);
    assert s.jobs == [y] + s.jobs[1..];
    forall x ensures Copies(c, s.(jobs := s.jobs[1..], ws := s.ws[w := Holding(y)]), x) == multiset(c.slugs)[x] {
      SumUpdate(s.ws, w, Holding(y), IsOn(x));
      assert Copies(c, s, x) == multiset(c.slugs)[x];
    }
  }

  lemma ExitAccounts(c: Setup, s: State, w: nat, wg: int)
    requires Protocol(c, s) && Accounts(c, s) && w < |s.ws| && s.ws[w].Idle?
    ensures Accounts(c, s.(ws := s.ws[w := Exited], wg := wg))
  {
    SumUpdate(s.ws, w, Exited, IsBusy);
    forall x ensures Copies(c, s.(ws := s.ws[w := Exited], wg := wg), x) == multiset(c.slugs)[x] {
      SumUpdate(s.ws, w, Exited, IsOn(x));
      assert Copies(c, s, x) == multiset(c.slugs)[x];
    }
  }

  lemma ReplyAccounts(c: Setup, s: State, w: nat, answer: Answer)
    requires Protocol(c, s) && Accounts(c, s) && w < |s.ws| && s.ws[w].Replying? && WorkerStep(c, s, w, answer).Some?
    ensures Accounts(c, WorkerStep(c, s, w, answer).value)
  {
    var t := WorkerStep(c, s, w, answer).value;
    BusyKeepsOpen(c, s, w);
    SumUpdate(s.ws, w, t.ws[w], IsBusy);
    NamesSnoc(s.results, Result(s.ws[w].slug, s.ws[w].sp));
    forall x ensures Copies(c, t, x) == multiset(c.slugs)[x] {
      SumUpdate(s.ws, w, t.ws[w], IsOn(x));
      assert Copies(c, s, x) == multiset(c.slugs)[x];
    }
  }

  lemma WorkerAccounts(c: Setup, s: State, w: nat, answer: Answer)
    requires Protocol(c, s) && Accounts(c, s) && w < |s.ws| && WorkerStep(c, s, w, answer).Some?
    ensures Protocol(c, WorkerStep(c, s, w, answer).value) && Accounts(c, WorkerStep(c, s, w, answer).value)
  {
    WorkerProtocol(c, s, w, answer);
    match s.ws[w]
    case Idle =>
      BusyKeepsOpen(c, s, w);
      if s.jobs != [] {
        TakeAccounts(c, s, w);
      } else {
        ExitAccounts(c, s, w, s.wg - 1);
      }
    case Replying(_, _) => ReplyAccounts(c, s, w, answer);
    case _ => AlongAccounts(c, s, w, answer);
  }

  // ---- what the manifest and the results say ----------------------------------------------------------

  /** The entry is the one the run started with. */
  predicate Same(c: Setup, m: Manifest, x: string) {
    (x in m <==> x in c.manifest) && (x in m ==> m[x] == c.manifest[x])
  }

  predicate Extracted(m: Manifest, x: string) {
    x in m && m[x].extracted
  }

  predicate Skipped(c: Setup, x: string) {
    x in c.manifest && (c.manifest[x].extracted || c.manifest[x].unavailable)
  }

  /** A slug's result and its entry fit together. */
  predicate Settled(c: Setup, m: Manifest, r: Result) {
    if Skipped(c, r.slug) then r.sp.None? && Same(c, m, r.slug)
    else if r.sp.Some? then r.sp.value.slug == r.slug && r.slug in m && m[r.slug] == Entry(true, false)
    else Same(c, m, r.slug) || (r.slug in m && m[r.slug] == Entry(false, true))
  }

  predicate StageOk(c: Setup, m: Manifest, w: Worker) {
    match w
    case Holding(x) => Same(c, m, x)
    case SecondLook(x) => Same(c, m, x) && !Extracted(c.manifest, x)
    case Replying(x, sp) => Settled(c, m, Result(x, sp))
    case Idle => true
    case Exited => true
    case _ => Same(c, m, w.slug) && !Skipped(c, w.slug)
  }

  ghost predicate Records(c: Setup, s: State)
    requires s.sent <= |c.slugs|
  {
    && (forall x :: x !in c.slugs || x in c.slugs[s.sent..] || x in s.jobs ==> Same(c, s.manifest, x))
    && (forall w :: 0 <= w < |s.ws| ==> StageOk(c, s.manifest, s.ws[w]))
    && (forall r :: r in s.results || r in s.collected ==> Settled(c, s.manifest, r))
    && GoodPatterns(s.collected, s.patterns)
  }

  ghost predicate GoodPatterns(collected: seq<Result>, patterns: map<string, SlugPatterns>) {
    && (forall r :: r in collected && r.sp.Some? ==> r.slug in patterns && patterns[r.slug] == r.sp.value)
    && (forall x :: x in patterns ==> Result(x, Some(patterns[x])) in collected)
  }

  /** A slug a worker has is nowhere else. */
  lemma Alone(c: Setup, s: State, w: nat)
    requires ValidSetup(c) && Protocol(c, s) && Accounts(c, s) && w < |s.ws| && Holds(s.ws[w])
    ensures var x := s.ws[w].slug;
            && x in c.slugs && x !in c.slugs[s.sent..] && x !in s.jobs
            && x !in Names(s.results) && x !in Names(s.collected)
            && forall v :: 0 <= v < |s.ws| && v != w && Holds(s.ws[v]) ==> s.ws[v].slug != x
  {
    var x := s.ws[w].slug;
    DistinctCounts(c.slugs);
    assert Copies(c, s, x) == multiset(c.slugs)[x] <= 1;
    SumHas(s.ws, w, IsOn(x));
    assert IsOn(x)(s.ws[w]) == 1;
    assert multiset(c.slugs[s.sent..])[x] == 0 && multiset(s.jobs)[x] == 0;
    assert multiset(Names(s.results))[x] == 0 && multiset(Names(s.collected))[x] == 0;
    forall v | 0 <= v < |s.ws| && v != w && Holds(s.ws[v]) ensures s.ws[v].slug != x {
      if v < w {
        SumHasTwo(s.ws, v, w, IsOn(x));
      } else {
        SumHasTwo(s.ws, w, v, IsOn(x));
      }
    }
  }

  lemma NameOf(rs: seq<Result>, r: Result)
    requires r in rs
    ensures r.slug in Names(rs)
  {
    var i :| 0 <= i < |rs| && rs[i] == r;
    assert Names(rs)[i] == r.slug;
  }

  /** The manifests differ at most in the entry of x. */
  ghost predicate OnlyEntry(m: Manifest, m': Manifest, x: string) {
    forall y :: y != x ==> (y in m' <==> y in m) && (y in m ==> m'[y] == m[y])
  }

  lemma StageElsewhere(c: Setup, m: Manifest, m': Manifest, x: string, w: Worker)
    requires OnlyEntry(m, m', x) && StageOk(c, m, w) && (Holds(w) ==> w.slug != x)
    ensures StageOk(c, m', w)
  {
  }

  lemma SettledElsewhere(c: Setup, m: Manifest, m': Manifest, x: string, r: Result)
    requires OnlyEntry(m, m', x) && Settled(c, m, r) && r.slug != x
    ensures Settled(c, m', r)
  {
  }

  lemma AdvanceRecords(c: Setup, worker: Worker, w: nat, answer: Answer, rate: Option<nat>, manifest: Manifest)
    requires Holds(worker) && !worker.Replying? && StageOk(c, manifest, worker)
    requires Advance(worker, w, answer, rate, manifest).Some?
    ensures var q := Advance(worker, w, answer, rate, manifest).value;
            StageOk(c, q.manifest, q.worker) && OnlyEntry(manifest, q.manifest, worker.slug)
  {
  }

  lemma AlongRecords(c: Setup, s: State, w: nat, answer: Answer)
    requires ValidSetup(c) && Protocol(c, s) && Accounts(c, s) && Records(c, s)
    requires w < |s.ws| && Holds(s.ws[w]) && !s.ws[w].Replying? && WorkerStep(c, s, w, answer).Some?
    ensures Records(c, WorkerStep(c, s, w, answer).value)
  {
    var t := WorkerStep(c, s, w, answer).value;
    var x := s.ws[w].slug;
    Alone(c, s, w);
    assert StageOk(c, s.manifest, s.ws[w]);
    AdvanceRecords(c, s.ws[w], w, answer, s.rate, s.manifest);
    OthersUntouched(c, s, w, x, t.manifest, t.ws[w]);
    assert t.ws == s.ws[w := t.ws[w]];
  }

  lemma OthersUntouched(c: Setup, s: State, w: nat, x: string, m: Manifest, next: Worker)
    requires s.sent <= |c.slugs| && Records(c, s) && w < |s.ws| && OnlyEntry(s.manifest, m, x)
    requires x in c.slugs && x !in c.slugs[s.sent..] && x !in s.jobs && x !in Names(s.results) && x !in Names(s.collected)
    requires forall v :: 0 <= v < |s.ws| && v != w && Holds(s.ws[v]) ==> s.ws[v].slug != x
    requires StageOk(c, m, next)
    ensures Records(c, s.(manifest := m, ws := s.ws[w := next]))
  {
    var ws := s.ws[w := next];
    forall v | 0 <= v < |ws| ensures StageOk(c, m, ws[v]) {
      if v != w {
        StageElsewhere(c, s.manifest, m, x, s.ws[v]);
      }
    }
    forall r | r in s.results || r in s.collected ensures Settled(c, m, r) {
      if r in s.results {
        NameOf(s.results, r);
      } else {
        NameOf(s.collected, r);
      }
      SettledElsewhere(c, s.manifest, m, x, r);
    }
  }

  lemma WorkerRecords(c: Setup, s: State, w: nat, answer: Answer)
    requires ValidSetup(c) && Protocol(c, s) && Accounts(c, s) && Records(c, s)
    requires w < |s.ws| && WorkerStep(c, s, w, answer).Some?
    ensures WorkerStep(c, s, w, answer).value.sent == s.sent && Records(c, WorkerStep(c, s, w, answer).value)
  {
    if Holds(s.ws[w]) && !s.ws[w].Replying? {
      AlongRecords(c, s, w, answer);
    } else {
      var t := WorkerStep(c, s, w, answer).value;
      assert StageOk(c, s.manifest, s.ws[w]);
      BusyKeepsOpen(c, s, w);
      forall v | 0 <= v < |t.ws| ensures StageOk(c, t.manifest, t.ws[v]) {
        assert StageOk(c, s.manifest, s.ws[v]);
      }
    }
  }

  lemma CollectPatterns(c: Setup, s: State)
    requires ValidSetup(c) && Protocol(c, s) && Accounts(c, s) && Records(c, s) && s.results != []
    ensures var r := s.results[0];
            GoodPatterns(s.collected + [r], if r.sp.Some? then s.patterns[r.sp.value.slug := r.sp.value] else s.patterns)
  {
    var r := s.results[0];
    assert r in s.results;
    DistinctCounts(c.slugs);
    assert Copies(c, s, r.slug) == multiset(c.slugs)[r.slug] <= 1;
    NamesFirst(s.results);
    assert multiset(Names(s.results))[r.slug] >= 1 && r.slug !in Names(s.collected);
    forall q | q in s.collected ensures q.slug != r.slug {
      NameOf(s.collected, q);
    }
  }

  lemma MainRecords(c: Setup, s: State)
    requires ValidSetup(c) && Protocol(c, s) && Accounts(c, s) && Records(c, s) && MainStep(c, s).Some?
    ensures MainStep(c, s).value.sent <= |c.slugs| && Records(c, MainStep(c, s).value)
  {
    var t := MainStep(c, s).value;
    forall v | 0 <= v < |t.ws| ensures StageOk(c, t.manifest, t.ws[v]) {
      assert StageOk(c, s.manifest, s.ws[v]);
    }
    if s.main.Sending? && s.sent < |c.slugs| {
      assert c.slugs[s.sent..] == [c.slugs[s.sent]] + c.slugs[s.sent + 1..];
    } else if s.main.Collecting? && s.results != [] {
      CollectPatterns(c, s);
    }
  }

  // ---- whole runs -------------------------------------------------------------------------------------

  ghost predicate Inv(c: Setup, s: State) {
    ValidSetup(c) && Protocol(c, s) && Accounts(c, s) && Records(c, s)
  }

  lemma StepKeeps(c: Setup, s: State, a: Actor)
    requires Inv(c, s) && Step(c, s, a).Some?
    ensures Inv(c, Step(c, s, a).value)
  {
    match a
    case Main => MainAccounts(c, s); MainRecords(c, s);
    case Closer => CloserAccounts(c, s);
    case Work(w, answer) => WorkerAccounts(c, s, w, answer); WorkerRecords(c, s, w, answer);
  }

  /** No send blocks: there is room for a slug whenever main has one to send, and for a result whenever a worker has one. */
  lemma SendsNeverBlock(c: Setup, s: State)
    requires Inv(c, s)
    ensures s.main.Sending? && s.sent < |c.slugs| ==> |s.jobs| < |c.slugs| && !s.jobsClosed
    ensures forall w :: 0 <= w < |s.ws| && s.ws[w].Replying? ==> |s.results| < |c.slugs| && !s.resultsClosed
  {
    forall w | 0 <= w < |s.ws| && s.ws[w].Replying? ensures |s.results| < |c.slugs| && !s.resultsClosed {
      SumHas(s.ws, w, IsBusy);
      BusyKeepsOpen(c, s, w);
    }
  }

  /** An upper bound on the steps left. */
  function Rank(c: Setup, s: State): nat
    requires s.sent <= |c.slugs|
  {
    14 * (|c.slugs| - s.sent) + 13 * |s.jobs| + Sum(s.ws, StepsLeft) + |s.results|
      + (match s.main case Sending => 3 case Launching => 2 case Collecting => 1 case Finished => 0)
      + (if s.closer.Closed? then 0 else 1)
  }

  lemma StepIsProgress(c: Setup, s: State, a: Actor)
    requires Inv(c, s) && Step(c, s, a).Some?
    ensures Inv(c, Step(c, s, a).value) && Rank(c, Step(c, s, a).value) < Rank(c, s)
  {
    StepKeeps(c, s, a);
    if a.Work? {
      WorkerProgress(c, s, a.w, a.answer);
    }
  }

  lemma WorkerProgress(c: Setup, s: State, w: nat, answer: Answer)
    requires Inv(c, s) && w < |s.ws| && WorkerStep(c, s, w, answer).Some?
    ensures WorkerStep(c, s, w, answer).value.sent == s.sent
    ensures Rank(c, WorkerStep(c, s, w, answer).value) < Rank(c, s)
  {
    var t := WorkerStep(c, s, w, answer).value;
    BusyKeepsOpen(c, s, w);
    assert WorkerOk(s, w);
    if Holds(s.ws[w]) && !s.ws[w].Replying? {
      AdvanceMoves(s.ws[w], w, answer, s.rate, s.manifest);
    }
    SumUpdate(s.ws, w, t.ws[w], StepsLeft);
  }

  /** While main has not finished somebody can make a step. */
  lemma NeverStuck(c: Setup, s: State) returns (a: Actor)
    requires Inv(c, s) && !s.main.Finished?
    ensures Step(c, s, a).Some?
  {
    SendsNeverBlock(c, s);
    a := Main;
    if MainStep(c, s).None? {
      if s.wg == 0 {
        a := Closer;
      } else {
        SumWitness(s.ws, IsLive);
        var w :| 0 <= w < |s.ws| && IsLive(s.ws[w]) > 0;
        a := SomeWorker(c, s, w);
      }
    }
  }

  /** A live worker can go on, or waits for the one that holds rateMu, which can. */
  lemma SomeWorker(c: Setup, s: State, w: nat) returns (a: Actor)
    requires Inv(c, s) && s.jobsClosed && w < |s.ws| && !s.ws[w].Exited?
    ensures Step(c, s, a).Some?
  {
    SendsNeverBlock(c, s);
    a := Work(w, Failed(""));
    if s.ws[w].Queueing? && s.rate.Some? {
      a := Work(s.rate.value, Failed(""));
    }
  }

  function Run(c: Setup, s: State, actors: seq<Actor>): Option<State>
    decreases |actors|
  {
    if actors == [] then Some(s)
    else
      var t := Step(c, s, actors[0]);
      if t.None? then None else Run(c, t.value, actors[1..])
  }

  lemma {:induction false} RunKeeps(c: Setup, s: State, actors: seq<Actor>)
    requires Inv(c, s) && Run(c, s, actors).Some?
    ensures Inv(c, Run(c, s, actors).value)
    ensures |actors| + Rank(c, Run(c, s, actors).value) <= Rank(c, s)
    decreases |actors|
  {
    if actors != [] {
      StepIsProgress(c, s, actors[0]);
      RunKeeps(c, Step(c, s, actors[0]).value, actors[1..]);
    }
  }

  lemma InitIsGood(c: Setup)
    requires ValidSetup(c)
    ensures Inv(c, Init(c)) && Rank(c, Init(c)) == 14 * |c.slugs| + c.workers + 4
  {
    InitKeeps(c);
    AllIdle(Init(c).ws, StepsLeft, 1);
  }

  /** No run panics (so nothing is sent on a closed channel and nothing closed twice), and none is longer than this. */
  lemma EveryRunIsSafe(c: Setup, actors: seq<Actor>)
    requires ValidSetup(c) && Run(c, Init(c), actors).Some?
    ensures !Run(c, Init(c), actors).value.panicked
    ensures |actors| <= 14 * |c.slugs| + c.workers + 4
  {
    InitIsGood(c);
    RunKeeps(c, Init(c), actors);
  }

  /** A run in which nobody can go on has finished, all workers have ended, and each slug has exactly one result. */
  lemma StuckMeansDone(c: Setup, actors: seq<Actor>)
    requires ValidSetup(c) && Run(c, Init(c), actors).Some?
    requires forall a :: Step(c, Run(c, Init(c), actors).value, a).None?
    ensures var t := Run(c, Init(c), actors).value;
            && t.main.Finished? && t.resultsClosed && (forall w :: 0 <= w < |t.ws| ==> t.ws[w].Exited?)
            && multiset(Names(t.collected)) == multiset(c.slugs)
  {
    InitIsGood(c);
    RunKeeps(c, Init(c), actors);
    var t := Run(c, Init(c), actors).value;
    if !t.main.Finished? {
      var a := NeverStuck(c, t);
    }
    AllAnswered(c, t);
  }

  lemma AllAnswered(c: Setup, s: State)
    requires Inv(c, s) && s.main.Finished?
    ensures multiset(Names(s.collected)) == multiset(c.slugs) && forall w :: 0 <= w < |s.ws| ==> s.ws[w].Exited?
  {
    SumWitness(s.ws, IsLive);
    assert forall w :: 0 <= w < |s.ws| ==> IsLive(s.ws[w]) == 0;
    assert c.workers >= 1 && WorkerOk(s, 0);
    forall x ensures multiset(Names(s.collected))[x] == multiset(c.slugs)[x] {
      NobodyOn(s.ws, x);
      assert Copies(c, s, x) == multiset(c.slugs)[x];
    }
  }

  lemma {:induction false} NobodyOn(ws: seq<Worker>, x: string)
    requires forall w :: 0 <= w < |ws| ==> ws[w].Exited?
    ensures Sum(ws, IsOn(x)) == 0
  {
    if ws != [] {
      NobodyOn(ws[1..], x);
    }
  }

  lemma PatternsOf(c: Setup, s: State, x: string)
    requires Inv(c, s) && s.main.Finished?
    ensures x in s.patterns <==> exists r :: r in s.collected && r.slug == x && r.sp.Some?
    ensures forall r :: r in s.collected && r.slug == x && r.sp.Some? ==> s.patterns[x] == r.sp.value && r.sp.value.slug == x
    ensures x in s.patterns ==> x in c.slugs && !Skipped(c, x)
  {
    if x in s.patterns {
      var r := Result(x, Some(s.patterns[x]));
      assert Settled(c, s.manifest, r);
      AllAnswered(c, s);
      NameOf(s.collected, r);
      assert x in multiset(Names(s.collected));
    }
    forall r | r in s.collected && r.slug == x && r.sp.Some? ensures r.sp.value.slug == x {
      assert Settled(c, s.manifest, r);
    }
  }

  lemma EntryOf(c: Setup, s: State, x: string)
    requires Inv(c, s) && s.main.Finished?
    ensures Extracted(s.manifest, x) <==> Extracted(c.manifest, x) || x in s.patterns
    ensures x !in c.slugs || Skipped(c, x) ==> Same(c, s.manifest, x)
  {
    PatternsOf(c, s, x);
    if x in c.slugs {
      AllAnswered(c, s);
      assert x in multiset(Names(s.collected));
      var i :| 0 <= i < |Names(s.collected)| && Names(s.collected)[i] == x;
      assert s.collected[i] in s.collected && Settled(c, s.manifest, s.collected[i]);
    }
  }

  /**
   * When main has finished: a slug is in allPatterns exactly when its result carries patterns,
   * which never happens for one the manifest told to skip; and the manifest marks as extracted
   * what it did before and the slugs in allPatterns, no more and no less.
   */
  lemma WhatARunAchieves(c: Setup, actors: seq<Actor>, x: string)
    requires ValidSetup(c) && Run(c, Init(c), actors).Some? && Run(c, Init(c), actors).value.main.Finished?
    ensures var t := Run(c, Init(c), actors).value;
            && (x in t.patterns <==> exists r :: r in t.collected && r.slug == x && r.sp.Some?)
            && (forall r :: r in t.collected && r.slug == x && r.sp.Some? ==> t.patterns[x] == r.sp.value)
            && (x in t.patterns ==> x in c.slugs && !Skipped(c, x))
            && (Extracted(t.manifest, x) <==> Extracted(c.manifest, x) || x in t.patterns)
            && (x !in c.slugs || Skipped(c, x) ==> Same(c, t.manifest, x))
  {
    InitIsGood(c);
    RunKeeps(c, Init(c), actors);
    PatternsOf(c, Run(c, Init(c), actors).value, x);
    EntryOf(c, Run(c, Init(c), actors).value, x);
  }

  // ---- errors are told apart by their text --------------------------------------------------------------

  /** One attempt: patterns, or a failure. */
  datatype Attempt = Delivered(found: SlugPatterns) | Refused(failure: Failure)

  function AnswerTo(x: string, version: string, a: Attempt): Answer {
    if a.Delivered? then Got(a.found) else Failed(ErrorText(a.failure, x, version))
  }

  /** The rest of the attempts on a slug, each with its own outcome. */
  function Settle(worker: Worker, w: nat, version: string, attempts: seq<Attempt>, rate: Option<nat>, manifest: Manifest): Progress
    requires |attempts| == 3 && (worker.Fetching? || worker.BackingOff?) && AttemptOk(worker)
    decreases StepsLeft(worker)
  {
    var next := Advance(worker, w, AnswerTo(worker.slug, version, attempts[worker.attempt]), rate, manifest).value;
    if next.worker.Replying? then next else Settle(next.worker, w, version, attempts, next.rate, next.manifest)
  }

  predicate BacksOff(x: string, version: string, a: Attempt) {
    a.Refused? && Mentions(a.failure, x, version, "429")
  }

  /** The first attempt from k on that does not back off; 3 when all do. */
  function Deciding(x: string, version: string, attempts: seq<Attempt>, k: nat): (d: nat)
    requires k <= |attempts|
    ensures k <= d <= |attempts| && (d < |attempts| ==> !BacksOff(x, version, attempts[d]))
    ensures forall j :: k <= j < d ==> BacksOff(x, version, attempts[j])
    decreases |attempts| - k
  {
    if k < |attempts| && BacksOff(x, version, attempts[k]) then Deciding(x, version, attempts, k + 1) else k
  }

  /** What the deciding attempt leaves behind. */
  function Decided(x: string, version: string, attempts: seq<Attempt>, d: nat, rate: Option<nat>, manifest: Manifest): Progress {
    if d >= |attempts| then Progress(Replying(x, None), rate, manifest)
    else match attempts[d]
      case Delivered(found) => Progress(Replying(x, Some(found.(slug := x))), rate, manifest[x := Entry(true, false)])
      case Refused(f) =>
        Progress(Replying(x, None), rate,
                 if f.NotFound? || Mentions(f, x, version, "404") then manifest[x := Entry(false, true)] else manifest)
  }

  lemma {:induction false} Settles(x: string, version: string, attempts: seq<Attempt>, k: nat, w: nat, rate: Option<nat>, manifest: Manifest)
    requires |attempts| == 3 && k < 3
    ensures Settle(Fetching(x, k), w, version, attempts, rate, manifest)
         == Decided(x, version, attempts, Deciding(x, version, attempts, k), rate, manifest)
    decreases 3 - k
  {
    var a := attempts[k];
    if a.Refused? {
      FindsInText(a.failure, x, version, "429");
      FindsInText(a.failure, x, version, "404");
    }
    if BacksOff(x, version, a) {
      var answer := AnswerTo(x, version, a);
      assert Advance(Fetching(x, k), w, answer, rate, manifest) == Some(Progress(BackingOff(x, k), rate, manifest));
      if k + 1 < 3 {
        assert Advance(BackingOff(x, k), w, answer, rate, manifest) == Some(Progress(Fetching(x, k + 1), rate, manifest));
        Settles(x, version, attempts, k + 1, w, rate, manifest);
      }
    }
  }

  /** The deciding attempt is a failure that reads as a 404. */
  predicate Marks(x: string, version: string, attempts: seq<Attempt>) {
    var d := Deciding(x, version, attempts, 0);
    d < |attempts| && attempts[d].Refused?
      && (attempts[d].failure.NotFound? || Mentions(attempts[d].failure, x, version, "404"))
  }

  /**
   * When three attempts mark a slug unavailable: the first that is not a failure with "429" in one
   * of the parts of its text that vary decides, and it does if it is a 404 or a failure with "404"
   * in one of those parts.  A success that decides is recorded instead; otherwise nothing is.
   */
  lemma MarkedUnavailable(x: string, version: string, attempts: seq<Attempt>, w: nat, rate: Option<nat>, manifest: Manifest)
    requires |attempts| == 3
    ensures var d, q := Deciding(x, version, attempts, 0), Settle(Fetching(x, 0), w, version, attempts, rate, manifest);
            && q.rate == rate
            && (d < 3 && attempts[d].Delivered?
                ==> q.worker == Replying(x, Some(attempts[d].found.(slug := x))) && q.manifest == manifest[x := Entry(true, false)])
            && (d == 3 || attempts[d].Refused?
                ==> q.worker == Replying(x, None)
                    && q.manifest == if Marks(x, version, attempts) then manifest[x := Entry(false, true)] else manifest)
  {
    Settles(x, version, attempts, 0, w, rate, manifest);
  }

  /** Where no part that varies has either number the mark is right: exactly a 404 at the first attempt sets it. */
  lemma PlainTextsAreMarkedRightly(x: string, version: string, attempts: seq<Attempt>, w: nat, rate: Option<nat>, manifest: Manifest)
    requires |attempts| == 3
    requires attempts[0].Refused? ==>
      !Mentions(attempts[0].failure, x, version, "404") && !Mentions(attempts[0].failure, x, version, "429")
    ensures Settle(Fetching(x, 0), w, version, attempts, rate, manifest).manifest
         == match attempts[0]
            case Delivered(_) => manifest[x := Entry(true, false)]
            case Refused(f) => if f.NotFound? then manifest[x := Entry(false, true)] else manifest
  {
    Settles(x, version, attempts, 0, w, rate, manifest);
  }

  /** Otherwise it can be wrong both ways, whatever the slug: some 404s are missed, and errors that are no 404 are taken for one. */
  lemma NumbersMislead(x: string, version: string, f: Failure, w: nat, rate: Option<nat>, manifest: Manifest)
    ensures var q := Settle(Fetching(x, 0), w, version, [Refused(f), Refused(f), Refused(f)], rate, manifest);
            && (Mentions(f, x, version, "429") ==> q == Progress(Replying(x, None), rate, manifest))
            && (!f.NotFound? && Mentions(f, x, version, "404") && !Mentions(f, x, version, "429")
                ==> q == Progress(Replying(x, None), rate, manifest[x := Entry(false, true)]))
  {
    Settles(x, version, [Refused(f), Refused(f), Refused(f)], 0, w, rate, manifest);
  }

  // ---- what becomes of each slug --------------------------------------------------------------------

  /** What each attempt on each slug would answer. */
  type Server = (string, nat) -> Answer

  /** A fetching worker gets the server's answer. */
  predicate Obeys(s: State, a: Actor, server: Server) {
    a.Work? && a.w < |s.ws| && s.ws[a.w].Fetching? ==> a.answer == server(s.ws[a.w].slug, s.ws[a.w].attempt)
  }

  predicate RunObeys(c: Setup, s: State, actors: seq<Actor>, server: Server)
    decreases |actors|
  {
    actors == []
      || (Obeys(s, actors[0], server)
          && (Step(c, s, actors[0]).Some? ==> RunObeys(c, Step(c, s, actors[0]).value, actors[1..], server)))
  }

  /** Before main has finished, somebody can go on with the server's answer. */
  lemma SomebodyObeys(c: Setup, s: State, server: Server) returns (a: Actor)
    requires Inv(c, s) && !s.main.Finished?
    ensures Step(c, s, a).Some? && Obeys(s, a, server)
  {
    a := NeverStuck(c, s);
    if a.Work? && s.ws[a.w].Fetching? {
      a := Work(a.w, server(s.ws[a.w].slug, s.ws[a.w].attempt));
    }
  }

  /** So whatever the server answers, and wherever a run has got to, it can be brought to its end. */
  lemma {:induction false} RunCanFinish(c: Setup, s: State, server: Server) returns (actors: seq<Actor>)
    requires Inv(c, s)
    ensures RunObeys(c, s, actors, server) && Run(c, s, actors).Some? && Run(c, s, actors).value.main.Finished?
    decreases Rank(c, s)
  {
    actors := [];
    if !s.main.Finished? {
      var a := SomebodyObeys(c, s, server);
      StepIsProgress(c, s, a);
      var rest := RunCanFinish(c, Step(c, s, a).value, server);
      actors := [a] + rest;
      assert actors[1..] == rest;
    }
  }

  predicate Retries(answer: Answer) {
    answer.Failed? && Contains(answer.text, "429")
  }

  /** The first of the three attempts from k on that is not to be retried; 3 if there is none. */
  function Final(server: Server, x: string, k: nat): (d: nat)
    requires k <= 3
    ensures k <= d <= 3 && (d < 3 ==> !Retries(server(x, d))) && forall j :: k <= j < d ==> Retries(server(x, j))
    decreases 3 - k
  {
    if k < 3 && Retries(server(x, k)) then Final(server, x, k + 1) else k
  }

  /** The patterns a slug ends with. */
  function Yield(server: Server, x: string): Option<SlugPatterns> {
    var d := Final(server, x, 0);
    if d < 3 && server(x, d).Got? then Some(server(x, d).found.(slug := x)) else None
  }

  /** Its manifest entry is what the deciding attempt makes it, or as before. */
  predicate EntryTells(c: Setup, m: Manifest, server: Server, x: string) {
    var d := Final(server, x, 0);
    if d < 3 && server(x, d).Got? then x in m && m[x] == Entry(true, false)
    else if d < 3 && Contains(server(x, d).text, "404") then x in m && m[x] == Entry(false, true)
    else Same(c, m, x)
  }

  /** A result for a slug the manifest does not skip is what its attempts yield. */
  predicate Told(c: Setup, m: Manifest, server: Server, r: Result) {
    Skipped(c, r.slug) || (r.sp == Yield(server, r.slug) && EntryTells(c, m, server, r.slug))
  }

  /** A worker that fetches has been told to retry so far; one that replies has its result right. */
  predicate StageTold(c: Setup, m: Manifest, server: Server, w: Worker) {
    match w
    case Fetching(x, k) => k < 3 && forall j :: 0 <= j < k ==> Retries(server(x, j))
    case BackingOff(x, k) => k < 3 && forall j :: 0 <= j <= k ==> Retries(server(x, j))
    case Replying(x, sp) => Told(c, m, server, Result(x, sp))
    case _ => true
  }

  ghost predicate AllTold(c: Setup, s: State, server: Server) {
    && (forall w :: 0 <= w < |s.ws| ==> StageTold(c, s.manifest, server, s.ws[w]))
    && (forall r :: r in s.results || r in s.collected ==> Told(c, s.manifest, server, r))
  }

  lemma {:induction false} FinalAt(server: Server, x: string, k: nat, d: nat)
    requires k <= d <= 3 && (d < 3 ==> !Retries(server(x, d))) && forall j :: k <= j < d ==> Retries(server(x, j))
    ensures Final(server, x, k) == d
    decreases d - k
  {
    if k < d {
      FinalAt(server, x, k + 1, d);
    }
  }

  /** The step that asks the manifest: only an entry that says so is skipped. */
  lemma AsksManifest(c: Setup, worker: Worker, w: nat, answer: Answer, rate: Option<nat>, manifest: Manifest, server: Server)
    requires (worker.Holding? || worker.SecondLook?) && StageOk(c, manifest, worker)
    ensures StageTold(c, manifest, server, Advance(worker, w, answer, rate, manifest).value.worker)
  {
  }

  /** The step that fetches. */
  lemma FetchIsTold(c: Setup, x: string, k: nat, w: nat, rate: Option<nat>, manifest: Manifest, server: Server)
    requires StageTold(c, manifest, server, Fetching(x, k)) && Same(c, manifest, x)
    ensures var q := Advance(Fetching(x, k), w, server(x, k), rate, manifest).value;
            StageTold(c, q.manifest, server, q.worker)
  {
    if !Retries(server(x, k)) {
      FinalAt(server, x, 0, k);
    }
  }

  lemma BackOffIsTold(c: Setup, x: string, k: nat, w: nat, answer: Answer, rate: Option<nat>, manifest: Manifest, server: Server)
    requires StageTold(c, manifest, server, BackingOff(x, k)) && Same(c, manifest, x)
    ensures var q := Advance(BackingOff(x, k), w, answer, rate, manifest).value;
            q.manifest == manifest && StageTold(c, manifest, server, q.worker)
  {
    if k + 1 == 3 {
      FinalAt(server, x, 0, 3);
    }
  }

  lemma AdvanceTold(c: Setup, worker: Worker, w: nat, answer: Answer, rate: Option<nat>, manifest: Manifest, server: Server)
    requires Holds(worker) && !worker.Replying? && StageOk(c, manifest, worker) && StageTold(c, manifest, server, worker)
    requires worker.Fetching? ==> answer == server(worker.slug, worker.attempt)
    requires Advance(worker, w, answer, rate, manifest).Some?
    ensures var q := Advance(worker, w, answer, rate, manifest).value; StageTold(c, q.manifest, server, q.worker)
  {
    match worker
    case Holding(_) => AsksManifest(c, worker, w, answer, rate, manifest, server);
    case SecondLook(_) => AsksManifest(c, worker, w, answer, rate, manifest, server);
    case Fetching(x, k) => FetchIsTold(c, x, k, w, rate, manifest, server);
    case BackingOff(x, k) => BackOffIsTold(c, x, k, w, answer, rate, manifest, server);
    case Queueing(_) =>
    case Ticking(_) =>
  }

  lemma ToldElsewhere(c: Setup, m: Manifest, m': Manifest, server: Server, x: string, r: Result)
    requires OnlyEntry(m, m', x) && Told(c, m, server, r) && r.slug != x
    ensures Told(c, m', server, r)
  {
  }

  lemma OthersTold(c: Setup, s: State, server: Server, w: nat, x: string, m: Manifest, next: Worker)
    requires AllTold(c, s, server) && w < |s.ws| && OnlyEntry(s.manifest, m, x)
    requires x !in Names(s.results) && x !in Names(s.collected)
    requires forall v :: 0 <= v < |s.ws| && v != w && Holds(s.ws[v]) ==> s.ws[v].slug != x
    requires StageTold(c, m, server, next)
    ensures AllTold(c, s.(manifest := m, ws := s.ws[w := next]), server)
  {
    var ws := s.ws[w := next];
    forall v | 0 <= v < |ws| ensures StageTold(c, m, server, ws[v]) {
      if v != w {
        assert StageTold(c, s.manifest, server, s.ws[v]);
        if s.ws[v].Replying? {
          ToldElsewhere(c, s.manifest, m, server, x, Result(s.ws[v].slug, s.ws[v].sp));
        }
      }
    }
    forall r | r in s.results || r in s.collected ensures Told(c, m, server, r) {
      if r in s.results {
        NameOf(s.results, r);
      } else {
        NameOf(s.collected, r);
      }
      ToldElsewhere(c, s.manifest, m, server, x, r);
    }
  }

  lemma AlongTold(c: Setup, s: State, w: nat, answer: Answer, server: Server)
    requires Inv(c, s) && AllTold(c, s, server) && Obeys(s, Work(w, answer), server)
    requires w < |s.ws| && Holds(s.ws[w]) && !s.ws[w].Replying? && WorkerStep(c, s, w, answer).Some?
    ensures AllTold(c, WorkerStep(c, s, w, answer).value, server)
  {
    var t := WorkerStep(c, s, w, answer).value;
    Alone(c, s, w);
    assert StageOk(c, s.manifest, s.ws[w]) && StageTold(c, s.manifest, server, s.ws[w]);
    AdvanceRecords(c, s.ws[w], w, answer, s.rate, s.manifest);
    AdvanceTold(c, s.ws[w], w, answer, s.rate, s.manifest, server);
    OthersTold(c, s, server, w, s.ws[w].slug, t.manifest, t.ws[w]);
    assert t.ws == s.ws[w := t.ws[w]];
  }

  lemma RestTold(c: Setup, s: State, w: nat, answer: Answer, server: Server)
    requires Inv(c, s) && AllTold(c, s, server)
    requires w < |s.ws| && !(Holds(s.ws[w]) && !s.ws[w].Replying?) && WorkerStep(c, s, w, answer).Some?
    ensures AllTold(c, WorkerStep(c, s, w, answer).value, server)
  {
    var t := WorkerStep(c, s, w, answer).value;
    assert StageTold(c, s.manifest, server, s.ws[w]);
    BusyKeepsOpen(c, s, w);
    forall v | 0 <= v < |t.ws| ensures StageTold(c, t.manifest, server, t.ws[v]) {
      assert StageTold(c, s.manifest, server, s.ws[v]);
    }
  }

  lemma StepTold(c: Setup, s: State, a: Actor, server: Server)
    requires Inv(c, s) && AllTold(c, s, server) && Obeys(s, a, server) && Step(c, s, a).Some?
    ensures AllTold(c, Step(c, s, a).value, server)
  {
    match a
    case Main =>
      var t := MainStep(c, s).value;
      forall v | 0 <= v < |t.ws| ensures StageTold(c, t.manifest, server, t.ws[v]) {
        assert StageTold(c, s.manifest, server, s.ws[v]);
      }
    case Closer =>
      var t := CloserStep(s).value;
      forall v | 0 <= v < |t.ws| ensures StageTold(c, t.manifest, server, t.ws[v]) {
        assert StageTold(c, s.manifest, server, s.ws[v]);
      }
    case Work(w, answer) =>
      if Holds(s.ws[w]) && !s.ws[w].Replying? {
        AlongTold(c, s, w, answer, server);
      } else {
        RestTold(c, s, w, answer, server);
      }
  }

  lemma {:induction false} RunTold(c: Setup, s: State, actors: seq<Actor>, server: Server)
    requires Inv(c, s) && AllTold(c, s, server) && Run(c, s, actors).Some? && RunObeys(c, s, actors, server)
    ensures AllTold(c, Run(c, s, actors).value, server)
    decreases |actors|
  {
    if actors != [] {
      StepKeeps(c, s, actors[0]);
      StepTold(c, s, actors[0], server);
      RunTold(c, Step(c, s, actors[0]).value, actors[1..], server);
    }
  }

  /**
   * When main has finished, with a server that answers each attempt on each slug in a fixed way,
   * whatever the interleaving: every listed slug the manifest does not skip has the patterns its
   * deciding attempt yields in allPatterns, or is not there if it yields none, and its manifest
   * entry is what that attempt makes it.
   */
  lemma EverySlugIsFetched(c: Setup, actors: seq<Actor>, server: Server, x: string)
    requires ValidSetup(c) && Run(c, Init(c), actors).Some? && RunObeys(c, Init(c), actors, server)
    requires Run(c, Init(c), actors).value.main.Finished? && x in c.slugs && !Skipped(c, x)
    ensures var t := Run(c, Init(c), actors).value;
            && (exists r :: r in t.collected && r == Result(x, Yield(server, x)))
            && (x in t.patterns <==> Yield(server, x).Some?)
            && (x in t.patterns ==> t.patterns[x] == Yield(server, x).value)
            && EntryTells(c, t.manifest, server, x)
  {
    var t := Run(c, Init(c), actors).value;
    InitIsGood(c);
    RunKeeps(c, Init(c), actors);
    RunTold(c, Init(c), actors, server);
    ResultOf(c, t, server, x);
    PatternsOf(c, t, x);
    OnlyResult(c, t, x);
  }

  lemma ResultOf(c: Setup, t: State, server: Server, x: string)
    requires Inv(c, t) && AllTold(c, t, server) && t.main.Finished? && x in c.slugs && !Skipped(c, x)
    ensures Result(x, Yield(server, x)) in t.collected && EntryTells(c, t.manifest, server, x)
  {
    AllAnswered(c, t);
    assert x in multiset(Names(t.collected));
    var i :| 0 <= i < |Names(t.collected)| && Names(t.collected)[i] == x;
    assert t.collected[i] in t.collected && Told(c, t.manifest, server, t.collected[i]);
  }

  /** A slug has one result. */
  lemma OnlyResult(c: Setup, t: State, x: string)
    requires Inv(c, t) && t.main.Finished?
    ensures forall r, q :: r in t.collected && q in t.collected && r.slug == x && q.slug == x ==> r.sp == q.sp
  {
    AllAnswered(c, t);
    DistinctCounts(c.slugs);
    forall r, q | r in t.collected && q in t.collected && r.slug == x && q.slug == x ensures r.sp == q.sp {
      var i :| 0 <= i < |t.collected| && t.collected[i] == r;
      var j :| 0 <= j < |t.collected| && t.collected[j] == q;
      if i < j {
        TwiceCounted(Names(t.collected), i, j);
      } else if j < i {
        TwiceCounted(Names(t.collected), j, i);
      }
    }
  }

  lemma TwiceCounted(xs: seq<string>, i: nat, j: nat)
    requires i < j < |xs| && xs[i] == xs[j]
    ensures multiset(xs)[xs[i]] >= 2
  {
    assert xs == xs[..i + 1] + xs[i + 1..];
    assert xs[i] in xs[..i + 1] && xs[i + 1..][j - i - 1] == xs[i];
  }

  /** In particular a first attempt that delivers puts its patterns in allPatterns and marks the slug extracted. */
  lemma FirstDeliveryCounts(c: Setup, actors: seq<Actor>, server: Server, x: string)
    requires ValidSetup(c) && Run(c, Init(c), actors).Some? && RunObeys(c, Init(c), actors, server)
    requires Run(c, Init(c), actors).value.main.Finished? && x in c.slugs && !Skipped(c, x) && server(x, 0).Got?
    ensures var t := Run(c, Init(c), actors).value;
            && x in t.patterns && t.patterns[x] == server(x, 0).found.(slug := x)
            && x in t.manifest && t.manifest[x] == Entry(true, false)
  {
    EverySlugIsFetched(c, actors, server, x);
    FinalAt(server, x, 0, 0);
  }

  /** The answers of three attempts, as a server gives them, come to what Decided says. */
  lemma YieldIsDecided(server: Server, x: string, version: string, attempts: seq<Attempt>, rate: Option<nat>, manifest: Manifest)
    requires |attempts| == 3 && forall k :: 0 <= k < 3 ==> server(x, k) == AnswerTo(x, version, attempts[k])
    ensures Decided(x, version, attempts, Deciding(x, version, attempts, 0), rate, manifest).worker == Replying(x, Yield(server, x))
  {
    forall k | 0 <= k < 3 ensures Retries(server(x, k)) <==> BacksOff(x, version, attempts[k]) {
      if attempts[k].Refused? {
        FindsInText(attempts[k].failure, x, version, "429");
      }
    }
    FinalAt(server, x, 0, Deciding(x, version, attempts, 0));
  }
}
