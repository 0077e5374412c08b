/**
 * Establishing the agent's master key, as a protocol.
 *
 * Any number of requests run Keystore::resolveMasterKey at the same time over three kinds of
 * shared storage: the option row that pins the source, the option row that holds the
 * database key, and the key files.  One Step is one SQL statement or one file operation of
 * one request; a schedule is any interleaving of such steps.  Every operation may also fail,
 * a request may stop for ever between two of its steps, and each request walks a list of
 * candidate paths of its own.
 *
 * Main results: a well-formed source marker never changes once stored (MarkerIsStable), and
 * any two requests that obtain a key obtain the same key (Agreement).  Which source that is, is the
 * subject of KeystoreDiscovery.
 */
module KeystoreProtocol {
  import opened Wrappers

  const KEY_BYTES := 32

  type Key = k: seq<Byte> | |k| == KEY_BYTES witness seq(KEY_BYTES, _ => 0)

  /** The decoded marker ['source' => ..., 'path' => ...]. */
  datatype Marker = Marker(source: string, path: Option<string>)

  const CONSTANT := Marker("constant", None)
  const SALTS := Marker("salts", None)
  const DB := Marker("db", None)

  function FileMarker(path: string): Marker {
    Marker("file", Some(path))
  }

  /**
   * What no request changes: the WPMGR_AGENT_KEY_FILE constant (None when it is undefined,
   * not a string or blank), the key derived from the salts, the opt-out of the database
   * tier, and how rows are encoded and decoded.
   */
  datatype Env = Env(
    keyFileConstant: Option<string>,
    saltKey: Option<Key>,
    dbKeyDisabled: bool,
    encodeMarker: Marker -> string,
    decodeMarker: string -> Option<Marker>,
    encodeKey: Key -> string,
    decodeKey: string -> Option<Key>)

  /** An empty row decodes to nothing; this is all that agreement needs of the encodings. */
  ghost predicate EmptyRowsHoldNothing(env: Env) {
    env.decodeMarker("") == None && env.decodeKey("") == None
  }

  /** The storage all requests share. */
  datatype Shared = Shared(
    marker: Option<string>,
    dbKey: Option<string>,
    files: map<string, seq<Byte>>)

  /** Where createKeyFile returns to. */
  datatype Caller =
    | FromConstant                       // keyFromConstant during discovery
    | FromCandidates(rest: seq<string>)  // writeKeyFileToFirstWritable
    | FromPinned(m: Marker)              // keyFromConstant for a pinned source

  /** The point a request has reached. */
  datatype Pc =
    | Start
    | TryConstant
    | ListExisting
    | Scan(paths: seq<string>)
    | TrySalts
    | NextCandidate(paths: seq<string>)
    | OpenExclusive(path: string, caller: Caller)
    | Adopt(path: string, caller: Caller)
    | Writing(path: string, key: Key, written: nat, caller: Caller)
    | RollBack(path: string, caller: Caller)
    | TryDb
    | DbInsert(key: Key)
    | DbFill(key: Key)
    | DbReadBack
    | PinInsert(m: Marker)
    | PinFill(m: Marker)
    | PinReadBack(m: Marker)
    | PinSwap(m: Marker, malformed: string)
    | PinReadAgain
    | Use(m: Marker)
    | Done(key: Key)
    | Failed

  /**
   * What one step does not decide itself: whether the operation succeeds (a query that takes
   * effect, a file that can be read or opened), whether a directory is usable, the
   * candidate paths of this request, fresh random bytes, and how many more bytes a write
   * persisted.
   */
  datatype Choice = Choice(ok: bool, dirOk: bool, paths: seq<string>, random: Key, count: nat)

  /** The marker the row holds, when it is well formed. */
  function StoredMarker(env: Env, sh: Shared): Option<Marker> {
    if sh.marker.Some? then env.decodeMarker(sh.marker.value) else None
  }

  function StoredDbKey(env: Env, sh: Shared): Option<Key> {
    if sh.dbKey.Some? then env.decodeKey(sh.dbKey.value) else None
  }

  /** readKeyFile on a readable file: its 32 bytes, or nothing for any other length. */
  function KeyInFile(sh: Shared, path: string): Option<Key> {
    if path in sh.files && |sh.files[path]| == KEY_BYTES then Some(sh.files[path]) else None
  }

  /** insertKeyRow's INSERT: it cannot replace a stored row. */
  function InsertRow(row: Option<string>, value: string): Option<string> {
    if row.None? then Some(value) else row
  }

  /** insertKeyRow's UPDATE: it fills the row only while it is empty. */
  function FillEmptyRow(row: Option<string>, value: string): Option<string> {
    if row == Some("") then Some(value) else row
  }

  /** What follows when createKeyFile returns. */
  function Return(caller: Caller, path: string, key: Option<Key>): Pc {
    match caller
    case FromConstant => if key.Some? then PinInsert(CONSTANT) else ListExisting
    case FromCandidates(rest) => if key.Some? then PinInsert(FileMarker(path)) else NextCandidate(rest)
    case FromPinned(_) => if key.Some? then Done(key.value) else Failed
  }

  /** keyForPinnedSource with mayCreate: the first operation, and for most sources the only one. */
  function UsePinned(env: Env, sh: Shared, m: Marker, c: Choice): Pc {
    if m.source == "constant" then
      if env.keyFileConstant.None? then Failed
      else
        var found := if c.ok then KeyInFile(sh, env.keyFileConstant.value) else None;
        if found.Some? then Done(found.value) else OpenExclusive(env.keyFileConstant.value, FromPinned(m))
    else if m.source == "salts" then
      if env.saltKey.Some? then Done(env.saltKey.value) else Failed
    else if m.source == "file" then
      var path := if m.path.Some? then m.path.value else "";
      var found := if path != "" && c.ok then KeyInFile(sh, path) else None;
      if found.Some? then Done(found.value) else Failed
    else if m.source == "db" then
      var found := if c.ok then StoredDbKey(env, sh) else None;
      if found.Some? then Done(found.value) else Failed
    else Failed
  }

  /** One atomic operation of one request. */
  function Step(env: Env, sh: Shared, pc: Pc, c: Choice): (Shared, Pc) {
    match pc
    case Start =>
      if !c.ok then (sh, Failed)
      else if StoredMarker(env, sh).Some? then (sh, Use(StoredMarker(env, sh).value))
      else (sh, TryConstant)

    case TryConstant =>
      if env.keyFileConstant.None? then (sh, ListExisting)
      else if c.ok && KeyInFile(sh, env.keyFileConstant.value).Some? then (sh, PinInsert(CONSTANT))
      else (sh, OpenExclusive(env.keyFileConstant.value, FromConstant))

    case ListExisting => (sh, Scan(c.paths))

    case Scan(paths) =>
      if paths == [] then (sh, TrySalts)
      else if c.ok && KeyInFile(sh, paths[0]).Some? then (sh, PinInsert(FileMarker(paths[0])))
      else (sh, Scan(paths[1..]))

    case TrySalts =>
      if env.saltKey.Some? then (sh, PinInsert(SALTS)) else (sh, NextCandidate(c.paths))

    case NextCandidate(paths) =>
      if paths == [] then (sh, TryDb)
      else if c.dirOk then (sh, OpenExclusive(paths[0], FromCandidates(paths[1..])))
      else (sh, NextCandidate(paths[1..]))

    case OpenExclusive(path, caller) =>
      if !c.dirOk then (sh, Return(caller, path, None))
      else if path in sh.files || !c.ok then (sh, Adopt(path, caller))
      else (sh.(files := sh.files[path := []]), Writing(path, c.random, 0, caller))

    case Adopt(path, caller) =>
      (sh, Return(caller, path, if c.ok then KeyInFile(sh, path) else None))

    case Writing(path, key, written, caller) =>
      if c.ok && written + c.count <= KEY_BYTES && 0 < c.count then
        (sh.(files := sh.files[path := key[..written + c.count]]), Writing(path, key, written + c.count, caller))
      else if written == KEY_BYTES then (sh, Return(caller, path, Some(key)))
      else (sh, RollBack(path, caller))

    case RollBack(path, caller) =>
      (if c.ok then sh.(files := sh.files - {path}) else sh, Return(caller, path, None))

    case TryDb =>
      if env.dbKeyDisabled || !c.ok then (sh, Failed)
      else if sh.dbKey.None? then (sh, DbInsert(c.random))
      else if StoredDbKey(env, sh).Some? then (sh, PinInsert(DB))
      else (sh, Failed)

    case DbInsert(key) =>
      (if c.ok then sh.(dbKey := InsertRow(sh.dbKey, env.encodeKey(key))) else sh, DbFill(key))

    case DbFill(key) =>
      (if c.ok then sh.(dbKey := FillEmptyRow(sh.dbKey, env.encodeKey(key))) else sh, DbReadBack)

    case DbReadBack =>
      (sh, if c.ok && StoredDbKey(env, sh).Some? then PinInsert(DB) else Failed)

    case PinInsert(m) =>
      (if c.ok then sh.(marker := InsertRow(sh.marker, env.encodeMarker(m))) else sh, PinFill(m))

    case PinFill(m) =>
      (if c.ok then sh.(marker := FillEmptyRow(sh.marker, env.encodeMarker(m))) else sh, PinReadBack(m))

    case PinReadBack(m) =>
      if !c.ok || sh.marker.None? || sh.marker.value == "" then (sh, Failed)
      else if StoredMarker(env, sh).Some? then (sh, Use(StoredMarker(env, sh).value))
      else (sh, PinSwap(m, sh.marker.value))

    case PinSwap(m, malformed) =>
      (if c.ok && sh.marker == Some(malformed) then sh.(marker := Some(env.encodeMarker(m))) else sh, PinReadAgain)

    case PinReadAgain =>
      (sh, if c.ok && StoredMarker(env, sh).Some? then Use(StoredMarker(env, sh).value) else Failed)

    case Use(m) => (sh, UsePinned(env, sh, m, c))

    case Done(_) => (sh, pc)
    case Failed => (sh, pc)
  }

  /** All requests over the shared storage; a request not listed has not started. */
  datatype System = System(sh: Shared, requests: map<nat, Pc>)

  datatype Turn = Turn(request: nat, choice: Choice)

  function PcOf(s: System, r: nat): Pc {
    if r in s.requests then s.requests[r] else Start
  }

  function TakeTurn(env: Env, s: System, t: Turn): System {
    var (sh, pc) := Step(env, s.sh, PcOf(s, t.request), t.choice);
    System(sh, s.requests[t.request := pc])
  }

  /** The system after a schedule: any interleaving of the steps of any number of requests. */
  function Run(env: Env, s: System, schedule: seq<Turn>): System
    decreases |schedule|
  {
    if schedule == [] then s else Run(env, TakeTurn(env, s, schedule[0]), schedule[1..])
  }

  /** The key a marker stands for, when its source can produce one. */
  function KeyFor(env: Env, sh: Shared, m: Marker): Option<Key> {
    if m.source == "constant" then
      if env.keyFileConstant.Some? then KeyInFile(sh, env.keyFileConstant.value) else None
    else if m.source == "salts" then env.saltKey
    else if m.source == "file" then
      if m.path.Some? && m.path.value != "" then KeyInFile(sh, m.path.value) else None
    else if m.source == "db" then StoredDbKey(env, sh)
    else None
  }

  /** The file a request has created and not yet finished with. */
  function OwnedFile(pc: Pc): Option<string> {
    match pc
    case Writing(path, _, _, _) => Some(path)
    case RollBack(path, _) => Some(path)
    case _ => None
  }

  /** A request inside createKeyFile for a pinned source works for the stored marker. */
  predicate CallerOk(env: Env, sh: Shared, caller: Caller, path: string) {
    caller.FromPinned? ==>
      && caller.m.source == "constant"
      && env.keyFileConstant == Some(path)
      && StoredMarker(env, sh) == Some(caller.m)
  }

  /** What holds of one request, whatever the others do. */
  predicate RequestOk(env: Env, sh: Shared, pc: Pc) {
    match pc
    case OpenExclusive(path, caller) => CallerOk(env, sh, caller, path)
    case Adopt(path, caller) => CallerOk(env, sh, caller, path)
    case Writing(path, key, written, caller) =>
      && CallerOk(env, sh, caller, path)
      && written <= KEY_BYTES
      && path in sh.files && sh.files[path] == key[..written]
    case RollBack(path, caller) =>
      && CallerOk(env, sh, caller, path)
      && path in sh.files && |sh.files[path]| < KEY_BYTES
    case PinSwap(_, malformed) => env.decodeMarker(malformed).None?
    case Use(m) => StoredMarker(env, sh) == Some(m)
    case Done(key) =>
      && StoredMarker(env, sh).Some?
      && KeyFor(env, sh, StoredMarker(env, sh).value) == Some(key)
    case _ => true
  }

  ghost predicate Invariant(env: Env, s: System) {
    && (forall r :: r in s.requests ==> RequestOk(env, s.sh, s.requests[r]))
    && (forall r, q :: r in s.requests && q in s.requests && r != q && OwnedFile(s.requests[r]).Some?
          ==> OwnedFile(s.requests[r]) != OwnedFile(s.requests[q]))
  }

  /** What a step of another request leaves alone. */
  ghost predicate Keeps(env: Env, before: Shared, after: Shared, stepper: Pc) {
    && (StoredMarker(env, before).Some? ==> StoredMarker(env, after) == StoredMarker(env, before))
    && (StoredDbKey(env, before).Some? ==> StoredDbKey(env, after) == StoredDbKey(env, before))
    && (forall p :: p in before.files && Some(p) != OwnedFile(stepper)
          ==> p in after.files && after.files[p] == before.files[p])
    && (forall p :: p in before.files && |before.files[p]| == KEY_BYTES
          ==> p in after.files && after.files[p] == before.files[p])
  }

  lemma StepKeeps(env: Env, sh: Shared, pc: Pc, c: Choice)
    requires EmptyRowsHoldNothing(env) && RequestOk(env, sh, pc)
    ensures Keeps(env, sh, Step(env, sh, pc, c).0, pc)
  {
  }

  lemma StepKeepsOwnRequest(env: Env, sh: Shared, pc: Pc, c: Choice)
    requires EmptyRowsHoldNothing(env) && RequestOk(env, sh, pc)
    ensures RequestOk(env, Step(env, sh, pc, c).0, Step(env, sh, pc, c).1)
  {
    if pc.Writing? && pc.written == KEY_BYTES {
      assert pc.key[..KEY_BYTES] == pc.key;
    }
  }

  lemma KeptByOthers(env: Env, before: Shared, after: Shared, stepper: Pc, pc: Pc)
    requires Keeps(env, before, after, stepper) && RequestOk(env, before, pc)
    requires OwnedFile(pc).Some? ==> OwnedFile(pc) != OwnedFile(stepper)
    ensures RequestOk(env, after, pc)
  {
  }

  lemma TurnKeepsInvariant(env: Env, s: System, t: Turn)
    requires EmptyRowsHoldNothing(env) && Invariant(env, s)
    ensures Invariant(env, TakeTurn(env, s, t))
    ensures Keeps(env, s.sh, TakeTurn(env, s, t).sh, PcOf(s, t.request))
  {
    var pc := PcOf(s, t.request);
    var s' := TakeTurn(env, s, t);
    StepKeeps(env, s.sh, pc, t.choice);
    StepKeepsOwnRequest(env, s.sh, pc, t.choice);
    forall r | r in s'.requests && r != t.request
      ensures RequestOk(env, s'.sh, s'.requests[r])
      ensures OwnedFile(s'.requests[r]).Some? ==> OwnedFile(s'.requests[r]) != OwnedFile(s'.requests[t.request])
    {
      KeptByOthers(env, s.sh, s'.sh, pc, s.requests[r]);
      FilesStayOwn(env, s.sh, pc, t.choice, s.requests[r]);
    }
  }

  /** A step takes no file another request is working on. */
  lemma FilesStayOwn(env: Env, sh: Shared, pc: Pc, c: Choice, other: Pc)
    requires RequestOk(env, sh, pc) && RequestOk(env, sh, other)
    requires OwnedFile(other).Some? ==> OwnedFile(other) != OwnedFile(pc)
    ensures OwnedFile(other).Some? ==> OwnedFile(other) != OwnedFile(Step(env, sh, pc, c).1)
  {
  }

  lemma {:induction false} RunKeepsInvariant(env: Env, s: System, schedule: seq<Turn>)
    requires EmptyRowsHoldNothing(env) && Invariant(env, s)
    ensures Invariant(env, Run(env, s, schedule))
    decreases |schedule|
  {
    if schedule != [] {
      TurnKeepsInvariant(env, s, schedule[0]);
      RunKeepsInvariant(env, TakeTurn(env, s, schedule[0]), schedule[1..]);
    }
  }

  /** Whatever earlier requests left behind: any rows, well formed or not, and any files, whole or partial. */
  predicate Fresh(s: System) {
    s.requests == map[]
  }

  /**
   * Agreement: from any stored state, in every interleaving of any number of requests, two
   * requests that obtain a key obtain the same key.
   */
  lemma Agreement(env: Env, s: System, schedule: seq<Turn>, r: nat, q: nat)
    requires EmptyRowsHoldNothing(env) && Fresh(s)
    requires PcOf(Run(env, s, schedule), r).Done? && PcOf(Run(env, s, schedule), q).Done?
    ensures PcOf(Run(env, s, schedule), r) == PcOf(Run(env, s, schedule), q)
  {
    RunKeepsInvariant(env, s, schedule);
  }

  /** A well-formed source marker never changes once it is stored, and neither does the key it stands for. */
  lemma {:induction false} MarkerIsStable(env: Env, s: System, schedule: seq<Turn>, m: Marker)
    requires EmptyRowsHoldNothing(env) && Invariant(env, s)
    requires StoredMarker(env, s.sh) == Some(m)
    ensures StoredMarker(env, Run(env, s, schedule).sh) == Some(m)
    ensures KeyFor(env, s.sh, m).Some? ==> KeyFor(env, Run(env, s, schedule).sh, m) == KeyFor(env, s.sh, m)
    decreases |schedule|
  {
    if schedule != [] {
      TurnKeepsInvariant(env, s, schedule[0]);
      MarkerIsStable(env, TakeTurn(env, s, schedule[0]), schedule[1..], m);
    }
  }

  lemma {:induction false} RunSplits(env: Env, s: System, first: seq<Turn>, second: seq<Turn>)
    ensures Run(env, s, first + second) == Run(env, Run(env, s, first), second)
    decreases |first|
  {
    if first == [] {
      assert first + second == second;
    } else {
      assert (first + second)[1..] == first[1..] + second;
      RunSplits(env, TakeTurn(env, s, first[0]), first[1..], second);
    }
  }

  /**
   * Agreement over time: a key obtained at one moment is the key every later request
   * obtains, and the pinned source goes on standing for it.
   */
  lemma KeyOutlivesItsRequest(env: Env, s: System, first: seq<Turn>, second: seq<Turn>, r: nat, q: nat)
    requires EmptyRowsHoldNothing(env) && Fresh(s)
    requires PcOf(Run(env, s, first), r).Done?
    requires PcOf(Run(env, s, first + second), q).Done?
    ensures PcOf(Run(env, s, first + second), q) == PcOf(Run(env, s, first), r)
    ensures StoredMarker(env, Run(env, s, first + second).sh).Some?
    ensures KeyFor(env, Run(env, s, first + second).sh, StoredMarker(env, Run(env, s, first + second).sh).value)
         == Some(PcOf(Run(env, s, first), r).key)
  {
    RunSplits(env, s, first, second);
    RunKeepsInvariant(env, s, first);
    KeyLasts(env, Run(env, s, first), second, r, q);
  }

  lemma KeyLasts(env: Env, mid: System, second: seq<Turn>, r: nat, q: nat)
    requires EmptyRowsHoldNothing(env) && Invariant(env, mid)
    requires PcOf(mid, r).Done? && PcOf(Run(env, mid, second), q).Done?
    ensures var end := Run(env, mid, second);
            && PcOf(end, q) == PcOf(mid, r)
            && StoredMarker(env, end.sh).Some?
            && KeyFor(env, end.sh, StoredMarker(env, end.sh).value) == Some(PcOf(mid, r).key)
  {
    RunKeepsInvariant(env, mid, second);
    MarkerIsStable(env, mid, second, StoredMarker(env, mid.sh).value);
  }

  /** A request left alone: n turns, the same choice each time. */
  function Alone(r: nat, c: Choice, n: nat): seq<Turn> {
    seq(n, _ => Turn(r, c))
  }

  /** What one request reaches by itself in n steps. */
  function Solo(env: Env, sh: Shared, pc: Pc, c: Choice, n: nat): (Shared, Pc)
    decreases n
  {
    if n == 0 then (sh, pc)
    else
      var (sh', pc') := Step(env, sh, pc, c);
      Solo(env, sh', pc', c, n - 1)
  }

  lemma {:induction false} AloneRunsSolo(env: Env, s: System, r: nat, c: Choice, n: nat)
    requires r in s.requests
    ensures var end := Solo(env, s.sh, s.requests[r], c, n);
            Run(env, s, Alone(r, c, n)) == System(end.0, s.requests[r := end.1])
    decreases n
  {
    if n == 0 {
      assert s.requests[r := s.requests[r]] == s.requests;
    } else {
      assert Alone(r, c, n)[1..] == Alone(r, c, n - 1);
      var s' := TakeTurn(env, s, Turn(r, c));
      AloneRunsSolo(env, s', r, c, n - 1);
      var end := Solo(env, s'.sh, s'.requests[r], c, n - 1);
      assert s'.requests[r := end.1] == s.requests[r := end.1];
    }
  }

  /** Operations that all succeed, with the random bytes they draw. */
  function Works(key: Key): Choice {
    Choice(true, true, [], key, KEY_BYTES)
  }

  ghost predicate KeyFileConfigured(env: Env, path: string) {
    && env.keyFileConstant == Some(path)
    && env.decodeMarker(env.encodeMarker(CONSTANT)) == Some(CONSTANT)
    && env.encodeMarker(CONSTANT) != ""
  }

  lemma {:induction false} WritesWholeKey(env: Env, sh: Shared, path: string, key: Key, caller: Caller, n: nat)
    requires path !in sh.files && n >= 3
    ensures Solo(env, sh, OpenExclusive(path, caller), Works(key), n)
         == Solo(env, sh.(files := sh.files[path := key]), Return(caller, path, Some(key)), Works(key), n - 3)
  {
    var c := Works(key);
    assert key[..KEY_BYTES] == key;
    var sh1 := sh.(files := sh.files[path := []]);
    var sh2 := sh1.(files := sh1.files[path := key]);
    assert Step(env, sh, OpenExclusive(path, caller), c) == (sh1, Writing(path, key, 0, caller));
    assert Step(env, sh1, Writing(path, key, 0, caller), c) == (sh2, Writing(path, key, KEY_BYTES, caller));
    assert sh2 == sh.(files := sh.files[path := key]);
    assert Solo(env, sh, OpenExclusive(path, caller), c, n) == Solo(env, sh1, Writing(path, key, 0, caller), c, n - 1);
    assert Solo(env, sh1, Writing(path, key, 0, caller), c, n - 1)
        == Solo(env, sh2, Writing(path, key, KEY_BYTES, caller), c, n - 2);
  }

  lemma {:induction false} PinsConstant(env: Env, path: string, key: Key)
    requires KeyFileConfigured(env, path)
    ensures Solo(env, Shared(None, None, map[path := key]), PinInsert(CONSTANT), Works(key), 4)
         == (Shared(Some(env.encodeMarker(CONSTANT)), None, map[path := key]), Done(key))
  {
    var c := Works(key);
    var sh1 := Shared(None, None, map[path := key]);
    var sh2 := Shared(Some(env.encodeMarker(CONSTANT)), None, map[path := key]);
    assert Step(env, sh1, PinInsert(CONSTANT), c) == (sh2, PinFill(CONSTANT));
    assert Step(env, sh2, PinFill(CONSTANT), c) == (sh2, PinReadBack(CONSTANT));
    assert Step(env, sh2, PinReadBack(CONSTANT), c) == (sh2, Use(CONSTANT));
    assert Step(env, sh2, Use(CONSTANT), c) == (sh2, Done(key));
    assert Solo(env, sh1, PinInsert(CONSTANT), c, 4) == Solo(env, sh2, PinFill(CONSTANT), c, 3);
    assert Solo(env, sh2, PinReadBack(CONSTANT), c, 2) == Solo(env, sh2, Use(CONSTANT), c, 1);
  }

  /** With the constant defined, a first request alone creates the key file, pins it and obtains its key. */
  lemma {:induction false} FirstRequestCreatesKeyFile(env: Env, path: string, key: Key)
    requires KeyFileConfigured(env, path)
    ensures Solo(env, Shared(None, None, map[]), Start, Works(key), 9)
         == (Shared(Some(env.encodeMarker(CONSTANT)), None, map[path := key]), Done(key))
  {
    var c := Works(key);
    var sh := Shared(None, None, map[]);
    assert Step(env, sh, Start, c) == (sh, TryConstant);
    assert Step(env, sh, TryConstant, c) == (sh, OpenExclusive(path, FromConstant));
    assert Solo(env, sh, Start, c, 9) == Solo(env, sh, TryConstant, c, 8);
    assert Solo(env, sh, TryConstant, c, 8) == Solo(env, sh, OpenExclusive(path, FromConstant), c, 7);
    WritesWholeKey(env, sh, path, key, FromConstant, 7);
    PinsConstant(env, path, key);
  }

  /** A pinned constant whose file is gone: the next request creates the file again, with a key of its own. */
  lemma {:induction false} NextRequestRecreatesKeyFile(env: Env, path: string, key: Key)
    requires KeyFileConfigured(env, path)
    ensures Solo(env, Shared(Some(env.encodeMarker(CONSTANT)), None, map[]), Start, Works(key), 5)
         == (Shared(Some(env.encodeMarker(CONSTANT)), None, map[path := key]), Done(key))
  {
    var c := Works(key);
    var sh := Shared(Some(env.encodeMarker(CONSTANT)), None, map[]);
    assert Step(env, sh, Start, c) == (sh, Use(CONSTANT));
    assert Step(env, sh, Use(CONSTANT), c) == (sh, OpenExclusive(path, FromPinned(CONSTANT)));
    assert Solo(env, sh, Start, c, 5) == Solo(env, sh, Use(CONSTANT), c, 4);
    assert Solo(env, sh, Use(CONSTANT), c, 4) == Solo(env, sh, OpenExclusive(path, FromPinned(CONSTANT)), c, 3);
    WritesWholeKey(env, sh, path, key, FromPinned(CONSTANT), 3);
  }

  /**
   * Agreement needs that nothing outside the protocol deletes key files: after the file of a
   * source pinned to the constant is deleted, the next request creates another one, and two
   * requests hold different keys.
   */
  lemma {:induction false} OutsideDeletionBreaksAgreement(env: Env, path: string, k1: Key, k2: Key)
    requires KeyFileConfigured(env, path)
    ensures var first := Run(env, System(Shared(None, None, map[]), map[0 := Start, 1 := Start]), Alone(0, Works(k1), 9));
            var deleted := first.(sh := first.sh.(files := first.sh.files - {path}));
            var second := Run(env, deleted, Alone(1, Works(k2), 5));
            PcOf(second, 0) == Done(k1) && PcOf(second, 1) == Done(k2)
  {
    var s := System(Shared(None, None, map[]), map[0 := Start, 1 := Start]);
    FirstRequestCreatesKeyFile(env, path, k1);
    AloneRunsSolo(env, s, 0, Works(k1), 9);
    var first := Run(env, s, Alone(0, Works(k1), 9));
    var sh := first.sh.(files := first.sh.files - {path});
    assert sh == Shared(Some(env.encodeMarker(CONSTANT)), None, map[]);
    AloneRunsSolo(env, System(sh, first.requests), 1, Works(k2), 5);
    NextRequestRecreatesKeyFile(env, path, k2);
  }
}
