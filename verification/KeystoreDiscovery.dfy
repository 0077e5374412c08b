/**
 * Which source an unpinned request establishes (Keystore::resolveMasterKey without a marker).
 *
 * Main results: a request that goes on alone while its operations work pins exactly the source
 * that Discovery names and obtains its key (RequestDiscovers), every later request obtains that
 * key too (DiscoveredKeyLasts), and what probe finds beforehand is that key in exactly the cases
 * ProbeForetellsDiscovery lists.
 */
module KeystoreDiscovery {
  import opened Wrappers
  import opened KeystoreProtocol
  import opened Keystore

  /**
   * What a request meets: the key files it may read and the paths it looks for them at (io), the
   * candidate paths for a new file, the paths whose directory can be written, and the random
   * bytes it draws.
   */
  datatype World = World(io: Reads, candidates: seq<string>, usable: set<string>, key: Key)

  /** Unreadable files are files, and a key file is never at the empty path. */
  ghost predicate IsWorld(w: World, sh: Shared) {
    w.io.unreadableFiles <= sh.files.Keys && "" !in w.io.paths && "" !in w.candidates
  }

  /** What is encoded decodes to the same, and is not empty. */
  ghost predicate EncodingsWork(env: Env) {
    && (forall m :: env.encodeMarker(m) != "" && env.decodeMarker(env.encodeMarker(m)) == Some(m))
    && (forall k :: env.encodeKey(k) != "" && env.decodeKey(env.encodeKey(k)) == Some(k))
  }

  // ---- the order of the sources ---------------------------------------------------------------------

  /** The file is there, can be read and holds a whole key. */
  predicate HoldsKey(sh: Shared, w: World, path: string) {
    path in sh.files && path !in w.io.unreadableFiles && |sh.files[path]| == KEY_BYTES
  }

  predicate CanCreate(sh: Shared, w: World, path: string) {
    path in w.usable && path !in sh.files
  }

  /** A candidate in a usable directory with no file yet or with a whole key in it. */
  predicate IsUsable(sh: Shared, w: World, path: string) {
    CanCreate(sh, w, path) || (path in w.usable && HoldsKey(sh, w, path))
  }

  /** The first listed path that holds a key, or the number of paths. */
  function FirstHolding(sh: Shared, w: World, paths: seq<string>): (i: nat)
    ensures i <= |paths| && (i < |paths| ==> HoldsKey(sh, w, paths[i]))
    ensures forall j :: 0 <= j < i ==> !HoldsKey(sh, w, paths[j])
  {
    if paths == [] || HoldsKey(sh, w, paths[0]) then 0 else 1 + FirstHolding(sh, w, paths[1..])
  }

  /** The first usable candidate, or the number of candidates. */
  function FirstUsable(sh: Shared, w: World, paths: seq<string>): (i: nat)
    ensures i <= |paths|
    ensures i < |paths| ==> IsUsable(sh, w, paths[i])
    ensures forall j :: 0 <= j < i ==> !IsUsable(sh, w, paths[j])
  {
    if paths == [] || IsUsable(sh, w, paths[0]) then 0 else 1 + FirstUsable(sh, w, paths[1..])
  }

  /** The source that is pinned, its key, and the storage before it is pinned. */
  datatype Discovered = Established(marker: Marker, key: Key, sh: Shared) | NotEstablished

  /** The constant's file, found or created; else the first key file there is; the salts; a file among the candidates; the database key. */
  function Discovery(env: Env, sh: Shared, w: World): Discovered {
    var constant := if env.keyFileConstant.Some? then env.keyFileConstant.value else "";
    if env.keyFileConstant.Some? && HoldsKey(sh, w, constant) then Established(CONSTANT, sh.files[constant], sh)
    else if env.keyFileConstant.Some? && CanCreate(sh, w, constant) then Established(CONSTANT, w.key, WithFile(sh, constant, w.key))
    else FileSource(env, sh, w, w.io.paths)
  }

  function FileSource(env: Env, sh: Shared, w: World, paths: seq<string>): Discovered {
    var i := FirstHolding(sh, w, paths);
    if i < |paths| then Established(FileMarker(paths[i]), sh.files[paths[i]], sh) else SaltSource(env, sh, w)
  }

  function SaltSource(env: Env, sh: Shared, w: World): Discovered {
    if env.saltKey.Some? then Established(SALTS, env.saltKey.value, sh) else CandidateSource(env, sh, w, w.candidates)
  }

  function CandidateSource(env: Env, sh: Shared, w: World, paths: seq<string>): Discovered {
    var j := FirstUsable(sh, w, paths);
    if j < |paths| then FileAmong(sh, w, paths[j]) else DbSource(env, sh, w)
  }

  function FileAmong(sh: Shared, w: World, path: string): Discovered {
    if HoldsKey(sh, w, path) then Established(FileMarker(path), sh.files[path], sh)
    else Established(FileMarker(path), w.key, WithFile(sh, path, w.key))
  }

  function DbSource(env: Env, sh: Shared, w: World): Discovered {
    if env.dbKeyDisabled then NotEstablished
    else if sh.dbKey.None? then Established(DB, w.key, WithDbKey(env, sh, w.key))
    else if env.decodeKey(sh.dbKey.value).Some? then Established(DB, env.decodeKey(sh.dbKey.value).value, sh)
    else NotEstablished
  }

  function WithFile(sh: Shared, path: string, key: Key): Shared {
    sh.(files := sh.files[path := key])
  }

  function WithDbKey(env: Env, sh: Shared, key: Key): Shared {
    sh.(dbKey := Some(env.encodeKey(key)))
  }

  function Pinned(env: Env, sh: Shared, m: Marker): Shared {
    sh.(marker := Some(env.encodeMarker(m)))
  }

  // ---- a request alone --------------------------------------------------------------------------------

  /** The operation meets a file that can be read. */
  predicate CanRead(env: Env, w: World, pc: Pc) {
    match pc
    case TryConstant => env.keyFileConstant.Some? ==> env.keyFileConstant.value !in w.io.unreadableFiles
    case Scan(paths) => paths != [] ==> paths[0] !in w.io.unreadableFiles
    case Adopt(path, _) => path !in w.io.unreadableFiles
    case Use(m) =>
      && (m.source == "constant" && env.keyFileConstant.Some? ==> env.keyFileConstant.value !in w.io.unreadableFiles)
      && (m.source == "file" && m.path.Some? ==> m.path.value !in w.io.unreadableFiles)
    case _ => true
  }

  predicate DirIsUsable(w: World, pc: Pc) {
    match pc
    case NextCandidate(paths) => paths != [] ==> paths[0] in w.usable
    case OpenExclusive(path, _) => path in w.usable
    case _ => true
  }

  /** What the next operation of the request answers: everything works that the files and directories allow. */
  function Working(env: Env, w: World, pc: Pc): Choice {
    Choice(CanRead(env, w, pc), DirIsUsable(w, pc), if pc.ListExisting? then w.io.paths else w.candidates, w.key, KEY_BYTES)
  }

  function After(env: Env, w: World, sh: Shared, pc: Pc, n: nat): (Shared, Pc)
    decreases n
  {
    if n == 0 then (sh, pc)
    else
      var (sh', pc') := Step(env, sh, pc, Working(env, w, pc));
      After(env, w, sh', pc', n - 1)
  }

  /** Going on alone the request gets from here to there. */
  ghost predicate Reaches(env: Env, w: World, sh: Shared, pc: Pc, sh': Shared, pc': Pc) {
    exists n: nat :: After(env, w, sh, pc, n) == (sh', pc')
  }

  lemma {:induction false} AfterAdds(env: Env, w: World, sh: Shared, pc: Pc, m: nat, n: nat)
    ensures var (sh', pc') := After(env, w, sh, pc, m);
            After(env, w, sh, pc, m + n) == After(env, w, sh', pc', n)
    decreases m
  {
    if m > 0 {
      var (sh', pc') := Step(env, sh, pc, Working(env, w, pc));
      AfterAdds(env, w, sh', pc', m - 1, n);
    }
  }

  lemma Then(env: Env, w: World, sh1: Shared, pc1: Pc, sh2: Shared, pc2: Pc, sh3: Shared, pc3: Pc)
    requires Reaches(env, w, sh1, pc1, sh2, pc2) && Reaches(env, w, sh2, pc2, sh3, pc3)
    ensures Reaches(env, w, sh1, pc1, sh3, pc3)
  {
    var m: nat :| After(env, w, sh1, pc1, m) == (sh2, pc2);
    var n: nat :| After(env, w, sh2, pc2, n) == (sh3, pc3);
    AfterAdds(env, w, sh1, pc1, m, n);
    assert After(env, w, sh1, pc1, m + n) == (sh3, pc3);
  }

  lemma One(env: Env, w: World, sh: Shared, pc: Pc, sh': Shared, pc': Pc)
    requires Step(env, sh, pc, Working(env, w, pc)) == (sh', pc')
    ensures Reaches(env, w, sh, pc, sh', pc')
  {
    assert After(env, w, sh', pc', 0) == (sh', pc');
    assert After(env, w, sh, pc, 1) == (sh', pc');
  }

  lemma Here(env: Env, w: World, sh: Shared, pc: Pc)
    ensures Reaches(env, w, sh, pc, sh, pc)
  {
    assert After(env, w, sh, pc, 0) == (sh, pc);
  }

  /** One step and then the rest. */
  lemma First(env: Env, w: World, sh1: Shared, pc1: Pc, sh2: Shared, pc2: Pc, sh3: Shared, pc3: Pc)
    requires Step(env, sh1, pc1, Working(env, w, pc1)) == (sh2, pc2) && Reaches(env, w, sh2, pc2, sh3, pc3)
    ensures Reaches(env, w, sh1, pc1, sh3, pc3)
  {
    One(env, w, sh1, pc1, sh2, pc2);
    Then(env, w, sh1, pc1, sh2, pc2, sh3, pc3);
  }

  // ---- pinning ----------------------------------------------------------------------------------------

  /** Over a row that decodes to nothing, absent, empty or malformed, the source is pinned. */
  lemma Pins(env: Env, w: World, sh: Shared, m: Marker)
    requires EncodingsWork(env) && StoredMarker(env, sh).None?
    ensures Reaches(env, w, sh, PinInsert(m), Pinned(env, sh, m), Use(m))
  {
    var done := Pinned(env, sh, m);
    assert StoredMarker(env, done) == Some(m);
    if sh.marker.None? {
      One(env, w, done, PinReadBack(m), done, Use(m));
      First(env, w, done, PinFill(m), done, PinReadBack(m), done, Use(m));
      First(env, w, sh, PinInsert(m), done, PinFill(m), done, Use(m));
    } else if sh.marker.value == "" {
      One(env, w, done, PinReadBack(m), done, Use(m));
      First(env, w, sh, PinFill(m), done, PinReadBack(m), done, Use(m));
      First(env, w, sh, PinInsert(m), sh, PinFill(m), done, Use(m));
    } else {
      var malformed := sh.marker.value;
      One(env, w, done, PinReadAgain, done, Use(m));
      First(env, w, sh, PinSwap(m, malformed), done, PinReadAgain, done, Use(m));
      First(env, w, sh, PinReadBack(m), sh, PinSwap(m, malformed), done, Use(m));
      First(env, w, sh, PinFill(m), sh, PinReadBack(m), done, Use(m));
      First(env, w, sh, PinInsert(m), sh, PinFill(m), done, Use(m));
    }
  }

  /** The marker gives this key in one operation. */
  predicate Gives(env: Env, sh: Shared, w: World, m: Marker, key: Key) {
    || (m == CONSTANT && env.keyFileConstant.Some? && HoldsKey(sh, w, env.keyFileConstant.value) && sh.files[env.keyFileConstant.value] == key)
    || (m == SALTS && env.saltKey == Some(key))
    || (m.path.Some? && m.path.value != "" && m == FileMarker(m.path.value) && HoldsKey(sh, w, m.path.value) && sh.files[m.path.value] == key)
    || (m == DB && StoredDbKey(env, sh) == Some(key))
  }

  lemma PinsAndUses(env: Env, w: World, sh: Shared, m: Marker, key: Key)
    requires EncodingsWork(env) && StoredMarker(env, sh).None? && Gives(env, sh, w, m, key)
    ensures Reaches(env, w, sh, PinInsert(m), Pinned(env, sh, m), Done(key))
  {
    var done := Pinned(env, sh, m);
    Pins(env, w, sh, m);
    One(env, w, done, Use(m), done, Done(key));
    Then(env, w, sh, PinInsert(m), done, Use(m), done, Done(key));
  }

  // ---- creating a file --------------------------------------------------------------------------------

  lemma Creates(env: Env, w: World, sh: Shared, path: string, caller: Caller)
    requires CanCreate(sh, w, path)
    ensures Reaches(env, w, sh, OpenExclusive(path, caller), WithFile(sh, path, w.key), Return(caller, path, Some(w.key)))
  {
    var empty, full := sh.(files := sh.files[path := []]), WithFile(sh, path, w.key);
    var end := Return(caller, path, Some(w.key));
    assert w.key[..KEY_BYTES] == w.key;
    assert empty.files[path := w.key] == full.files;
    One(env, w, full, Writing(path, w.key, KEY_BYTES, caller), full, end);
    First(env, w, empty, Writing(path, w.key, 0, caller), full, Writing(path, w.key, KEY_BYTES, caller), full, end);
    First(env, w, sh, OpenExclusive(path, caller), empty, Writing(path, w.key, 0, caller), full, end);
  }

  /** A file that is there is adopted when it holds a key. */
  lemma Adopts(env: Env, w: World, sh: Shared, path: string, caller: Caller)
    requires !CanCreate(sh, w, path)
    ensures Reaches(env, w, sh, OpenExclusive(path, caller), sh,
                    Return(caller, path, if path in w.usable && HoldsKey(sh, w, path) then Some(sh.files[path]) else None))
  {
    var end := Return(caller, path, if path in w.usable && HoldsKey(sh, w, path) then Some(sh.files[path]) else None);
    if path in w.usable {
      One(env, w, sh, Adopt(path, caller), sh, end);
      First(env, w, sh, OpenExclusive(path, caller), sh, Adopt(path, caller), sh, end);
    } else {
      One(env, w, sh, OpenExclusive(path, caller), sh, end);
    }
  }

  // ---- the tiers, last first ----------------------------------------------------------------------------

  /** Where the request ends for what it discovers. */
  ghost predicate EndsAs(env: Env, w: World, sh: Shared, pc: Pc, d: Discovered) {
    match d
    case Established(m, key, sh') => Reaches(env, w, sh, pc, Pinned(env, sh', m), Done(key))
    case NotEstablished => Reaches(env, w, sh, pc, sh, Failed)
  }

  lemma FirstEnds(env: Env, w: World, sh: Shared, pc: Pc, pc': Pc, d: Discovered)
    requires Reaches(env, w, sh, pc, sh, pc') && EndsAs(env, w, sh, pc', d)
    ensures EndsAs(env, w, sh, pc, d)
  {
    match d
    case Established(m, key, sh') => Then(env, w, sh, pc, sh, pc', Pinned(env, sh', m), Done(key));
    case NotEstablished => Then(env, w, sh, pc, sh, pc', sh, Failed);
  }


  /** A key that finds the row absent or empty is stored, and the row pinned. */
  lemma StoresDbKey(env: Env, w: World, sh: Shared, key: Key)
    requires EncodingsWork(env) && StoredMarker(env, sh).None? && (sh.dbKey.None? || sh.dbKey.value == "")
    ensures Reaches(env, w, sh, DbInsert(key), Pinned(env, WithDbKey(env, sh, key), DB), Done(key))
  {
    var stored := WithDbKey(env, sh, key);
    var end := Pinned(env, stored, DB);
    assert StoredMarker(env, stored) == StoredMarker(env, sh);
    assert StoredDbKey(env, stored) == Some(key);
    PinsAndUses(env, w, stored, DB, key);
    First(env, w, stored, DbReadBack, stored, PinInsert(DB), end, Done(key));
    if sh.dbKey.None? {
      First(env, w, stored, DbFill(key), stored, DbReadBack, end, Done(key));
      First(env, w, sh, DbInsert(key), stored, DbFill(key), end, Done(key));
    } else {
      First(env, w, sh, DbFill(key), stored, DbReadBack, end, Done(key));
      First(env, w, sh, DbInsert(key), sh, DbFill(key), end, Done(key));
    }
  }

  lemma DbTier(env: Env, w: World, sh: Shared)
    requires EncodingsWork(env) && StoredMarker(env, sh).None?
    ensures EndsAs(env, w, sh, TryDb, DbSource(env, sh, w))
  {
    if !env.dbKeyDisabled && sh.dbKey.None? {
      var end := Pinned(env, WithDbKey(env, sh, w.key), DB);
      StoresDbKey(env, w, sh, w.key);
      First(env, w, sh, TryDb, sh, DbInsert(w.key), end, Done(w.key));
    } else if !env.dbKeyDisabled && StoredDbKey(env, sh).Some? {
      var key := StoredDbKey(env, sh).value;
      PinsAndUses(env, w, sh, DB, key);
      First(env, w, sh, TryDb, sh, PinInsert(DB), Pinned(env, sh, DB), Done(key));
    } else {
      One(env, w, sh, TryDb, sh, Failed);
    }
  }


  lemma NewFile(env: Env, w: World, sh: Shared, path: string, caller: Caller, m: Marker)
    requires EncodingsWork(env) && StoredMarker(env, sh).None? && IsWorld(w, sh) && CanCreate(sh, w, path)
    requires Return(caller, path, Some(w.key)) == PinInsert(m)
    requires if m == CONSTANT then env.keyFileConstant == Some(path) else m == FileMarker(path) && path != ""
    ensures Reaches(env, w, sh, OpenExclusive(path, caller), Pinned(env, WithFile(sh, path, w.key), m), Done(w.key))
  {
    var full := WithFile(sh, path, w.key);
    assert StoredMarker(env, full) == StoredMarker(env, sh);
    Creates(env, w, sh, path, caller);
    PinsAndUses(env, w, full, m, w.key);
    Then(env, w, sh, OpenExclusive(path, caller), full, PinInsert(m), Pinned(env, full, m), Done(w.key));
  }

  lemma OneCandidate(env: Env, w: World, sh: Shared, path: string, rest: seq<string>)
    requires EncodingsWork(env) && StoredMarker(env, sh).None? && IsWorld(w, sh) && path != ""
    requires IsUsable(sh, w, path)
    ensures EndsAs(env, w, sh, OpenExclusive(path, Caller.FromCandidates(rest)), FileAmong(sh, w, path))
  {
    var caller, m := Caller.FromCandidates(rest), FileMarker(path);
    if CanCreate(sh, w, path) {
      NewFile(env, w, sh, path, caller, m);
    } else {
      var key: Key := sh.files[path];
      Adopts(env, w, sh, path, caller);
      PinsAndUses(env, w, sh, m, key);
      Then(env, w, sh, OpenExclusive(path, caller), sh, PinInsert(m), Pinned(env, sh, m), Done(key));
    }
  }

  lemma SkipsCandidate(env: Env, w: World, sh: Shared, paths: seq<string>)
    requires paths != [] && !IsUsable(sh, w, paths[0])
    ensures Reaches(env, w, sh, NextCandidate(paths), sh, NextCandidate(paths[1..]))
  {
    var caller := Caller.FromCandidates(paths[1..]);
    if paths[0] in w.usable {
      Adopts(env, w, sh, paths[0], caller);
      First(env, w, sh, NextCandidate(paths), sh, OpenExclusive(paths[0], caller), sh, NextCandidate(paths[1..]));
    } else {
      One(env, w, sh, NextCandidate(paths), sh, NextCandidate(paths[1..]));
    }
  }

  lemma {:induction false} CandidateTier(env: Env, w: World, sh: Shared, paths: seq<string>)
    requires EncodingsWork(env) && StoredMarker(env, sh).None? && IsWorld(w, sh) && "" !in paths
    ensures EndsAs(env, w, sh, NextCandidate(paths), CandidateSource(env, sh, w, paths))
    decreases |paths|
  {
    if paths == [] {
      DbTier(env, w, sh);
      One(env, w, sh, NextCandidate([]), sh, TryDb);
      FirstEnds(env, w, sh, NextCandidate(paths), TryDb, DbSource(env, sh, w));
    } else if FirstUsable(sh, w, paths) == 0 {
      var creating := OpenExclusive(paths[0], Caller.FromCandidates(paths[1..]));
      OneCandidate(env, w, sh, paths[0], paths[1..]);
      One(env, w, sh, NextCandidate(paths), sh, creating);
      FirstEnds(env, w, sh, NextCandidate(paths), creating, FileAmong(sh, w, paths[0]));
    } else {
      SkipsCandidate(env, w, sh, paths);
      CandidateTier(env, w, sh, paths[1..]);
      FirstEnds(env, w, sh, NextCandidate(paths), NextCandidate(paths[1..]), CandidateSource(env, sh, w, paths[1..]));
    }
  }


  lemma SaltTier(env: Env, w: World, sh: Shared)
    requires EncodingsWork(env) && StoredMarker(env, sh).None? && IsWorld(w, sh)
    ensures EndsAs(env, w, sh, TrySalts, SaltSource(env, sh, w))
  {
    if env.saltKey.Some? {
      PinsAndUses(env, w, sh, SALTS, env.saltKey.value);
      First(env, w, sh, TrySalts, sh, PinInsert(SALTS), Pinned(env, sh, SALTS), Done(env.saltKey.value));
    } else {
      CandidateTier(env, w, sh, w.candidates);
      One(env, w, sh, TrySalts, sh, NextCandidate(w.candidates));
      FirstEnds(env, w, sh, TrySalts, NextCandidate(w.candidates), SaltSource(env, sh, w));
    }
  }


  lemma {:induction false} FileTier(env: Env, w: World, sh: Shared, paths: seq<string>)
    requires EncodingsWork(env) && StoredMarker(env, sh).None? && IsWorld(w, sh) && "" !in paths
    ensures EndsAs(env, w, sh, Scan(paths), FileSource(env, sh, w, paths))
    decreases |paths|
  {
    if paths == [] {
      SaltTier(env, w, sh);
      One(env, w, sh, Scan([]), sh, TrySalts);
      FirstEnds(env, w, sh, Scan(paths), TrySalts, SaltSource(env, sh, w));
    } else if HoldsKey(sh, w, paths[0]) {
      var m, key: Key := FileMarker(paths[0]), sh.files[paths[0]];
      PinsAndUses(env, w, sh, m, key);
      First(env, w, sh, Scan(paths), sh, PinInsert(m), Pinned(env, sh, m), Done(key));
    } else {
      FileTier(env, w, sh, paths[1..]);
      One(env, w, sh, Scan(paths), sh, Scan(paths[1..]));
      FirstEnds(env, w, sh, Scan(paths), Scan(paths[1..]), FileSource(env, sh, w, paths[1..]));
    }
  }

  lemma ListTier(env: Env, w: World, sh: Shared)
    requires EncodingsWork(env) && StoredMarker(env, sh).None? && IsWorld(w, sh)
    ensures EndsAs(env, w, sh, ListExisting, FileSource(env, sh, w, w.io.paths))
  {
    FileTier(env, w, sh, w.io.paths);
    One(env, w, sh, ListExisting, sh, Scan(w.io.paths));
    FirstEnds(env, w, sh, ListExisting, Scan(w.io.paths), FileSource(env, sh, w, w.io.paths));
  }

  lemma ConstantTier(env: Env, w: World, sh: Shared)
    requires EncodingsWork(env) && StoredMarker(env, sh).None? && IsWorld(w, sh)
    ensures EndsAs(env, w, sh, TryConstant, Discovery(env, sh, w))
  {
    ListTier(env, w, sh);
    if env.keyFileConstant.None? {
      One(env, w, sh, TryConstant, sh, ListExisting);
      FirstEnds(env, w, sh, TryConstant, ListExisting, Discovery(env, sh, w));
    } else {
      var path := env.keyFileConstant.value;
      var creating := OpenExclusive(path, FromConstant);
      if HoldsKey(sh, w, path) {
        var key: Key := sh.files[path];
        PinsAndUses(env, w, sh, CONSTANT, key);
        First(env, w, sh, TryConstant, sh, PinInsert(CONSTANT), Pinned(env, sh, CONSTANT), Done(key));
      } else {
        One(env, w, sh, TryConstant, sh, creating);
        if CanCreate(sh, w, path) {
          NewFile(env, w, sh, path, FromConstant, CONSTANT);
          FirstEnds(env, w, sh, TryConstant, creating, Discovery(env, sh, w));
        } else {
          Adopts(env, w, sh, path, FromConstant);
          FirstEnds(env, w, sh, creating, ListExisting, Discovery(env, sh, w));
          FirstEnds(env, w, sh, TryConstant, creating, Discovery(env, sh, w));
        }
      }
    }
  }

  /** A request alone, from a row that decodes to nothing, ends with the source that Discovery names, pinned, and its key. */
  lemma SoloDiscovers(env: Env, w: World, sh: Shared)
    requires EncodingsWork(env) && StoredMarker(env, sh).None? && IsWorld(w, sh)
    ensures EndsAs(env, w, sh, Start, Discovery(env, sh, w))
  {
    ConstantTier(env, w, sh);
    One(env, w, sh, Start, sh, TryConstant);
    FirstEnds(env, w, sh, Start, TryConstant, Discovery(env, sh, w));
  }

  /** Request r goes on alone for n steps. */
  function AloneTurns(env: Env, w: World, s: System, r: nat, n: nat): seq<Turn>
    decreases n
  {
    if n == 0 then []
    else
      var t := Turn(r, Working(env, w, PcOf(s, r)));
      [t] + AloneTurns(env, w, TakeTurn(env, s, t), r, n - 1)
  }

  lemma {:induction false} AloneTurnsRun(env: Env, w: World, s: System, r: nat, n: nat)
    ensures var end := Run(env, s, AloneTurns(env, w, s, r, n));
            (end.sh, PcOf(end, r)) == After(env, w, s.sh, PcOf(s, r), n)
    decreases n
  {
    if n > 0 {
      var t := Turn(r, Working(env, w, PcOf(s, r)));
      AloneTurnsRun(env, w, TakeTurn(env, s, t), r, n - 1);
      var turns := AloneTurns(env, w, s, r, n);
      assert turns[0] == t && turns[1..] == AloneTurns(env, w, TakeTurn(env, s, t), r, n - 1);
    }
  }

  /** After n steps alone, request r has pinned the source that Discovery names and holds its key; or it has failed. */
  ghost predicate HasDiscovered(env: Env, w: World, s: System, r: nat, n: nat) {
    var end := Run(env, s, AloneTurns(env, w, s, r, n));
    match Discovery(env, s.sh, w)
    case Established(m, key, sh) => end.sh == Pinned(env, sh, m) && PcOf(end, r) == Done(key)
    case NotEstablished => end.sh == s.sh && PcOf(end, r) == Failed
  }

  /** Whatever other requests were doing before: a request that starts on a row decoding to nothing and goes on alone discovers. */
  lemma RequestDiscovers(env: Env, w: World, s: System, r: nat) returns (n: nat)
    requires EncodingsWork(env) && IsWorld(w, s.sh) && StoredMarker(env, s.sh).None? && PcOf(s, r) == Start
    ensures HasDiscovered(env, w, s, r, n)
  {
    SoloDiscovers(env, w, s.sh);
    var d := Discovery(env, s.sh, w);
    var sh, pc := if d.Established? then Pinned(env, d.sh, d.marker) else s.sh, if d.Established? then Done(d.key) else Failed;
    assert Reaches(env, w, s.sh, Start, sh, pc);
    n :| After(env, w, s.sh, Start, n) == (sh, pc);
    AloneTurnsRun(env, w, s, r, n);
  }

  /** From then on the marker stays, and every request that obtains a key obtains the discovered one. */
  lemma DiscoveredKeyLasts(env: Env, w: World, s: System, r: nat, n: nat, later: seq<Turn>, q: nat)
    requires EncodingsWork(env) && EmptyRowsHoldNothing(env) && Invariant(env, s)
    requires HasDiscovered(env, w, s, r, n) && Discovery(env, s.sh, w).Established?
    ensures var d, end := Discovery(env, s.sh, w), Run(env, Run(env, s, AloneTurns(env, w, s, r, n)), later);
            StoredMarker(env, end.sh) == Some(d.marker) && (PcOf(end, q).Done? ==> PcOf(end, q) == Done(d.key))
  {
    var mid := Run(env, s, AloneTurns(env, w, s, r, n));
    RunKeepsInvariant(env, s, AloneTurns(env, w, s, r, n));
    DoneLasts(env, mid, Discovery(env, s.sh, w).marker, Discovery(env, s.sh, w).key, r, later, q);
  }

  lemma DoneLasts(env: Env, mid: System, m: Marker, key: Key, r: nat, later: seq<Turn>, q: nat)
    requires EmptyRowsHoldNothing(env) && Invariant(env, mid) && StoredMarker(env, mid.sh) == Some(m) && PcOf(mid, r) == Done(key)
    ensures StoredMarker(env, Run(env, mid, later).sh) == Some(m)
    ensures PcOf(Run(env, mid, later), q).Done? ==> PcOf(Run(env, mid, later), q) == Done(key)
  {
    MarkerIsStable(env, mid, later, m);
    if PcOf(Run(env, mid, later), q).Done? {
      KeyLasts(env, mid, later, r, q);
    }
  }

  // ---- a pinned source --------------------------------------------------------------------------------------

  /** A pinned source gives the key probe finds there or nothing; only the constant's missing file is created. */
  lemma PinnedSourceIsHonoured(env: Env, w: World, sh: Shared, m: Marker)
    requires IsWorld(w, sh) && w.io.dbReadable && StoredMarker(env, sh) == Some(m)
    ensures var found := ExistingForPinned(env, sh, m, w.io);
            if found.Found? then Reaches(env, w, sh, Start, sh, Done(found.key))
            else if m.source == "constant" && CreatesConstant(env, sh, w) then
              Reaches(env, w, sh, Start, WithFile(sh, env.keyFileConstant.value, w.key), Done(w.key))
            else Reaches(env, w, sh, Start, sh, Failed)
  {
    var found := ExistingForPinned(env, sh, m, w.io);
    if m.source == "constant" && env.keyFileConstant.Some? && !found.Found? {
      PinnedConstantFile(env, w, sh, m, env.keyFileConstant.value);
    } else {
      var end := if found.Found? then Done(found.key) else Failed;
      One(env, w, sh, Use(m), sh, end);
      First(env, w, sh, Start, sh, Use(m), sh, end);
    }
  }

  lemma PinnedConstantFile(env: Env, w: World, sh: Shared, m: Marker, path: string)
    requires IsWorld(w, sh) && StoredMarker(env, sh) == Some(m) && m.source == "constant"
    requires env.keyFileConstant == Some(path) && !HoldsKey(sh, w, path)
    ensures if CanCreate(sh, w, path) then Reaches(env, w, sh, Start, WithFile(sh, path, w.key), Done(w.key))
            else Reaches(env, w, sh, Start, sh, Failed)
  {
    var creating := OpenExclusive(path, FromPinned(m));
    One(env, w, sh, Use(m), sh, creating);
    First(env, w, sh, Start, sh, Use(m), sh, creating);
    if CanCreate(sh, w, path) {
      Creates(env, w, sh, path, FromPinned(m));
      Then(env, w, sh, Start, sh, creating, WithFile(sh, path, w.key), Done(w.key));
    } else {
      Adopts(env, w, sh, path, FromPinned(m));
      Then(env, w, sh, Start, sh, creating, sh, Failed);
    }
  }

  /** A write that falls short leaves no file: the storage is as before it, and the caller gets no key. */
  lemma ShortWriteLeavesNoFile(env: Env, sh: Shared, path: string, caller: Caller, key: Key, count: nat)
    requires path !in sh.files && count < KEY_BYTES
    ensures var (sh1, pc1) := Step(env, sh, OpenExclusive(path, caller), Choice(true, true, [], key, 0));
            var (sh2, pc2) := Step(env, sh1, pc1, Choice(true, true, [], key, count));
            var (sh3, pc3) := if count == 0 then (sh2, pc2) else Step(env, sh2, pc2, Choice(false, true, [], key, 0));
            Step(env, sh3, pc3, Choice(true, true, [], key, 0)) == (sh, Return(caller, path, None))
  {
    assert sh.files[path := []] - {path} == sh.files;
    assert sh.files[path := []][path := key[..count]] - {path} == sh.files;
  }

  /** A failed operation changes nothing, leads to no marker and, but for salts and a key already written, to no key and no pinning. */
  lemma FailedOperationGivesNothing(env: Env, sh: Shared, pc: Pc, c: Choice)
    requires !c.ok && !pc.Done?
    ensures var (sh', pc') := Step(env, sh, pc, c);
            var written := pc.Writing? && pc.written == KEY_BYTES;
            && sh' == sh && !pc'.Use?
            && (pc'.Done? ==> written || (pc.Use? && pc.m.source == "salts"))
            && (pc'.PinInsert? ==> written || pc.TrySalts?)
            && (pc.Start? || pc.PinReadBack? || pc.PinReadAgain? || pc.TryDb? || pc.DbReadBack? ==> pc' == Failed)
  {
  }

  // ---- after the marker is lost ---------------------------------------------------------------------------

  lemma {:induction false} SameHolding(sh: Shared, w: World, sh': Shared, w': World, paths: seq<string>)
    requires forall p :: p in paths ==> (HoldsKey(sh, w, p) <==> HoldsKey(sh', w', p))
    ensures FirstHolding(sh, w, paths) == FirstHolding(sh', w', paths)
  {
    if paths != [] {
      SameHolding(sh, w, sh', w', paths[1..]);
    }
  }

  lemma {:induction false} SameUsable(sh: Shared, w: World, sh': Shared, w': World, paths: seq<string>)
    requires forall p :: p in paths ==> (IsUsable(sh, w, p) <==> IsUsable(sh', w', p))
    ensures FirstUsable(sh, w, paths) == FirstUsable(sh', w', paths)
  {
    if paths != [] {
      assert IsUsable(sh, w, paths[0]) <==> IsUsable(sh', w', paths[0]);
      SameUsable(sh, w, sh', w', paths[1..]);
    }
  }

  /** The storage after discovery: at most one file more, which holds the key. */
  predicate Grew(sh: Shared, sh': Shared, w: World, path: string, key: Key) {
    sh'.files == sh.files || (CanCreate(sh, w, path) && sh'.files == sh.files[path := key])
  }

  lemma HoldsAgain(sh: Shared, sh': Shared, w: World, w': World, path: string, key: Key)
    requires IsWorld(w, sh) && Grew(sh, sh', w, path, key) && w'.io == w.io
    ensures forall p :: HoldsKey(sh', w', p) <==> HoldsKey(sh, w, p) || (p == path && sh'.files != sh.files)
    ensures FirstHolding(sh, w, w.io.paths) < |w.io.paths| && sh'.files == sh.files ==>
              FirstHolding(sh', w', w.io.paths) == FirstHolding(sh, w, w.io.paths)
    ensures FirstHolding(sh, w, w.io.paths) == |w.io.paths| && (sh'.files == sh.files || path !in w.io.paths) ==>
              FirstHolding(sh', w', w.io.paths) == |w.io.paths|
    ensures FirstHolding(sh, w, w.io.paths) == |w.io.paths| && sh'.files != sh.files && path in w.io.paths ==>
              FirstHolding(sh', w', w.io.paths) < |w.io.paths| && w.io.paths[FirstHolding(sh', w', w.io.paths)] == path
  {
    if sh'.files == sh.files || path !in w.io.paths {
      SameHolding(sh, w, sh', w', w.io.paths);
    }
  }

  lemma UsableAgain(sh: Shared, sh': Shared, w: World, w': World, path: string, key: Key)
    requires IsWorld(w, sh) && Grew(sh, sh', w, path, key) && w'.io == w.io && w'.usable == w.usable
    ensures FirstUsable(sh', w', w.candidates) == FirstUsable(sh, w, w.candidates)
  {
    SameUsable(sh, w, sh', w', w.candidates);
  }

  /** The sources after the constant. */
  lemma RediscoversFiles(env: Env, w: World, sh: Shared, env': Env, w': World, sh': Shared)
    requires EncodingsWork(env) && IsWorld(w, sh) && FileSource(env, sh, w, w.io.paths).Established?
    requires env' == env.(saltKey := env'.saltKey) && w' == w.(key := w'.key)
    requires sh' == FileSource(env, sh, w, w.io.paths).sh.(marker := sh'.marker)
    ensures var d, again := FileSource(env, sh, w, w.io.paths), FileSource(env', sh', w', w.io.paths);
            (again.Established? && again.marker == d.marker && again.key == d.key)
            <==> || (d.marker.path.Some? && d.marker.path.value in w.io.paths)
                 || env'.saltKey == env.saltKey || (env'.saltKey.None? && d.marker != SALTS)
  {
    var d := FileSource(env, sh, w, w.io.paths);
    var path := if d.marker.path.Some? then d.marker.path.value else "";
    HoldsAgain(sh, sh', w, w', path, d.key);
    UsableAgain(sh, sh', w, w', path, d.key);
  }

  /**
   * When the marker is lost and the salts may have changed meanwhile, a new request, whatever it
   * draws, discovers the same source and key exactly when that source does not depend on the
   * salts: the constant, a file among the listed paths, or salts that are as they were (or are
   * still missing).
   */
  lemma RediscoveryKeepsTheKey(env: Env, w: World, sh: Shared, salts: Option<Key>, marker: Option<string>, random: Key)
    requires EncodingsWork(env) && IsWorld(w, sh) && Discovery(env, sh, w).Established?
    ensures var d := Discovery(env, sh, w);
            var again := Discovery(env.(saltKey := salts), d.sh.(marker := marker), w.(key := random));
            (again.Established? && again.marker == d.marker && again.key == d.key)
            <==> || d.marker == CONSTANT || (d.marker.path.Some? && d.marker.path.value in w.io.paths)
                 || salts == env.saltKey || (salts.None? && d.marker != SALTS)
  {
    var d := Discovery(env, sh, w);
    var env', sh', w' := env.(saltKey := salts), d.sh.(marker := marker), w.(key := random);
    if d.marker != CONSTANT {
      RediscoversFiles(env, w, sh, env', w', sh');
    }
  }

  // ---- what probe sees ------------------------------------------------------------------------------------

  lemma {:induction false} FirstKeyFileIsFirstHolding(sh: Shared, w: World, paths: seq<string>)
    ensures FirstKeyFile(sh, paths, w.io)
         == if FirstHolding(sh, w, paths) < |paths| then Some(sh.files[paths[FirstHolding(sh, w, paths)]]) else None
  {
    if paths != [] && !HoldsKey(sh, w, paths[0]) {
      FirstKeyFileIsFirstHolding(sh, w, paths[1..]);
    }
  }

  /** Discovery creates the file of the constant. */
  predicate CreatesConstant(env: Env, sh: Shared, w: World) {
    env.keyFileConstant.Some? && CanCreate(sh, w, env.keyFileConstant.value)
  }

  /** A source that discovery takes before it looks at the candidates. */
  predicate HasEarlySource(env: Env, sh: Shared, w: World) {
    || (env.keyFileConstant.Some? && HoldsKey(sh, w, env.keyFileConstant.value))
    || FirstHolding(sh, w, w.io.paths) < |w.io.paths|
    || env.saltKey.Some?
  }

  /** Without the database the read fails exactly where nothing but the database is left to look at. */
  lemma UnreadableDatabase(env: Env, sh: Shared, m: Marker, w: World)
    requires !w.io.dbReadable
    ensures ExistingMasterKey(env, sh, None, w.io).ReadFailed? <==> !HasEarlySource(env, sh, w)
    ensures ExistingMasterKey(env, sh, Some(m), w.io).ReadFailed? <==> m.source == "db"
    ensures HasEarlySource(env, sh, w) ==> ExistingMasterKey(env, sh, None, w.io).Found?
  {
    FirstKeyFileIsFirstHolding(sh, w, w.io.paths);
  }

  /** What probe finds without a marker, and what a request would establish there: every case. */
  lemma ProbeForetellsDiscovery(env: Env, sh: Shared, w: World)
    requires w.io.dbReadable
    ensures var found, d, j := ExistingMasterKey(env, sh, None, w.io), Discovery(env, sh, w), FirstUsable(sh, w, w.candidates);
            && (found.Found? || found.NoKey?)
            && (CreatesConstant(env, sh, w) ==> d.Established? && d.marker == CONSTANT && d.key == w.key)
            && (!CreatesConstant(env, sh, w) ==>
                  if HasEarlySource(env, sh, w) then d.Established? && found == Found(d.key) && d.sh == sh
                  else if j < |w.candidates| then d.Established? && d.marker == FileMarker(w.candidates[j])
                  else if env.dbKeyDisabled then d == NotEstablished
                  else if found.Found? then d == Established(DB, found.key, sh)
                  else d.Established? <==> sh.dbKey.None?)
            && (!HasEarlySource(env, sh, w) ==> (found.Found? <==> StoredDbKey(env, sh).Some?))
  {
    FirstKeyFileIsFirstHolding(sh, w, w.io.paths);
  }
}
