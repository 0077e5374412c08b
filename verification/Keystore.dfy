/**
 * Envelopes sealed under the master key, and Keystore::probe.
 *
 * Main results: an envelope sealed by any request opens in every later one
 * (EnvelopeOpensInLaterRequests), and probe, which changes nothing, marks an item ok exactly
 * when decrypting it succeeds (Probe, ProbeSeesTheKeyRequestsUse).
 */
module Keystore {
  import opened Wrappers
  import opened KeystoreProtocol
  import Base64

  const IV_BYTES := 12
  const TAG_BYTES := 16

  /** AES-256-GCM: seal gives the ciphertext and the tag, open gives the plaintext or refuses. */
  datatype Cipher = Cipher(
    seal: (Key, seq<Byte>, seq<Byte>) -> (seq<Byte>, seq<Byte>),
    open: (Key, seq<Byte>, seq<Byte>, seq<Byte>) -> Option<seq<Byte>>)

  ghost predicate OpensWhatItSeals(c: Cipher) {
    forall k: Key, iv: seq<Byte>, plain: seq<Byte> :: |iv| == IV_BYTES ==>
      var (text, tag) := c.seal(k, iv, plain);
      |tag| == TAG_BYTES && c.open(k, iv, tag, text) == Some(plain)
  }

  datatype Parts = Parts(iv: seq<Byte>, tag: seq<Byte>, text: seq<Byte>)

  function SplitEnvelope(envelope: string): Option<Parts> {
    var raw := Base64.Decode(envelope);
    if raw.None? || |raw.value| < IV_BYTES + TAG_BYTES then None
    else Some(Parts(raw.value[..IV_BYTES], raw.value[IV_BYTES..IV_BYTES + TAG_BYTES], raw.value[IV_BYTES + TAG_BYTES..]))
  }

  function Encrypt(c: Cipher, key: Key, iv: seq<Byte>, plain: seq<Byte>): string {
    var (text, tag) := c.seal(key, iv, plain);
    Base64.Encode(iv + tag + text)
  }

  function Decrypt(c: Cipher, key: Key, envelope: string): Option<seq<Byte>> {
    var parts := SplitEnvelope(envelope);
    if parts.None? then None else c.open(key, parts.value.iv, parts.value.tag, parts.value.text)
  }

  lemma EnvelopeRoundTrip(c: Cipher, key: Key, iv: seq<Byte>, plain: seq<Byte>)
    requires OpensWhatItSeals(c) && |iv| == IV_BYTES
    ensures Decrypt(c, key, Encrypt(c, key, iv, plain)) == Some(plain)
  {
    var (text, tag) := c.seal(key, iv, plain);
    var raw := iv + tag + text;
    Base64.RoundTrip(raw);
    assert raw[..IV_BYTES] == iv && raw[IV_BYTES..IV_BYTES + TAG_BYTES] == tag && raw[IV_BYTES + TAG_BYTES..] == text;
  }

  /** Whatever interleaving established the key, an envelope one request seals opens in every later request. */
  lemma EnvelopeOpensInLaterRequests(env: Env, s: System, first: seq<Turn>, second: seq<Turn>, r: nat, q: nat,
                                     c: Cipher, iv: seq<Byte>, plain: seq<Byte>)
    requires EmptyRowsHoldNothing(env) && Fresh(s)
    requires PcOf(Run(env, s, first), r).Done? && PcOf(Run(env, s, first + second), q).Done?
    requires OpensWhatItSeals(c) && |iv| == IV_BYTES
    ensures var sealKey := PcOf(Run(env, s, first), r).key;
            var openKey := PcOf(Run(env, s, first + second), q).key;
            Decrypt(c, openKey, Encrypt(c, sealKey, iv, plain)) == Some(plain)
  {
    KeyOutlivesItsRequest(env, s, first, second, r, q);
    EnvelopeRoundTrip(c, PcOf(Run(env, s, first), r).key, iv, plain);
  }

  // ---- probe -----------------------------------------------------------------------------

  /** The reads probe makes that may fail, and the paths it finds key files at. */
  datatype Reads = Reads(markerReadable: bool, dbReadable: bool, unreadableFiles: set<string>, paths: seq<string>)

  /** What looking for the existing key ends in; ReadFailed is KeystoreReadFailed, Unavailable any other exception. */
  datatype Existing = Found(key: Key) | NoKey | Unavailable | ReadFailed

  function ReadKeyFile(sh: Shared, path: string, io: Reads): Option<Key> {
    if path in io.unreadableFiles then None else KeyInFile(sh, path)
  }

  function FirstKeyFile(sh: Shared, paths: seq<string>, io: Reads): Option<Key> {
    if paths == [] then None
    else if ReadKeyFile(sh, paths[0], io).Some? then ReadKeyFile(sh, paths[0], io)
    else FirstKeyFile(sh, paths[1..], io)
  }

  /** keyForPinnedSource when it may not create. */
  function ExistingForPinned(env: Env, sh: Shared, m: Marker, io: Reads): Existing {
    var key :=
      if m.source == "constant" then
        if env.keyFileConstant.Some? then ReadKeyFile(sh, env.keyFileConstant.value, io) else None
      else if m.source == "salts" then env.saltKey
      else if m.source == "file" then
        if m.path.Some? && m.path.value != "" then ReadKeyFile(sh, m.path.value, io) else None
      else if m.source == "db" then StoredDbKey(env, sh)
      else None;
    if m.source == "db" && !io.dbReadable then ReadFailed
    else if key.Some? then Found(key.value)
    else Unavailable
  }

  /** existingMasterKey. */
  function ExistingMasterKey(env: Env, sh: Shared, pinned: Option<Marker>, io: Reads): Existing {
    if pinned.Some? then ExistingForPinned(env, sh, pinned.value, io)
    else if env.keyFileConstant.Some? && ReadKeyFile(sh, env.keyFileConstant.value, io).Some? then
      Found(ReadKeyFile(sh, env.keyFileConstant.value, io).value)
    else if FirstKeyFile(sh, io.paths, io).Some? then Found(FirstKeyFile(sh, io.paths, io).value)
    else if env.saltKey.Some? then Found(env.saltKey.value)
    else if !io.dbReadable then ReadFailed
    else if StoredDbKey(env, sh).Some? then Found(StoredDbKey(env, sh).value)
    else NoKey
  }

  datatype ProbeState = ProbeOk | ProbeUnreadable | ProbeKeyUnavailable

  datatype ItemState = ItemAbsent | ItemOk | ItemUnreadable

  datatype ProbeResult = ProbeResult(
    state: ProbeState,
    keySource: string,
    items: map<string, ItemState>,
    unreadable: seq<string>,
    readFailed: bool)

  function SourceName(pinned: Option<Marker>): string {
    if pinned.None? then ""
    else if pinned.value.source in {"constant", "salts", "file", "db"} then pinned.value.source
    else "unknown"
  }

  predicate IsStored(options: map<string, string>, item: string) {
    item in options && options[item] != ""
  }

  function StoredItems(options: map<string, string>, items: seq<string>): seq<string> {
    if items == [] then []
    else (if IsStored(options, items[0]) then [items[0]] else []) + StoredItems(options, items[1..])
  }

  /** The stored items that do not open under the key, in order. */
  function Unopenable(c: Cipher, key: Key, options: map<string, string>, items: seq<string>): (bad: seq<string>)
    requires forall n :: n in items ==> n in options
    ensures forall n :: n in bad <==> n in items && Decrypt(c, key, options[n]).None?
  {
    if items == [] then []
    else (if Decrypt(c, key, options[items[0]]).None? then [items[0]] else []) + Unopenable(c, key, options, items[1..])
  }

  lemma {:induction false} StoredItemsAppend(options: map<string, string>, items: seq<string>, last: string)
    ensures StoredItems(options, items + [last])
         == StoredItems(options, items) + if IsStored(options, last) then [last] else []
  {
    if items == [] {
      assert [] + [last] == [last];
    } else {
      assert (items + [last])[1..] == items[1..] + [last];
      StoredItemsAppend(options, items[1..], last);
    }
  }

  lemma {:induction false} UnopenableAppend(c: Cipher, key: Key, options: map<string, string>, items: seq<string>, last: string)
    requires last in options && forall n :: n in items ==> n in options
    ensures Unopenable(c, key, options, items + [last])
         == Unopenable(c, key, options, items) + if Decrypt(c, key, options[last]).None? then [last] else []
  {
    if items == [] {
      assert [] + [last] == [last];
    } else {
      assert (items + [last])[1..] == items[1..] + [last];
      UnopenableAppend(c, key, options, items[1..], last);
    }
  }

  lemma {:induction false} StoredItemsAreStored(options: map<string, string>, items: seq<string>)
    ensures forall n :: n in StoredItems(options, items) <==> n in items && IsStored(options, n)
  {
    if items != [] {
      StoredItemsAreStored(options, items[1..]);
      assert items == [items[0]] + items[1..];
    }
  }

  /** Mark every stored item unreadable. */
  method ProbeAllUnreadable(result: ProbeResult, stored: seq<string>, state: ProbeState) returns (r: ProbeResult)
    requires result.unreadable == []
    ensures r.state == state && r.unreadable == stored
    ensures r.keySource == result.keySource && r.readFailed == result.readFailed
    ensures r.items.Keys == result.items.Keys + set n | n in stored
    ensures forall n :: n in r.items ==> r.items[n] == if n in stored then ItemUnreadable else result.items[n]
  {
    r := result;
    for i := 0 to |stored|
      invariant r.unreadable == stored[..i]
      invariant r.keySource == result.keySource && r.readFailed == result.readFailed
      invariant r.items.Keys == result.items.Keys + set n | n in stored[..i]
      invariant forall n :: n in r.items ==> r.items[n] == if n in stored[..i] then ItemUnreadable else result.items[n]
    {
      assert stored[..i + 1] == stored[..i] + [stored[i]];
      r := r.(items := r.items[stored[i] := ItemUnreadable], unreadable := r.unreadable + [stored[i]]);
    }
    assert stored[..|stored|] == stored;
    r := r.(state := state);
  }

  /** The first loop: what is stored, in the order of the item list, and a first verdict on each item. */
  method CollectStored(all: seq<string>, options: map<string, string>) returns (stored: seq<string>, items: map<string, ItemState>)
    ensures stored == StoredItems(options, all)
    ensures items.Keys == set n | n in all
    ensures forall n :: n in items ==> items[n] == if IsStored(options, n) then ItemOk else ItemAbsent
  {
    stored, items := [], map[];
    for i := 0 to |all|
      invariant stored == StoredItems(options, all[..i])
      invariant items.Keys == set n | n in all[..i]
      invariant forall n :: n in items ==> items[n] == if IsStored(options, n) then ItemOk else ItemAbsent
    {
      assert all[..i + 1] == all[..i] + [all[i]];
      StoredItemsAppend(options, all[..i], all[i]);
      if IsStored(options, all[i]) {
        stored := stored + [all[i]];
        items := items[all[i] := ItemOk];
      } else {
        items := items[all[i] := ItemAbsent];
      }
    }
    assert all[..|all|] == all;
  }

  /** The second loop: try each stored envelope under the key. */
  method OpenStored(options: map<string, string>, stored: seq<string>, before: map<string, ItemState>, c: Cipher, key: Key)
    returns (items: map<string, ItemState>, unreadable: seq<string>)
    requires forall n :: n in stored ==> n in options && n in before
    ensures unreadable == Unopenable(c, key, options, stored)
    ensures items.Keys == before.Keys
    ensures forall n :: n in items ==> items[n] == if n in unreadable then ItemUnreadable else before[n]
  {
    items, unreadable := before, [];
    for i := 0 to |stored|
      invariant unreadable == Unopenable(c, key, options, stored[..i])
      invariant items.Keys == before.Keys
      invariant forall n :: n in items ==> items[n] == if n in unreadable then ItemUnreadable else before[n]
    {
      assert stored[..i + 1] == stored[..i] + [stored[i]];
      UnopenableAppend(c, key, options, stored[..i], stored[i]);
      if Decrypt(c, key, options[stored[i]]).None? {
        items := items[stored[i] := ItemUnreadable];
        unreadable := unreadable + [stored[i]];
      }
    }
    assert stored[..|stored|] == stored;
  }

  /** probe's verdict under a key that could be loaded. */
  ghost predicate JudgedBy(r: ProbeResult, all: seq<string>, key: Key, c: Cipher, options: map<string, string>)
    requires r.items.Keys == set n | n in all
  {
    && !r.readFailed
    && r.state == (if forall n :: n in all && IsStored(options, n) ==> Decrypt(c, key, options[n]).Some?
                   then ProbeOk else ProbeUnreadable)
    && (forall n :: n in all && IsStored(options, n) ==> (r.items[n] == ItemOk <==> Decrypt(c, key, options[n]).Some?))
    && (forall n :: n in r.unreadable <==> n in all && IsStored(options, n) && Decrypt(c, key, options[n]).None?)
  }

  /** probe's verdict when no key could be loaded: every stored item is unreadable. */
  ghost predicate AllUnreadable(r: ProbeResult, all: seq<string>, state: ProbeState, readFailed: bool, options: map<string, string>)
    requires r.items.Keys == set n | n in all
  {
    && r.state == state && r.readFailed == readFailed
    && r.unreadable == StoredItems(options, all)
    && (forall n :: n in all && IsStored(options, n) ==> r.items[n] == ItemUnreadable)
  }

  /** The rest of probe, once something is stored and the key has been looked for. */
  method JudgeStored(existing: Existing, keySource: string, all: seq<string>, stored: seq<string>,
                     items: map<string, ItemState>, options: map<string, string>, c: Cipher) returns (r: ProbeResult)
    requires stored == StoredItems(options, all) && items.Keys == set n | n in all
    requires forall n :: n in items ==> items[n] == if IsStored(options, n) then ItemOk else ItemAbsent
    ensures r.keySource == keySource && r.items.Keys == set n | n in all
    ensures forall n :: n in all ==> (r.items[n] == ItemAbsent <==> !IsStored(options, n))
    ensures match existing
      case Found(key) => JudgedBy(r, all, key, c, options)
      case NoKey => AllUnreadable(r, all, ProbeUnreadable, false, options)
      case Unavailable => AllUnreadable(r, all, ProbeKeyUnavailable, false, options)
      case ReadFailed => AllUnreadable(r, all, ProbeKeyUnavailable, true, options)
  {
    StoredItemsAreStored(options, all);
    r := ProbeResult(ProbeOk, keySource, items, [], false);
    match existing
    case ReadFailed =>
      r := ProbeAllUnreadable(r.(readFailed := true), stored, ProbeKeyUnavailable);
    case Unavailable =>
      r := ProbeAllUnreadable(r, stored, ProbeKeyUnavailable);
    case NoKey =>
      r := ProbeAllUnreadable(r, stored, ProbeUnreadable);
    case Found(key) =>
      var judged, unreadable := OpenStored(options, stored, items, c, key);
      r := r.(items := judged, unreadable := unreadable, state := if unreadable != [] then ProbeUnreadable else ProbeOk);
      assert unreadable != [] ==> unreadable[0] in unreadable;
  }

  /**
   * probe: what it reports, branch by branch.  It takes the shared storage as a value and
   * returns a result, so it has nothing to write to.
   */
  method Probe(env: Env, sh: Shared, all: seq<string>, options: map<string, string>, c: Cipher, io: Reads)
    returns (r: ProbeResult)
    ensures !io.markerReadable ==> r == ProbeResult(ProbeKeyUnavailable, "", map[], [], true)
    ensures io.markerReadable ==>
      && (match StoredMarker(env, sh)
          case None => r.keySource == ""
          case Some(m) => r.keySource == if m.source in {"constant", "salts", "file", "db"} then m.source else "unknown")
      && r.items.Keys == (set n | n in all)
      && (forall n :: n in all ==> (r.items[n] == ItemAbsent <==> n !in options || options[n] == ""))
    ensures io.markerReadable && StoredItems(options, all) == [] ==>
      r.state == ProbeOk && r.unreadable == [] && !r.readFailed
    ensures io.markerReadable && StoredItems(options, all) != [] ==>
      match ExistingMasterKey(env, sh, StoredMarker(env, sh), io)
      case Found(key) => JudgedBy(r, all, key, c, options)
      case NoKey => AllUnreadable(r, all, ProbeUnreadable, false, options)
      case Unavailable => AllUnreadable(r, all, ProbeKeyUnavailable, false, options)
      case ReadFailed => AllUnreadable(r, all, ProbeKeyUnavailable, true, options)
  {
    if !io.markerReadable {
      return ProbeResult(ProbeKeyUnavailable, "", map[], [], true);
    }
    var pinned := StoredMarker(env, sh);
    var stored, items := CollectStored(all, options);
    if stored == [] {
      return ProbeResult(ProbeOk, SourceName(pinned), items, [], false);
    }
    r := JudgeStored(ExistingMasterKey(env, sh, pinned, io), SourceName(pinned), all, stored, items, options, c);
  }

  /**
   * The key probe judges by is the key requests use: once any request of any interleaving
   * has obtained a key, probe, when its reads succeed, finds that key.
   */
  lemma ProbeSeesTheKeyRequestsUse(env: Env, s: System, schedule: seq<Turn>, r: nat, io: Reads)
    requires EmptyRowsHoldNothing(env) && Fresh(s)
    requires PcOf(Run(env, s, schedule), r).Done?
    requires io.dbReadable && io.unreadableFiles == {}
    ensures var sh := Run(env, s, schedule).sh;
            ExistingMasterKey(env, sh, StoredMarker(env, sh), io) == Found(PcOf(Run(env, s, schedule), r).key)
  {
    RunKeepsInvariant(env, s, schedule);
  }

  /**
   * With a source pinned and its key material there, before any request of the run: probe,
   * when its reads succeed, finds that key, now and after any schedule, and every request that
   * obtains a key obtains that one.
   */
  lemma ProbeSeesThePinnedKey(env: Env, s: System, schedule: seq<Turn>, m: Marker, key: Key, io: Reads)
    requires EmptyRowsHoldNothing(env) && Fresh(s)
    requires StoredMarker(env, s.sh) == Some(m) && KeyFor(env, s.sh, m) == Some(key)
    requires io.dbReadable && io.unreadableFiles == {}
    ensures ExistingMasterKey(env, s.sh, Some(m), io) == Found(key)
    ensures var sh := Run(env, s, schedule).sh;
            StoredMarker(env, sh) == Some(m) && ExistingMasterKey(env, sh, Some(m), io) == Found(key)
    ensures forall r :: PcOf(Run(env, s, schedule), r).Done? ==> PcOf(Run(env, s, schedule), r) == Done(key)
  {
    RunKeepsInvariant(env, s, schedule);
    MarkerIsStable(env, s, schedule, m);
  }
}
