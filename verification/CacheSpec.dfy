/**
 * The two-level cache as values: what each operation of WPMgr_Object_Cache does to the
 * per-request array and to Redis, for one fully qualified name.
 *
 * Main result: over any sequence of calls the array agrees with Redis and every answer comes from
 * what a cache without the array holds (CacheRefinesRedisOnly), whatever becomes of the reads and
 * as long as each other call is one Allowed admits; the answers are that cache's own exactly when
 * the reads are transparent (AnswersAsWithoutArray).  The ...Refines lemmas say for each operation
 * exactly when the array goes on agreeing.
 */
module CacheSpec {
  import opened Wrappers
  import opened CacheKeys
  import opened RedisOnly
  import GroupFlush

  /**
   * The array, Redis, which array entries belong to groups that never reach Redis, and
   * whether the one reconnect of the request has been used.
   */
  datatype State = State(cache: Keyspace, redis: Keyspace, runtimeKeys: set<string>, reconnectAttempted: bool)

  /** storeL1. */
  function Store(st: State, k: string, v: Value, runtime: bool): State {
    st.(cache := st.cache[k := v], runtimeKeys := if runtime then st.runtimeKeys + {k} else st.runtimeKeys - {k})
  }

  function Drop(st: State, k: string): State {
    st.(cache := st.cache - {k}, runtimeKeys := st.runtimeKeys - {k})
  }

  function Add(st: State, k: string, runtime: bool, v: Value, net: Net): (State, bool) {
    if k in st.cache then (st, false)
    else if runtime then (Store(st, k, v, true), true)
    else
      var (m, ok) := RedisOnly.Add(st.redis, k, v, net);
      (if ok then Store(st.(redis := m), k, v, false) else st.(redis := m), ok)
  }

  function Replace(st: State, k: string, runtime: bool, v: Value, net: Net): (State, bool) {
    if runtime then
      if k in st.cache then (Store(st, k, v, true), true) else (st, false)
    else
      var (m, ok) := RedisOnly.Replace(st.redis, k, v, net);
      (if ok then Store(st.(redis := m), k, v, false) else st.(redis := m), ok)
  }

  function Set(st: State, k: string, runtime: bool, v: Value, net: Net): (State, bool) {
    if runtime then (Store(st, k, v, true), true)
    else
      var (m, ok) := RedisOnly.Set(st.redis, k, v, net);
      (if ok then Store(st.(redis := m), k, v, false) else st.(redis := m), ok)
  }

  /** redisOp for a read: a first failure uses up the reconnect. */
  function AfterRead(st: State, net: Net): State {
    st.(reconnectAttempted := st.reconnectAttempted || net.first.Throws?)
  }

  /** get: the value, and $found. */
  function Get(st: State, k: string, runtime: bool, force: bool, net: Net): (State, Value, bool) {
    if k in st.cache && (runtime || !force) then (st, st.cache[k], true)
    else if runtime then (st, False, false)
    else
      var v := if Answered(net, st.reconnectAttempted) then RedisOnly.Get(st.redis, k) else False;
      if v == False then (AfterRead(st, net), False, false)
      else (Store(AfterRead(st, net), k, v, false), v, true)
  }

  function Delete(st: State, k: string, runtime: bool, net: Net): (State, bool) {
    if runtime then (Drop(st, k), k in st.cache)
    else
      var (m, ok) := RedisOnly.Delete(st.redis, k, net);
      (Drop(st.(redis := m), k), ok || (net.first.Completes? && k in st.cache))
  }

  /** incr, and decr with the offset negated. */
  function Incr(st: State, k: string, runtime: bool, intOf: Value -> int, offset: int, net: Net): (State, Value) {
    if runtime then
      if k in st.cache then (Store(st, k, Stepped(intOf, st.cache[k], offset), true), Stepped(intOf, st.cache[k], offset))
      else (st, False)
    else
      var (m, v) := RedisOnly.Incr(st.redis, k, intOf, offset, net);
      (if v == False then Drop(st.(redis := m), k) else Store(st.(redis := m), k, v, false), v)
  }

  /** One name of get_multiple: an array hit is returned as it is, an MGET reply is filtered by isset(). */
  function GetManyValue(st: State, k: string, runtime: bool, force: bool, answered: bool): Value {
    if k in st.cache && (runtime || !force) then st.cache[k]
    else if runtime || !answered then False
    else MGet(st.redis, k)
  }

  /** What the array takes over from MGET's reply: every value that isset() and is not false. */
  function Learn(st: State, names: set<string>): State {
    var learned := set k | k in names && MGet(st.redis, k) != False;
    st.(cache := map k | k in st.cache.Keys + learned :: if k in learned then MGet(st.redis, k) else st.cache[k],
        runtimeKeys := st.runtimeKeys - learned)
  }

  /** The names get_multiple asks Redis for. */
  function Missing(st: State, names: set<string>, runtime: bool, force: bool): set<string> {
    set k | k in names && !runtime && (k !in st.cache || force)
  }

  function GetMany(st: State, names: set<string>, runtime: bool, force: bool, net: Net): State {
    var missing := Missing(st, names, runtime, force);
    if missing == {} then st
    else if Answered(net, st.reconnectAttempted) then Learn(AfterRead(st, net), missing)
    else AfterRead(st, net)
  }

  lemma LearnNothing(st: State)
    ensures Learn(st, {}) == st
  {
    assert Learn(st, {}).cache == st.cache;
  }

  /** One more name learned. */
  lemma LearnOne(st: State, names: set<string>, k: string)
    ensures Learn(st, names + {k})
         == if MGet(st.redis, k) != False then Store(Learn(st, names), k, MGet(st.redis, k), false) else Learn(st, names)
  {
    var one, v := Learn(st, names), MGet(st.redis, k);
    var next := Learn(st, names + {k});
    if v != False {
      assert next.cache == one.cache[k := v];
      assert next.runtimeKeys == one.runtimeKeys - {k};
    } else {
      assert next.cache == one.cache;
    }
  }

  /** One SETEX of set_multiple's pipeline: its reply, or its share of a pipeline that throws. */
  function PipeNet(net: Net, k: string, refused: set<string>, applied: set<string>): Net {
    if net.first.Completes? then Net(Completes, false, Completes, k in refused) else Net(Throws(k in applied), false, Completes, false)
  }

  /** set_multiple on names in order: one set each. */
  function SetMany(st: State, items: seq<(string, Value)>, runtime: bool, net: Net, refused: set<string>, applied: set<string>): State
    decreases |items|
  {
    if items == [] then st
    else
      var last := items[|items| - 1];
      var before := SetMany(st, items[..|items| - 1], runtime, net, refused, applied);
      Set(before, last.0, runtime, last.1, PipeNet(net, last.0, refused, applied)).0
  }

  /** flush: the array goes first; a flush that throws has deleted some keys. */
  function Flush(st: State, arrayMode: bool, whole: bool, prefix: string, net: Net, partial: set<string>): State {
    var emptied := st.(cache := map[], runtimeKeys := {});
    if arrayMode then emptied
    else if net.first.Completes? then
      emptied.(redis := map k | k in st.redis && !whole && !GroupFlush.PrefixDeletes(prefix, k) :: st.redis[k])
    else emptied.(redis := st.redis - partial)
  }

  /** The array entries flush_group evicts. */
  predicate Evicts(prefix: string, blogId: int, group: string, k: string) {
    GroupPart(prefix, Global, group) <= k || GroupPart(prefix, Blog(blogId), group) <= k
  }

  function EvictGroup(st: State, prefix: string, blogId: int, group: string): State {
    st.(cache := map k | k in st.cache && !Evicts(prefix, blogId, group, k) :: st.cache[k],
        runtimeKeys := set k | k in st.runtimeKeys && !Evicts(prefix, blogId, group, k))
  }

  function DeleteGroup(m: Keyspace, prefix: string, group: string): Keyspace {
    map k | k in m && !GroupFlush.GroupDeletes(prefix, group, k) :: m[k]
  }

  function FlushGroup(st: State, prefix: string, blogId: int, group: string, runtime: bool, net: Net, partial: set<string>): State {
    var evicted := EvictGroup(st, prefix, blogId, group);
    if runtime then evicted
    else if net.first.Completes? then evicted.(redis := DeleteGroup(st.redis, prefix, group))
    else evicted.(redis := st.redis - (set k | k in partial && GroupFlush.GroupDeletes(prefix, group, k)))
  }

  /** Every entry of the array that stands for a Redis value equals it. */
  ghost predicate Coherent(st: State) {
    && st.runtimeKeys <= st.cache.Keys
    && forall k :: k in st.cache && k !in st.runtimeKeys ==> k in st.redis && st.redis[k] == st.cache[k]
  }

  /** The array's entry under k, if there is one, is of the kind its group has. */
  predicate Clean(st: State, k: string, runtime: bool) {
    k in st.cache ==> (k in st.runtimeKeys <==> runtime)
  }

  // ---- the reference: no array for persistent groups -----------------------------------------

  /** Redis, and the in-memory store of the groups that never reach it. */
  datatype Ref = Ref(redis: Keyspace, memory: Keyspace)

  function Abs(st: State): Ref {
    Ref(st.redis, map k | k in st.runtimeKeys && k in st.cache :: st.cache[k])
  }

  function RefAdd(r: Ref, k: string, runtime: bool, v: Value, net: Net): (Ref, bool) {
    if runtime then (if k in r.memory then r else r.(memory := r.memory[k := v]), k !in r.memory)
    else var (m, ok) := RedisOnly.Add(r.redis, k, v, net); (r.(redis := m), ok)
  }

  function RefReplace(r: Ref, k: string, runtime: bool, v: Value, net: Net): (Ref, bool) {
    if runtime then (if k in r.memory then r.(memory := r.memory[k := v]) else r, k in r.memory)
    else var (m, ok) := RedisOnly.Replace(r.redis, k, v, net); (r.(redis := m), ok)
  }

  function RefSet(r: Ref, k: string, runtime: bool, v: Value, net: Net): (Ref, bool) {
    if runtime then (r.(memory := r.memory[k := v]), true)
    else var (m, ok) := RedisOnly.Set(r.redis, k, v, net); (r.(redis := m), ok)
  }

  function RefGet(r: Ref, k: string, runtime: bool, answered: bool): Value {
    if runtime then RedisOnly.Get(r.memory, k) else if answered then RedisOnly.Get(r.redis, k) else False
  }

  function RefDelete(r: Ref, k: string, runtime: bool, net: Net): (Ref, bool) {
    if runtime then (r.(memory := r.memory - {k}), k in r.memory)
    else var (m, ok) := RedisOnly.Delete(r.redis, k, net); (r.(redis := m), ok)
  }

  function RefIncr(r: Ref, k: string, runtime: bool, intOf: Value -> int, offset: int, net: Net): (Ref, Value) {
    if runtime then
      if k in r.memory then
        (r.(memory := r.memory[k := Stepped(intOf, r.memory[k], offset)]), Stepped(intOf, r.memory[k], offset))
      else (r, False)
    else var (m, v) := RedisOnly.Incr(r.redis, k, intOf, offset, net); (r.(redis := m), v)
  }

  lemma AbsStore(st: State, k: string, v: Value)
    ensures Abs(Store(st, k, v, true)) == Abs(st).(memory := Abs(st).memory[k := v])
    ensures k !in st.runtimeKeys ==> Abs(Store(st, k, v, false)) == Abs(st)
  {
    assert Abs(Store(st, k, v, true)).memory == Abs(st).memory[k := v];
    assert k !in st.runtimeKeys ==> Abs(Store(st, k, v, false)).memory == Abs(st).memory;
  }

  lemma AbsDrop(st: State, k: string)
    ensures Abs(Drop(st, k)) == Abs(st).(memory := Abs(st).memory - {k})
    ensures k !in st.runtimeKeys ==> Abs(Drop(st, k)) == Abs(st)
  {
    assert Abs(Drop(st, k)).memory == Abs(st).memory - {k};
  }

  lemma AbsRedis(st: State, m: Keyspace)
    ensures Abs(st.(redis := m)) == Abs(st).(redis := m)
  {
  }

  // ---- what the operations do, in terms of the two maps ---------------------------------------------

  /** add: only where nothing is; a command that throws answers false. */
  predicate AddMeans(st: State, st': State, ok: bool, k: string, runtime: bool, v: Value, net: Net) {
    if k in st.cache then !ok && st' == st
    else if runtime then ok && st'.redis == st.redis && st'.cache == st.cache[k := v]
    else if net.first.Completes? then
      && ok == (k !in st.redis && !net.refused)
      && st'.redis == (if ok then st.redis[k := v] else st.redis)
      && st'.cache == (if ok then st.cache[k := v] else st.cache)
    else !ok && st'.cache == st.cache && st'.redis == if net.first.effect && k !in st.redis then st.redis[k := v] else st.redis
  }

  /** replace: only where something is. */
  predicate ReplaceMeans(st: State, st': State, ok: bool, k: string, runtime: bool, v: Value, net: Net) {
    if runtime then ok == (k in st.cache) && st'.redis == st.redis && st'.cache == (if ok then st.cache[k := v] else st.cache)
    else if net.first.Completes? then
      && ok == (k in st.redis && !net.refused)
      && st'.redis == (if ok then st.redis[k := v] else st.redis)
      && st'.cache == (if ok then st.cache[k := v] else st.cache)
    else !ok && st'.cache == st.cache && st'.redis == if net.first.effect && k in st.redis then st.redis[k := v] else st.redis
  }

  predicate SetMeans(st: State, st': State, ok: bool, k: string, runtime: bool, v: Value, net: Net) {
    if runtime then ok && st'.redis == st.redis && st'.cache == st.cache[k := v]
    else if net.first.Completes? then
      && ok == !net.refused
      && st'.redis == (if ok then st.redis[k := v] else st.redis)
      && st'.cache == (if ok then st.cache[k := v] else st.cache)
    else !ok && st'.cache == st.cache && st'.redis == if net.first.effect then st.redis[k := v] else st.redis
  }

  /** get: a hit unless forced, else what Redis holds when it answers; only a stored false looks like nothing. */
  predicate GetMeans(st: State, st': State, v: Value, k: string, runtime: bool, force: bool, net: Net) {
    && st'.redis == st.redis
    && if k in st.cache && (runtime || !force) then v == st.cache[k] && st' == st
       else if runtime then v == False && st' == st
       else if Answered(net, st.reconnectAttempted) && k in st.redis && st.redis[k] != False then
         v == st.redis[k] && st'.cache == st.cache[k := v]
       else v == False && st'.cache == st.cache
  }

  predicate DeleteMeans(st: State, st': State, ok: bool, k: string, runtime: bool, net: Net) {
    && st'.cache == st.cache - {k}
    && if runtime then ok == (k in st.cache) && st'.redis == st.redis
       else if net.first.Completes? then ok == (k in st.redis || k in st.cache) && st'.redis == st.redis - {k}
       else !ok && st'.redis == if net.first.effect then st.redis - {k} else st.redis
  }

  /** incr: the sum, but not below zero, in place of what was there; nothing where nothing or false is. */
  predicate IncrMeans(st: State, st': State, v: Value, k: string, runtime: bool, intOf: Value -> int, offset: int, net: Net) {
    var was := if runtime then st.cache else st.redis;
    if k !in was || (!runtime && was[k] == False) then v == False && st'.redis == st.redis
    else
      var sum := intOf(was[k]) + offset;
      var next := Int(if sum < 0 then 0 else sum);
      if runtime then v == next && st'.redis == st.redis && st'.cache == st.cache[k := next]
      else if net.first.Completes? then
        v == next && st'.cache == st.cache[k := next] && st'.redis == (if net.refused then st.redis else st.redis[k := next])
      else v == False && st'.redis == if net.first.effect then st.redis[k := next] else st.redis
  }

  lemma AddsMean(st: State, k: string, runtime: bool, v: Value, net: Net)
    ensures AddMeans(st, Add(st, k, runtime, v, net).0, Add(st, k, runtime, v, net).1, k, runtime, v, net)
    ensures ReplaceMeans(st, Replace(st, k, runtime, v, net).0, Replace(st, k, runtime, v, net).1, k, runtime, v, net)
  {
  }

  lemma SetsMean(st: State, k: string, runtime: bool, v: Value, net: Net)
    ensures SetMeans(st, Set(st, k, runtime, v, net).0, Set(st, k, runtime, v, net).1, k, runtime, v, net)
    ensures DeleteMeans(st, Delete(st, k, runtime, net).0, Delete(st, k, runtime, net).1, k, runtime, net)
  {
  }

  lemma ReadsMean(st: State, k: string, runtime: bool, force: bool, intOf: Value -> int, offset: int, net: Net)
    ensures GetMeans(st, Get(st, k, runtime, force, net).0, Get(st, k, runtime, force, net).1, k, runtime, force, net)
    ensures IncrMeans(st, Incr(st, k, runtime, intOf, offset, net).0, Incr(st, k, runtime, intOf, offset, net).1,
                      k, runtime, intOf, offset, net)
  {
  }

  /** add answers and acts as a cache without the array does. */
  lemma AddRefines(st: State, k: string, runtime: bool, v: Value, net: Net)
    requires Coherent(st) && Clean(st, k, runtime)
    ensures var (st', ok) := Add(st, k, runtime, v, net);
            Coherent(st') && (Abs(st'), ok) == RefAdd(Abs(st), k, runtime, v, net)
  {
    var m := RedisOnly.Add(st.redis, k, v, net).0;
    AbsRedis(st, m);
    AbsStore(if runtime then st else st.(redis := m), k, v);
  }

  /**
   * replace and set: the same, and the array goes on agreeing exactly unless the command threw
   * after taking effect and left a different value behind in the array.
   */
  lemma ReplaceRefines(st: State, k: string, runtime: bool, v: Value, net: Net)
    requires Coherent(st) && Clean(st, k, runtime)
    ensures var (st', ok) := Replace(st, k, runtime, v, net);
            && (Abs(st'), ok) == RefReplace(Abs(st), k, runtime, v, net)
            && (Coherent(st') <==> !(!runtime && net.first == Throws(true) && k in st.cache && st.cache[k] != v))
  {
    var m := RedisOnly.Replace(st.redis, k, v, net).0;
    AbsRedis(st, m);
    AbsStore(if runtime then st else st.(redis := m), k, v);
  }

  lemma SetRefines(st: State, k: string, runtime: bool, v: Value, net: Net)
    requires Coherent(st) && Clean(st, k, runtime)
    ensures var (st', ok) := Set(st, k, runtime, v, net);
            && (Abs(st'), ok) == RefSet(Abs(st), k, runtime, v, net)
            && (Coherent(st') <==> !(!runtime && net.first == Throws(true) && k in st.cache && st.cache[k] != v))
  {
    var m := RedisOnly.Set(st.redis, k, v, net).0;
    AbsRedis(st, m);
    AbsStore(if runtime then st else st.(redis := m), k, v);
  }

  /** get: an array hit, or an answered read, gives what Redis holds; found is claimed for every value but false. */
  lemma GetRefines(st: State, k: string, runtime: bool, force: bool, net: Net)
    requires Coherent(st) && Clean(st, k, runtime)
    ensures var (st', v, found) := Get(st, k, runtime, force, net);
            && Coherent(st') && Abs(st') == Abs(st)
            && (v != False ==> found)
            && v == RefGet(Abs(st), k, runtime, Answered(net, st.reconnectAttempted) || (k in st.cache && !force))
  {
  }

  lemma DeleteRefines(st: State, k: string, runtime: bool, net: Net)
    requires Coherent(st) && Clean(st, k, runtime)
    ensures var (st', ok) := Delete(st, k, runtime, net);
            Coherent(st') && (Abs(st'), ok) == RefDelete(Abs(st), k, runtime, net)
  {
    var m := RedisOnly.Delete(st.redis, k, net).0;
    AbsRedis(st, m);
    AbsDrop(if runtime then st else st.(redis := m), k);
  }

  /** incr finds a value, its SET is refused, and the value would have changed. */
  predicate IncrIsLost(m: Keyspace, k: string, intOf: Value -> int, offset: int, net: Net) {
    && net.first.Completes? && net.refused
    && RedisOnly.Get(m, k) != False && RedisOnly.Get(m, k) != Stepped(intOf, m[k], offset)
  }

  /** incr: the array stops agreeing exactly when the server refuses the SET, whose answer is not looked at. */
  lemma IncrRefines(st: State, k: string, runtime: bool, intOf: Value -> int, offset: int, net: Net)
    requires Coherent(st) && Clean(st, k, runtime)
    ensures var (st', v) := Incr(st, k, runtime, intOf, offset, net);
            && (Abs(st'), v) == RefIncr(Abs(st), k, runtime, intOf, offset, net)
            && (Coherent(st') <==> runtime || !IncrIsLost(st.redis, k, intOf, offset, net))
  {
    var (m, v) := RedisOnly.Incr(st.redis, k, intOf, offset, net);
    AbsRedis(st, m);
    AbsDrop(st.(redis := m), k);
    AbsStore(if runtime then st else st.(redis := m), k,
             if runtime && k in st.cache then Stepped(intOf, st.cache[k], offset) else v);
  }

  /** One set after another, with the answer to each. */
  function RefSetMany(r: Ref, items: seq<(string, Value)>, runtime: bool, net: Net, refused: set<string>, applied: set<string>)
    : (Ref, seq<bool>)
    decreases |items|
  {
    if items == [] then (r, [])
    else
      var last := items[|items| - 1];
      var (before, answers) := RefSetMany(r, items[..|items| - 1], runtime, net, refused, applied);
      var (after, ok) := RefSet(before, last.0, runtime, last.1, PipeNet(net, last.0, refused, applied));
      (after, answers + [ok])
  }

  /** set_multiple's answers: what is stored at once, or by a pipeline that completes and whose reply is not an error. */
  function Stored(items: seq<(string, Value)>, runtime: bool, net: Net, refused: set<string>): seq<bool> {
    seq(|items|, i requires 0 <= i < |items| => runtime || (net.first.Completes? && items[i].0 !in refused))
  }

  /** The array holds the name with another value. */
  predicate Outdates(st: State, k: string, v: Value) {
    k in st.cache && st.cache[k] != v
  }

  /** A pipeline that completes, or a non-persistent group: one set after another, and the array goes on agreeing. */
  lemma {:induction false} SetManyCompletes(st: State, items: seq<(string, Value)>, runtime: bool, net: Net,
                                            refused: set<string>, applied: set<string>)
    requires Coherent(st) && (forall i :: 0 <= i < |items| ==> Clean(st, items[i].0, runtime))
    requires runtime || net.first.Completes?
    ensures var st' := SetMany(st, items, runtime, net, refused, applied);
            && Coherent(st')
            && (Abs(st'), Stored(items, runtime, net, refused)) == RefSetMany(Abs(st), items, runtime, net, refused, applied)
            && (forall k :: Clean(st, k, runtime) ==> Clean(st', k, runtime))
    decreases |items|
  {
    if items != [] {
      var last := items[|items| - 1];
      SetManyCompletes(st, items[..|items| - 1], runtime, net, refused, applied);
      var before := SetMany(st, items[..|items| - 1], runtime, net, refused, applied);
      SetRefines(before, last.0, runtime, last.1, PipeNet(net, last.0, refused, applied));
      StoredLast(items, runtime, net, refused);
    } else {
      assert Stored(items, runtime, net, refused) == [];
    }
  }

  lemma StoredLast(items: seq<(string, Value)>, runtime: bool, net: Net, refused: set<string>)
    requires items != []
    ensures var n := |items| - 1;
            Stored(items, runtime, net, refused)
              == Stored(items[..n], runtime, net, refused) + [runtime || (net.first.Completes? && items[n].0 !in refused)]
  {
  }

  /** The last value the items give a name. */
  function LastValue(items: seq<(string, Value)>, k: string): Option<Value> {
    if items == [] then None
    else if items[|items| - 1].0 == k then Some(items[|items| - 1].1)
    else LastValue(items[..|items| - 1], k)
  }

  /** What a pipeline that throws leaves of a name. */
  function Piped(m: Keyspace, items: seq<(string, Value)>, applied: set<string>, k: string): Option<Value> {
    if k in applied && LastValue(items, k).Some? then LastValue(items, k)
    else if k in m then Some(m[k]) else None
  }

  /** A pipeline that throws changes nothing in the array, and in Redis what took effect of it. */
  lemma {:induction false} ThrownPipe(st: State, items: seq<(string, Value)>, net: Net, refused: set<string>, applied: set<string>)
    requires net.first.Throws?
    ensures var st' := SetMany(st, items, false, net, refused, applied);
            && st' == st.(redis := st'.redis)
            && (forall k :: (k in st'.redis <==> Piped(st.redis, items, applied, k).Some?)
                         && (k in st'.redis ==> st'.redis[k] == Piped(st.redis, items, applied, k).value))
            && (Abs(st'), Stored(items, false, net, refused)) == RefSetMany(Abs(st), items, false, net, refused, applied)
    decreases |items|
  {
    if items != [] {
      var n := |items| - 1;
      ThrownPipe(st, items[..n], net, refused, applied);
      var before := SetMany(st, items[..n], false, net, refused, applied);
      AbsRedis(before, RedisOnly.Set(before.redis, items[n].0, items[n].1, PipeNet(net, items[n].0, refused, applied)).0);
      StoredLast(items, false, net, refused);
    } else {
      assert Stored(items, false, net, refused) == [];
    }
  }

  /** A name the array holds with a value other than the last one that took effect. */
  predicate ManyOutdates(st: State, items: seq<(string, Value)>, applied: set<string>) {
    exists k :: k in applied && LastValue(items, k).Some? && Outdates(st, k, LastValue(items, k).value)
  }

  lemma {:induction false} LastValueIsNamed(items: seq<(string, Value)>, k: string)
    requires LastValue(items, k).Some?
    ensures exists i :: 0 <= i < |items| && items[i].0 == k
  {
    if items[|items| - 1].0 != k {
      LastValueIsNamed(items[..|items| - 1], k);
      var i :| 0 <= i < |items| - 1 && items[..|items| - 1][i].0 == k;
      assert items[i].0 == k;
    }
  }

  lemma ThrownPipeAgrees(st: State, items: seq<(string, Value)>, net: Net, refused: set<string>, applied: set<string>)
    requires Coherent(st) && (forall i :: 0 <= i < |items| ==> Clean(st, items[i].0, false)) && net.first.Throws?
    ensures Coherent(SetMany(st, items, false, net, refused, applied)) <==> !ManyOutdates(st, items, applied)
  {
    var st' := SetMany(st, items, false, net, refused, applied);
    ThrownPipe(st, items, net, refused, applied);
    if ManyOutdates(st, items, applied) {
      var k :| k in applied && LastValue(items, k).Some? && Outdates(st, k, LastValue(items, k).value);
      LastValueIsNamed(items, k);
      assert k in st'.cache && k !in st'.runtimeKeys && st'.redis[k] != st'.cache[k];
    } else {
      forall k | k in st'.cache && k !in st'.runtimeKeys ensures k in st'.redis && st'.redis[k] == st'.cache[k] {
        assert k in applied && LastValue(items, k).Some? ==> !Outdates(st, k, LastValue(items, k).value);
      }
    }
  }

  /**
   * set_multiple: storage and answers as one set after another; the array goes on agreeing exactly
   * unless the pipeline threw and what took effect of it left the array behind.
   */
  lemma SetManyRefines(st: State, items: seq<(string, Value)>, runtime: bool, net: Net, refused: set<string>, applied: set<string>)
    requires Coherent(st) && (forall i :: 0 <= i < |items| ==> Clean(st, items[i].0, runtime))
    ensures var st' := SetMany(st, items, runtime, net, refused, applied);
            && (Abs(st'), Stored(items, runtime, net, refused)) == RefSetMany(Abs(st), items, runtime, net, refused, applied)
            && (forall k :: Clean(st, k, runtime) ==> Clean(st', k, runtime))
            && (Coherent(st') <==> runtime || net.first.Completes? || !ManyOutdates(st, items, applied))
  {
    if runtime || net.first.Completes? {
      SetManyCompletes(st, items, runtime, net, refused, applied);
    } else {
      ThrownPipe(st, items, net, refused, applied);
      ThrownPipeAgrees(st, items, net, refused, applied);
    }
  }

  function RefGetMany(r: Ref, k: string, runtime: bool): Value {
    if runtime then RedisOnly.Get(r.memory, k) else MGet(r.redis, k)
  }

  /** get_multiple as a whole: the array goes on agreeing, and nothing else changes. */
  lemma GetManyKeepsAgreement(st: State, names: set<string>, runtime: bool, force: bool, net: Net)
    requires Coherent(st) && forall k :: k in names ==> Clean(st, k, runtime)
    ensures var st' := GetMany(st, names, runtime, force, net);
            Coherent(st') && Abs(st') == Abs(st)
  {
    var st' := GetMany(st, names, runtime, force, net);
    assert Abs(st').memory == Abs(st).memory;
  }

  /** get_multiple: one name's value is what a cache without the array returns, except for a stored null in the array. */
  lemma GetManyRefines(st: State, k: string, runtime: bool, force: bool, answered: bool)
    requires Coherent(st) && Clean(st, k, runtime) && !runtime
    ensures var without := if answered then MGet(st.redis, k) else False;
            var differs := k in st.cache && !force && (st.cache[k] == Null || !answered) && st.cache[k] != False;
            GetManyValue(st, k, runtime, force, answered) == without <==> !differs
  {
  }

  /** The exception is real: a null set through the cache is false through MGET and null through the array. */
  lemma StoredNullReadsDifferently(k: string, net: Net)
    requires net.first.Completes? && !net.refused
    ensures var st := Set(State(map[], map[], {}, false), k, false, Null, net).0;
            && Coherent(st)
            && GetManyValue(st, k, false, false, true) == Null
            && GetManyValue(st, k, false, true, true) == False
  {
  }

  // ---- names ----------------------------------------------------------------------------------

  /** A request on one site: prefix, blog, the global groups, and which groups never reach Redis. */
  datatype Config = Config(prefix: string, blogId: int, globals: set<string>, runtime: string -> bool,
                           intOf: Value -> int, arrayMode: bool)

  function ScopeIn(c: Config, group: string): Scope {
    if group in c.globals then Global else Blog(c.blogId)
  }

  function NameOf(c: Config, group: string, key: string): string {
    KeyName(c.prefix, ScopeIn(c, group), group, key)
  }

  ghost predicate ValidConfig(c: Config) {
    && IsPrefix(c.prefix)
    && (forall g :: g in c.globals ==> !IsNumeral(g))
    && (c.arrayMode ==> forall g :: c.runtime(g))
  }

  /** Every array entry is named after a colon-free group, and is of that group's kind. */
  ghost predicate WellNamed(c: Config, st: State) {
    forall k :: k in st.cache ==>
      exists g, key :: k == NameOf(c, g, key) && ':' !in g && (k in st.runtimeKeys <==> c.runtime(g))
  }

  lemma {:induction false} NamesAreClean(c: Config, st: State, group: string, key: string)
    requires ValidConfig(c) && WellNamed(c, st) && ':' !in group
    ensures Clean(st, NameOf(c, group, key), c.runtime(group))
  {
    var k := NameOf(c, group, key);
    if k in st.cache {
      var g, key' :| k == NameOf(c, g, key') && ':' !in g && (k in st.runtimeKeys <==> c.runtime(g));
      KeysAreUnambiguous(c.prefix, ScopeIn(c, g), g, key', ScopeIn(c, group), group, key);
    }
  }

  /** An array entry of a global group, other than the flushed one, whose own key starts with "group:". */
  ghost predicate HasForeignKey(c: Config, st: State, group: string) {
    exists g, key :: NameOf(c, g, key) in st.cache && NameOf(c, g, key) !in st.runtimeKeys
      && g in c.globals && ':' !in g && g != group && group + ":" <= key
  }

  lemma {:induction false} FlushGroupAbs(c: Config, st: State, group: string, net: Net, partial: set<string>)
    ensures Abs(FlushGroup(st, c.prefix, c.blogId, group, c.runtime(group), net, partial))
         == RefFlushGroup(Abs(st), c, group, net, partial)
  {
    assert Abs(EvictGroup(st, c.prefix, c.blogId, group)).memory
        == map k | k in Abs(st).memory && !Evicts(c.prefix, c.blogId, group, k) :: Abs(st).memory[k];
  }

  /** Whatever part of a group flush took effect, only keys of the deleted kind are gone. */
  lemma FlushGroupDeletesOnly(c: Config, st: State, group: string, net: Net, partial: set<string>, k: string)
    requires k in st.redis && !GroupFlush.GroupDeletes(c.prefix, group, k)
    ensures var m := FlushGroup(st, c.prefix, c.blogId, group, c.runtime(group), net, partial).redis;
            k in m && m[k] == st.redis[k]
  {
  }

  /** flush_group on one site: the array still agrees with Redis afterwards exactly when it holds no such key. */
  lemma {:induction false} FlushGroupRefines(c: Config, st: State, group: string, net: Net, partial: set<string>)
    requires ValidConfig(c) && Coherent(st) && WellNamed(c, st)
    requires ':' !in group && GroupFlush.IsPlain(group)
    ensures var st' := FlushGroup(st, c.prefix, c.blogId, group, c.runtime(group), net, partial);
            && (!HasForeignKey(c, st, group) ==> Coherent(st'))
            && (!c.runtime(group) && net.first.Completes? ==> (Coherent(st') <==> !HasForeignKey(c, st, group)))
            && Abs(st') == RefFlushGroup(Abs(st), c, group, net, partial)
  {
    var st' := FlushGroup(st, c.prefix, c.blogId, group, c.runtime(group), net, partial);
    FlushGroupAbs(c, st, group, net, partial);
    if !HasForeignKey(c, st, group) {
      forall k | k in st'.cache && k !in st'.runtimeKeys
        ensures k in st'.redis && st'.redis[k] == st'.cache[k]
      {
        if GroupFlush.GroupDeletes(c.prefix, group, k) {
          KeptAndDeletedIsForeign(c, st, group, k);
          assert false;
        } else {
          FlushGroupDeletesOnly(c, st, group, net, partial, k);
        }
      }
    } else if !c.runtime(group) && net.first.Completes? {
      ForeignKeyBreaksAgreement(c, st, group, net, partial);
    }
  }

  lemma {:induction false} ForeignKeyBreaksAgreement(c: Config, st: State, group: string, net: Net, partial: set<string>)
    requires ValidConfig(c) && ':' !in group && GroupFlush.IsPlain(group)
    requires HasForeignKey(c, st, group) && !c.runtime(group) && net.first.Completes?
    ensures !Coherent(FlushGroup(st, c.prefix, c.blogId, group, c.runtime(group), net, partial))
  {
    var st' := FlushGroup(st, c.prefix, c.blogId, group, c.runtime(group), net, partial);
    var g, key :| NameOf(c, g, key) in st.cache && NameOf(c, g, key) !in st.runtimeKeys
      && g in c.globals && ':' !in g && g != group && group + ":" <= key;
    ForeignIsKeptAndDeleted(c, group, g, key);
    assert NameOf(c, g, key) in st'.cache && NameOf(c, g, key) !in st'.redis;
  }

  lemma {:induction false} KeptAndDeletedIsForeign(c: Config, st: State, group: string, k: string)
    requires ValidConfig(c) && WellNamed(c, st) && ':' !in group && GroupFlush.IsPlain(group)
    requires k in st.cache && k !in st.runtimeKeys
    requires !Evicts(c.prefix, c.blogId, group, k) && GroupFlush.GroupDeletes(c.prefix, group, k)
    ensures HasForeignKey(c, st, group)
  {
    var g, key :| k == NameOf(c, g, key) && ':' !in g && (k in st.runtimeKeys <==> c.runtime(g));
    if g != group {
      if g in c.globals {
        GroupFlush.KeepsOtherGlobalGroups(c.prefix, g, key, group);
      } else {
        GroupFlush.KeepsOtherBlogGroups(c.prefix, c.blogId, g, key, group);
      }
    }
  }

  lemma {:induction false} ForeignIsKeptAndDeleted(c: Config, group: string, g: string, key: string)
    requires ValidConfig(c) && ':' !in group && GroupFlush.IsPlain(group)
    requires g in c.globals && ':' !in g && g != group && group + ":" <= key
    ensures !Evicts(c.prefix, c.blogId, group, NameOf(c, g, key))
    ensures GroupFlush.GroupDeletes(c.prefix, group, NameOf(c, g, key))
  {
    var k := NameOf(c, g, key);
    GroupFlush.KeepsOtherGlobalGroups(c.prefix, g, key, group);
    if GroupPart(c.prefix, Global, group) <= k {
      var rest := k[|GroupPart(c.prefix, Global, group)|..];
      assert k == KeyName(c.prefix, Global, group, rest);
      GlobalGroupOfName(c.prefix, g, key, group, rest);
    }
    if GroupPart(c.prefix, Blog(c.blogId), group) <= k {
      var rest := k[|GroupPart(c.prefix, Blog(c.blogId), group)|..];
      assert k == KeyName(c.prefix, Blog(c.blogId), group, rest);
      GlobalNamedByNumeral(c.prefix, g, key, Blog(c.blogId), group, rest);
    }
  }

  function RefFlushGroup(r: Ref, c: Config, group: string, net: Net, partial: set<string>): Ref {
    Ref(if c.runtime(group) then r.redis
        else if net.first.Completes? then DeleteGroup(r.redis, c.prefix, group)
        else r.redis - (set k | k in partial && GroupFlush.GroupDeletes(c.prefix, group, k)),
        map k | k in r.memory && !Evicts(c.prefix, c.blogId, group, k) :: r.memory[k])
  }

  function RefFlush(r: Ref, c: Config, whole: bool, net: Net, partial: set<string>): Ref {
    Ref(if c.arrayMode then r.redis
        else if net.first.Completes? then map k | k in r.redis && !whole && !GroupFlush.PrefixDeletes(c.prefix, k) :: r.redis[k]
        else r.redis - partial,
        map[])
  }

  // ---- whole runs -------------------------------------------------------------------------------

  /** One call on normalised groups and valid keys. */
  datatype Op =
    | OpAdd(group: string, key: string, v: Value, net: Net)
    | OpReplace(group: string, key: string, v: Value, net: Net)
    | OpSet(group: string, key: string, v: Value, net: Net)
    | OpGet(group: string, key: string, force: bool, net: Net)
    | OpDelete(group: string, key: string, net: Net)
    | OpIncr(group: string, key: string, offset: int, net: Net)
    | OpGetMany(group: string, keys: seq<string>, force: bool, net: Net)
    | OpSetMany(group: string, data: seq<(string, Value)>, net: Net, refused: set<string>, applied: set<string>)
    | OpFlush(whole: bool, net: Net, partial: set<string>)
    | OpFlushRuntime
    | OpFlushGroup(group: string, net: Net, partial: set<string>)

  datatype Out = Flag(ok: bool) | Got(v: Value) | GotMany(values: seq<Value>) | Flags(answers: seq<bool>) | Nothing

  function NamesOf(c: Config, group: string, keys: seq<string>): set<string> {
    set i | 0 <= i < |keys| :: NameOf(c, group, keys[i])
  }

  function Named(c: Config, group: string, data: seq<(string, Value)>): seq<(string, Value)> {
    seq(|data|, i requires 0 <= i < |data| => (NameOf(c, group, data[i].0), data[i].1))
  }

  /** get_multiple's values, key by key. */
  function ManyValues(c: Config, st: State, group: string, keys: seq<string>, force: bool, net: Net): seq<Value> {
    seq(|keys|, i requires 0 <= i < |keys| =>
      GetManyValue(st, NameOf(c, group, keys[i]), c.runtime(group), force, Answered(net, st.reconnectAttempted)))
  }

  function RefManyValues(c: Config, r: Ref, group: string, keys: seq<string>): seq<Value> {
    seq(|keys|, i requires 0 <= i < |keys| => RefGetMany(r, NameOf(c, group, keys[i]), c.runtime(group)))
  }

  function StepCached(c: Config, st: State, op: Op): (State, Out) {
    match op
    case OpAdd(g, key, v, net) => var (s, ok) := Add(st, NameOf(c, g, key), c.runtime(g), v, net); (s, Flag(ok))
    case OpReplace(g, key, v, net) => var (s, ok) := Replace(st, NameOf(c, g, key), c.runtime(g), v, net); (s, Flag(ok))
    case OpSet(g, key, v, net) => var (s, ok) := Set(st, NameOf(c, g, key), c.runtime(g), v, net); (s, Flag(ok))
    case OpGet(g, key, force, net) => var (s, v, _) := Get(st, NameOf(c, g, key), c.runtime(g), force, net); (s, Got(v))
    case OpDelete(g, key, net) => var (s, ok) := Delete(st, NameOf(c, g, key), c.runtime(g), net); (s, Flag(ok))
    case OpIncr(g, key, n, net) => var (s, v) := Incr(st, NameOf(c, g, key), c.runtime(g), c.intOf, n, net); (s, Got(v))
    case OpGetMany(g, keys, force, net) =>
      (GetMany(st, NamesOf(c, g, keys), c.runtime(g), force, net), GotMany(ManyValues(c, st, g, keys, force, net)))
    case OpSetMany(g, data, net, refused, applied) =>
      var items := Named(c, g, data);
      (SetMany(st, items, c.runtime(g), net, refused, applied), Flags(Stored(items, c.runtime(g), net, refused)))
    case OpFlush(whole, net, partial) => (Flush(st, c.arrayMode, whole, c.prefix, net, partial), Nothing)
    case OpFlushRuntime => (st.(cache := map[], runtimeKeys := {}), Nothing)
    case OpFlushGroup(g, net, partial) => (FlushGroup(st, c.prefix, c.blogId, g, c.runtime(g), net, partial), Nothing)
  }

  function StepRef(c: Config, r: Ref, op: Op): (Ref, Out) {
    match op
    case OpAdd(g, key, v, net) => var (s, ok) := RefAdd(r, NameOf(c, g, key), c.runtime(g), v, net); (s, Flag(ok))
    case OpReplace(g, key, v, net) => var (s, ok) := RefReplace(r, NameOf(c, g, key), c.runtime(g), v, net); (s, Flag(ok))
    case OpSet(g, key, v, net) => var (s, ok) := RefSet(r, NameOf(c, g, key), c.runtime(g), v, net); (s, Flag(ok))
    case OpGet(g, key, _, _) => (r, Got(RefGet(r, NameOf(c, g, key), c.runtime(g), true)))
    case OpDelete(g, key, net) => var (s, ok) := RefDelete(r, NameOf(c, g, key), c.runtime(g), net); (s, Flag(ok))
    case OpIncr(g, key, n, net) => var (s, v) := RefIncr(r, NameOf(c, g, key), c.runtime(g), c.intOf, n, net); (s, Got(v))
    case OpGetMany(g, keys, _, _) => (r, GotMany(RefManyValues(c, r, g, keys)))
    case OpSetMany(g, data, net, refused, applied) =>
      var (s, answers) := RefSetMany(r, Named(c, g, data), c.runtime(g), net, refused, applied);
      (s, Flags(answers))
    case OpFlush(whole, net, partial) => (RefFlush(r, c, whole, net, partial), Nothing)
    case OpFlushRuntime => (r.(memory := map[]), Nothing)
    case OpFlushGroup(g, net, partial) => (RefFlushGroup(r, c, g, net, partial), Nothing)
  }

  /**
   * What agreement asks of one call: colon-free groups; no replace, set or set_multiple that
   * throws after taking effect on a name the array holds with another value; no incr whose SET the
   * server refuses and that changes the value; and no flush_group while a foreign key of that group
   * is held.  Reads may do as they like.
   */
  ghost predicate Allowed(c: Config, st: State, op: Op) {
    match op
    case OpAdd(g, _, _, _) => ':' !in g
    case OpReplace(g, key, v, net) => ':' !in g && (c.runtime(g) || net.first != Throws(true) || !Outdates(st, NameOf(c, g, key), v))
    case OpSet(g, key, v, net) => ':' !in g && (c.runtime(g) || net.first != Throws(true) || !Outdates(st, NameOf(c, g, key), v))
    case OpGet(g, _, _, _) => ':' !in g
    case OpDelete(g, _, _) => ':' !in g
    case OpIncr(g, key, n, net) => ':' !in g && (c.runtime(g) || !IncrIsLost(st.redis, NameOf(c, g, key), c.intOf, n, net))
    case OpGetMany(g, _, _, _) => ':' !in g
    case OpSetMany(g, data, net, _, applied) => ':' !in g && (c.runtime(g) || net.first.Completes? || !ManyOutdates(st, Named(c, g, data), applied))
    case OpFlush(_, _, _) => true
    case OpFlushRuntime => true
    case OpFlushGroup(g, _, _) => ':' !in g && GroupFlush.IsPlain(g) && !HasForeignKey(c, st, g)
  }

  /** What the array and the network decide about reads: which names are held, and whether the reconnect is used up. */
  datatype Hits = Hits(held: set<string>, reconnectAttempted: bool)

  function HitsOf(st: State): Hits {
    Hits(st.cache.Keys, st.reconnectAttempted)
  }

  /** One name of get_multiple: a hit is the stored value itself, an answered read what MGET and isset() leave of it. */
  function ReadMany(r: Ref, k: string, runtime: bool, hit: bool, answered: bool): Value {
    if runtime then RedisOnly.Get(r.memory, k)
    else if hit then RedisOnly.Get(r.redis, k)
    else if answered then MGet(r.redis, k)
    else False
  }

  /** The answer of a call, from what a cache without the array holds: a hit or an answered read gives its value. */
  function AnswerOf(c: Config, h: Hits, r: Ref, op: Op): Out {
    match op
    case OpGet(g, key, force, net) =>
      var k := NameOf(c, g, key);
      Got(RefGet(r, k, c.runtime(g), Answered(net, h.reconnectAttempted) || (k in h.held && !force)))
    case OpGetMany(g, keys, force, net) =>
      GotMany(seq(|keys|, i requires 0 <= i < |keys| =>
        var k := NameOf(c, g, keys[i]);
        ReadMany(r, k, c.runtime(g), k in h.held && !force, Answered(net, h.reconnectAttempted))))
    case _ => StepRef(c, r, op).1
  }

  predicate NameIsTransparent(h: Hits, r: Ref, k: string, force: bool, answered: bool) {
    if k in h.held && !force then RedisOnly.Get(r.redis, k) != Null else answered || MGet(r.redis, k) == False
  }

  /** That answer is the one a cache without the array, whose reads are answered, gives. */
  predicate Transparent(c: Config, h: Hits, r: Ref, op: Op) {
    match op
    case OpGet(g, key, force, net) =>
      var k := NameOf(c, g, key);
      c.runtime(g) || Answered(net, h.reconnectAttempted) || (k in h.held && !force) || RedisOnly.Get(r.redis, k) == False
    case OpGetMany(g, keys, force, net) =>
      c.runtime(g) || forall i :: 0 <= i < |keys| ==>
        NameIsTransparent(h, r, NameOf(c, g, keys[i]), force, Answered(net, h.reconnectAttempted))
    case _ => true
  }

  function RunCached(c: Config, st: State, ops: seq<Op>): (State, seq<Out>)
    decreases |ops|
  {
    if ops == [] then (st, [])
    else
      var (s, out) := StepCached(c, st, ops[0]);
      var (s', outs) := RunCached(c, s, ops[1..]);
      (s', [out] + outs)
  }

  function RunRef(c: Config, r: Ref, ops: seq<Op>): (Ref, seq<Out>)
    decreases |ops|
  {
    if ops == [] then (r, [])
    else
      var (s, out) := StepRef(c, r, ops[0]);
      var (s', outs) := RunRef(c, s, ops[1..]);
      (s', [out] + outs)
  }

  /** The answers of a run, from what the cache without the array holds before each call. */
  function RunAnswers(c: Config, st: State, r: Ref, ops: seq<Op>): seq<Out>
    decreases |ops|
  {
    if ops == [] then []
    else [AnswerOf(c, HitsOf(st), r, ops[0])] + RunAnswers(c, StepCached(c, st, ops[0]).0, StepRef(c, r, ops[0]).0, ops[1..])
  }

  predicate AllTransparent(c: Config, st: State, r: Ref, ops: seq<Op>)
    decreases |ops|
  {
    ops == [] || (Transparent(c, HitsOf(st), r, ops[0])
                  && AllTransparent(c, StepCached(c, st, ops[0]).0, StepRef(c, r, ops[0]).0, ops[1..]))
  }

  ghost predicate AllAllowed(c: Config, st: State, ops: seq<Op>)
    decreases |ops|
  {
    ops == [] || (Allowed(c, st, ops[0]) && AllAllowed(c, StepCached(c, st, ops[0]).0, ops[1..]))
  }

  ghost predicate Agrees(c: Config, st: State) {
    Coherent(st) && WellNamed(c, st)
  }

  /** What an operation on some names leaves alone: every other entry of the array. */
  ghost predicate ChangesOnly(st: State, st': State, names: set<string>, runtime: bool) {
    && (forall k :: k in st'.cache && k !in names ==> k in st.cache && (k in st'.runtimeKeys <==> k in st.runtimeKeys))
    && (forall k :: k in names ==> Clean(st', k, runtime))
  }

  predicate IsKeyed(op: Op) {
    !op.OpFlush? && !op.OpFlushRuntime? && !op.OpFlushGroup?
  }

  /** The names an operation is about. */
  function Touched(c: Config, op: Op): set<string>
    requires IsKeyed(op)
  {
    if op.OpGetMany? then NamesOf(c, op.group, op.keys)
    else if op.OpSetMany? then set i | 0 <= i < |op.data| :: NameOf(c, op.group, op.data[i].0)
    else {NameOf(c, op.group, op.key)}
  }

  lemma TouchedIsClean(c: Config, st: State, op: Op)
    requires ValidConfig(c) && WellNamed(c, st) && IsKeyed(op) && ':' !in op.group
    ensures forall k :: k in Touched(c, op) ==> Clean(st, k, c.runtime(op.group))
    ensures forall k :: k in Touched(c, op) ==> exists key :: k == NameOf(c, op.group, key)
  {
    forall k | k in Touched(c, op)
      ensures Clean(st, k, c.runtime(op.group)) && exists key :: k == NameOf(c, op.group, key)
    {
      var key :| k == NameOf(c, op.group, key);
      NamesAreClean(c, st, op.group, key);
    }
  }

  lemma OneChangesOnly(c: Config, st: State, op: Op)
    requires IsKeyed(op) && !op.OpGetMany? && !op.OpSetMany? && Clean(st, NameOf(c, op.group, op.key), c.runtime(op.group))
    ensures ChangesOnly(st, StepCached(c, st, op).0, {NameOf(c, op.group, op.key)}, c.runtime(op.group))
  {
  }

  lemma GetManyChangesOnly(st: State, names: set<string>, runtime: bool, force: bool, net: Net)
    requires forall k :: k in names ==> Clean(st, k, runtime)
    ensures ChangesOnly(st, GetMany(st, names, runtime, force, net), names, runtime)
  {
  }

  lemma {:induction false} SetManyChangesOnly(st: State, items: seq<(string, Value)>, names: set<string>, runtime: bool, net: Net,
                                              refused: set<string>, applied: set<string>)
    requires forall k :: k in names ==> Clean(st, k, runtime)
    requires forall i :: 0 <= i < |items| ==> items[i].0 in names
    ensures ChangesOnly(st, SetMany(st, items, runtime, net, refused, applied), names, runtime)
    decreases |items|
  {
    if items != [] {
      SetManyChangesOnly(st, items[..|items| - 1], names, runtime, net, refused, applied);
    }
  }

  lemma KeyedChangesOnly(c: Config, st: State, op: Op)
    requires IsKeyed(op) && forall k :: k in Touched(c, op) ==> Clean(st, k, c.runtime(op.group))
    ensures ChangesOnly(st, StepCached(c, st, op).0, Touched(c, op), c.runtime(op.group))
  {
    match op
    case OpGetMany(g, keys, force, net) => GetManyChangesOnly(st, NamesOf(c, g, keys), c.runtime(g), force, net);
    case OpSetMany(g, data, net, refused, applied) =>
      SetManyChangesOnly(st, Named(c, g, data), Touched(c, op), c.runtime(g), net, refused, applied);
    case _ => OneChangesOnly(c, st, op);
  }

  lemma {:induction false} ChangesKeepNames(c: Config, st: State, st': State, group: string, names: set<string>)
    requires WellNamed(c, st) && ':' !in group
    requires forall k :: k in names ==> exists key :: k == NameOf(c, group, key)
    requires ChangesOnly(st, st', names, c.runtime(group))
    ensures WellNamed(c, st')
  {
    forall k | k in st'.cache
      ensures exists g, key :: k == NameOf(c, g, key) && ':' !in g && (k in st'.runtimeKeys <==> c.runtime(g))
    {
      if k in names {
        var key :| k == NameOf(c, group, key);
        assert k == NameOf(c, group, key) && ':' !in group && (k in st'.runtimeKeys <==> c.runtime(group));
      }
    }
  }

  /** The entries an operation leaves under its names are of the group's kind; the others stay as they were. */
  lemma {:induction false} StepKeepsNames(c: Config, st: State, op: Op)
    requires ValidConfig(c) && Agrees(c, st) && Allowed(c, st, op)
    ensures WellNamed(c, StepCached(c, st, op).0)
  {
    var st' := StepCached(c, st, op).0;
    if IsKeyed(op) {
      TouchedIsClean(c, st, op);
      KeyedChangesOnly(c, st, op);
      ChangesKeepNames(c, st, st', op.group, Touched(c, op));
    } else {
      assert forall k :: k in st'.cache ==> k in st.cache && (k in st'.runtimeKeys <==> k in st.runtimeKeys);
    }
  }

  lemma GetManyStep(c: Config, st: State, op: Op)
    requires op.OpGetMany? && Coherent(st)
    requires forall k :: k in Touched(c, op) ==> Clean(st, k, c.runtime(op.group))
    ensures var (st', out) := StepCached(c, st, op);
            Coherent(st') && Abs(st') == Abs(st) && out == AnswerOf(c, HitsOf(st), Abs(st), op)
  {
    var g, keys, runtime := op.group, op.keys, c.runtime(op.group);
    var answered := Answered(op.net, st.reconnectAttempted);
    GetManyKeepsAgreement(st, NamesOf(c, g, keys), runtime, op.force, op.net);
    forall i | 0 <= i < |keys|
      ensures var k := NameOf(c, g, keys[i]);
              GetManyValue(st, k, runtime, op.force, answered) == ReadMany(Abs(st), k, runtime, k in st.cache && !op.force, answered)
    {
      assert Clean(st, NameOf(c, g, keys[i]), runtime);
    }
  }

  lemma OneKeyStep(c: Config, st: State, op: Op)
    requires IsKeyed(op) && !op.OpGetMany? && !op.OpSetMany? && Coherent(st) && Allowed(c, st, op)
    requires Clean(st, NameOf(c, op.group, op.key), c.runtime(op.group))
    ensures var (st', out) := StepCached(c, st, op);
            Coherent(st') && Abs(st') == StepRef(c, Abs(st), op).0 && out == AnswerOf(c, HitsOf(st), Abs(st), op)
  {
    var k, runtime := NameOf(c, op.group, op.key), c.runtime(op.group);
    match op
    case OpAdd(_, _, v, net) => AddRefines(st, k, runtime, v, net);
    case OpReplace(_, _, v, net) => ReplaceRefines(st, k, runtime, v, net);
    case OpSet(_, _, v, net) => SetRefines(st, k, runtime, v, net);
    case OpGet(_, _, force, net) => GetRefines(st, k, runtime, force, net);
    case OpDelete(_, _, net) => DeleteRefines(st, k, runtime, net);
    case OpIncr(_, _, n, net) => IncrRefines(st, k, runtime, c.intOf, n, net);
  }

  /** One call: agreement and storage as without the array, and the answer AnswerOf says. */
  lemma {:induction false} StepRefines(c: Config, st: State, op: Op)
    requires ValidConfig(c) && Agrees(c, st) && Allowed(c, st, op)
    ensures var (st', out) := StepCached(c, st, op);
            Coherent(st') && Abs(st') == StepRef(c, Abs(st), op).0 && out == AnswerOf(c, HitsOf(st), Abs(st), op)
  {
    if IsKeyed(op) {
      TouchedIsClean(c, st, op);
      assert !op.OpGetMany? && !op.OpSetMany? ==> NameOf(c, op.group, op.key) in Touched(c, op);
    }
    match op
    case OpGetMany(_, _, _, _) => GetManyStep(c, st, op);
    case OpSetMany(g, data, net, refused, applied) =>
      SetManyRefines(st, Named(c, g, data), c.runtime(g), net, refused, applied);
    case OpFlush(whole, net, partial) =>
      assert Abs(StepCached(c, st, op).0).memory == map[];
    case OpFlushRuntime =>
      assert Abs(StepCached(c, st, op).0).memory == map[];
    case OpFlushGroup(g, net, partial) => FlushGroupRefines(c, st, g, net, partial);
    case _ => OneKeyStep(c, st, op);
  }

  /**
   * The array never disagrees with Redis: over any sequence of calls of a request on one site,
   * whatever becomes of the reads, from an array that agrees with Redis, it still agrees at the
   * end, Redis and the non-persistent groups are as a cache without the array leaves them, and
   * every answer is the one that cache's values give: a hit or an answered read its value, and
   * an unanswered read without a hit false.
   */
  lemma {:induction false} CacheRefinesRedisOnly(c: Config, st: State, ops: seq<Op>)
    requires ValidConfig(c) && Agrees(c, st) && AllAllowed(c, st, ops)
    ensures var (st', outs) := RunCached(c, st, ops);
            && Agrees(c, st')
            && Abs(st') == RunRef(c, Abs(st), ops).0
            && outs == RunAnswers(c, st, Abs(st), ops)
    decreases |ops|
  {
    if ops != [] {
      StepRefines(c, st, ops[0]);
      StepKeepsNames(c, st, ops[0]);
      CacheRefinesRedisOnly(c, StepCached(c, st, ops[0]).0, ops[1..]);
    }
  }

  lemma TransparentStep(c: Config, h: Hits, r: Ref, op: Op)
    ensures AnswerOf(c, h, r, op) == StepRef(c, r, op).1 <==> Transparent(c, h, r, op)
  {
    if op.OpGetMany? {
      var a, b, answered := AnswerOf(c, h, r, op).values, StepRef(c, r, op).1.values, Answered(op.net, h.reconnectAttempted);
      forall i | 0 <= i < |op.keys|
        ensures a[i] == b[i] <==> c.runtime(op.group) || NameIsTransparent(h, r, NameOf(c, op.group, op.keys[i]), op.force, answered)
      {
      }
      if Transparent(c, h, r, op) {
        assert a == b;
      } else {
        var i :| 0 <= i < |op.keys| && !NameIsTransparent(h, r, NameOf(c, op.group, op.keys[i]), op.force, answered);
        assert a[i] != b[i];
      }
    }
  }

  lemma {:induction false} TransparentRun(c: Config, st: State, r: Ref, ops: seq<Op>)
    ensures RunAnswers(c, st, r, ops) == RunRef(c, r, ops).1 <==> AllTransparent(c, st, r, ops)
    decreases |ops|
  {
    if ops != [] {
      var a, b := RunAnswers(c, st, r, ops), RunRef(c, r, ops).1;
      TransparentStep(c, HitsOf(st), r, ops[0]);
      TransparentRun(c, StepCached(c, st, ops[0]).0, StepRef(c, r, ops[0]).0, ops[1..]);
      assert a == b <==> a[0] == b[0] && a[1..] == b[1..];
    }
  }

  /**
   * The array is invisible in the answers exactly when every read is transparent: it is answered,
   * a hit, of a non-persistent group or of a key Redis does not hold, and get_multiple hits no null.
   */
  lemma AnswersAsWithoutArray(c: Config, st: State, ops: seq<Op>)
    requires ValidConfig(c) && Agrees(c, st) && AllAllowed(c, st, ops)
    ensures RunCached(c, st, ops).1 == RunRef(c, Abs(st), ops).1 <==> AllTransparent(c, st, Abs(st), ops)
  {
    CacheRefinesRedisOnly(c, st, ops);
    TransparentRun(c, st, Abs(st), ops);
  }
}
