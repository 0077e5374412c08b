/**
 * WPMgr_Object_Cache as an object: its fields, the memos, and every operation proved against
 * the value-level specification of module CacheSpec.
 *
 * The memo of group parts is invisible: BuildKey returns the unmemoised name in every state the
 * methods can reach, because every method keeps Valid().
 */
module ObjectCache {
  import opened Strings
  import opened CacheKeys
  import opened RedisOnly
  import Spec = CacheSpec
  import GroupFlush

  predicate ValidKey(key: string) {
    Trim(key) != ""
  }

  /** A key is valid exactly when some character of it is no blank. */
  lemma ValidKeyHasText(key: string)
    ensures ValidKey(key) <==> exists i :: 0 <= i < |key| && key[i] !in BLANKS
  {
    var from, to := TrimFindsText(key);
    if from < to {
      assert key[from] !in BLANKS;
    }
  }

  class Cache {
    const prefix: string
    const isMultisite: bool
    const arrayMode: bool
    const fnmatch: (string, string) -> bool  // a pattern with '*' that matches a group
    const intOf: Value -> int                // PHP's (int) cast
    var blogId: int
    var globalGroups: set<string>
    var nonPersistentGroups: set<string>
    var wildcardMemo: map<string, bool>
    var keyPrefixMemo: map<string, string>
    var cache: Keyspace                      // the array
    var redis: Keyspace                      // the server
    var reconnectAttempted: bool
    ghost var reconnects: nat                // how often this request has dialled again
    ghost var runtimeKeys: set<string>       // the array's entries that are not in Redis by design

    constructor (rawPrefix: string, isMultisite: bool, blogId: int, arrayMode: bool, globals: set<string>,
                 nonPersistent: set<string>, fnmatch: (string, string) -> bool, intOf: Value -> int, redis: Keyspace)
      ensures Valid() && prefix == SanitizePrefix(rawPrefix)
      ensures this.isMultisite == isMultisite && this.arrayMode == arrayMode && this.blogId == blogId
      ensures globalGroups == globals && nonPersistentGroups == nonPersistent
      ensures this.fnmatch == fnmatch && this.intOf == intOf
      ensures View() == Spec.State(map[], redis, {}, false)
    {
      prefix := SanitizePrefix(rawPrefix);
      this.isMultisite, this.arrayMode, this.blogId := isMultisite, arrayMode, blogId;
      this.fnmatch, this.intOf := fnmatch, intOf;
      globalGroups, nonPersistentGroups := globals, nonPersistent;
      wildcardMemo, keyPrefixMemo, cache, this.redis := map[], map[], map[], redis;
      reconnectAttempted, reconnects, runtimeKeys := false, 0, {};
    }

    ghost function View(): Spec.State
      reads this`cache, this`redis, this`runtimeKeys, this`reconnectAttempted
    {
      Spec.State(cache, redis, runtimeKeys, reconnectAttempted)
    }

    ghost function ScopeOf(group: string): Scope
      reads this`globalGroups, this`blogId
    {
      if group in globalGroups then Global else Blog(blogId)
    }

    /** The unmemoised name of a key. */
    ghost function Name(group: string, key: string): string
      reads this`globalGroups, this`blogId
    {
      KeyName(prefix, ScopeOf(group), group, key)
    }

    /** The answer isNonPersistent gives: the registry, else the memo, else the patterns. */
    ghost predicate NonPersistent(group: string)
      reads this`nonPersistentGroups, this`wildcardMemo
    {
      || group in nonPersistentGroups
      || (if "np_" + group in wildcardMemo then wildcardMemo["np_" + group]
          else exists p :: p in nonPersistentGroups && fnmatch(p, group))
    }

    ghost predicate IsRuntime(group: string)
      reads this`nonPersistentGroups, this`wildcardMemo
    {
      NonPersistent(group) || arrayMode
    }

    /** The request has dialled again once if the flag is up, and else never. */
    ghost predicate OneReconnect()
      reads this`reconnectAttempted, this`reconnects
    {
      reconnects == if reconnectAttempted then 1 else 0
    }

    /** The memos hold nothing but what the unmemoised formulas give. */
    ghost predicate Valid()
      reads this`keyPrefixMemo, this`wildcardMemo, this`nonPersistentGroups, this`reconnectAttempted, this`reconnects
    {
      && IsPrefix(prefix) && OneReconnect()
      && (forall scope, group :: MemoKey(scope, group) in keyPrefixMemo
            ==> keyPrefixMemo[MemoKey(scope, group)] == GroupPart(prefix, scope, group))
      && (forall g :: "np_" + g in wildcardMemo && wildcardMemo["np_" + g]
            ==> exists p :: p in nonPersistentGroups && fnmatch(p, g))
    }

    /** The memoised name of a key: always the unmemoised one. */
    method BuildKey(key: string, group: string) returns (k: string)
      requires Valid()
      modifies this`keyPrefixMemo
      ensures k == Name(group, key)
      ensures Valid()
    {
      var scope := if group in globalGroups then Global else Blog(blogId);
      var memoKey := group + ":" + if scope.Global? then "g" else Decimal(blogId);
      assert memoKey == MemoKey(scope, group);
      if memoKey !in keyPrefixMemo {
        var part := if scope.Global? then prefix + ":" + group + ":" else prefix + ":" + Decimal(blogId) + ":" + group + ":";
        keyPrefixMemo := keyPrefixMemo[memoKey := part];
        forall s, g | MemoKey(s, g) in keyPrefixMemo
          ensures keyPrefixMemo[MemoKey(s, g)] == GroupPart(prefix, s, g)
        {
          if MemoKey(s, g) == memoKey {
            MemoKeysAreUnambiguous(s, g, scope, group);
          }
        }
      }
      k := keyPrefixMemo[memoKey] + key;
    }

    method IsNonPersistent(group: string) returns (b: bool)
      requires Valid()
      modifies this`wildcardMemo
      ensures b == old(NonPersistent(group))
      ensures forall g :: NonPersistent(g) == old(NonPersistent(g))
      ensures Valid()
    {
      if group in nonPersistentGroups {
        return true;
      }
      if "np_" + group in wildcardMemo {
        return wildcardMemo["np_" + group];
      }
      b := false;
      var patterns := nonPersistentGroups;
      while patterns != {} && !b
        invariant patterns <= nonPersistentGroups
        invariant b ==> exists p :: p in nonPersistentGroups && fnmatch(p, group)
        invariant !b ==> forall p :: p in nonPersistentGroups - patterns ==> !fnmatch(p, group)
        decreases patterns
      {
        var p :| p in patterns;
        patterns := patterns - {p};
        b := fnmatch(p, group);
      }
      wildcardMemo := wildcardMemo["np_" + group := b];
      forall g ensures NonPersistent(g) == old(NonPersistent(g)) {
        if "np_" + g == "np_" + group {
          assert g == ("np_" + g)[3..] == ("np_" + group)[3..] == group;
        }
      }
      forall g | "np_" + g in wildcardMemo && wildcardMemo["np_" + g]
        ensures exists p :: p in nonPersistentGroups && fnmatch(p, g)
      {
        if "np_" + g == "np_" + group {
          assert g == ("np_" + g)[3..] == ("np_" + group)[3..] == group;
        }
      }
    }

    method SwitchToBlog(id: int)
      requires Valid()
      modifies this`blogId, this`wildcardMemo, this`keyPrefixMemo
      ensures Valid()
      ensures blogId == if isMultisite then id else old(blogId)
    {
      if !isMultisite || blogId == id {
        return;
      }
      blogId, wildcardMemo, keyPrefixMemo := id, map[], map[];
    }

    method Init(id: int)
      requires Valid()
      modifies this`blogId
      ensures Valid() && blogId == id
    {
      blogId := id;
    }

    method AddGlobalGroup(group: string)
      requires Valid()
      modifies this`globalGroups, this`wildcardMemo, this`keyPrefixMemo
      ensures Valid()
      ensures globalGroups == if group == "" then old(globalGroups) else old(globalGroups) + {group}
    {
      if group == "" {
        return;
      }
      globalGroups := globalGroups + {group};
      wildcardMemo := wildcardMemo - {group};
      keyPrefixMemo := keyPrefixMemo - {group + ":g", group + ":" + Decimal(blogId)};
    }

    /** A group once reported non-persistent stays so. */
    method AddNonPersistentGroup(group: string)
      requires Valid()
      modifies this`nonPersistentGroups, this`wildcardMemo
      ensures Valid()
      ensures nonPersistentGroups == if group == "" then old(nonPersistentGroups) else old(nonPersistentGroups) + {group}
      ensures forall g :: old(NonPersistent(g)) ==> NonPersistent(g)
    {
      if group == "" {
        return;
      }
      nonPersistentGroups := nonPersistentGroups + {group};
      wildcardMemo := wildcardMemo - {group};
      forall g | old(NonPersistent(g)) ensures NonPersistent(g) {
        assert forall p :: p in old(nonPersistentGroups) ==> p in nonPersistentGroups;
      }
    }

    /**
     * Groups do not share names: two raw groups whose texts without surrounding blanks differ, and
     * are neither "", "0" nor "default", have different names for every two keys.
     */
    lemma GroupsAreApart(raw1: string, t1: string, key1: string, raw2: string, t2: string, key2: string)
      requires Valid() && IsTrimmed(raw1, t1) && IsTrimmed(raw2, t2) && t1 != t2
      requires t1 !in {"", "0", "default"} && t2 !in {"", "0", "default"} && ':' !in t1 && ':' !in t2
      requires forall g :: g in globalGroups ==> !IsNumeral(g)
      ensures Name(NormalizeGroup(raw1), key1) != Name(NormalizeGroup(raw2), key2)
    {
      GroupIsTrimmedText(raw1, t1);
      GroupIsTrimmedText(raw2, t2);
      if Name(t1, key1) == Name(t2, key2) {
        KeysAreUnambiguous(prefix, ScopeOf(t1), t1, key1, ScopeOf(t2), t2, key2);
      }
    }

    /** And keys of one group do not. */
    lemma KeysAreApart(raw: string, key1: string, key2: string)
      requires Valid() && key1 != key2
      ensures Name(NormalizeGroup(raw), key1) != Name(NormalizeGroup(raw), key2)
    {
      var part := GroupPart(prefix, ScopeOf(NormalizeGroup(raw)), NormalizeGroup(raw));
      assert (part + key1)[|part|..] == key1 && (part + key2)[|part|..] == key2;
    }

    /** What every operation on a key begins with: the name, and whether Redis is left out. */
    method Resolve(key: string, group: string) returns (k: string, runtime: bool)
      requires Valid()
      modifies this`wildcardMemo, this`keyPrefixMemo
      ensures k == Name(group, key) && runtime == IsRuntime(group)
      ensures forall g :: NonPersistent(g) == old(NonPersistent(g))
      ensures Valid()
    {
      k := BuildKey(key, group);
      runtime := IsNonPersistent(group);
      runtime := runtime || arrayMode;
    }

    /** storeL1; `runtime` only records how the entry came about. */
    method StoreL1(k: string, v: Value, ghost runtime: bool)
      modifies this`cache, this`runtimeKeys
      ensures View() == Spec.Store(old(View()), k, v, runtime)
    {
      cache := cache[k := v];
      runtimeKeys := if runtime then runtimeKeys + {k} else runtimeKeys - {k};
    }

    method Add(key: string, data: Value, rawGroup: string, suspended: bool, net: Net) returns (ok: bool)
      requires Valid()
      modifies this`cache, this`redis, this`wildcardMemo, this`keyPrefixMemo, this`runtimeKeys
      ensures Valid() && forall g :: NonPersistent(g) == old(NonPersistent(g))
      ensures suspended || !ValidKey(key) ==> !ok && View() == old(View())
      ensures !suspended && ValidKey(key) ==>
        var group := NormalizeGroup(rawGroup);
        && (View(), ok) == Spec.Add(old(View()), Name(group, key), IsRuntime(group), data, net)
        && Spec.AddMeans(old(View()), View(), ok, Name(group, key), IsRuntime(group), data, net)
    {
      if suspended || !ValidKey(key) {
        return false;
      }
      var group := NormalizeGroup(rawGroup);
      var k, runtime := Resolve(key, group);
      ok := AddResolved(k, runtime, data, net);
    }

    method AddResolved(k: string, runtime: bool, data: Value, net: Net) returns (ok: bool)
      modifies this`cache, this`redis, this`runtimeKeys
      ensures (View(), ok) == Spec.Add(old(View()), k, runtime, data, net)
      ensures Spec.AddMeans(old(View()), View(), ok, k, runtime, data, net)
    {
      Spec.AddsMean(View(), k, runtime, data, net);
      if k in cache {
        return false;
      }
      if runtime {
        StoreL1(k, data, true);
        return true;
      }
      var reply := RedisOnly.Add(redis, k, data, net);
      redis, ok := reply.0, reply.1;
      if ok {
        StoreL1(k, data, false);
      }
    }

    method Replace(key: string, data: Value, rawGroup: string, net: Net) returns (ok: bool)
      requires Valid()
      modifies this`cache, this`redis, this`wildcardMemo, this`keyPrefixMemo, this`runtimeKeys
      ensures Valid() && forall g :: NonPersistent(g) == old(NonPersistent(g))
      ensures !ValidKey(key) ==> !ok && View() == old(View())
      ensures ValidKey(key) ==>
        var group := NormalizeGroup(rawGroup);
        && (View(), ok) == Spec.Replace(old(View()), Name(group, key), IsRuntime(group), data, net)
        && Spec.ReplaceMeans(old(View()), View(), ok, Name(group, key), IsRuntime(group), data, net)
    {
      if !ValidKey(key) {
        return false;
      }
      var group := NormalizeGroup(rawGroup);
      var k, runtime := Resolve(key, group);
      ok := ReplaceResolved(k, runtime, data, net);
    }

    method ReplaceResolved(k: string, runtime: bool, data: Value, net: Net) returns (ok: bool)
      modifies this`cache, this`redis, this`runtimeKeys
      ensures (View(), ok) == Spec.Replace(old(View()), k, runtime, data, net)
      ensures Spec.ReplaceMeans(old(View()), View(), ok, k, runtime, data, net)
    {
      Spec.AddsMean(View(), k, runtime, data, net);
      if runtime {
        if k !in cache {
          return false;
        }
        StoreL1(k, data, true);
        return true;
      }
      var reply := RedisOnly.Replace(redis, k, data, net);
      redis, ok := reply.0, reply.1;
      if ok {
        StoreL1(k, data, false);
      }
    }

    method Set(key: string, data: Value, rawGroup: string, net: Net) returns (ok: bool)
      requires Valid()
      modifies this`cache, this`redis, this`wildcardMemo, this`keyPrefixMemo, this`runtimeKeys
      ensures Valid() && forall g :: NonPersistent(g) == old(NonPersistent(g))
      ensures !ValidKey(key) ==> !ok && View() == old(View())
      ensures ValidKey(key) ==>
        var group := NormalizeGroup(rawGroup);
        && (View(), ok) == Spec.Set(old(View()), Name(group, key), IsRuntime(group), data, net)
        && Spec.SetMeans(old(View()), View(), ok, Name(group, key), IsRuntime(group), data, net)
    {
      if !ValidKey(key) {
        return false;
      }
      var group := NormalizeGroup(rawGroup);
      var k, runtime := Resolve(key, group);
      ok := SetResolved(k, runtime, data, net);
    }

    method SetResolved(k: string, runtime: bool, data: Value, net: Net) returns (ok: bool)
      modifies this`cache, this`redis, this`runtimeKeys
      ensures (View(), ok) == Spec.Set(old(View()), k, runtime, data, net)
      ensures Spec.SetMeans(old(View()), View(), ok, k, runtime, data, net)
    {
      Spec.SetsMean(View(), k, runtime, data, net);
      if runtime {
        StoreL1(k, data, true);
        return true;
      }
      var reply := RedisOnly.Set(redis, k, data, net);
      redis, ok := reply.0, reply.1;
      if ok {
        StoreL1(k, data, false);
      }
    }

    /** redisOp around a read: one attempt, and after a failure at most one reconnect per request. */
    method Read(net: Net) returns (answered: bool)
      requires OneReconnect()
      modifies this`reconnectAttempted, this`reconnects
      ensures answered == Answered(net, old(reconnectAttempted))
      ensures answered <==> net.first.Completes? || (!old(reconnectAttempted) && net.reconnects && net.second.Completes?)
      ensures reconnectAttempted == (old(reconnectAttempted) || net.first.Throws?)
      ensures reconnects == old(reconnects) + if net.first.Throws? && !old(reconnectAttempted) then 1 else 0
      ensures OneReconnect() && reconnects <= 1
    {
      if net.first.Completes? {
        return true;
      }
      if reconnectAttempted {
        return false;
      }
      reconnectAttempted, reconnects := true, reconnects + 1;
      answered := net.reconnects && net.second.Completes?;
    }

    method Get(key: string, rawGroup: string, force: bool, net: Net) returns (v: Value, found: bool)
      requires Valid()
      modifies this`cache, this`wildcardMemo, this`keyPrefixMemo, this`runtimeKeys, this`reconnectAttempted, this`reconnects
      ensures Valid() && forall g :: NonPersistent(g) == old(NonPersistent(g))
      ensures !ValidKey(key) ==> v == False && !found && View() == old(View())
      ensures ValidKey(key) ==>
        var group := NormalizeGroup(rawGroup);
        && (View(), v, found) == Spec.Get(old(View()), Name(group, key), IsRuntime(group), force, net)
        && Spec.GetMeans(old(View()), View(), v, Name(group, key), IsRuntime(group), force, net)
    {
      if !ValidKey(key) {
        return False, false;
      }
      var group := NormalizeGroup(rawGroup);
      var k, runtime := Resolve(key, group);
      v, found := GetResolved(k, runtime, force, net);
    }

    method GetResolved(k: string, runtime: bool, force: bool, net: Net) returns (v: Value, found: bool)
      requires OneReconnect()
      modifies this`cache, this`runtimeKeys, this`reconnectAttempted, this`reconnects
      ensures OneReconnect() && (View(), v, found) == Spec.Get(old(View()), k, runtime, force, net)
      ensures Spec.GetMeans(old(View()), View(), v, k, runtime, force, net)
    {
      Spec.ReadsMean(View(), k, runtime, force, intOf, 0, net);
      if runtime {
        if k in cache {
          return cache[k], true;
        }
        return False, false;
      }
      if !force && k in cache {
        return cache[k], true;
      }
      var answered := Read(net);
      v := if answered then RedisOnly.Get(redis, k) else False;
      if v == False {
        return False, false;
      }
      StoreL1(k, v, false);
      found := true;
    }

    method Delete(key: string, rawGroup: string, net: Net) returns (ok: bool)
      requires Valid()
      modifies this`cache, this`redis, this`wildcardMemo, this`keyPrefixMemo, this`runtimeKeys
      ensures Valid() && forall g :: NonPersistent(g) == old(NonPersistent(g))
      ensures !ValidKey(key) ==> !ok && View() == old(View())
      ensures ValidKey(key) ==>
        var group := NormalizeGroup(rawGroup);
        && (View(), ok) == Spec.Delete(old(View()), Name(group, key), IsRuntime(group), net)
        && Spec.DeleteMeans(old(View()), View(), ok, Name(group, key), IsRuntime(group), net)
    {
      if !ValidKey(key) {
        return false;
      }
      var group := NormalizeGroup(rawGroup);
      var k, runtime := Resolve(key, group);
      ok := DeleteResolved(k, runtime, net);
    }

    method DeleteResolved(k: string, runtime: bool, net: Net) returns (ok: bool)
      modifies this`cache, this`redis, this`runtimeKeys
      ensures (View(), ok) == Spec.Delete(old(View()), k, runtime, net)
      ensures Spec.DeleteMeans(old(View()), View(), ok, k, runtime, net)
    {
      Spec.SetsMean(View(), k, runtime, False, net);
      var inL1 := k in cache;
      cache, runtimeKeys := cache - {k}, runtimeKeys - {k};
      if runtime {
        return inL1;
      }
      var reply := RedisOnly.Delete(redis, k, net);
      redis := reply.0;
      ok := net.first.Completes? && (reply.1 || inL1);
    }

    /** incr, and decr with the offset negated. */
    method Incr(key: string, offset: int, rawGroup: string, net: Net) returns (v: Value)
      requires Valid()
      modifies this`cache, this`redis, this`wildcardMemo, this`keyPrefixMemo, this`runtimeKeys
      ensures Valid() && forall g :: NonPersistent(g) == old(NonPersistent(g))
      ensures !ValidKey(key) ==> v == False && View() == old(View())
      ensures ValidKey(key) ==>
        var group := NormalizeGroup(rawGroup);
        && (View(), v) == Spec.Incr(old(View()), Name(group, key), IsRuntime(group), intOf, offset, net)
        && Spec.IncrMeans(old(View()), View(), v, Name(group, key), IsRuntime(group), intOf, offset, net)
    {
      if !ValidKey(key) {
        return False;
      }
      var group := NormalizeGroup(rawGroup);
      var k, runtime := Resolve(key, group);
      v := IncrResolved(k, runtime, offset, net);
    }

    method IncrResolved(k: string, runtime: bool, offset: int, net: Net) returns (v: Value)
      modifies this`cache, this`redis, this`runtimeKeys
      ensures (View(), v) == Spec.Incr(old(View()), k, runtime, intOf, offset, net)
      ensures Spec.IncrMeans(old(View()), View(), v, k, runtime, intOf, offset, net)
    {
      Spec.ReadsMean(View(), k, runtime, false, intOf, offset, net);
      if runtime {
        if k !in cache {
          return False;
        }
        v := Stepped(intOf, cache[k], offset);
        StoreL1(k, v, true);
        return;
      }
      var reply := RedisOnly.Incr(redis, k, intOf, offset, net);
      redis, v := reply.0, reply.1;
      if v != False {
        StoreL1(k, v, false);
      } else {
        cache, runtimeKeys := cache - {k}, runtimeKeys - {k};
      }
    }

    method FlushRuntime()
      requires Valid()
      modifies this`cache, this`keyPrefixMemo, this`runtimeKeys
      ensures Valid()
      ensures View() == old(View()).(cache := map[], runtimeKeys := {})
    {
      cache, keyPrefixMemo, runtimeKeys := map[], map[], {};
    }

    /** executeScanFlush: delete every key SCAN returns. */
    method ExecuteScanFlush(batches: seq<seq<string>>)
      requires IsScan(GroupFlush.PrefixPattern(prefix), redis.Keys, batches)
      modifies this`redis
      ensures redis == map k | k in old(redis) && !GroupFlush.PrefixDeletes(prefix, k) :: old(redis)[k]
    {
      for i := 0 to |batches|
        invariant redis == map k | k in old(redis) && !InBatches(batches[..i], k) :: old(redis)[k]
      {
        assert batches[..i + 1] == batches[..i] + [batches[i]];
        BatchesAppend(batches[..i], batches[i]);
        redis := redis - (set k | k in batches[i]);
      }
      assert batches[..|batches|] == batches;
    }

    /** executeScanFlushWithGroupFilter: delete the keys whose segment at the index is the group. */
    method ExecuteScanFlushWithGroupFilter(pattern: string, group: string, hasBlogSegment: bool, batches: seq<seq<string>>)
      requires IsScan(pattern, redis.Keys, batches)
      modifies this`redis
      ensures var index := if hasBlogSegment then 2 else 1;
              redis == map k | k in old(redis) && !(GroupFlush.Glob(pattern, k) && GroupFlush.SegmentIs(k, index, group))
                           :: old(redis)[k]
    {
      var index := if hasBlogSegment then 2 else 1;
      for i := 0 to |batches|
        invariant redis == map k | k in old(redis) && !(InBatches(batches[..i], k) && GroupFlush.SegmentIs(k, index, group))
                                :: old(redis)[k]
      {
        assert batches[..i + 1] == batches[..i] + [batches[i]];
        BatchesAppend(batches[..i], batches[i]);
        var confirmed := Confirm(batches[i], index, group);
        if confirmed != [] {
          redis := redis - (set k | k in confirmed);
        }
      }
      assert batches[..|batches|] == batches;
    }

    /** executeGroupFlush: both patterns, one after the other. */
    method ExecuteGroupFlush(group: string, globalBatches: seq<seq<string>>, blogBatches: seq<seq<string>>)
      requires IsScan(GroupFlush.GlobalPattern(prefix, group), redis.Keys, globalBatches)
      requires IsScan(GroupFlush.BlogPattern(prefix, group), redis.Keys, blogBatches)
      modifies this`redis
      ensures redis == Spec.DeleteGroup(old(redis), prefix, group)
    {
      ExecuteScanFlushWithGroupFilter(GroupFlush.GlobalPattern(prefix, group), group, false, globalBatches);
      assert redis.Keys <= old(redis).Keys;
      ExecuteScanFlushWithGroupFilter(GroupFlush.BlogPattern(prefix, group), group, true, blogBatches);
    }

    /** The eviction loop of flush_group. */
    method EvictGroup(group: string)
      modifies this`cache, this`runtimeKeys
      ensures View() == Spec.EvictGroup(old(View()), prefix, blogId, group)
    {
      var globalPart := prefix + ":" + group + ":";
      var blogPart := prefix + ":" + Decimal(blogId) + ":" + group + ":";
      var keys := cache.Keys;
      while keys != {}
        invariant keys <= old(cache).Keys && runtimeKeys == old(runtimeKeys)
        invariant cache == map k | k in old(cache) && (k in keys || !Spec.Evicts(prefix, blogId, group, k)) :: old(cache)[k]
        decreases keys
      {
        var k :| k in keys;
        keys := keys - {k};
        if globalPart <= k || blogPart <= k {
          cache := cache - {k};
        }
      }
      runtimeKeys := set k | k in runtimeKeys && !Spec.Evicts(prefix, blogId, group, k);
      assert cache == Spec.EvictGroup(old(View()), prefix, blogId, group).cache;
      assert runtimeKeys == Spec.EvictGroup(old(View()), prefix, blogId, group).runtimeKeys;
    }

    /** flush_group.  A flush that throws has deleted some of the keys it would have deleted (`partial`). */
    method FlushGroup(rawGroup: string, net: Net, globalBatches: seq<seq<string>>, blogBatches: seq<seq<string>>,
                      partial: set<string>) returns (ok: bool)
      requires Valid()
      requires IsScan(GroupFlush.GlobalPattern(prefix, NormalizeGroup(rawGroup)), redis.Keys, globalBatches)
      requires IsScan(GroupFlush.BlogPattern(prefix, NormalizeGroup(rawGroup)), redis.Keys, blogBatches)
      modifies this`cache, this`redis, this`wildcardMemo, this`runtimeKeys
      ensures Valid() && forall g :: NonPersistent(g) == old(NonPersistent(g))
      ensures var group := NormalizeGroup(rawGroup);
              && View() == Spec.FlushGroup(old(View()), prefix, blogId, group, IsRuntime(group), net, partial)
              && ok == (IsRuntime(group) || net.first.Completes?)
    {
      var group := NormalizeGroup(rawGroup);
      EvictGroup(group);
      var runtime := IsNonPersistent(group);
      if runtime || arrayMode {
        return true;
      }
      if net.first.Completes? {
        ExecuteGroupFlush(group, globalBatches, blogBatches);
        return true;
      }
      redis := redis - (set k | k in partial && GroupFlush.GroupDeletes(prefix, group, k));
      return false;
    }

    /** flush: FLUSHDB on a server of its own, else a scan of the prefix. */
    method Flush(dedicated: bool, configLoaded: bool, configFileExists: bool, net: Net, batches: seq<seq<string>>,
                 partial: set<string>) returns (ok: bool)
      requires IsScan(GroupFlush.PrefixPattern(prefix), redis.Keys, batches)
      modifies this`cache, this`redis, this`runtimeKeys
      ensures View() == Spec.Flush(old(View()), arrayMode, dedicated, prefix, net, partial)
      ensures ok == if arrayMode then configLoaded || !configFileExists else net.first.Completes?
    {
      cache, runtimeKeys := map[], {};
      if arrayMode {
        return configLoaded || !configFileExists;
      }
      if net.first.Throws? {
        redis := redis - partial;
        return false;
      }
      if dedicated {
        redis := map[];
      } else {
        ExecuteScanFlush(batches);
      }
      return true;
    }

    /** A key get_multiple has to ask Redis for. */
    ghost predicate IsMissing(key: string, group: string, runtime: bool, force: bool)
      reads this`cache, this`globalGroups, this`blogId
    {
      ValidKey(key) && !runtime && (Name(group, key) !in cache || force)
    }

    /** What the array answers for a key that is not missing. */
    ghost function FromArray(key: string, group: string): Value
      reads this`cache, this`globalGroups, this`blogId
    {
      if ValidKey(key) && Name(group, key) in cache then cache[Name(group, key)] else False
    }

    /** The first loop of get_multiple: array hits, and the keys to fetch. */
    method Partition(keys: seq<string>, group: string, runtime: bool, force: bool)
      returns (results: map<string, Value>, missing: seq<string>)
      requires Valid()
      modifies this`keyPrefixMemo
      ensures Valid()
      ensures results.Keys == set key | key in keys
      ensures forall key :: key in missing <==> key in keys && IsMissing(key, group, runtime, force)
      ensures forall key :: key in results ==> results[key] == if key in missing then False else FromArray(key, group)
    {
      results, missing := map key | key in keys :: False, [];
      for i := 0 to |keys|
        invariant Valid()
        invariant results.Keys == set key | key in keys
        invariant forall key :: key in missing <==> key in keys[..i] && IsMissing(key, group, runtime, force)
        invariant forall key :: key in results ==>
          results[key] == if key !in keys[..i] || key in missing then False else FromArray(key, group)
      {
        assert keys[..i + 1] == keys[..i] + [keys[i]];
        if ValidKey(keys[i]) {
          var k := BuildKey(keys[i], group);
          if k in cache && (runtime || !force) {
            results := results[keys[i] := cache[k]];
          } else if !runtime {
            missing := missing + [keys[i]];
          }
        }
      }
      assert keys[..|keys|] == keys;
    }

    /** One element of MGET's reply. */
    method TakeReply(key: string, group: string, before: map<string, Value>) returns (results: map<string, Value>)
      requires Valid()
      modifies this`cache, this`keyPrefixMemo, this`runtimeKeys
      ensures Valid()
      ensures var k, v := Name(group, key), MGet(redis, Name(group, key));
              && View() == (if v != False then Spec.Store(old(View()), k, v, false) else old(View()))
              && results == if v != False then before[key := v] else before
    {
      var k := BuildKey(key, group);
      var v := MGet(redis, k);
      results := before;
      if v != False {
        StoreL1(k, v, false);
        results := results[key := v];
      }
    }

    /** One turn of the loop over MGET's reply. */
    method FetchOne(key: string, group: string, before: map<string, Value>,
                    ghost was: Spec.State, ghost start: map<string, Value>, ghost done: seq<string>) returns (results: map<string, Value>)
      requires Valid() && View() == Spec.Learn(was, ValidNames(prefix, ScopeOf(group), group, done))
      requires Filled(redis, prefix, ScopeOf(group), group, start, done, before)
      requires key in start && start[key] == False && ValidKey(key)
      modifies this`cache, this`keyPrefixMemo, this`runtimeKeys
      ensures Valid() && View() == Spec.Learn(was, ValidNames(prefix, ScopeOf(group), group, done + [key]))
      ensures Filled(redis, prefix, ScopeOf(group), group, start, done + [key], results)
    {
      LearnNext(was, prefix, ScopeOf(group), group, done, key);
      FilledNext(redis, prefix, ScopeOf(group), group, start, done, before, key);
      results := TakeReply(key, group, before);
    }

    /** The loop over MGET's reply. */
    method Fetch(missing: seq<string>, group: string, before: map<string, Value>) returns (results: map<string, Value>)
      requires Valid() && forall key :: key in missing ==> key in before && before[key] == False && ValidKey(key)
      modifies this`cache, this`keyPrefixMemo, this`runtimeKeys
      ensures Valid() && View() == Spec.Learn(old(View()), ValidNames(prefix, ScopeOf(group), group, missing))
      ensures Filled(redis, prefix, ScopeOf(group), group, before, missing, results)
    {
      results := before;
      ghost var scope, was := ScopeOf(group), View();
      Spec.LearnNothing(was);
      for i := 0 to |missing|
        invariant Valid() && View() == Spec.Learn(was, ValidNames(prefix, scope, group, missing[..i]))
        invariant Filled(redis, prefix, scope, group, before, missing[..i], results)
      {
        assert missing[..i + 1] == missing[..i] + [missing[i]];
        results := FetchOne(missing[i], group, results, was, before, missing[..i]);
      }
      assert missing[..|missing|] == missing;
    }

    /** MGET of the missing keys, if it is answered. */
    method Ask(missing: seq<string>, group: string, before: map<string, Value>, net: Net) returns (results: map<string, Value>)
      requires Valid() && forall key :: key in missing ==> key in before && before[key] == False && ValidKey(key)
      modifies this`cache, this`keyPrefixMemo, this`runtimeKeys, this`reconnectAttempted, this`reconnects
      ensures Valid()
      ensures var names := ValidNames(prefix, ScopeOf(group), group, missing);
              View() == if Answered(net, old(reconnectAttempted)) then Spec.Learn(Spec.AfterRead(old(View()), net), names)
                        else Spec.AfterRead(old(View()), net)
      ensures if Answered(net, old(reconnectAttempted))
              then Filled(redis, prefix, ScopeOf(group), group, before, missing, results) else results == before
    {
      results := before;
      var answered := Read(net);
      if answered {
        results := Fetch(missing, group, before);
      }
    }

    /** get_multiple once the group is known. */
    method ReadMany(keys: seq<string>, group: string, runtime: bool, force: bool, net: Net) returns (results: map<string, Value>)
      requires Valid()
      modifies this`cache, this`keyPrefixMemo, this`runtimeKeys, this`reconnectAttempted, this`reconnects
      ensures Valid() && View() == Spec.GetMany(old(View()), ValidNames(prefix, ScopeOf(group), group, keys), runtime, force, net)
      ensures results.Keys == set key | key in keys
      ensures forall key :: key in results ==>
        results[key] == if old(IsMissing(key, group, runtime, force))
          then (if Answered(net, old(reconnectAttempted)) then MGet(redis, Name(group, key)) else False)
          else old(FromArray(key, group))
    {
      var hits, missing := Partition(keys, group, runtime, force);
      results := hits;
      MissingNames(View(), prefix, ScopeOf(group), group, keys, missing, runtime, force);
      if missing == [] {
        assert forall key :: key in keys ==> key !in missing;
        return;
      }
      results := Ask(missing, group, hits, net);
    }

    /** get_multiple: each key's value is the one GetManyValue gives, and the array learns what MGET answered. */
    method GetMultiple(keys: seq<string>, rawGroup: string, force: bool, net: Net) returns (results: map<string, Value>)
      requires Valid()
      modifies this`cache, this`wildcardMemo, this`keyPrefixMemo, this`runtimeKeys, this`reconnectAttempted, this`reconnects
      ensures Valid() && forall g :: NonPersistent(g) == old(NonPersistent(g))
      ensures var group := NormalizeGroup(rawGroup);
              View() == Spec.GetMany(old(View()), ValidNames(prefix, ScopeOf(group), group, keys), IsRuntime(group), force, net)
      ensures results.Keys == set key | key in keys
      ensures forall key :: key in results && !ValidKey(key) ==> results[key] == False
      ensures var group, answered := NormalizeGroup(rawGroup), Answered(net, old(reconnectAttempted));
              forall key :: key in results && ValidKey(key) ==>
                results[key] == Spec.GetManyValue(old(View()), Name(group, key), IsRuntime(group), force, answered)
    {
      var group := NormalizeGroup(rawGroup);
      var runtime := IsNonPersistent(group);
      runtime := runtime || arrayMode;
      results := ReadMany(keys, group, runtime, force, net);
    }

    /** The first loop of set_multiple: the valid keys, with their names. */
    method NameAll(data: seq<(string, Value)>, group: string) returns (items: seq<(string, Value)>)
      requires Valid()
      modifies this`keyPrefixMemo
      ensures Valid()
      ensures items == Named(prefix, ScopeOf(group), group, data)
    {
      items := [];
      for i := 0 to |data|
        invariant Valid()
        invariant items == Named(prefix, ScopeOf(group), group, data[..i])
      {
        assert data[..i + 1][..i] == data[..i];
        if ValidKey(data[i].0) {
          var k := BuildKey(data[i].0, group);
          items := items + [(k, data[i].1)];
        }
      }
      assert data[..|data|] == data;
    }

    /** The pipeline of set_multiple: one set after another, each with its own reply or its share of a throw. */
    method PipeAll(items: seq<(string, Value)>, runtime: bool, net: Net, refused: set<string>, applied: set<string>)
      returns (stored: set<string>)
      modifies this`cache, this`redis, this`runtimeKeys
      ensures View() == Spec.SetMany(old(View()), items, runtime, net, refused, applied)
      ensures forall k :: k in stored <==> k in NamesOf(items) && (runtime || (net.first.Completes? && k !in refused))
    {
      stored := {};
      for i := 0 to |items|
        invariant View() == Spec.SetMany(old(View()), items[..i], runtime, net, refused, applied)
        invariant forall k :: k in stored <==> k in NamesOf(items[..i]) && (runtime || (net.first.Completes? && k !in refused))
      {
        assert items[..i + 1][..i] == items[..i];
        assert NamesOf(items[..i + 1]) == NamesOf(items[..i]) + {items[i].0};
        var ok := SetResolved(items[i].0, runtime, items[i].1, Spec.PipeNet(net, items[i].0, refused, applied));
        if ok {
          stored := stored + {items[i].0};
        }
      }
      assert items[..|items|] == items;
    }

    /** set_multiple once the group is known. */
    method SetNamed(data: seq<(string, Value)>, group: string, runtime: bool, net: Net, refused: set<string>, applied: set<string>)
      returns (results: map<string, bool>)
      requires Valid()
      modifies this`cache, this`redis, this`keyPrefixMemo, this`runtimeKeys
      ensures Valid()
      ensures View() == Spec.SetMany(old(View()), Named(prefix, ScopeOf(group), group, data), runtime, net, refused, applied)
      ensures results.Keys == set i | 0 <= i < |data| :: data[i].0
      ensures forall key :: key in results ==>
        (results[key] <==> ValidKey(key) && (runtime || (net.first.Completes? && Name(group, key) !in refused)))
    {
      var items := NameAll(data, group);
      var stored := PipeAll(items, runtime, net, refused, applied);
      results := Answers(data, group, stored);
      NamedHasAll(prefix, ScopeOf(group), group, data);
    }

    /** set_multiple: the state of one set after another, and true for exactly the pairs stored. */
    method SetMultiple(data: seq<(string, Value)>, rawGroup: string, net: Net, refused: set<string>, applied: set<string>)
      returns (results: map<string, bool>)
      requires Valid()
      modifies this`cache, this`redis, this`wildcardMemo, this`keyPrefixMemo, this`runtimeKeys
      ensures Valid() && forall g :: NonPersistent(g) == old(NonPersistent(g))
      ensures var group := NormalizeGroup(rawGroup);
              View() == Spec.SetMany(old(View()), Named(prefix, ScopeOf(group), group, data), IsRuntime(group), net, refused, applied)
      ensures results.Keys == set i | 0 <= i < |data| :: data[i].0
      ensures var group := NormalizeGroup(rawGroup);
              forall key :: key in results ==>
                (results[key] <==> ValidKey(key) && (IsRuntime(group) || (net.first.Completes? && Name(group, key) !in refused)))
    {
      var group := NormalizeGroup(rawGroup);
      var runtime := IsNonPersistent(group);
      runtime := runtime || arrayMode;
      results := SetNamed(data, group, runtime, net, refused, applied);
    }

    /** set_multiple's results: true for the keys whose name was stored. */
    method Answers(data: seq<(string, Value)>, group: string, stored: set<string>) returns (results: map<string, bool>)
      requires Valid()
      modifies this`keyPrefixMemo
      ensures Valid()
      ensures results.Keys == set i | 0 <= i < |data| :: data[i].0
      ensures forall key :: key in results ==> (results[key] <==> ValidKey(key) && Name(group, key) in stored)
    {
      results := map[];
      for i := 0 to |data|
        invariant Valid()
        invariant results.Keys == set j | 0 <= j < i :: data[j].0
        invariant forall key :: key in results ==> (results[key] <==> ValidKey(key) && Name(group, key) in stored)
      {
        var ok := ValidKey(data[i].0);
        if ok {
          var k := BuildKey(data[i].0, group);
          ok := k in stored;
        }
        results := results[data[i].0 := ok];
      }
    }
  }

  /** A key of a global group has the same name on every blog. */
  lemma GlobalGroupsAreShared(c: Cache, d: Cache, group: string, key: string)
    requires c.prefix == d.prefix && group in c.globalGroups && group in d.globalGroups
    ensures c.Name(group, key) == d.Name(group, key)
  {
  }

  /** Keys of other groups have different names on different blogs. */
  lemma BlogsAreApart(c: Cache, d: Cache, g1: string, key1: string, g2: string, key2: string)
    requires c.Valid() && c.prefix == d.prefix && c.blogId != d.blogId
    requires g1 !in c.globalGroups && g2 !in d.globalGroups && ':' !in g1 && ':' !in g2
    ensures c.Name(g1, key1) != d.Name(g2, key2)
  {
    if c.Name(g1, key1) == d.Name(g2, key2) {
      KeysAreUnambiguous(c.prefix, Blog(c.blogId), g1, key1, Blog(d.blogId), g2, key2);
    }
  }

  /** The valid pairs under their names. */
  function Named(prefix: string, scope: Scope, group: string, data: seq<(string, Value)>): seq<(string, Value)> {
    if data == [] then []
    else
      var last := data[|data| - 1];
      Named(prefix, scope, group, data[..|data| - 1])
        + if ValidKey(last.0) then [(KeyName(prefix, scope, group, last.0), last.1)] else []
  }

  function NamesOf(items: seq<(string, Value)>): set<string> {
    set i | 0 <= i < |items| :: items[i].0
  }

  lemma {:induction false} NamedHas(prefix: string, scope: Scope, group: string, data: seq<(string, Value)>, i: nat)
    requires i < |data| && ValidKey(data[i].0)
    ensures KeyName(prefix, scope, group, data[i].0) in NamesOf(Named(prefix, scope, group, data))
  {
    var items := Named(prefix, scope, group, data);
    if i == |data| - 1 {
      assert items[|items| - 1].0 == KeyName(prefix, scope, group, data[i].0);
    } else {
      NamedHas(prefix, scope, group, data[..|data| - 1], i);
      var before := Named(prefix, scope, group, data[..|data| - 1]);
      assert forall j :: 0 <= j < |before| ==> items[j] == before[j];
    }
  }

  /** The names of the valid keys. */
  ghost function ValidNames(prefix: string, scope: Scope, group: string, keys: seq<string>): set<string> {
    set key | key in keys && ValidKey(key) :: KeyName(prefix, scope, group, key)
  }

  lemma LearnNext(st: Spec.State, prefix: string, scope: Scope, group: string, keys: seq<string>, key: string)
    requires ValidKey(key)
    ensures var k, before := KeyName(prefix, scope, group, key), Spec.Learn(st, ValidNames(prefix, scope, group, keys));
            Spec.Learn(st, ValidNames(prefix, scope, group, keys + [key]))
              == if MGet(st.redis, k) != False then Spec.Store(before, k, MGet(st.redis, k), false) else before
  {
    var k := KeyName(prefix, scope, group, key);
    assert ValidNames(prefix, scope, group, keys + [key]) == ValidNames(prefix, scope, group, keys) + {k};
    Spec.LearnOne(st, ValidNames(prefix, scope, group, keys), k);
  }

  /** The results once the replies to `done` have been taken. */
  ghost predicate Filled(m: Keyspace, prefix: string, scope: Scope, group: string,
                         before: map<string, Value>, done: seq<string>, results: map<string, Value>)
  {
    && results.Keys == before.Keys
    && forall key :: key in results ==>
         results[key] == if key in done then MGet(m, KeyName(prefix, scope, group, key)) else before[key]
  }

  lemma FilledNext(m: Keyspace, prefix: string, scope: Scope, group: string,
                   before: map<string, Value>, done: seq<string>, results: map<string, Value>, key: string)
    requires Filled(m, prefix, scope, group, before, done, results) && key in before && before[key] == False
    ensures var v := MGet(m, KeyName(prefix, scope, group, key));
            Filled(m, prefix, scope, group, before, done + [key], if v != False then results[key := v] else results)
  {
  }

  lemma MissingNames(st: Spec.State, prefix: string, scope: Scope, group: string, keys: seq<string>, missing: seq<string>,
                     runtime: bool, force: bool)
    requires forall key :: key in missing <==>
      key in keys && ValidKey(key) && !runtime && (KeyName(prefix, scope, group, key) !in st.cache || force)
    ensures ValidNames(prefix, scope, group, missing)
         == Spec.Missing(st, ValidNames(prefix, scope, group, keys), runtime, force)
    ensures missing != [] ==> ValidNames(prefix, scope, group, missing) != {}
  {
    if missing != [] {
      assert missing[0] in missing;
      assert KeyName(prefix, scope, group, missing[0]) in ValidNames(prefix, scope, group, missing);
    }
  }

  lemma NamedHasAll(prefix: string, scope: Scope, group: string, data: seq<(string, Value)>)
    ensures forall i :: 0 <= i < |data| && ValidKey(data[i].0) ==>
              KeyName(prefix, scope, group, data[i].0) in NamesOf(Named(prefix, scope, group, data))
  {
    forall i | 0 <= i < |data| && ValidKey(data[i].0)
      ensures KeyName(prefix, scope, group, data[i].0) in NamesOf(Named(prefix, scope, group, data))
    {
      NamedHas(prefix, scope, group, data, i);
    }
  }

  /** SCAN with a pattern: every key that matches comes in some batch, and nothing else comes. */
  ghost predicate IsScan(pattern: string, keys: set<string>, batches: seq<seq<string>>) {
    && (forall k :: InBatches(batches, k) ==> GroupFlush.Glob(pattern, k))
    && (forall k :: k in keys && GroupFlush.Glob(pattern, k) ==> InBatches(batches, k))
  }

  predicate InBatches(batches: seq<seq<string>>, k: string) {
    exists i :: 0 <= i < |batches| && k in batches[i]
  }

  lemma BatchesAppend(batches: seq<seq<string>>, last: seq<string>)
    ensures forall k :: InBatches(batches + [last], k) <==> InBatches(batches, k) || k in last
  {
    forall k ensures InBatches(batches + [last], k) <==> InBatches(batches, k) || k in last {
      var all := batches + [last];
      if InBatches(batches, k) {
        var i :| 0 <= i < |batches| && k in batches[i];
        assert k in all[i];
      }
      if k in last {
        assert k in all[|batches|];
      }
    }
  }

  /** The post-filter of one batch. */
  method Confirm(keys: seq<string>, index: nat, group: string) returns (confirmed: seq<string>)
    ensures forall k :: k in confirmed <==> k in keys && GroupFlush.SegmentIs(k, index, group)
  {
    confirmed := [];
    for i := 0 to |keys|
      invariant forall k :: k in confirmed <==> k in keys[..i] && GroupFlush.SegmentIs(k, index, group)
    {
      var parts := Split(keys[i], ':');
      if index < |parts| && parts[index] == group {
        confirmed := confirmed + [keys[i]];
      }
    }
  }
}
