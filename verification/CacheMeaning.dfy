/**
 * What the bulk commands and the flushes of the object cache do to each name.
 *
 * Main results: get_multiple and set_multiple name by name (GetManyMeans, SetManyMeans), and
 * which names each flush takes out of Redis and out of the array, by their segments
 * (FlushMeans, FlushGroupMeans).
 */
module CacheMeaning {
  import opened Wrappers
  import opened Strings
  import opened CacheKeys
  import opened RedisOnly
  import opened CacheSpec
  import GroupFlush

  function Lookup(m: Keyspace, k: string): Option<Value> {
    if k in m then Some(m[k]) else None
  }

  /** get_multiple: the array's value unless forced, else a reply that is neither null nor false, which the array takes over. */
  lemma GetManyMeans(st: State, names: set<string>, runtime: bool, force: bool, net: Net, k: string)
    ensures var hit := k in st.cache && (runtime || !force);
            var reply := !hit && !runtime && Answered(net, st.reconnectAttempted)
                         && k in st.redis && st.redis[k] != Null && st.redis[k] != False;
            var st' := GetMany(st, names, runtime, force, net);
            && GetManyValue(st, k, runtime, force, Answered(net, st.reconnectAttempted))
                 == (if hit then st.cache[k] else if reply then st.redis[k] else False)
            && Lookup(st'.cache, k) == (if k in names && reply then Some(st.redis[k]) else Lookup(st.cache, k))
            && st'.redis == st.redis
  {
    var missing := Missing(st, names, runtime, force);
    assert k in missing <==> k in names && !runtime && (k !in st.cache || force);
  }

  /** It asks Redis, and may use up the reconnect of the request, only for names the array does not answer. */
  lemma GetManyAsks(st: State, names: set<string>, runtime: bool, force: bool, net: Net)
    ensures var asks := !runtime && exists k :: k in names && (k !in st.cache || force);
            var st' := GetMany(st, names, runtime, force, net);
            && (!asks ==> st' == st)
            && (st'.reconnectAttempted <==> st.reconnectAttempted || (asks && net.first.Throws?))
  {
    var missing := Missing(st, names, runtime, force);
    assert forall k :: k in missing <==> k in names && !runtime && (k !in st.cache || force);
  }

  /** set_multiple, when its pipeline completes: every name not refused has the last value given for it, in Redis and in the array. */
  lemma {:induction false} SetManyMeans(st: State, items: seq<(string, Value)>, runtime: bool, net: Net,
                                        refused: set<string>, applied: set<string>, k: string)
    requires runtime || net.first.Completes?
    ensures var st' := SetMany(st, items, runtime, net, refused, applied);
            var given := if runtime || k !in refused then LastValue(items, k) else None;
            && Lookup(st'.cache, k) == (if given.Some? then given else Lookup(st.cache, k))
            && Lookup(st'.redis, k) == (if given.Some? && !runtime then given else Lookup(st.redis, k))
    decreases |items|
  {
    if items != [] {
      var n := |items| - 1;
      SetManyMeans(st, items[..n], runtime, net, refused, applied, k);
      var before := SetMany(st, items[..n], runtime, net, refused, applied);
      OneSetMeans(before, items[n].0, items[n].1, runtime, PipeNet(net, items[n].0, refused, applied), k);
    }
  }

  /** One answer to each pair, and the last pair that is stored under a name is what get then finds in the array. */
  lemma SetManyAnswers(c: Config, st: State, group: string, data: seq<(string, Value)>, net: Net,
                       refused: set<string>, applied: set<string>, i: nat)
    requires i < |data| && forall j :: i < j < |data| ==> NameOf(c, group, data[j].0) != NameOf(c, group, data[i].0)
    ensures var (st', out) := StepCached(c, st, OpSetMany(group, data, net, refused, applied));
            var k := NameOf(c, group, data[i].0);
            var stored := c.runtime(group) || (net.first.Completes? && k !in refused);
            && out.Flags? && |out.answers| == |data| && (out.answers[i] <==> stored)
            && (stored ==> Lookup(st'.cache, k) == Some(data[i].1))
  {
    var items, k := Named(c, group, data), NameOf(c, group, data[i].0);
    LastIs(items, k, i);
    if c.runtime(group) || net.first.Completes? {
      SetManyMeans(st, items, c.runtime(group), net, refused, applied, k);
    }
  }

  lemma {:induction false} LastIs(items: seq<(string, Value)>, k: string, i: nat)
    requires i < |items| && items[i].0 == k && forall j :: i < j < |items| ==> items[j].0 != k
    ensures LastValue(items, k) == Some(items[i].1)
  {
    if i < |items| - 1 {
      LastIs(items[..|items| - 1], k, i);
    }
  }

  lemma OneSetMeans(st: State, name: string, v: Value, runtime: bool, net: Net, k: string)
    requires runtime || net.first.Completes?
    ensures var st' := CacheSpec.Set(st, name, runtime, v, net).0;
            var given := k == name && (runtime || !net.refused);
            && Lookup(st'.cache, k) == (if given then Some(v) else Lookup(st.cache, k))
            && Lookup(st'.redis, k) == (if given && !runtime then Some(v) else Lookup(st.redis, k))
  {
  }

  /** flush: the array is emptied; Redis loses everything, or the names of the prefix, when the flush completes. */
  lemma FlushMeans(st: State, arrayMode: bool, whole: bool, prefix: string, net: Net, partial: set<string>, k: string)
    requires IsPrefix(prefix)
    ensures var st' := Flush(st, arrayMode, whole, prefix, net, partial);
            && st'.cache == map[]
            && (arrayMode ==> st'.redis == st.redis)
            && (!arrayMode && net.first.Completes? ==>
                  Lookup(st'.redis, k) == if whole || prefix + ":" <= k then None else Lookup(st.redis, k))
  {
    GroupFlush.PrefixIsPlain(prefix);
    GroupFlush.GlobPlainRest(prefix + ":", k);
  }

  /** The segments of k name the group in the scope of every blog. */
  predicate NamesGroup(prefix: string, group: string, k: string) {
    var parts := Split(k, ':');
    parts[0] == prefix && ((|parts| >= 3 && parts[1] == group) || (|parts| >= 4 && parts[2] == group))
  }

  /** They name it in the global scope or that of one blog. */
  predicate NamesGroupHere(prefix: string, blogId: int, group: string, k: string) {
    var parts := Split(k, ':');
    parts[0] == prefix && ((|parts| >= 3 && parts[1] == group) || (|parts| >= 4 && parts[1] == Decimal(blogId) && parts[2] == group))
  }

  lemma PrefixOfRest(a: string, b: string, k: string)
    ensures a + b <= k <==> a <= k && b <= k[|a|..]
  {
    if a <= k && b <= k[|a|..] {
      assert k == a + k[|a|..];
    }
  }

  lemma StartsWithTwo(a: string, b: string, k: string)
    requires ':' !in a && ':' !in b
    ensures a + ":" + b + ":" <= k <==> |Split(k, ':')| >= 3 && Split(k, ':')[0] == a && Split(k, ':')[1] == b
    ensures a + ":" + b + ":" <= k ==> Split(k, ':') == [a, b] + Split(k[|a| + |b| + 2..], ':')
  {
    var second := false;
    assert a + ":" + b + ":" == (a + ":") + (b + ":");
    PrefixOfRest(a + ":", b + ":", k);
    GroupFlush.FirstSegment(a, k);
    var rest, parts := "", [];
    if a + ":" <= k {
      rest := k[|a| + 1..];
      GroupFlush.FirstSegment(b, rest);
      second := b + ":" <= rest;
      if second {
        RestOfRest(a, b, k);
        parts := Split(k[|a| + |b| + 2..], ':');
      }
    }
    TwoHeads(Split(k, ':'), Split(rest, ':'), parts, a, b, a + ":" <= k, second);
  }

  lemma TwoHeads(all: seq<string>, tail: seq<string>, rest: seq<string>, a: string, b: string, first: bool, second: bool)
    requires first <==> |all| >= 2 && all[0] == a
    requires second ==> first
    requires first ==> all == [a] + tail && (second <==> |tail| >= 2 && tail[0] == b) && (second ==> tail == [b] + rest)
    ensures second <==> |all| >= 3 && all[0] == a && all[1] == b
    ensures second ==> all == [a, b] + rest
  {
    assert [a] + ([b] + rest) == [a, b] + rest;
  }

  lemma RestOfRest(a: string, b: string, k: string)
    requires |a| + |b| + 2 <= |k|
    ensures k[|a| + 1..][|b| + 1..] == k[|a| + |b| + 2..]
  {
  }

  lemma StartsWithThree(a: string, b: string, c: string, k: string)
    requires ':' !in a && ':' !in b && ':' !in c
    ensures a + ":" + b + ":" + c + ":" <= k
        <==> |Split(k, ':')| >= 4 && Split(k, ':')[0] == a && Split(k, ':')[1] == b && Split(k, ':')[2] == c
  {
    var head := a + ":" + b + ":";
    assert a + ":" + b + ":" + c + ":" == head + (c + ":");
    PrefixOfRest(head, c + ":", k);
    StartsWithTwo(a, b, k);
    if head <= k {
      GroupFlush.FirstSegment(c, k[|head|..]);
    }
  }

  lemma EvictsByName(prefix: string, blogId: int, group: string, k: string)
    requires IsPrefix(prefix) && ':' !in group
    ensures Evicts(prefix, blogId, group, k) <==> NamesGroupHere(prefix, blogId, group, k)
  {
    PrefixHasNoColon(prefix);
    DecimalHasNoColon(blogId);
    StartsWithTwo(prefix, group, k);
    StartsWithThree(prefix, Decimal(blogId), group, k);
  }

  /** flush_group: the array loses the group's names here, Redis, when the flush completes, those of every blog. */
  lemma FlushGroupMeans(st: State, prefix: string, blogId: int, group: string, runtime: bool, net: Net, partial: set<string>, k: string)
    requires IsPrefix(prefix) && ':' !in group && GroupFlush.IsPlain(group)
    ensures var st' := FlushGroup(st, prefix, blogId, group, runtime, net, partial);
            && Lookup(st'.cache, k) == (if NamesGroupHere(prefix, blogId, group, k) then None else Lookup(st.cache, k))
            && (runtime ==> st'.redis == st.redis)
            && (!runtime && net.first.Completes? ==>
                  Lookup(st'.redis, k) == if NamesGroup(prefix, group, k) then None else Lookup(st.redis, k))
            && (!runtime ==> k in st'.redis || k !in st.redis || NamesGroup(prefix, group, k))
  {
    EvictsByName(prefix, blogId, group, k);
    GroupFlush.ExactlyTheGroup(prefix, group, k);
  }
}
