/**
 * Which keys a SCAN flush deletes: Redis glob patterns plus the segment filter.
 *
 * Main results: for a group without colon or glob metacharacter, a group flush deletes
 * exactly the keys described by ExactlyTheGroup and its corollaries, and a prefix flush
 * deletes exactly the keys of its prefix (PrefixFlushIsExact).
 */
module GroupFlush {
  import opened Strings
  import opened CacheKeys

  /** Redis glob matching; character classes are not modelled. */
  predicate Glob(p: string, s: string)
    decreases |p| + |s|
  {
    if p == [] then s == []
    else if p[0] == '*' then Glob(p[1..], s) || (s != [] && Glob(p, s[1..]))
    else if s == [] then false
    else if p[0] == '?' then Glob(p[1..], s[1..])
    else if p[0] == '\\' && |p| > 1 then s[0] == p[1] && Glob(p[2..], s[1..])
    else s[0] == p[0] && Glob(p[1..], s[1..])
  }

  predicate IsPlain(s: string) {
    forall c :: c in s ==> c !in "*?\\["
  }

  /** executeScanFlush: MATCH prefix:*. */
  function PrefixPattern(prefix: string): string {
    prefix + ":" + "*"
  }

  /** The two patterns of executeGroupFlush. */
  function GlobalPattern(prefix: string, group: string): string {
    prefix + ":" + group + ":" + "*"
  }

  function BlogPattern(prefix: string, group: string): string {
    prefix + ":" + "*" + ":" + group + ":" + "*"
  }

  /** The filter: the segment at the index is the group. */
  predicate SegmentIs(k: string, index: nat, group: string) {
    index < |Split(k, ':')| && Split(k, ':')[index] == group
  }

  /** What one group flush deletes. */
  predicate GroupDeletes(prefix: string, group: string, k: string) {
    || (Glob(GlobalPattern(prefix, group), k) && SegmentIs(k, 1, group))
    || (Glob(BlogPattern(prefix, group), k) && SegmentIs(k, 2, group))
  }

  predicate PrefixDeletes(prefix: string, k: string) {
    Glob(PrefixPattern(prefix), k)
  }

  lemma {:induction false} GlobPlain(lit: string, p: string, s: string)
    requires IsPlain(lit)
    ensures Glob(lit + p, s) <==> lit <= s && Glob(p, s[|lit|..])
  {
    if lit == [] {
      assert lit + p == p;
    } else {
      assert (lit + p)[0] == lit[0] && (lit + p)[1..] == lit[1..] + p;
      assert lit[0] in lit;
      if s != [] && s[0] == lit[0] {
        GlobPlain(lit[1..], p, s[1..]);
        assert lit[1..] <= s[1..] <==> lit <= s;
        if lit <= s {
          assert s[1..][|lit[1..]|..] == s[|lit|..];
        }
      }
    }
  }

  lemma {:induction false} GlobStar(p: string, s: string, i: nat)
    requires i <= |s| && Glob(p, s[i..])
    ensures Glob("*" + p, s)
    decreases i
  {
    assert ("*" + p)[1..] == p;
    if i == 0 {
      assert s[0..] == s;
    } else {
      assert s[1..][i - 1..] == s[i..];
      GlobStar(p, s[1..], i - 1);
    }
  }

  lemma {:induction false} GlobStarInverse(p: string, s: string) returns (i: nat)
    requires Glob("*" + p, s)
    ensures i <= |s| && Glob(p, s[i..])
    decreases |s|
  {
    assert ("*" + p)[1..] == p;
    if Glob(p, s) {
      i := 0;
      assert s[0..] == s;
    } else {
      i := GlobStarInverse(p, s[1..]);
      i := i + 1;
      assert s[1..][i - 1..] == s[i..];
    }
  }

  lemma {:induction false} GlobRest(s: string)
    ensures Glob("*", s)
  {
    assert "*"[1..] == [];
    assert s[|s|..] == [];
    GlobStar([], s, |s|);
    assert "*" + [] == "*";
  }

  lemma {:induction false} GlobPlainRest(lit: string, s: string)
    requires IsPlain(lit)
    ensures Glob(lit + "*", s) <==> lit <= s
  {
    GlobPlain(lit, "*", s);
    if lit <= s {
      GlobRest(s[|lit|..]);
    }
  }

  lemma PrefixIsPlain(p: string)
    requires IsPrefix(p)
    ensures IsPlain(p) && ':' !in p
  {
  }

  /** k begins with "prefix:" exactly when its first segment is the prefix and there is another. */
  lemma {:induction false} FirstSegment(head: string, k: string)
    requires ':' !in head
    ensures head + ":" <= k <==> |Split(k, ':')| >= 2 && Split(k, ':')[0] == head
    ensures head + ":" <= k ==> Split(k, ':') == [head] + Split(k[|head| + 1..], ':')
  {
    var parts := Split(k, ':');
    JoinOfSplit(k, ':');
    if |parts| >= 2 {
      assert Join(parts, ':') == parts[0] + ":" + Join(parts[1..], ':');
    }
    if head + ":" <= k {
      assert k == head + ":" + k[|head| + 1..];
      SplitSegment(head, k[|head| + 1..]);
    }
  }

  /** The segment after a ":group:" exists, so a key with that infix has a colon after its next segment. */
  lemma {:induction false} InfixHasTwoColons(group: string, r: string, j: nat)
    requires j <= |r| && ":" + group + ":" <= r[j..]
    ensures |Split(r, ':')| >= 3
  {
    var rest := r[j + |group| + 2..];
    assert r == r[..j] + ":" + (group + ":" + rest);
    SplitOfConcat(r[..j], group + ":" + rest, ':');
    SplitOfConcat(group, rest, ':');
  }

  lemma {:induction false} SecondSegmentInfix(group: string, r: string)
    requires ':' !in group
    requires |Split(r, ':')| >= 3 && Split(r, ':')[1] == group
    ensures |Split(r, ':')[0]| <= |r| && ":" + group + ":" <= r[|Split(r, ':')[0]|..]
  {
    var parts := Split(r, ':');
    JoinOfSplit(r, ':');
    assert Join(parts, ':') == parts[0] + ":" + Join(parts[1..], ':');
    assert Join(parts[1..], ':') == group + ":" + Join(parts[2..], ':');
    assert r[|parts[0]|..] == ":" + group + ":" + Join(parts[2..], ':');
  }

  /** What each pattern with its filter selects, in terms of segments. */
  lemma {:induction false} GlobalPatternSelects(prefix: string, group: string, k: string)
    requires IsPrefix(prefix) && IsPlain(group) && ':' !in group
    ensures Glob(GlobalPattern(prefix, group), k) && SegmentIs(k, 1, group)
      <==> |Split(k, ':')| >= 3 && Split(k, ':')[0] == prefix && Split(k, ':')[1] == group
  {
    PrefixIsPlain(prefix);
    GlobPlainRest(prefix + ":" + group + ":", k);
    FirstSegment(prefix, k);
    if prefix + ":" <= k {
      var r := k[|prefix| + 1..];
      FirstSegment(group, r);
      assert prefix + ":" + group + ":" <= k <==> group + ":" <= r;
    }
  }

  lemma {:induction false} BlogPatternSelects(prefix: string, group: string, k: string)
    requires IsPrefix(prefix) && IsPlain(group) && ':' !in group
    ensures Glob(BlogPattern(prefix, group), k) && SegmentIs(k, 2, group)
      <==> |Split(k, ':')| >= 4 && Split(k, ':')[0] == prefix && Split(k, ':')[2] == group
  {
    PrefixIsPlain(prefix);
    var head, infix := prefix + ":", ":" + group + ":";
    assert BlogPattern(prefix, group) == head + ("*" + (infix + "*"));
    GlobPlain(head, "*" + (infix + "*"), k);
    FirstSegment(prefix, k);
    if head <= k {
      var r := k[|head|..];
      assert Split(k, ':') == [prefix] + Split(r, ':');
      if Glob("*" + (infix + "*"), r) {
        var j := GlobStarInverse(infix + "*", r);
        GlobPlainRest(infix, r[j..]);
        InfixHasTwoColons(group, r, j);
      }
      if |Split(r, ':')| >= 3 && Split(r, ':')[1] == group {
        SecondSegmentInfix(group, r);
        var j := |Split(r, ':')[0]|;
        GlobPlainRest(infix, r[j..]);
        GlobStar(infix + "*", r, j);
      }
    }
  }

  /** A group flush deletes exactly the keys with the group as second of three or third of four segments. */
  lemma ExactlyTheGroup(prefix: string, group: string, k: string)
    requires IsPrefix(prefix) && IsPlain(group) && ':' !in group
    ensures var parts := Split(k, ':');
            GroupDeletes(prefix, group, k) <==>
              && parts[0] == prefix
              && ((|parts| >= 3 && parts[1] == group) || (|parts| >= 4 && parts[2] == group))
  {
    GlobalPatternSelects(prefix, group, k);
    BlogPatternSelects(prefix, group, k);
  }

  /** Every key of the group goes, for every blog and for the global scope. */
  lemma {:induction false} DeletesTheGroup(prefix: string, scope: Scope, group: string, key: string)
    requires IsPrefix(prefix) && IsPlain(group) && ':' !in group
    ensures GroupDeletes(prefix, group, KeyName(prefix, scope, group, key))
  {
    Segments(prefix, scope, group, key);
    ExactlyTheGroup(prefix, group, KeyName(prefix, scope, group, key));
  }

  /** A per-blog key of another group stays, unless the flushed name is that blog's number. */
  lemma {:induction false} KeepsOtherBlogGroups(prefix: string, blog: int, other: string, key: string, group: string)
    requires IsPrefix(prefix) && IsPlain(group) && ':' !in group && ':' !in other && other != group
    ensures GroupDeletes(prefix, group, KeyName(prefix, Blog(blog), other, key)) <==> group == Decimal(blog)
  {
    Segments(prefix, Blog(blog), other, key);
    ExactlyTheGroup(prefix, group, KeyName(prefix, Blog(blog), other, key));
  }

  /** A global key of another group stays, unless its own key part starts with "group:". */
  lemma {:induction false} KeepsOtherGlobalGroups(prefix: string, other: string, key: string, group: string)
    requires IsPrefix(prefix) && IsPlain(group) && ':' !in group && ':' !in other && other != group
    ensures GroupDeletes(prefix, group, KeyName(prefix, Global, other, key)) <==> group + ":" <= key
  {
    Segments(prefix, Global, other, key);
    ExactlyTheGroup(prefix, group, KeyName(prefix, Global, other, key));
    FirstSegment(group, key);
  }

  /** A prefix flush deletes every key of its prefix and no key of another. */
  lemma {:induction false} PrefixFlushIsExact(prefix: string, other: string, scope: Scope, group: string, key: string)
    requires IsPrefix(prefix) && IsPrefix(other)
    ensures PrefixDeletes(prefix, KeyName(other, scope, group, key)) <==> prefix == other
  {
    PrefixIsPlain(prefix);
    PrefixIsPlain(other);
    var k := KeyName(other, scope, group, key);
    GlobPlainRest(prefix + ":", k);
    FirstSegment(prefix, k);
    FirstSegment(other, k);
    assert other + ":" <= k;
  }
}
