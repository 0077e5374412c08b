/**
 * The corpus generator's merge of pattern lists and its document-frequency filter.
 *
 * Main results: a merge keeps the first list in front, holds the elements of both and repeats
 * none (MergeFacts); after the filter a pattern is left in a list exactly when fewer than
 * `threshold` slugs had it in any list (KeptExactlyTheRare), it is still in exactly the slugs it
 * was in (RareKeepTheirSlugs), and a second pass removes nothing (SuppressTwice).
 */
module CorpusFilter {
  import opened Patterns

  // ---- mergeUnique ------------------------------------------------------------------------------------

  function Merged(a: seq<string>, b: seq<string>): seq<string>
    decreases |b|
  {
    if b == [] then a else Merged(if b[0] in a then a else a + [b[0]], b[1..])
  }

  method MergeUnique(a: seq<string>, b: seq<string>) returns (r: seq<string>)
    ensures r == Merged(a, b)
  {
    var seen := set x | x in a;
    r := a;
    for i := 0 to |b|
      invariant forall x :: x in seen <==> x in r
      invariant Merged(r, b[i..]) == Merged(a, b)
    {
      assert b[i..][0] == b[i] && b[i..][1..] == b[i + 1..];
      if b[i] !in seen {
        seen := seen + {b[i]};
        r := r + [b[i]];
      }
    }
  }

  lemma {:induction false} MergeFacts(a: seq<string>, b: seq<string>)
    ensures a <= Merged(a, b)
    ensures forall x :: x in Merged(a, b) <==> x in a || x in b
    ensures Distinct(Merged(a, b)) <==> Distinct(a)
    decreases |b|
  {
    if b != [] {
      var next := if b[0] in a then a else a + [b[0]];
      MergeFacts(next, b[1..]);
      assert Distinct(next) ==> Distinct(a) by {
        assert forall i :: 0 <= i < |a| ==> a[i] == next[i];
      }
    }
  }

  /** Merging what is already there changes nothing. */
  lemma {:induction false} MergeKnown(a: seq<string>, b: seq<string>)
    ensures Merged(a, b) == a <==> forall x :: x in b ==> x in a
    decreases |b|
  {
    if b != [] {
      if b[0] in a {
        MergeKnown(a, b[1..]);
      } else {
        MergeFacts(a + [b[0]], b[1..]);
      }
    }
  }

  // ---- suppressByDocFreq ------------------------------------------------------------------------------

  type Corpus = map<string, SlugPatterns>

  function AllOf(sp: SlugPatterns): seq<string> {
    sp.option + sp.transient + sp.table + sp.cronHook
  }

  lemma InSomeList(sp: SlugPatterns, p: string)
    ensures p in AllOf(sp) <==> p in sp.option || p in sp.transient || p in sp.table || p in sp.cronHook
  {
  }

  /** The slugs that have the pattern in some list. */
  function SlugsWith(all: Corpus, p: string): set<string> {
    set slug | slug in all && p in AllOf(all[slug])
  }

  type Frequency = map<string, set<string>>

  function Lookup(freq: Frequency, p: string): set<string> {
    if p in freq then freq[p] else {}
  }

  /** addFreq. */
  method AddFreq(freq: Frequency, slug: string, pats: seq<string>) returns (r: Frequency)
    ensures forall p :: Lookup(r, p) == Lookup(freq, p) + if p in pats then {slug} else {}
  {
    r := freq;
    for i := 0 to |pats|
      invariant forall p :: Lookup(r, p) == Lookup(freq, p) + if p in pats[..i] then {slug} else {}
    {
      r := r[pats[i] := Lookup(r, pats[i]) + {slug}];
      assert pats[..i + 1] == pats[..i] + [pats[i]];
    }
    assert pats[..|pats|] == pats;
  }

  method AddSlug(freq: Frequency, slug: string, sp: SlugPatterns) returns (r: Frequency)
    ensures forall p :: Lookup(r, p) == Lookup(freq, p) + if p in AllOf(sp) then {slug} else {}
  {
    r := AddFreq(freq, slug, sp.option);
    r := AddFreq(r, slug, sp.transient);
    r := AddFreq(r, slug, sp.table);
    r := AddFreq(r, slug, sp.cronHook);
  }

  ghost function SlugsAmong(all: Corpus, done: set<string>, p: string): set<string> {
    set slug | slug in done && slug in all && p in AllOf(all[slug])
  }

  method CountSlugs(all: Corpus) returns (freq: Frequency)
    ensures forall p :: Lookup(freq, p) == SlugsWith(all, p)
  {
    freq := map[];
    var rest := all.Keys;
    ghost var done := {};
    while rest != {}
      invariant rest + done == all.Keys
      invariant forall p :: Lookup(freq, p) == SlugsAmong(all, done, p)
      decreases |rest|
    {
      var slug :| slug in rest;
      freq := AddSlug(freq, slug, all[slug]);
      OneMore(all, done, slug);
      rest, done := rest - {slug}, done + {slug};
    }
    assert forall p :: SlugsAmong(all, all.Keys, p) == SlugsWith(all, p);
  }

  lemma OneMore(all: Corpus, done: set<string>, slug: string)
    requires slug in all
    ensures forall p :: SlugsAmong(all, done + {slug}, p) == SlugsAmong(all, done, p) + if p in AllOf(all[slug]) then {slug} else {}
  {
  }

  /** The patterns that fewer than `threshold` slugs have, in order. */
  function Rare(freq: Frequency, threshold: int, pats: seq<string>): seq<string> {
    if pats == [] then []
    else
      var n := |pats| - 1;
      Rare(freq, threshold, pats[..n]) + if |Lookup(freq, pats[n])| < threshold then [pats[n]] else []
  }

  lemma {:induction false} RareFacts(freq: Frequency, threshold: int, pats: seq<string>)
    ensures |Rare(freq, threshold, pats)| <= |pats|
    ensures forall p :: multiset(Rare(freq, threshold, pats))[p] == if |Lookup(freq, p)| < threshold then multiset(pats)[p] else 0
  {
    if pats != [] {
      var n := |pats| - 1;
      RareFacts(freq, threshold, pats[..n]);
      assert pats == pats[..n] + [pats[n]];
    }
  }

  /** suppress: it writes the kept patterns over the front of the list it reads. */
  method Compact(a: array<string>, freq: Frequency, threshold: int) returns (kept: nat)
    modifies a
    ensures kept <= a.Length
    ensures a[..kept] == Rare(freq, threshold, old(a[..]))
    ensures a[kept..] == old(a[..])[kept..]
  {
    kept := 0;
    ghost var was := a[..];
    for i := 0 to a.Length
      invariant kept <= i
      invariant a[..kept] == Rare(freq, threshold, was[..i])
      invariant forall k :: kept <= k < a.Length ==> a[k] == was[k]
    {
      assert was[..i + 1][..i] == was[..i];
      if |Lookup(freq, a[i])| < threshold {
        a[kept] := a[i];
        kept := kept + 1;
      }
    }
    assert was[..a.Length] == was;
  }

  function Suppressed(freq: Frequency, threshold: int, sp: SlugPatterns): SlugPatterns {
    SlugPatterns(sp.slug, Rare(freq, threshold, sp.option), Rare(freq, threshold, sp.transient),
                 Rare(freq, threshold, sp.table), Rare(freq, threshold, sp.cronHook))
  }

  method CompactList(pats: seq<string>, freq: Frequency, threshold: int) returns (r: seq<string>)
    ensures r == Rare(freq, threshold, pats)
  {
    var a := new string[|pats|](i requires 0 <= i < |pats| => pats[i]);
    assert a[..] == pats;
    var kept := Compact(a, freq, threshold);
    r := a[..kept];
  }

  method SuppressByDocFreq(all: Corpus, threshold: int) returns (r: Corpus, freq: Frequency)
    ensures forall p :: Lookup(freq, p) == SlugsWith(all, p)
    ensures r.Keys == all.Keys && forall slug :: slug in all ==> r[slug] == Suppressed(freq, threshold, all[slug])
  {
    freq := CountSlugs(all);
    r := all;
    var rest := all.Keys;
    while rest != {}
      invariant rest <= all.Keys == r.Keys
      invariant forall slug :: slug in all ==> r[slug] == if slug in rest then all[slug] else Suppressed(freq, threshold, all[slug])
      decreases |rest|
    {
      var slug :| slug in rest;
      var sp := r[slug];
      var option := CompactList(sp.option, freq, threshold);
      var transient := CompactList(sp.transient, freq, threshold);
      var table := CompactList(sp.table, freq, threshold);
      var cronHook := CompactList(sp.cronHook, freq, threshold);
      r := r[slug := SlugPatterns(sp.slug, option, transient, table, cronHook)];
      rest := rest - {slug};
    }
  }

  // ---- what the filter achieves -----------------------------------------------------------------------

  ghost predicate IsSuppressed(all: Corpus, threshold: int, freq: Frequency, r: Corpus) {
    && (forall p :: Lookup(freq, p) == SlugsWith(all, p))
    && r.Keys == all.Keys && forall slug :: slug in all ==> r[slug] == Suppressed(freq, threshold, all[slug])
  }

  lemma RareIn(freq: Frequency, threshold: int, pats: seq<string>, p: string)
    ensures p in Rare(freq, threshold, pats) <==> p in pats && |Lookup(freq, p)| < threshold
  {
    RareFacts(freq, threshold, pats);
    assert p in Rare(freq, threshold, pats) <==> multiset(Rare(freq, threshold, pats))[p] > 0;
    assert p in pats <==> multiset(pats)[p] > 0;
  }

  /** A pattern is left, in the same lists as before, exactly when fewer than `threshold` slugs had it. */
  lemma KeptExactlyTheRare(all: Corpus, threshold: int, freq: Frequency, r: Corpus, slug: string, p: string)
    requires IsSuppressed(all, threshold, freq, r) && slug in all
    ensures p in r[slug].option <==> p in all[slug].option && |SlugsWith(all, p)| < threshold
    ensures p in r[slug].transient <==> p in all[slug].transient && |SlugsWith(all, p)| < threshold
    ensures p in r[slug].table <==> p in all[slug].table && |SlugsWith(all, p)| < threshold
    ensures p in r[slug].cronHook <==> p in all[slug].cronHook && |SlugsWith(all, p)| < threshold
  {
    RareIn(freq, threshold, all[slug].option, p);
    RareIn(freq, threshold, all[slug].transient, p);
    RareIn(freq, threshold, all[slug].table, p);
    RareIn(freq, threshold, all[slug].cronHook, p);
  }

  /** The slug itself is counted: its pattern stays exactly when at most threshold - 2 others have it. */
  lemma OwnerIsCounted(all: Corpus, threshold: int, freq: Frequency, r: Corpus, slug: string, p: string)
    requires IsSuppressed(all, threshold, freq, r) && slug in all && p in AllOf(all[slug])
    ensures p in AllOf(r[slug]) <==> |SlugsWith(all, p) - {slug}| <= threshold - 2
  {
    KeptExactlyTheRare(all, threshold, freq, r, slug, p);
    assert SlugsWith(all, p) == (SlugsWith(all, p) - {slug}) + {slug};
  }

  /** A pattern keeps all its slugs or loses all. */
  lemma RareKeepTheirSlugs(all: Corpus, threshold: int, freq: Frequency, r: Corpus, p: string)
    requires IsSuppressed(all, threshold, freq, r)
    ensures SlugsWith(r, p) == if |SlugsWith(all, p)| < threshold then SlugsWith(all, p) else {}
  {
    forall slug | slug in all
      ensures p in AllOf(r[slug]) <==> p in AllOf(all[slug]) && |SlugsWith(all, p)| < threshold
    {
      KeptExactlyTheRare(all, threshold, freq, r, slug, p);
    }
  }

  lemma {:induction false} RareOfRare(freq: Frequency, again: Frequency, threshold: int, pats: seq<string>)
    requires forall p :: |Lookup(freq, p)| < threshold ==> Lookup(again, p) == Lookup(freq, p)
    ensures Rare(again, threshold, Rare(freq, threshold, pats)) == Rare(freq, threshold, pats)
  {
    if pats != [] {
      var n := |pats| - 1;
      RareOfRare(freq, again, threshold, pats[..n]);
      var front := Rare(freq, threshold, pats[..n]);
      if |Lookup(freq, pats[n])| < threshold {
        assert (front + [pats[n]])[..|front|] == front;
      } else {
        assert front + [] == front;
      }
    }
  }

  /** A second pass removes nothing. */
  lemma SuppressTwice(all: Corpus, threshold: int, freq: Frequency, r: Corpus, again: Frequency, r': Corpus)
    requires IsSuppressed(all, threshold, freq, r) && IsSuppressed(r, threshold, again, r')
    ensures r' == r
  {
    forall p ensures |Lookup(freq, p)| < threshold ==> Lookup(again, p) == Lookup(freq, p) {
      RareKeepTheirSlugs(all, threshold, freq, r, p);
    }
    forall slug | slug in all ensures r'[slug] == r[slug] {
      RareOfRare(freq, again, threshold, all[slug].option);
      RareOfRare(freq, again, threshold, all[slug].transient);
      RareOfRare(freq, again, threshold, all[slug].table);
      RareOfRare(freq, again, threshold, all[slug].cronHook);
    }
  }
}
