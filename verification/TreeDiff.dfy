/**
 * rt_diff: the first place two decoded trees differ.
 *
 * Main results: the answer is null exactly when the trees are equal in value, scalar type and
 * key order at every depth (NullMeansEqual); a reported place leads to a real difference of the
 * reported kind, and everything before it in the wanted tree's order agrees (ReportsTheFirst);
 * the report about a count can never be made (CountNeverDiffers).
 */
module TreeDiff {
  import opened Wrappers
  import Strings

  datatype Scalar = Null | Bool(b: bool) | Int(i: int) | Float(x: real) | Text(s: string)

  /** A decoded value: a scalar, or an array as its keys and values in order. */
  datatype Tree = Leaf(scalar: Scalar) | Node(entries: seq<Entry>)
  datatype Entry = Entry(key: string, value: Tree)

  function Keys(es: seq<Entry>): (ks: seq<string>)
    ensures |ks| == |es| && forall i :: 0 <= i < |es| ==> ks[i] == es[i].key
  {
    seq(|es|, i requires 0 <= i < |es| => es[i].key)
  }

  ghost predicate Distinct(ks: seq<string>) {
    forall i, j :: 0 <= i < j < |ks| ==> ks[i] != ks[j]
  }

  /** Array keys are distinct at every depth. */
  ghost predicate Valid(t: Tree) {
    t.Node? ==> Distinct(Keys(t.entries)) && forall i :: 0 <= i < |t.entries| ==> Valid(t.entries[i].value)
  }

  /** $got[$k]. */
  function Lookup(es: seq<Entry>, k: string): (t: Tree)
    requires k in Keys(es)
    ensures exists i :: 0 <= i < |es| && es[i] == Entry(k, t)
  {
    if es[0].key == k then es[0].value
    else
      assert Keys(es)[1..] == Keys(es[1..]);
      Lookup(es[1..], k)
  }

  datatype What =
    | Missing(key: string)
    | Unexpected(key: string)
    | Count(wanted: nat, found: nat)
    | Order
    | Differs(want: Tree, got: Tree)

  /** The keys that lead to the place, and what is different there. */
  datatype Report = Report(at: seq<string>, what: What)

  function Under(k: string, r: Report): Report {
    r.(at := [k] + r.at)
  }

  /** The first of array_diff($ks, $others). */
  function FirstAbsent(ks: seq<string>, others: seq<string>): (k: Option<string>)
    ensures k.None? <==> forall i :: 0 <= i < |ks| ==> ks[i] in others
    ensures k.Some? ==> IsFirstAbsent(ks, others, k.value)
  {
    if ks == [] then None
    else if ks[0] !in others then Some(ks[0])
    else
      var k := FirstAbsent(ks[1..], others);
      assert k.Some? ==> ks[1..][IndexIn(ks[1..], k.value)] == ks[1 + IndexIn(ks[1..], k.value)];
      k
  }

  /** The place of the first k. */
  function IndexIn(ks: seq<string>, k: string): (i: nat)
    requires k in ks
    ensures i < |ks| && ks[i] == k && k !in ks[..i]
  {
    if ks[0] == k then 0 else 1 + IndexIn(ks[1..], k)
  }

  ghost predicate IsFirstAbsent(ks: seq<string>, others: seq<string>, k: string) {
    k in ks && k !in others && forall i :: 0 <= i < IndexIn(ks, k) ==> ks[i] in others
  }

  /** array_is_list. */
  predicate IsList(es: seq<Entry>) {
    forall i :: 0 <= i < |es| ==> es[i].key == Strings.Decimal(i)
  }

  function Diff(want: Tree, got: Tree): Option<Report>
    decreases want, Size(want) + 1
  {
    if want.Leaf? || got.Leaf? then
      if want == got then None else Some(Report([], Differs(want, got)))
    else
      var wk, gk := Keys(want.entries), Keys(got.entries);
      var missing, unexpected := FirstAbsent(wk, gk), FirstAbsent(gk, wk);
      if missing.Some? then Some(Report([], Missing(missing.value)))
      else if unexpected.Some? then Some(Report([], Unexpected(unexpected.value)))
      else if IsList(want.entries) && |wk| != |gk| then Some(Report([], Count(|wk|, |gk|)))
      else
        var d := DiffEntries(want, got, 0);
        if d.Some? then d
        else if wk != gk then Some(Report([], Order)) else None
  }

  function Size(t: Tree): nat {
    if t.Leaf? then 0 else |t.entries|
  }

  /** The loop over the keys, from key i on. */
  function DiffEntries(want: Tree, got: Tree, i: nat): Option<Report>
    requires want.Node? && got.Node? && i <= Size(want)
    requires forall j :: 0 <= j < Size(want) ==> want.entries[j].key in Keys(got.entries)
    decreases want, Size(want) - i
  {
    if i == Size(want) then None
    else
      var k := want.entries[i].key;
      var d := Diff(want.entries[i].value, Lookup(got.entries, k));
      if d.Some? then Some(Under(k, d.value)) else DiffEntries(want, got, i + 1)
  }

  // ---- null exactly on equal trees ------------------------------------------------------------------

  lemma LookupOnly(es: seq<Entry>, ks: seq<string>, i: nat, t: Tree)
    requires i < |es| == |ks| && Distinct(ks) && forall j :: 0 <= j < |es| ==> ks[j] == es[j].key
    requires exists j :: 0 <= j < |es| && es[j] == Entry(es[i].key, t)
    ensures t == es[i].value
  {
    var j :| 0 <= j < |es| && es[j] == Entry(es[i].key, t);
    assert ks[j] == ks[i];
  }

  lemma LookupAt(es: seq<Entry>, i: nat)
    requires i < |es| && Distinct(Keys(es))
    ensures es[i].key in Keys(es) && Lookup(es, es[i].key) == es[i].value
  {
    var ks := Keys(es);
    assert ks[i] == es[i].key;
    LookupOnly(es, ks, i, Lookup(es, ks[i]));
  }

  lemma LookupIsValid(t: Tree, k: string)
    requires Valid(t) && t.Node? && k in Keys(t.entries)
    ensures Valid(Lookup(t.entries, k))
  {
    var i :| 0 <= i < |t.entries| && t.entries[i] == Entry(k, Lookup(t.entries, k));
  }

  /** Distinct keys: mutual inclusion means the same number. */
  lemma {:induction false} AtMostAsMany(a: seq<string>, b: seq<string>)
    requires Distinct(a) && forall i :: 0 <= i < |a| ==> a[i] in b
    ensures |a| <= |b|
  {
    if a != [] {
      var j :| 0 <= j < |b| && b[j] == a[0];
      var rest := b[..j] + b[j + 1..];
      forall i | 0 <= i < |a| - 1 ensures a[1..][i] in rest {
        var m :| 0 <= m < |b| && b[m] == a[i + 1];
        assert m != j;
        assert rest[if m < j then m else m - 1] == b[m];
      }
      AtMostAsMany(a[1..], rest);
    }
  }

  /** After the two key checks the counts agree, so the report about a count is never made. */
  lemma CountNeverDiffers(want: Tree, got: Tree)
    requires Valid(want) && Valid(got)
    ensures Diff(want, got).Some? && Diff(want, got).value.at == [] ==> !Diff(want, got).value.what.Count?
    ensures (want.Node? && got.Node?
             && FirstAbsent(Keys(want.entries), Keys(got.entries)).None?
             && FirstAbsent(Keys(got.entries), Keys(want.entries)).None?)
            ==> |want.entries| == |got.entries|
  {
    if want.Node? && got.Node? {
      var wk, gk := Keys(want.entries), Keys(got.entries);
      if FirstAbsent(wk, gk).None? && FirstAbsent(gk, wk).None? {
        AtMostAsMany(wk, gk);
        AtMostAsMany(gk, wk);
        EntryReportsAreBelow(want, got, 0);
      }
    }
  }

  lemma {:induction false} EntryReportsAreBelow(want: Tree, got: Tree, i: nat)
    requires want.Node? && got.Node? && i <= Size(want)
    requires forall j :: 0 <= j < Size(want) ==> want.entries[j].key in Keys(got.entries)
    ensures DiffEntries(want, got, i).Some? ==> DiffEntries(want, got, i).value.at != []
    decreases Size(want) - i
  {
    if i < Size(want) {
      EntryReportsAreBelow(want, got, i + 1);
    }
  }

  /** The answer is null exactly when the trees are equal. */
  lemma {:induction false} NullMeansEqual(want: Tree, got: Tree)
    requires Valid(want) && Valid(got)
    ensures Diff(want, got).None? <==> want == got
    decreases want, Size(want) + 1
  {
    if want.Node? && got.Node? {
      CountNeverDiffers(want, got);
      var wk, gk := Keys(want.entries), Keys(got.entries);
      if FirstAbsent(wk, gk).None? && FirstAbsent(gk, wk).None? {
        EntriesNullMeansEqual(want, got, 0);
        if wk == gk {
          forall i | 0 <= i < |wk| ensures Lookup(got.entries, wk[i]) == got.entries[i].value {
            LookupAt(got.entries, i);
          }
          if DiffEntries(want, got, 0).None? {
            assert AgreesFrom(want.entries, got.entries, 0);
            assert forall i :: 0 <= i < |wk| ==> Agrees(want.entries[i], got.entries) && want.entries[i] == got.entries[i];
            assert want.entries == got.entries;
          }
        }
      }
    }
  }

  /** The key is there with the same value. */
  predicate Agrees(e: Entry, got: seq<Entry>) {
    e.key in Keys(got) && e.value == Lookup(got, e.key)
  }

  ghost predicate AgreesFrom(es: seq<Entry>, got: seq<Entry>, i: nat) {
    forall j :: i <= j < |es| ==> Agrees(es[j], got)
  }

  lemma AgreesFromNext(es: seq<Entry>, got: seq<Entry>, i: nat)
    requires i < |es|
    ensures AgreesFrom(es, got, i) <==> Agrees(es[i], got) && AgreesFrom(es, got, i + 1)
  {
  }

  lemma {:induction false} EntriesNullMeansEqual(want: Tree, got: Tree, i: nat)
    requires want.Node? && got.Node? && i <= Size(want) && Valid(want) && Valid(got)
    requires forall j :: 0 <= j < Size(want) ==> want.entries[j].key in Keys(got.entries)
    ensures DiffEntries(want, got, i).None?
       <==> AgreesFrom(want.entries, got.entries, i)
    decreases want, Size(want) - i
  {
    if i < Size(want) {
      AgreesFromNext(want.entries, got.entries, i);
      var w, g := want.entries[i].value, Lookup(got.entries, want.entries[i].key);
      LookupIsValid(got, want.entries[i].key);
      NullMeansEqual(w, g);
      assert Agrees(want.entries[i], got.entries) <==> Diff(w, g).None?;
      EntriesNullMeansEqual(want, got, i + 1);
    }
  }

  // ---- the first place ------------------------------------------------------------------------------

  /** What the report says is true of these two trees. */
  ghost predicate IsSo(want: Tree, got: Tree, what: What) {
    match what
    case Differs(w, g) => w == want && g == got && want != got && (want.Leaf? || got.Leaf?)
    case Missing(k) => want.Node? && got.Node? && IsFirstAbsent(Keys(want.entries), Keys(got.entries), k)
    case Unexpected(k) =>
      && want.Node? && got.Node? && IsFirstAbsent(Keys(got.entries), Keys(want.entries), k)
      && forall i :: 0 <= i < |want.entries| ==> want.entries[i].key in Keys(got.entries)
    case Order =>
      && want.Node? && got.Node? && Keys(want.entries) != Keys(got.entries)
      && multiset(want.entries) == multiset(got.entries)
    case Count(_, _) => false
  }

  predicate SameKeys(a: seq<Entry>, b: seq<Entry>) {
    && (forall i :: 0 <= i < |a| ==> a[i].key in Keys(b))
    && forall i :: 0 <= i < |b| ==> b[i].key in Keys(a)
  }

  /** Going down the keys of the place, the keys and everything before it agrees, and at the place the report is true. */
  ghost predicate IsFirst(want: Tree, got: Tree, r: Report)
    decreases r.at
  {
    if r.at == [] then IsSo(want, got, r.what)
    else
      && want.Node? && got.Node?
      && SameKeys(want.entries, got.entries)
      && exists i :: 0 <= i < |want.entries| && IsFirstUnder(want.entries, got.entries, i, r)
  }

  ghost predicate IsFirstUnder(want: seq<Entry>, got: seq<Entry>, i: nat, r: Report)
    requires r.at != [] && i < |want|
    decreases r.at, 0
  {
    && want[i].key == r.at[0] && r.at[0] in Keys(got)
    && (forall j :: 0 <= j < i ==> Agrees(want[j], got))
    && IsFirst(want[i].value, Lookup(got, r.at[0]), Report(r.at[1..], r.what))
  }

  /** The report is true, and is about the first difference. */
  lemma {:induction false} ReportsTheFirst(want: Tree, got: Tree)
    requires Valid(want) && Valid(got)
    ensures Diff(want, got).Some? ==> IsFirst(want, got, Diff(want, got).value)
    decreases want, Size(want) + 1
  {
    if want.Node? && got.Node? {
      CountNeverDiffers(want, got);
      var wk, gk := Keys(want.entries), Keys(got.entries);
      if FirstAbsent(wk, gk).None? && FirstAbsent(gk, wk).None? {
        EntriesReportTheFirst(want, got, 0);
        if DiffEntries(want, got, 0).None? && wk != gk {
          EntriesNullMeansEqual(want, got, 0);
          assert AgreesFrom(want.entries, got.entries, 0);
          SameEntries(want.entries, got.entries);
        }
      }
    }
  }

  lemma {:induction false} EntriesReportTheFirst(want: Tree, got: Tree, i: nat)
    requires want.Node? && got.Node? && i <= Size(want) && Valid(want) && Valid(got)
    requires SameKeys(want.entries, got.entries)
    requires forall j :: 0 <= j < i ==> Agrees(want.entries[j], got.entries)
    ensures DiffEntries(want, got, i).Some? ==> DiffEntries(want, got, i).value.at != []
    ensures DiffEntries(want, got, i).Some? ==> IsFirst(want, got, DiffEntries(want, got, i).value)
    decreases want, Size(want) - i
  {
    if i < Size(want) {
      var k := want.entries[i].key;
      var w, g := want.entries[i].value, Lookup(got.entries, k);
      LookupIsValid(got, k);
      NullMeansEqual(w, g);
      ReportsTheFirst(w, g);
      if Diff(w, g).None? {
        EntriesReportTheFirst(want, got, i + 1);
      } else {
        FirstBelow(want, got, i, Diff(w, g).value);
      }
    }
  }

  /** What is first under the first key that disagrees is first. */
  lemma FirstBelow(want: Tree, got: Tree, i: nat, d: Report)
    requires want.Node? && got.Node? && i < Size(want) && SameKeys(want.entries, got.entries)
    requires forall j :: 0 <= j < i ==> Agrees(want.entries[j], got.entries)
    requires IsFirst(want.entries[i].value, Lookup(got.entries, want.entries[i].key), d)
    ensures IsFirst(want, got, Under(want.entries[i].key, d))
  {
    var r := Under(want.entries[i].key, d);
    assert r.at[1..] == d.at;
    assert Report(r.at[1..], r.what) == d;
    assert IsFirstUnder(want.entries, got.entries, i, r);
  }

  /** Same keys with the same values: the same entries in another order. */
  lemma {:induction false} SameEntries(a: seq<Entry>, b: seq<Entry>)
    requires Distinct(Keys(a)) && Distinct(Keys(b)) && |a| == |b|
    requires forall i :: 0 <= i < |a| ==> Agrees(a[i], b)
    ensures multiset(a) == multiset(b)
  {
    forall i | 0 <= i < |a| ensures a[i] in b {
      assert Agrees(a[i], b);
      var j :| 0 <= j < |b| && b[j] == Entry(a[i].key, Lookup(b, a[i].key));
    }
    Permutes(a, b);
  }

  lemma {:induction false} Permutes(a: seq<Entry>, b: seq<Entry>)
    requires Distinct(Keys(a)) && |a| == |b| && forall i :: 0 <= i < |a| ==> a[i] in b
    ensures multiset(a) == multiset(b)
  {
    if a != [] {
      var j :| 0 <= j < |b| && b[j] == a[0];
      var rest := Without(b, j);
      assert a == [a[0]] + a[1..];
      assert Keys(a[1..]) == Keys(a)[1..];
      forall i | 0 <= i < |a| - 1 ensures a[1..][i] in rest {
        assert Keys(a)[0] != Keys(a)[i + 1];
        assert a[i + 1] in b;
      }
      Permutes(a[1..], rest);
    }
  }

  function Without(b: seq<Entry>, j: nat): (rest: seq<Entry>)
    requires j < |b|
    ensures |rest| == |b| - 1 && multiset(b) == multiset{b[j]} + multiset(rest)
    ensures forall e :: e in b && e != b[j] ==> e in rest
  {
    assert b == b[..j] + [b[j]] + b[j + 1..];
    b[..j] + b[j + 1..]
  }
}
