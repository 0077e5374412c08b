/**
 * The single-use table of autologin token ids (ReplayCache).
 *
 * mark is one INSERT under the primary key jti_hash, prune one DELETE, seen one SELECT; each
 * request reads its own clock at any earlier moment.  So every interleaving of any number of
 * requests is a sequence of such statements with arbitrary clock readings.
 *
 * Main result: two successful marks of one jti have between them a prune whose clock is past
 * the first row's expiry (SecondMarkNeedsPrune).
 */
module ReplayCache {

  type Table = map<string, int>

  class Cache {
    const hash: string -> string
    var table: Table
    var db: bool

    constructor (hash: string -> string)
      ensures this.hash == hash && table == map[] && db
    {
      this.hash := hash;
      table, db := map[], true;
    }

    method Seen(jti: string, now: int) returns (seen: bool)
      ensures seen == (jti != "" && db && IsLive(table, hash(jti), now))
    {
      if jti == "" || !db {
        return false;
      }
      seen := hash(jti) in table && table[hash(jti)] >= now;
    }

    method Mark(jti: string, ttl: int, now: int) returns (ok: bool)
      modifies this`table
      ensures (table, ok) == Apply(hash, old(table), Insert(jti, ttl, now, db))
      ensures ok <==> jti != "" && ttl > 0 && db && hash(jti) !in old(table)
      ensures table == if ok then old(table)[hash(jti) := now + ttl] else old(table)
    {
      if jti == "" || ttl <= 0 || !db || hash(jti) in table {
        return false;
      }
      table := table[hash(jti) := now + ttl];
      return true;
    }

    method Prune(now: int) returns (purged: nat)
      modifies this`table
      ensures table == Apply(hash, old(table), Delete(now, db)).0
      ensures purged == |old(table)| - |table|
      ensures forall h :: h in table <==> h in old(table) && (db ==> old(table)[h] >= now)
      ensures forall h :: h in table ==> table[h] == old(table)[h]
    {
      if !db {
        return 0;
      }
      var kept := map h | h in table && table[h] >= now :: table[h];
      SubmapIsSmaller(kept, table);
      purged := |table| - |kept|;
      table := kept;
    }
  }

  predicate IsLive(t: Table, h: string, now: int) {
    h in t && t[h] >= now
  }

  lemma SubmapIsSmaller(a: Table, b: Table)
    requires a.Keys <= b.Keys
    ensures |a| <= |b|
  {
    var rest := b.Keys - a.Keys;
    assert b.Keys == a.Keys + rest;
    assert |a.Keys + rest| == |a.Keys| + |rest|;
    assert |a| == |a.Keys| && |b| == |b.Keys|;
  }

  /** One statement of one request (mark's INSERT or prune's DELETE), with the clock that request read. */
  datatype Statement = Insert(jti: string, ttl: int, now: int, db: bool) | Delete(now: int, db: bool)

  /** The table after a statement, and whether it was a mark that succeeded. */
  function Apply(hash: string -> string, t: Table, s: Statement): (Table, bool) {
    match s
    case Insert(jti, ttl, now, db) =>
      if jti == "" || ttl <= 0 || !db || hash(jti) in t then (t, false)
      else (t[hash(jti) := now + ttl], true)
    case Delete(now, db) => (if db then map h | h in t && t[h] >= now :: t[h] else t, false)
  }

  /** The table before statement k of an interleaving. */
  function Before(hash: string -> string, start: Table, run: seq<Statement>, k: nat): Table
    requires k <= |run|
  {
    if k == 0 then start else Apply(hash, Before(hash, start, run, k - 1), run[k - 1]).0
  }

  predicate Succeeds(hash: string -> string, start: Table, run: seq<Statement>, k: nat)
    requires k < |run|
  {
    Apply(hash, Before(hash, start, run, k), run[k]).1
  }

  /** A prune between two statements whose clock is past the given expiry. */
  predicate PrunedPast(run: seq<Statement>, i: nat, j: nat, expiry: int)
    requires i < j <= |run|
  {
    exists m :: i < m < j && run[m].Delete? && run[m].now > expiry
  }

  /** The row of a successful mark stays, unchanged, until a prune past its expiry. */
  lemma {:induction false} RowStays(hash: string -> string, start: Table, run: seq<Statement>, i: nat, j: nat)
    requires i < j <= |run| && Succeeds(hash, start, run, i)
    requires !PrunedPast(run, i, j, run[i].now + run[i].ttl)
    ensures hash(run[i].jti) in Before(hash, start, run, j)
    ensures Before(hash, start, run, j)[hash(run[i].jti)] == run[i].now + run[i].ttl
  {
    if j > i + 1 {
      assert !PrunedPast(run, i, j - 1, run[i].now + run[i].ttl);
      RowStays(hash, start, run, i, j - 1);
      assert run[j - 1].Delete? ==> run[j - 1].now <= run[i].now + run[i].ttl;
    }
  }

  lemma SecondMarkNeedsPrune(hash: string -> string, start: Table, run: seq<Statement>, i: nat, j: nat)
    requires i < j < |run|
    requires Succeeds(hash, start, run, i) && Succeeds(hash, start, run, j)
    requires run[i].jti == run[j].jti
    ensures PrunedPast(run, i, j, run[i].now + run[i].ttl)
  {
    if !PrunedPast(run, i, j, run[i].now + run[i].ttl) {
      RowStays(hash, start, run, i, j);
      assert false;
    }
  }

  /** Until such a prune, seen answers yes on every clock up to the row's expiry. */
  lemma MarkedIsSeen(hash: string -> string, start: Table, run: seq<Statement>, i: nat, j: nat, now: int)
    requires i < j <= |run| && Succeeds(hash, start, run, i)
    requires !PrunedPast(run, i, j, run[i].now + run[i].ttl)
    ensures IsLive(Before(hash, start, run, j), hash(run[i].jti), now) <==> now <= run[i].now + run[i].ttl
  {
    RowStays(hash, start, run, i, j);
  }
}
