/**
 * Verification of signed tokens and the anti-replay table (Connector).
 *
 * Main results: over any serialised run of verify calls by any number of workers, no jti is
 * accepted in two different requests, provided no clock reading is more than 241 s below an
 * earlier one and the tokens of one jti have one expiry (NoJtiAcceptedTwice); both are needed
 * (LargerStepAdmitsReplay, SecondExpiryAdmitsReplay).  The read-only check and verifyCommand
 * agree (TwoPathsAgree).
 */
module Connector {
  import opened Wrappers
  import Base64
  import Strings

  const REPLAY_WINDOW := 300
  const MAX_FUTURE_EXP := 60
  const SIGNATURE_BYTES := 64
  const PUBLIC_KEY_BYTES := 32

  /** One decoded JSON value, as far as the claims are read: null, text, a number cast to int, or anything else. */
  datatype Claim = Null | Text(text: string) | Number(n: int) | OtherValue

  type Claims = map<string, Claim>

  /** The keystore's answer: getControlPlanePublicKey throws, returns null, or returns bytes. */
  datatype KeyRead = Unreadable | NotProvisioned | PublicKey(bytes: seq<Byte>)

  /** Ed25519, JSON, PHP's numeric strings and SHA-256, as parameters. */
  datatype Env = Env(
    signatureOk: (seq<Byte>, string, seq<Byte>) -> bool,
    decodeJson: seq<Byte> -> Option<Claims>,
    numericText: string -> Option<int>,
    hash: string -> string)

  datatype Failure =
    | MalformedJwt | KeyUnreadable | KeyNotProvisioned | SigFailed | MissingExp | TokenExpired | TokenSkew
    | MissingJti | TokenReplay | SiteNotEnrolled | MissingAud | AudMismatch | MissingCommand | MissingCmd | CmdMismatch

  datatype Result<+T> = Ok(value: T) | Err(failure: Failure)

  /** A non-empty string claim. */
  function TextOf(c: Claims, name: string): Option<string> {
    if name in c && c[name].Text? && c[name].text != "" then Some(c[name].text) else None
  }

  /** A claim that is_numeric accepts, cast to int. */
  function NumberOf(env: Env, c: Claims, name: string): Option<int> {
    if name !in c then None
    else match c[name]
      case Number(n) => Some(n)
      case Text(t) => env.numericText(t)
      case _ => None
  }

  datatype Checked = Checked(claims: Claims, exp: int, jti: string)

  /** verify up to the point where it turns to the jti: signature, algorithm, lifetime. */
  function Check(env: Env, key: KeyRead, jwt: string, now: int): Result<Checked> {
    var parts := Strings.Split(jwt, '.');
    if |parts| != 3 then Err(MalformedJwt)
    else if key.Unreadable? then Err(KeyUnreadable)
    else if key.NotProvisioned? || |key.bytes| != PUBLIC_KEY_BYTES then Err(KeyNotProvisioned)
    else
      var signature := Base64.UrlDecode(parts[2]);
      if |signature| != SIGNATURE_BYTES then Err(SigFailed)
      else if !env.signatureOk(signature, parts[0] + "." + parts[1], key.bytes) then Err(SigFailed)
      else
        var header := env.decodeJson(Base64.UrlDecode(parts[0]));
        if header.None? || TextOf(header.value, "alg") != Some("EdDSA") then Err(MalformedJwt)
        else
          var claims := env.decodeJson(Base64.UrlDecode(parts[1]));
          if claims.None? then Err(MalformedJwt)
          else
            var exp := NumberOf(env, claims.value, "exp");
            if exp.None? then Err(MissingExp)
            else if exp.value <= now then Err(TokenExpired)
            else if exp.value > now + MAX_FUTURE_EXP then Err(TokenSkew)
            else if TextOf(claims.value, "jti").None? then Err(MissingJti)
            else Ok(Checked(claims.value, exp.value, TextOf(claims.value, "jti").value))
  }

  /** The aud and cmd bindings verifyCommand adds. */
  function Bind(claims: Claims, siteId: string, expectedCmd: string): Result<Claims> {
    if siteId == "" then Err(SiteNotEnrolled)
    else if TextOf(claims, "aud").None? then Err(MissingAud)
    else if TextOf(claims, "aud").value != siteId then Err(AudMismatch)
    else if expectedCmd == "" then Err(MissingCommand)
    else if TextOf(claims, "cmd").None? then Err(MissingCmd)
    else if TextOf(claims, "cmd").value != expectedCmd then Err(CmdMismatch)
    else Ok(claims)
  }

  datatype Validation = Answer(valid: bool) | Throws

  /**
   * validateCommandSignature, in its own order of checks.  The keystore's exception is not
   * caught here, so an unreadable key makes it throw.
   */
  function Validate(env: Env, key: KeyRead, siteId: string, jwt: string, expectedCmd: string, now: int): Validation {
    var parts := Strings.Split(jwt, '.');
    if |parts| != 3 then Answer(false)
    else if key.Unreadable? then Throws
    else if key.NotProvisioned? || |key.bytes| != PUBLIC_KEY_BYTES then Answer(false)
    else
      var signature := Base64.UrlDecode(parts[2]);
      var header := env.decodeJson(Base64.UrlDecode(parts[0]));
      var claims := env.decodeJson(Base64.UrlDecode(parts[1]));
      if |signature| != SIGNATURE_BYTES || !env.signatureOk(signature, parts[0] + "." + parts[1], key.bytes) then Answer(false)
      else if header.None? || TextOf(header.value, "alg") != Some("EdDSA") then Answer(false)
      else if claims.None? then Answer(false)
      else
        var exp := NumberOf(env, claims.value, "exp");
        if exp.None? || exp.value <= now || exp.value > now + MAX_FUTURE_EXP then Answer(false)
        else if TextOf(claims.value, "jti").None? then Answer(false)
        else if siteId == "" then Answer(false)
        else if TextOf(claims.value, "aud") != Some(siteId) then Answer(false)
        else if expectedCmd == "" then Answer(false)
        else Answer(TextOf(claims.value, "cmd") == Some(expectedCmd))
  }

  /** The jti table: the unique jti_hash of each row, and its expires_at. */
  type Table = map<string, int>

  function Prune(t: Table, now: int): Table {
    map h | h in t && t[h] >= now :: t[h]
  }

  predicate Seen(env: Env, t: Table, jti: string, now: int) {
    env.hash(jti) in t && t[env.hash(jti)] >= now
  }

  function Max(a: int, b: int): int {
    if a > b then a else b
  }

  /** recordJti: prune what has expired, then insert; the unique key refuses a second row. */
  function Record(env: Env, t: Table, jti: string, exp: int, now: int): Table {
    var kept := Prune(t, now);
    if env.hash(jti) in kept then kept else kept[env.hash(jti) := Max(exp, now + REPLAY_WINDOW)]
  }

  /** The static per-process cache: the claims verified in the request the epoch stands for. */
  datatype Cache = Cache(verified: map<string, Claims>, epoch: int)

  function ResetIfNewRequest(c: Cache, epoch: int): Cache {
    if epoch != c.epoch then Cache(map[], epoch) else c
  }

  /**
   * The Connector object over its static cache and the table.  `db` says whether a database
   * handle is there at all; without one nothing is seen and nothing is recorded.
   */
  class Verifier {
    const env: Env
    var cache: Cache
    var table: Table
    var db: bool

    constructor (env: Env)
      ensures this.env == env && cache == Cache(map[], 0) && table == map[] && db
    {
      this.env := env;
      cache, table, db := Cache(map[], 0), map[], true;
    }

    method IsJtiSeen(jti: string, now: int) returns (seen: bool)
      ensures seen == (db && Seen(env, table, jti, now))
    {
      if !db {
        return false;
      }
      seen := env.hash(jti) in table && table[env.hash(jti)] >= now;
    }

    method RecordJti(jti: string, exp: int, now: int)
      modifies this`table
      ensures table == if db then Record(env, old(table), jti, exp, now) else old(table)
    {
      if !db {
        return;
      }
      table := map h | h in table && table[h] >= now :: table[h];
      if env.hash(jti) !in table {
        table := table[env.hash(jti) := Max(exp, now + REPLAY_WINDOW)];
      }
    }

    method Verify(key: KeyRead, jwt: string, now: int, epoch: int) returns (r: Result<Claims>)
      modifies this`cache, this`table
      ensures (table, cache, r) == VerifyStep(env, old(table), old(cache), Call(0, epoch, key, jwt, now, db))
    {
      var checked := Check(env, key, jwt, now);
      if checked.Err? {
        return Err(checked.failure);
      }
      var Checked(claims, exp, jti) := checked.value;
      if epoch != cache.epoch {
        cache := Cache(map[], epoch);
      }
      if jti in cache.verified {
        return Ok(cache.verified[jti]);
      }
      var seen := IsJtiSeen(jti, now);
      if seen {
        return Err(TokenReplay);
      }
      RecordJti(jti, exp, now);
      cache := cache.(verified := cache.verified[jti := claims]);
      return Ok(claims);
    }

    method VerifyCommand(key: KeyRead, siteId: string, jwt: string, expectedCmd: string, now: int, epoch: int)
      returns (r: Result<Claims>)
      modifies this`cache, this`table
      ensures var (t, c, verified) := VerifyStep(env, old(table), old(cache), Call(0, epoch, key, jwt, now, db));
              table == t && cache == c && r == if verified.Ok? then Bind(verified.value, siteId, expectedCmd) else verified
    {
      r := Verify(key, jwt, now, epoch);
      if r.Ok? {
        r := Bind(r.value, siteId, expectedCmd);
      }
    }
  }

  /**
   * One call of verify: the worker it runs in, its request's epoch, the key, the token, the
   * clock, and whether there is a database handle.
   */
  datatype Call = Call(worker: nat, epoch: int, key: KeyRead, jwt: string, now: int, db: bool)

  /** verify as a function: the new table, the new cache of this worker and the outcome. */
  function VerifyStep(env: Env, t: Table, c: Cache, call: Call): (Table, Cache, Result<Claims>) {
    var checked := Check(env, call.key, call.jwt, call.now);
    if checked.Err? then (t, c, Err(checked.failure))
    else
      var Checked(claims, exp, jti) := checked.value;
      var c' := ResetIfNewRequest(c, call.epoch);
      if jti in c'.verified then (t, c', Ok(c'.verified[jti]))
      else if call.db && Seen(env, t, jti, call.now) then (t, c', Err(TokenReplay))
      else (if call.db then Record(env, t, jti, exp, call.now) else t, Cache(c'.verified[jti := claims], c'.epoch), Ok(claims))
  }

  /**
   * With a jti new to the request and to the table, the read-only check says yes exactly when
   * verifyCommand would return claims, unless it throws.
   */
  lemma TwoPathsAgree(env: Env, key: KeyRead, siteId: string, jwt: string, cmd: string, now: int, epoch: int, db: bool, t: Table, c: Cache)
    requires Check(env, key, jwt, now).Ok? ==>
      var jti := Check(env, key, jwt, now).value.jti;
      jti !in ResetIfNewRequest(c, epoch).verified && !(db && Seen(env, t, jti, now))
    ensures var verified := VerifyStep(env, t, c, Call(0, epoch, key, jwt, now, db)).2;
            Validate(env, key, siteId, jwt, cmd, now)
              == if |Strings.Split(jwt, '.')| == 3 && key.Unreadable? then Throws
                 else Answer(verified.Ok? && Bind(verified.value, siteId, cmd).Ok?)
  {
  }

  /** The check that is said never to throw does so exactly on a token of three parts while the stored key cannot be read. */
  lemma UnreadableKeyThrows(env: Env, key: KeyRead, siteId: string, jwt: string, cmd: string, now: int)
    ensures Validate(env, key, siteId, jwt, cmd, now).Throws? <==> |Strings.Split(jwt, '.')| == 3 && key.Unreadable?
  {
  }

  // ---- whole runs --------------------------------------------------------------------------

  datatype World = World(table: Table, caches: map<nat, Cache>)

  function CacheOf(w: World, worker: nat): Cache {
    if worker in w.caches then w.caches[worker] else Cache(map[], 0)
  }

  /** The table and every worker's cache before call k of a run that starts from any table. */
  function Before(env: Env, start: Table, calls: seq<Call>, k: nat): World
    requires k <= |calls|
  {
    if k == 0 then World(start, map[])
    else
      var w, call := Before(env, start, calls, k - 1), calls[k - 1];
      var (t, c, _) := VerifyStep(env, w.table, CacheOf(w, call.worker), call);
      World(t, w.caches[call.worker := c])
  }

  function Outcome(env: Env, start: Table, calls: seq<Call>, k: nat): Result<Claims>
    requires k < |calls|
  {
    var w := Before(env, start, calls, k);
    VerifyStep(env, w.table, CacheOf(w, calls[k].worker), calls[k]).2
  }

  predicate Accepted(env: Env, start: Table, calls: seq<Call>, k: nat)
    requires k < |calls|
  {
    Outcome(env, start, calls, k).Ok?
  }

  function CheckAt(env: Env, calls: seq<Call>, k: nat): Result<Checked>
    requires k < |calls|
  {
    Check(env, calls[k].key, calls[k].jwt, calls[k].now)
  }

  /** Accepted for the first time in its request: the call records the jti. */
  predicate Recorded(env: Env, start: Table, calls: seq<Call>, k: nat)
    requires k < |calls|
  {
    var checked := CheckAt(env, calls, k);
    && checked.Ok?
    && checked.value.jti !in ResetIfNewRequest(CacheOf(Before(env, start, calls, k), calls[k].worker), calls[k].epoch).verified
    && !Seen(env, Before(env, start, calls, k).table, checked.value.jti, calls[k].now)
  }

  /** Two calls belong to one request: same worker, same REQUEST_TIME_FLOAT. */
  predicate SameRequest(a: Call, b: Call) {
    a.worker == b.worker && a.epoch == b.epoch
  }

  predicate WorkingTable(calls: seq<Call>) {
    forall k :: 0 <= k < |calls| ==> calls[k].db
  }

  /** No reading is more than `step` seconds below an earlier one. */
  predicate ClockStepsBackAtMost(calls: seq<Call>, step: int) {
    forall a, b :: 0 <= a < b < |calls| ==> calls[b].now >= calls[a].now - step
  }

  /** A call presents a token that passes every check before the jti, and this is its jti. */
  predicate Presents(env: Env, calls: seq<Call>, k: nat, jti: string)
    requires k < |calls|
  {
    CheckAt(env, calls, k).Ok? && CheckAt(env, calls, k).value.jti == jti
  }

  /** All tokens presented with this jti have the same expiry. */
  predicate JtiFixesExpiry(env: Env, calls: seq<Call>, jti: string) {
    forall a, b :: 0 <= a < |calls| && 0 <= b < |calls| && Presents(env, calls, a, jti) && Presents(env, calls, b, jti)
      ==> CheckAt(env, calls, a).value.exp == CheckAt(env, calls, b).value.exp
  }

  /** The signed claims of a token, as spelled. */
  function PayloadOf(jwt: string): string {
    var parts := Strings.Split(jwt, '.');
    if |parts| == 3 then parts[1] else ""
  }

  /** All tokens presented with this jti have the same payload. */
  predicate JtiFixesPayload(env: Env, calls: seq<Call>, jti: string) {
    forall a, b :: 0 <= a < |calls| && 0 <= b < |calls| && Presents(env, calls, a, jti) && Presents(env, calls, b, jti)
      ==> PayloadOf(calls[a].jwt) == PayloadOf(calls[b].jwt)
  }

  /** It is enough that the control plane signs one payload per jti; how signatures are spelled does not matter. */
  lemma OnePayloadFixesExpiry(env: Env, calls: seq<Call>, jti: string)
    requires JtiFixesPayload(env, calls, jti)
    ensures JtiFixesExpiry(env, calls, jti)
  {
    forall a, b | 0 <= a < |calls| && 0 <= b < |calls| && Presents(env, calls, a, jti) && Presents(env, calls, b, jti)
      ensures CheckAt(env, calls, a).value.exp == CheckAt(env, calls, b).value.exp
    {
      SamePayload(env, calls[a], calls[b]);
    }
  }

  lemma SamePayload(env: Env, a: Call, b: Call)
    requires Check(env, a.key, a.jwt, a.now).Ok? && Check(env, b.key, b.jwt, b.now).Ok?
    requires PayloadOf(a.jwt) == PayloadOf(b.jwt)
    ensures Check(env, a.key, a.jwt, a.now).value == Check(env, b.key, b.jwt, b.now).value
  {
  }

  /** Two spellings of one signature are one token to every check, though not one string. */
  lemma RespelledSignature(env: Env, key: KeyRead, j1: string, j2: string, now: int)
    requires var p, q := Strings.Split(j1, '.'), Strings.Split(j2, '.');
             |p| == |q| == 3 && p[0] == q[0] && p[1] == q[1] && Base64.UrlDecode(p[2]) == Base64.UrlDecode(q[2])
    ensures Check(env, key, j1, now) == Check(env, key, j2, now)
  {
  }

  /** A checked token is alive, for at most 60 s, and its claims depend on the token alone. */
  lemma CheckedToken(env: Env, k1: KeyRead, k2: KeyRead, jwt: string, n1: int, n2: int)
    requires Check(env, k1, jwt, n1).Ok? && Check(env, k2, jwt, n2).Ok?
    ensures Check(env, k1, jwt, n1) == Check(env, k2, jwt, n2)
    ensures n1 < Check(env, k1, jwt, n1).value.exp <= n1 + MAX_FUTURE_EXP
  {
  }

  lemma StepKeepsRow(env: Env, t: Table, c: Cache, call: Call, h: string, bound: int)
    requires h in t && t[h] >= bound && call.now <= bound
    ensures var t' := VerifyStep(env, t, c, call).0; h in t' && t'[h] >= bound
  {
    var checked := Check(env, call.key, call.jwt, call.now);
    if checked.Ok? {
      assert h in Prune(t, call.now);
    }
  }

  lemma RecordingAddsRow(env: Env, t: Table, c: Cache, call: Call, checked: Checked)
    requires Check(env, call.key, call.jwt, call.now) == Ok(checked) && call.db
    requires checked.jti !in ResetIfNewRequest(c, call.epoch).verified && !Seen(env, t, checked.jti, call.now)
    ensures var t' := VerifyStep(env, t, c, call).0;
            env.hash(checked.jti) in t' && t'[env.hash(checked.jti)] >= call.now + REPLAY_WINDOW
  {
  }

  lemma RowAdded(env: Env, start: Table, calls: seq<Call>, a: nat) returns (h: string, bound: int)
    requires a < |calls| && WorkingTable(calls) && Recorded(env, start, calls, a)
    ensures CheckAt(env, calls, a).Ok? && h == env.hash(CheckAt(env, calls, a).value.jti) && bound == calls[a].now + REPLAY_WINDOW
    ensures HasRow(env, start, calls, a + 1, h, bound)
  {
    h, bound := env.hash(CheckAt(env, calls, a).value.jti), calls[a].now + REPLAY_WINDOW;
    var w := Before(env, start, calls, a);
    BeforeNext(env, start, calls, a);
    RecordingAddsRow(env, w.table, CacheOf(w, calls[a].worker), calls[a], CheckAt(env, calls, a).value);
  }

  lemma RowKept(env: Env, start: Table, calls: seq<Call>, k: nat, h: string, bound: int)
    requires k < |calls| && calls[k].now <= bound && HasRow(env, start, calls, k, h, bound)
    ensures HasRow(env, start, calls, k + 1, h, bound)
  {
    var w := Before(env, start, calls, k);
    BeforeNext(env, start, calls, k);
    StepKeepsRow(env, w.table, CacheOf(w, calls[k].worker), calls[k], h, bound);
  }

  /** Before call k the table has a row for the hash that expires no earlier than the bound. */
  predicate HasRow(env: Env, start: Table, calls: seq<Call>, k: nat, h: string, bound: int)
    requires k <= |calls|
  {
    var t := Before(env, start, calls, k).table; h in t && t[h] >= bound
  }

  lemma {:induction false} RowLasts(env: Env, start: Table, calls: seq<Call>, a: nat, k: nat, h: string, bound: int)
    requires a <= k <= |calls| && HasRow(env, start, calls, a, h, bound)
    requires forall m :: a <= m < k ==> calls[m].now <= bound
    ensures HasRow(env, start, calls, k, h, bound)
    decreases k
  {
    if a < k {
      RowLasts(env, start, calls, a, k - 1, h, bound);
      RowKept(env, start, calls, k - 1, h, bound);
    }
  }

  /** The row of a recorded jti stays until some clock reading passes its expiry. */
  lemma RowStays(env: Env, start: Table, calls: seq<Call>, a: nat, k: nat)
    requires a < k <= |calls| && WorkingTable(calls)
    requires Recorded(env, start, calls, a)
    requires forall m :: a < m < k ==> calls[m].now <= calls[a].now + REPLAY_WINDOW
    ensures var t, h := Before(env, start, calls, k).table, env.hash(CheckAt(env, calls, a).value.jti);
            h in t && t[h] >= calls[a].now + REPLAY_WINDOW
  {
    var h, bound := RowAdded(env, start, calls, a);
    RowLasts(env, start, calls, a + 1, k, h, bound);
  }

  // ---- what an acceptance returns -------------------------------------------------------------------

  /** What verify leaves in a cache for a jti was there in the same request, or is what the call itself has checked. */
  lemma StepCachesClaims(env: Env, t: Table, c: Cache, call: Call, jti: string)
    requires jti in VerifyStep(env, t, c, call).1.verified
    ensures var checked, c' := Check(env, call.key, call.jwt, call.now), VerifyStep(env, t, c, call).1;
            || (jti in c.verified && c'.epoch == c.epoch && c'.verified[jti] == c.verified[jti])
            || (c'.epoch == call.epoch && checked.Ok? && checked.value.jti == jti && c'.verified[jti] == checked.value.claims
                && jti !in ResetIfNewRequest(c, call.epoch).verified)
  {
  }

  /** Before call k the worker's cache belongs to the epoch and holds these claims. */
  predicate HasCached(env: Env, start: Table, calls: seq<Call>, k: nat, worker: nat, epoch: int, jti: string, claims: Claims)
    requires k <= |calls|
  {
    var c := CacheOf(Before(env, start, calls, k), worker);
    c.epoch == epoch && jti in c.verified && c.verified[jti] == claims
  }

  lemma ClaimsStep(env: Env, start: Table, calls: seq<Call>, k: nat, worker: nat, epoch: int, jti: string, claims: Claims)
    requires k < |calls| && HasCached(env, start, calls, k + 1, worker, epoch, jti, claims)
    ensures HasCached(env, start, calls, k, worker, epoch, jti, claims) || Checks(env, calls, k, worker, epoch, jti, claims)
  {
    var w := Before(env, start, calls, k);
    BeforeNext(env, start, calls, k);
    if calls[k].worker == worker {
      StepCachesClaims(env, w.table, CacheOf(w, worker), calls[k], jti);
    }
  }

  /** The call, of this request, presents the jti with these claims. */
  predicate Checks(env: Env, calls: seq<Call>, k: nat, worker: nat, epoch: int, jti: string, claims: Claims)
    requires k < |calls|
  {
    calls[k].worker == worker && calls[k].epoch == epoch && Presents(env, calls, k, jti) && CheckAt(env, calls, k).value.claims == claims
  }

  lemma NothingCachedAtFirst(env: Env, start: Table, calls: seq<Call>, k: nat, worker: nat, epoch: int, jti: string, claims: Claims)
    requires k <= |calls| && HasCached(env, start, calls, k, worker, epoch, jti, claims)
    ensures k > 0
  {
  }

  /** The claims a worker's cache holds for a jti are those some call of the cache's request has checked. */
  lemma ClaimsOrigin(env: Env, start: Table, calls: seq<Call>, k: nat, worker: nat, epoch: int, jti: string, claims: Claims)
      returns (o: nat)
    requires k <= |calls| && HasCached(env, start, calls, k, worker, epoch, jti, claims)
    ensures o < k && Checks(env, calls, o, worker, epoch, jti, claims)
  {
    var holds := (i: nat) => i <= |calls| && HasCached(env, start, calls, i, worker, epoch, jti, claims);
    var begins := (i: nat) => i < |calls| && Checks(env, calls, i, worker, epoch, jti, claims);
    if holds(0) {
      NothingCachedAtFirst(env, start, calls, 0, worker, epoch, jti, claims);
    }
    forall i: nat | i < k && holds(i + 1) ensures holds(i) || begins(i) {
      ClaimsStep(env, start, calls, i, worker, epoch, jti, claims);
    }
    o := Origin(holds, begins, k);
  }

  /** An accepted call returns exactly the claims that its request checked, in that call or an earlier one, with the same jti. */
  lemma AcceptedClaims(env: Env, start: Table, calls: seq<Call>, k: nat) returns (o: nat)
    requires k < |calls| && Accepted(env, start, calls, k)
    ensures o <= k && SameRequest(calls[o], calls[k]) && CheckAt(env, calls, k).Ok?
    ensures Presents(env, calls, o, CheckAt(env, calls, k).value.jti)
    ensures Outcome(env, start, calls, k) == Ok(CheckAt(env, calls, o).value.claims)
  {
    var w, call := Before(env, start, calls, k), calls[k];
    AcceptedStep(env, w.table, CacheOf(w, call.worker), call);
    var jti := CheckAt(env, calls, k).value.jti;
    var c := CacheOf(w, call.worker);
    if c.epoch == call.epoch && jti in c.verified {
      o := ClaimsOrigin(env, start, calls, k, call.worker, call.epoch, jti, c.verified[jti]);
    } else {
      o := k;
    }
  }

  /** One accepted call: the cached claims if there are any, else the token's. */
  lemma AcceptedStep(env: Env, t: Table, c: Cache, call: Call)
    requires VerifyStep(env, t, c, call).2.Ok?
    ensures var checked := Check(env, call.key, call.jwt, call.now);
            checked.Ok? && VerifyStep(env, t, c, call).2
              == Ok(if c.epoch == call.epoch && checked.value.jti in c.verified then c.verified[checked.value.jti] else checked.value.claims)
    ensures var checked, c' := Check(env, call.key, call.jwt, call.now), VerifyStep(env, t, c, call).1;
            c'.epoch == call.epoch && checked.value.jti in c'.verified && VerifyStep(env, t, c, call).2 == Ok(c'.verified[checked.value.jti])
  {
  }

  /** What a request has in its cache stays there while the worker serves no other request. */
  lemma CacheStays(env: Env, t: Table, c: Cache, call: Call, jti: string)
    requires call.epoch == c.epoch && jti in c.verified
    ensures var c' := VerifyStep(env, t, c, call).1;
            c'.epoch == c.epoch && jti in c'.verified && c'.verified[jti] == c.verified[jti]
  {
  }

  lemma CachedNext(env: Env, start: Table, calls: seq<Call>, k: nat, worker: nat, epoch: int, jti: string, claims: Claims)
    requires k < |calls| && HasCached(env, start, calls, k, worker, epoch, jti, claims)
    requires calls[k].worker == worker ==> calls[k].epoch == epoch
    ensures HasCached(env, start, calls, k + 1, worker, epoch, jti, claims)
  {
    var w := Before(env, start, calls, k);
    BeforeNext(env, start, calls, k);
    if calls[k].worker == worker {
      CacheStays(env, w.table, CacheOf(w, worker), calls[k], jti);
    }
  }

  lemma {:induction false} CachedUntil(env: Env, start: Table, calls: seq<Call>, a: nat, k: nat, worker: nat, epoch: int, jti: string, claims: Claims)
    requires a <= k <= |calls| && HasCached(env, start, calls, a, worker, epoch, jti, claims)
    requires forall m :: a <= m < k && calls[m].worker == worker ==> calls[m].epoch == epoch
    ensures HasCached(env, start, calls, k, worker, epoch, jti, claims)
    decreases k
  {
    if a < k {
      CachedUntil(env, start, calls, a, k - 1, worker, epoch, jti, claims);
      CachedNext(env, start, calls, k - 1, worker, epoch, jti, claims);
    }
  }

  /** No request of another epoch runs in the worker of call i between it and call k. */
  predicate RequestGoesOn(calls: seq<Call>, i: nat, k: nat)
    requires i < k < |calls|
  {
    SameRequest(calls[i], calls[k]) && forall m :: i < m < k && calls[m].worker == calls[i].worker ==> calls[m].epoch == calls[i].epoch
  }

  /** Right after an acceptance the worker's cache holds the claims it returned. */
  lemma AcceptanceCaches(env: Env, start: Table, calls: seq<Call>, i: nat, jti: string) returns (claims: Claims)
    requires i < |calls| && Presents(env, calls, i, jti) && Accepted(env, start, calls, i)
    ensures HasCached(env, start, calls, i + 1, calls[i].worker, calls[i].epoch, jti, claims)
    ensures Outcome(env, start, calls, i) == Ok(claims)
  {
    var w := Before(env, start, calls, i);
    AcceptedStep(env, w.table, CacheOf(w, calls[i].worker), calls[i]);
    BeforeNext(env, start, calls, i);
    claims := Outcome(env, start, calls, i).value;
  }

  lemma OutcomeOfCached(env: Env, start: Table, calls: seq<Call>, k: nat, jti: string, claims: Claims)
    requires k < |calls| && Presents(env, calls, k, jti)
    requires HasCached(env, start, calls, k, calls[k].worker, calls[k].epoch, jti, claims)
    ensures Outcome(env, start, calls, k) == Ok(claims)
  {
    var w := Before(env, start, calls, k);
    CachedIsReturned(env, w.table, CacheOf(w, calls[k].worker), calls[k], jti);
  }

  lemma CachedIsReturned(env: Env, t: Table, c: Cache, call: Call, jti: string)
    requires c.epoch == call.epoch && jti in c.verified
    requires Check(env, call.key, call.jwt, call.now).Ok? && Check(env, call.key, call.jwt, call.now).value.jti == jti
    ensures VerifyStep(env, t, c, call).2 == Ok(c.verified[jti])
  {
  }

  /** A jti accepted in a request is accepted again in it, with the same claims, by any call that presents it. */
  lemma RepeatIsAccepted(env: Env, start: Table, calls: seq<Call>, i: nat, k: nat, jti: string)
    requires i < k < |calls| && RequestGoesOn(calls, i, k)
    requires Presents(env, calls, i, jti) && Presents(env, calls, k, jti) && Accepted(env, start, calls, i)
    ensures Outcome(env, start, calls, k) == Outcome(env, start, calls, i)
  {
    var claims := AcceptanceCaches(env, start, calls, i, jti);
    CachedUntil(env, start, calls, i + 1, k, calls[i].worker, calls[i].epoch, jti, claims);
    OutcomeOfCached(env, start, calls, k, jti, claims);
  }

  /** What verifyCommand answers at call k. */
  function CommandOutcome(env: Env, start: Table, calls: seq<Call>, k: nat, siteId: string, cmd: string): Result<Claims>
    requires k < |calls|
  {
    var r := Outcome(env, start, calls, k);
    if r.Ok? then Bind(r.value, siteId, cmd) else r
  }

  /** So a command verified once in a request is verified again in it, with the same result, as long as its token lives. */
  lemma RepeatedCommand(env: Env, start: Table, calls: seq<Call>, i: nat, k: nat, siteId: string, cmd: string)
    requires i < k < |calls| && RequestGoesOn(calls, i, k) && calls[k].jwt == calls[i].jwt && calls[k].key == calls[i].key
    requires CommandOutcome(env, start, calls, i, siteId, cmd).Ok? && calls[k].now < CheckAt(env, calls, i).value.exp <= calls[k].now + MAX_FUTURE_EXP
    ensures CommandOutcome(env, start, calls, k, siteId, cmd) == CommandOutcome(env, start, calls, i, siteId, cmd)
  {
    AcceptedIsChecked(env, start, calls, i);
    CheckAgain(env, calls[i].key, calls[i].jwt, calls[i].now, calls[k].now);
    RepeatIsAccepted(env, start, calls, i, k, CheckAt(env, calls, i).value.jti);
  }

  // ---- what a check asks for ------------------------------------------------------------------------

  /** Everything a token must satisfy before its jti is looked at, and what is taken from it. */
  predicate IsGood(env: Env, key: KeyRead, jwt: string, now: int, checked: Checked) {
    var parts := Strings.Split(jwt, '.');
    && |parts| == 3 && key.PublicKey? && |key.bytes| == PUBLIC_KEY_BYTES
    && |Base64.UrlDecode(parts[2])| == SIGNATURE_BYTES
    && env.signatureOk(Base64.UrlDecode(parts[2]), parts[0] + "." + parts[1], key.bytes)
    && (var header := env.decodeJson(Base64.UrlDecode(parts[0]));
        header.Some? && "alg" in header.value && header.value["alg"] == Text("EdDSA"))
    && env.decodeJson(Base64.UrlDecode(parts[1])) == Some(checked.claims)
    && "exp" in checked.claims
    && (|| checked.claims["exp"] == Number(checked.exp)
        || (checked.claims["exp"].Text? && env.numericText(checked.claims["exp"].text) == Some(checked.exp)))
    && now < checked.exp <= now + 60
    && "jti" in checked.claims && checked.claims["jti"] == Text(checked.jti) && checked.jti != ""
  }

  /** A token passes exactly when it satisfies all of that. */
  lemma CheckAccepts(env: Env, key: KeyRead, jwt: string, now: int, checked: Checked)
    ensures Check(env, key, jwt, now) == Ok(checked) <==> IsGood(env, key, jwt, now, checked)
  {
  }

  /** And its claims bind to a site and a command exactly when they name both, and neither is empty. */
  lemma BindAccepts(claims: Claims, siteId: string, cmd: string)
    ensures Bind(claims, siteId, cmd) == Ok(claims)
       <==> siteId != "" && cmd != "" && "aud" in claims && claims["aud"] == Text(siteId)
            && "cmd" in claims && claims["cmd"] == Text(cmd)
    ensures Bind(claims, siteId, cmd).Ok? ==> Bind(claims, siteId, cmd) == Ok(claims)
  {
  }

  /** What verify leaves in a cache was there in the same request, or is the jti the call records. */
  lemma StepCaches(env: Env, t: Table, c: Cache, call: Call, jti: string)
    requires call.db && jti in VerifyStep(env, t, c, call).1.verified
    ensures var checked, c' := Check(env, call.key, call.jwt, call.now), VerifyStep(env, t, c, call).1;
            || (jti in c.verified && c'.epoch == c.epoch)
            || (c'.epoch == call.epoch && checked.Ok? && checked.value.jti == jti
                && jti !in ResetIfNewRequest(c, call.epoch).verified && !Seen(env, t, jti, call.now))
  {
  }

  /** Before call k the worker's cache belongs to the epoch and holds the jti. */
  predicate HasJti(env: Env, start: Table, calls: seq<Call>, k: nat, worker: nat, epoch: int, jti: string)
    requires k <= |calls|
  {
    var c := CacheOf(Before(env, start, calls, k), worker);
    c.epoch == epoch && jti in c.verified
  }

  /** Call k, of this request, records the jti. */
  predicate RecordsJti(env: Env, start: Table, calls: seq<Call>, k: nat, worker: nat, epoch: int, jti: string)
    requires k < |calls|
  {
    calls[k].worker == worker && calls[k].epoch == epoch && Recorded(env, start, calls, k) && Presents(env, calls, k, jti)
  }

  lemma JtiStep(env: Env, start: Table, calls: seq<Call>, k: nat, worker: nat, epoch: int, jti: string)
    requires k < |calls| && calls[k].db && HasJti(env, start, calls, k + 1, worker, epoch, jti)
    ensures HasJti(env, start, calls, k, worker, epoch, jti) || RecordsJti(env, start, calls, k, worker, epoch, jti)
  {
    var w := Before(env, start, calls, k);
    BeforeNext(env, start, calls, k);
    if calls[k].worker == worker {
      StepCaches(env, w.table, CacheOf(w, worker), calls[k], jti);
    }
  }

  lemma NoJtiAtFirst(env: Env, start: Table, calls: seq<Call>, k: nat, worker: nat, epoch: int, jti: string)
    requires k <= |calls| && HasJti(env, start, calls, k, worker, epoch, jti)
    ensures k > 0
  {
  }

  /** What holds before k but not at first has come to hold somewhere. */
  lemma {:induction false} Origin(holds: nat -> bool, begins: nat -> bool, k: nat) returns (o: nat)
    requires holds(k) && !holds(0)
    requires forall i: nat :: i < k && holds(i + 1) ==> holds(i) || begins(i)
    ensures o < k && begins(o)
  {
    if holds(k - 1) {
      o := Origin(holds, begins, k - 1);
    } else {
      o := k - 1;
    }
  }

  /** A worker's cache holds only jtis recorded in the request its epoch stands for. */
  lemma CacheOrigin(env: Env, start: Table, calls: seq<Call>, k: nat, worker: nat, epoch: int, jti: string) returns (o: nat)
    requires k <= |calls| && WorkingTable(calls) && HasJti(env, start, calls, k, worker, epoch, jti)
    ensures o < k && RecordsJti(env, start, calls, o, worker, epoch, jti)
  {
    var holds := (i: nat) => i <= |calls| && HasJti(env, start, calls, i, worker, epoch, jti);
    var begins := (i: nat) => i < |calls| && RecordsJti(env, start, calls, i, worker, epoch, jti);
    if holds(0) {
      NoJtiAtFirst(env, start, calls, 0, worker, epoch, jti);
    }
    forall i: nat | i < k && holds(i + 1) ensures holds(i) || begins(i) {
      JtiStep(env, start, calls, i, worker, epoch, jti);
    }
    o := Origin(holds, begins, k);
  }

  /** Every acceptance goes back to one call of its own request that recorded the jti. */
  lemma AcceptanceOrigin(env: Env, start: Table, calls: seq<Call>, k: nat) returns (o: nat)
    requires k < |calls| && WorkingTable(calls)
    requires Accepted(env, start, calls, k)
    ensures o <= k && SameRequest(calls[o], calls[k]) && CheckAt(env, calls, k).Ok?
    ensures Recorded(env, start, calls, o) && CheckAt(env, calls, o).value.jti == CheckAt(env, calls, k).value.jti
  {
    var jti := CheckAt(env, calls, k).value.jti;
    if Recorded(env, start, calls, k) {
      o := k;
    } else {
      o := CacheOrigin(env, start, calls, k, calls[k].worker, calls[k].epoch, jti);
    }
  }

  /** Between two recordings of one jti some clock reading passes the expiry of the first row. */
  lemma RecordedTwice(env: Env, start: Table, calls: seq<Call>, a: nat, b: nat) returns (m: nat)
    requires a < b < |calls| && WorkingTable(calls)
    requires Recorded(env, start, calls, a) && Recorded(env, start, calls, b)
    requires CheckAt(env, calls, a).value.jti == CheckAt(env, calls, b).value.jti
    ensures a < m <= b && calls[m].now > calls[a].now + REPLAY_WINDOW && CheckAt(env, calls, a).Ok?
  {
    if forall i :: a < i <= b ==> calls[i].now <= calls[a].now + REPLAY_WINDOW {
      RowStays(env, start, calls, a, b);
      assert false;
    }
    m :| a < m <= b && calls[m].now > calls[a].now + REPLAY_WINDOW;
  }

  const TOLERATED_STEP := REPLAY_WINDOW - MAX_FUTURE_EXP + 1

  /**
   * Replay safety: while no clock reading is more than 241 s below an earlier one, no jti is
   * accepted in two different requests, however the tokens that carry it are spelled and whatever
   * the workers, the calls between them and the table they started from.
   */
  lemma NoJtiAcceptedTwice(env: Env, start: Table, calls: seq<Call>, i: nat, j: nat, jti: string)
    requires i < j < |calls| && WorkingTable(calls) && ClockStepsBackAtMost(calls, TOLERATED_STEP)
    requires Presents(env, calls, i, jti) && Presents(env, calls, j, jti) && JtiFixesExpiry(env, calls, jti)
    requires !SameRequest(calls[i], calls[j]) && Accepted(env, start, calls, i)
    ensures !Accepted(env, start, calls, j)
  {
    if Accepted(env, start, calls, j) {
      var oi := OriginOfJti(env, start, calls, i, jti);
      var oj := OriginOfJti(env, start, calls, j, jti);
      if oi < oj {
        AcceptedTooLate(env, start, calls, oi, oj, j, jti);
      } else {
        AcceptedTooLate(env, start, calls, oj, oi, i, jti);
      }
    }
  }

  lemma OriginOfJti(env: Env, start: Table, calls: seq<Call>, k: nat, jti: string) returns (o: nat)
    requires k < |calls| && WorkingTable(calls) && Accepted(env, start, calls, k) && Presents(env, calls, k, jti)
    ensures o <= k && SameRequest(calls[o], calls[k]) && Recorded(env, start, calls, o) && Presents(env, calls, o, jti)
  {
    o := AcceptanceOrigin(env, start, calls, k);
    RecordedIsPresented(env, start, calls, o);
  }

  lemma RecordedIsPresented(env: Env, start: Table, calls: seq<Call>, k: nat)
    requires k < |calls| && Recorded(env, start, calls, k)
    ensures Presents(env, calls, k, CheckAt(env, calls, k).value.jti)
  {
  }

  /** In particular no token, taken as a string, is. */
  lemma NoTokenAcceptedTwice(env: Env, start: Table, calls: seq<Call>, i: nat, j: nat)
    requires i < j < |calls| && WorkingTable(calls) && ClockStepsBackAtMost(calls, TOLERATED_STEP)
    requires CheckAt(env, calls, i).Ok? ==> JtiFixesExpiry(env, calls, CheckAt(env, calls, i).value.jti)
    requires calls[i].jwt == calls[j].jwt && !SameRequest(calls[i], calls[j])
    requires Accepted(env, start, calls, i)
    ensures !Accepted(env, start, calls, j)
  {
    if Accepted(env, start, calls, j) {
      AcceptedIsChecked(env, start, calls, i);
      AcceptedIsChecked(env, start, calls, j);
      CheckedToken(env, calls[i].key, calls[j].key, calls[i].jwt, calls[i].now, calls[j].now);
      NoJtiAcceptedTwice(env, start, calls, i, j, CheckAt(env, calls, i).value.jti);
    }
  }

  lemma AcceptedIsChecked(env: Env, start: Table, calls: seq<Call>, k: nat)
    requires k < |calls| && Accepted(env, start, calls, k)
    ensures CheckAt(env, calls, k).Ok?
  {
  }

  /** After the row of a recorded jti could be gone, its tokens have expired on every later reading. */
  lemma AcceptedTooLate(env: Env, start: Table, calls: seq<Call>, a: nat, b: nat, last: nat, jti: string)
    requires a < b <= last < |calls| && WorkingTable(calls) && ClockStepsBackAtMost(calls, TOLERATED_STEP)
    requires Recorded(env, start, calls, a) && Recorded(env, start, calls, b)
    requires Presents(env, calls, a, jti) && Presents(env, calls, b, jti) && JtiFixesExpiry(env, calls, jti)
    ensures !Presents(env, calls, last, jti)
  {
    var m := RecordedTwice(env, start, calls, a, b);
    TooLateAfter(env, calls, a, m, last, jti);
  }

  lemma TooLateAfter(env: Env, calls: seq<Call>, a: nat, m: nat, last: nat, jti: string)
    requires a < m <= last < |calls| && ClockStepsBackAtMost(calls, TOLERATED_STEP)
    requires calls[m].now > calls[a].now + REPLAY_WINDOW && Presents(env, calls, a, jti) && JtiFixesExpiry(env, calls, jti)
    ensures !Presents(env, calls, last, jti)
  {
    assert calls[last].now >= calls[m].now - TOLERATED_STEP;
    if Presents(env, calls, last, jti) {
      ExpiryIsNear(env, calls[a]);
      ExpiryIsNear(env, calls[last]);
    }
  }

  lemma ExpiryIsNear(env: Env, call: Call)
    requires Check(env, call.key, call.jwt, call.now).Ok?
    ensures call.now < Check(env, call.key, call.jwt, call.now).value.exp <= call.now + MAX_FUTURE_EXP
  {
  }

  /**
   * The bound is exact: with a reading 242 s below an earlier one, a token that lives its full
   * 60 s is accepted again, once another token's acceptance has pruned its row.
   */
  lemma LargerStepAdmitsReplay(env: Env, key: KeyRead, jwt: string, other: string, now: int)
    requires PrunesFirst(env, key, jwt, other, now)
    ensures var calls := PrunedRun(key, jwt, other, now, jwt, now + 59);
            && ClockStepsBackAtMost(calls, TOLERATED_STEP + 1)
            && Accepted(env, map[], calls, 0) && Accepted(env, map[], calls, 2)
            && calls[0].jwt == calls[2].jwt && !SameRequest(calls[0], calls[2])
  {
    CheckAgain(env, key, jwt, now, now + 59);
    ThirdIsAccepted(env, key, jwt, other, now, jwt, now + 59);
  }

  /** And one expiry per jti is needed: another token with the same jti is accepted later, on a clock that never steps back. */
  lemma SecondExpiryAdmitsReplay(env: Env, key: KeyRead, jwt: string, other: string, now: int, again: string)
    requires PrunesFirst(env, key, jwt, other, now)
    requires Check(env, key, again, now + 302).Ok? && Check(env, key, again, now + 302).value.jti == Check(env, key, jwt, now).value.jti
    ensures var calls := PrunedRun(key, jwt, other, now, again, now + 302);
            && ClockStepsBackAtMost(calls, 0)
            && Accepted(env, map[], calls, 0) && Accepted(env, map[], calls, 2) && !SameRequest(calls[0], calls[2])
  {
    ThirdIsAccepted(env, key, jwt, other, now, again, now + 302);
  }

  /** A token at its longest life, and 301 s later another one whose acceptance prunes its row. */
  predicate PrunesFirst(env: Env, key: KeyRead, jwt: string, other: string, now: int) {
    && Check(env, key, jwt, now).Ok? && Check(env, key, jwt, now).value.exp == now + MAX_FUTURE_EXP
    && Check(env, key, other, now + 301).Ok?
    && env.hash(Check(env, key, jwt, now).value.jti) != env.hash(Check(env, key, other, now + 301).value.jti)
  }

  function PrunedRun(key: KeyRead, jwt: string, other: string, now: int, last: string, at: int): (calls: seq<Call>)
    ensures |calls| == 3
  {
    [Call(0, 1, key, jwt, now, true), Call(0, 2, key, other, now + 301, true), Call(0, 3, key, last, at, true)]
  }

  lemma ThirdIsAccepted(env: Env, key: KeyRead, jwt: string, other: string, now: int, last: string, at: int)
    requires PrunesFirst(env, key, jwt, other, now)
    requires Check(env, key, last, at).Ok? && Check(env, key, last, at).value.jti == Check(env, key, jwt, now).value.jti
    ensures var calls := PrunedRun(key, jwt, other, now, last, at);
            Accepted(env, map[], calls, 0) && Accepted(env, map[], calls, 2)
  {
    var calls := PrunedRun(key, jwt, other, now, last, at);
    FirstIsRecorded(env, key, jwt, calls, now);
    SecondPrunes(env, key, jwt, other, calls, now);
    var w := Before(env, map[], calls, 2);
    FirstUse(env, w.table, CacheOf(w, 0), calls[2], Check(env, key, last, at).value);
  }

  lemma FirstIsRecorded(env: Env, key: KeyRead, jwt: string, calls: seq<Call>, now: int)
    requires Check(env, key, jwt, now).Ok? && Check(env, key, jwt, now).value.exp == now + MAX_FUTURE_EXP
    requires |calls| >= 1 && calls[0] == Call(0, 1, key, jwt, now, true)
    ensures var first := Check(env, key, jwt, now).value;
            && Accepted(env, map[], calls, 0)
            && Before(env, map[], calls, 1)
                 == World(map[env.hash(first.jti) := now + 300], map[0 := Cache(map[first.jti := first.claims], 1)])
  {
    var first := Check(env, key, jwt, now).value;
    FirstUse(env, map[], Cache(map[], 0), calls[0], first);
    BeforeNext(env, map[], calls, 0);
    assert Record(env, map[], first.jti, first.exp, now) == map[env.hash(first.jti) := now + 300];
  }

  lemma SecondPrunes(env: Env, key: KeyRead, jwt: string, other: string, calls: seq<Call>, now: int)
    requires PrunesFirst(env, key, jwt, other, now) && |calls| >= 2
    requires calls[0] == Call(0, 1, key, jwt, now, true) && calls[1] == Call(0, 2, key, other, now + 301, true)
    ensures var w := Before(env, map[], calls, 2);
            env.hash(Check(env, key, jwt, now).value.jti) !in w.table && CacheOf(w, 0).epoch == 2
  {
    var first, second := Check(env, key, jwt, now).value, Check(env, key, other, now + 301).value;
    FirstIsRecorded(env, key, jwt, calls, now);
    var w := Before(env, map[], calls, 1);
    assert env.hash(first.jti) !in Prune(w.table, now + 301);
    FirstUse(env, w.table, CacheOf(w, 0), calls[1], second);
    BeforeNext(env, map[], calls, 1);
  }

  lemma BeforeNext(env: Env, start: Table, calls: seq<Call>, k: nat)
    requires k < |calls|
    ensures var w := Before(env, start, calls, k);
            var (t, c, _) := VerifyStep(env, w.table, CacheOf(w, calls[k].worker), calls[k]);
            Before(env, start, calls, k + 1) == World(t, w.caches[calls[k].worker := c])
  {
  }

  lemma CheckAgain(env: Env, key: KeyRead, jwt: string, n1: int, n2: int)
    requires Check(env, key, jwt, n1).Ok?
    requires n2 < Check(env, key, jwt, n1).value.exp <= n2 + MAX_FUTURE_EXP
    ensures Check(env, key, jwt, n2) == Check(env, key, jwt, n1)
  {
  }

  /** verify on a token whose jti neither a new request's cache nor the table knows. */
  lemma FirstUse(env: Env, t: Table, c: Cache, call: Call, checked: Checked)
    requires Check(env, call.key, call.jwt, call.now) == Ok(checked) && call.db && call.epoch != c.epoch
    requires !Seen(env, t, checked.jti, call.now)
    ensures VerifyStep(env, t, c, call)
         == (Record(env, t, checked.jti, checked.exp, call.now), Cache(map[checked.jti := checked.claims], call.epoch), Ok(checked.claims))
  {
  }
}
