/**
 * What the names of cached pages tell apart.
 *
 * A name is "index" followed by parts, each after a hyphen.  Main results: where roles and cookie
 * values are distinctive, two requests share a name exactly when their values are the same in
 * sequence (NamesTellParts), so where the same cookies are usable exactly when they are the same
 * variant (NamesTellVariantsApart).  The ...Collide lemmas show that each clause of "distinctive",
 * and the same cookies, are needed.
 */
module PageNames {
  import opened Wrappers
  import opened Strings
  import opened PageCache

  /** A cookie's contribution. */
  function PartOf(value: Option<string>): seq<string> {
    if value.Some? && Filtered(Lower(value.value)) != "" then [Filtered(Lower(value.value))] else []
  }

  function CookieParts(values: seq<Option<string>>): seq<string> {
    if values == [] then [] else CookieParts(values[..|values| - 1]) + PartOf(values[|values| - 1])
  }

  function Login(v: Variant): seq<string> {
    if v.loggedIn then ["logged", "in"] + PartOf(v.role) else []
  }

  function Ending(v: Variant): seq<string> {
    (if v.mobile then ["mobile"] else []) + (if v.kept > 0 then [v.hash] else [])
  }

  function Parts(v: Variant): seq<string> {
    Login(v) + CookieParts(v.included) + Ending(v)
  }

  /** Each part after a hyphen. */
  function Hyphened(parts: seq<string>): string {
    if parts == [] then "" else "-" + parts[0] + Hyphened(parts[1..])
  }

  lemma {:induction false} HyphenedConcat(a: seq<string>, b: seq<string>)
    ensures Hyphened(a + b) == Hyphened(a) + Hyphened(b)
  {
    if a == [] {
      assert a + b == b;
    } else {
      assert (a + b)[1..] == a[1..] + b;
      HyphenedConcat(a[1..], b);
    }
  }

  lemma {:induction false} HyphenedCookies(values: seq<Option<string>>)
    ensures Hyphened(CookieParts(values)) == Suffixes(values)
  {
    if values != [] {
      var last := values[|values| - 1];
      HyphenedCookies(values[..|values| - 1]);
      HyphenedConcat(CookieParts(values[..|values| - 1]), PartOf(last));
      HyphenedPart(last);
    }
  }

  lemma HyphenedPart(value: Option<string>)
    ensures Hyphened(PartOf(value)) == if value.Some? then Suffix(value.value) else ""
  {
    if PartOf(value) != [] {
      assert PartOf(value)[1..] == [];
    }
  }

  lemma HyphenedLogin(v: Variant)
    ensures Hyphened(Login(v)) == Visitor(v.loggedIn, v.role)
  {
    if v.loggedIn {
      HyphenedConcat(["logged", "in"], PartOf(v.role));
      HyphenedPart(v.role);
      assert ["logged", "in"][1..] == ["in"] && ["in"][1..] == [];
    }
  }

  lemma HyphenedEnding(v: Variant)
    ensures Hyphened(Ending(v)) == Tail(v.mobile, v.kept, v.hash)
  {
    var m, h: seq<string> := if v.mobile then ["mobile"] else [], if v.kept > 0 then [v.hash] else [];
    HyphenedConcat(m, h);
    assert m != [] ==> m[1..] == [];
    assert h != [] ==> h[1..] == [];
  }

  /** A name is "index" and its parts, each after a hyphen. */
  lemma NameIsHyphened(v: Variant)
    ensures NameOf(v) == "index" + Hyphened(Parts(v))
  {
    HyphenedConcat(Login(v) + CookieParts(v.included), Ending(v));
    HyphenedConcat(Login(v), CookieParts(v.included));
    HyphenedLogin(v);
    HyphenedCookies(v.included);
    HyphenedEnding(v);
  }

  // Names are not always told apart.

  lemma {:induction false} SuffixesConcat(a: seq<Option<string>>, b: seq<Option<string>>)
    ensures Suffixes(a + b) == Suffixes(a) + Suffixes(b)
    decreases |b|
  {
    if b == [] {
      assert a + b == a;
    } else {
      var n := |b| - 1;
      assert (a + b)[..|a + b| - 1] == a + b[..n];
      SuffixesConcat(a, b[..n]);
    }
  }

  lemma OneSuffix(value: Option<string>)
    ensures Suffixes([value]) == if value.Some? then Suffix(value.value) else ""
  {
    assert [value][..0] == [];
  }

  lemma TwoSuffixes(x: Option<string>, y: Option<string>)
    ensures Suffixes([x, y]) == (if x.Some? then Suffix(x.value) else "") + (if y.Some? then Suffix(y.value) else "")
  {
    OneSuffix(x);
    OneSuffix(y);
    SuffixesConcat([x], [y]);
    assert [x] + [y] == [x, y];
  }

  /** Cookies that add the same text, wherever they stand in the configured order, give the same name. */
  lemma SameTextCollides(v: Variant, a: seq<Option<string>>, m: seq<Option<string>>, n: seq<Option<string>>, b: seq<Option<string>>)
    requires Suffixes(m) == Suffixes(n)
    ensures NameOf(v.(included := a + m + b)) == NameOf(v.(included := a + n + b))
  {
    SuffixesConcat(a + m, b);
    SuffixesConcat(a, m);
    SuffixesConcat(a + n, b);
    SuffixesConcat(a, n);
  }

  /** A value reads the same whichever of two neighbouring configured cookies carries it. */
  lemma AbsentCookieCollides(v: Variant, a: seq<Option<string>>, value: string, b: seq<Option<string>>)
    ensures NameOf(v.(included := a + [Some(value), None] + b)) == NameOf(v.(included := a + [None, Some(value)] + b))
  {
    TwoSuffixes(Some(value), None);
    TwoSuffixes(None, Some(value));
    SameTextCollides(v, a, [Some(value), None], [None, Some(value)], b);
  }

  /** Values with hyphens: "p-q", "r" and "p", "q-r" read the same. */
  lemma HyphenCookiesCollide(v: Variant, a: seq<Option<string>>, p: string, q: string, r: string, b: seq<Option<string>>)
    requires Suffix(p + "-" + q) == "-" + (p + "-" + q) && Suffix(r) == "-" + r
    requires Suffix(p) == "-" + p && Suffix(q + "-" + r) == "-" + (q + "-" + r)
    ensures NameOf(v.(included := a + [Some(p + "-" + q), Some(r)] + b)) == NameOf(v.(included := a + [Some(p), Some(q + "-" + r)] + b))
  {
    TwoSuffixes(Some(p + "-" + q), Some(r));
    TwoSuffixes(Some(p), Some(q + "-" + r));
    assert ("-" + (p + "-" + q)) + ("-" + r) == ("-" + p) + ("-" + (q + "-" + r));
    SameTextCollides(v, a, [Some(p + "-" + q), Some(r)], [Some(p), Some(q + "-" + r)], b);
  }

  /** First cookies that together add "-logged-in" read as a login without a role. */
  lemma LoginTextCollides(m: seq<Option<string>>, n: seq<Option<string>>, rest: seq<Option<string>>, mobile: bool, kept: nat, hash: string)
    requires Suffixes(m) == "-logged-in" && Suffixes(n) == ""
    ensures NameOf(Variant(false, None, m + rest, mobile, kept, hash)) == NameOf(Variant(true, None, n + rest, mobile, kept, hash))
  {
    SuffixesConcat(m, rest);
    SuffixesConcat(n, rest);
    RoleIsEmpty();
    MoveText("index", "-logged-in", Suffixes(rest), Tail(mobile, kept, hash));
  }

  lemma RoleIsEmpty()
    ensures Visitor(true, None) == "-logged-in" && Visitor(false, None) == ""
  {
  }

  lemma MoveText(start: string, m: string, s: string, t: string)
    ensures start + "" + (m + s) + t == start + m + ("" + s) + t
  {
    assert "" + s == s;
    assert start + "" == start;
  }

  /** A visitor who is not logged in, with a first cookie that adds "-logged-in", has the name of a logged-in visitor without a role. */
  lemma LoggedInCookieCollides(value: string, rest: seq<Option<string>>, mobile: bool, kept: nat, hash: string)
    requires Suffix(value) == "-logged-in"
    ensures NameOf(Variant(false, None, [Some(value)] + rest, mobile, kept, hash)) == NameOf(Variant(true, None, [None] + rest, mobile, kept, hash))
  {
    OneSuffix(Some(value));
    OneSuffix(None);
    LoginTextCollides([Some(value)], [None], rest, mobile, kept, hash);
  }

  /** So has one whose first two cookies add "-logged" and "-in". */
  lemma LoggedCookieCollides(x: string, y: string, rest: seq<Option<string>>, mobile: bool, kept: nat, hash: string)
    requires Suffix(x) == "-logged" && Suffix(y) == "-in"
    ensures NameOf(Variant(false, None, [Some(x), Some(y)] + rest, mobile, kept, hash))
         == NameOf(Variant(true, None, [None, None] + rest, mobile, kept, hash))
  {
    TwoSuffixes(Some(x), Some(y));
    TwoSuffixes(None, None);
    assert "-logged" + "-in" == "-logged-in";
    LoginTextCollides([Some(x), Some(y)], [None, None], rest, mobile, kept, hash);
  }

  /** A last cookie that adds "-mobile" reads as the mobile flag. */
  lemma MobileCookieCollides(loggedIn: bool, role: Option<string>, included: seq<Option<string>>, value: string, kept: nat, hash: string)
    requires Suffix(value) == "-mobile"
    ensures NameOf(Variant(loggedIn, role, included + [Some(value)], false, kept, hash))
         == NameOf(Variant(loggedIn, role, included + [None], true, kept, hash))
  {
    LastCookie(included, value, "-mobile");
    Regroup("index" + Visitor(loggedIn, role), Suffixes(included), "-mobile", Tail(false, kept, hash));
    assert Tail(true, kept, hash) == "-mobile" + Tail(false, kept, hash);
  }

  /** A last cookie that adds the hash of a query reads as that query. */
  lemma HashCookieCollides(loggedIn: bool, role: Option<string>, included: seq<Option<string>>, value: string, kept: nat, hash: string)
    requires kept > 0 && Suffix(value) == "-" + hash
    ensures NameOf(Variant(loggedIn, role, included + [Some(value)], false, 0, hash))
         == NameOf(Variant(loggedIn, role, included + [None], false, kept, hash))
  {
    LastCookie(included, value, "-" + hash);
    Regroup("index" + Visitor(loggedIn, role), Suffixes(included), "-" + hash, "");
  }

  lemma Regroup(a: string, b: string, m: string, t: string)
    ensures a + (b + m) + t == a + b + (m + t)
  {
  }

  lemma LastCookie(included: seq<Option<string>>, value: string, m: string)
    requires Suffix(value) == m
    ensures Suffixes(included + [Some(value)]) == Suffixes(included) + m
    ensures Suffixes(included + [None]) == Suffixes(included)
  {
    assert (included + [Some(value)])[..|included|] == included;
    assert (included + [None])[..|included|] == included;
  }

  /** There are values that add a given text: every text of small letters and hyphens after a hyphen. */
  lemma PlainValueStays(s: string)
    requires s != "" && forall i :: 0 <= i < |s| ==> s[i] == '-' || 'a' <= s[i] <= 'z'
    ensures Suffix(s) == "-" + s
  {
    assert Lower(s) == s;
    NameCharsStay(s);
  }

  lemma {:induction false} NameCharsStay(s: string)
    requires IsName(s)
    ensures Filtered(s) == s
  {
    if s != "" {
      NameCharsStay(s[1..]);
      assert [s[0]] + s[1..] == s;
    }
  }

  const HASH_LENGTH := 32

  /** A role or cookie value that reads as nothing else: no hyphen, no reserved word, not as long as a hash. */
  predicate IsDistinctive(part: string) {
    '-' !in part && part != "logged" && part != "mobile" && |part| != HASH_LENGTH
  }

  predicate IsSeparable(v: Variant) {
    && (forall p :: p in PartOf(v.role) ==> IsDistinctive(p))
    && (forall p :: p in CookieParts(v.included) ==> IsDistinctive(p))
    && |v.hash| == HASH_LENGTH && '-' !in v.hash
  }

  /** The same of the configured cookies have a usable value. */
  predicate SameCookies(a: seq<Option<string>>, b: seq<Option<string>>) {
    |a| == |b| && forall i :: 0 <= i < |a| ==> |PartOf(a[i])| == |PartOf(b[i])|
  }

  predicate SameValues(a: seq<Option<string>>, b: seq<Option<string>>) {
    |a| == |b| && forall i :: 0 <= i < |a| ==> PartOf(a[i]) == PartOf(b[i])
  }

  /** Nothing a name should depend on differs. */
  predicate SameVariant(v: Variant, w: Variant) {
    && v.loggedIn == w.loggedIn && (v.loggedIn ==> PartOf(v.role) == PartOf(w.role))
    && SameValues(v.included, w.included)
    && SameEnding(v, w)
  }

  /** Parts without hyphens are read back. */
  lemma {:induction false} HyphenedIsInjective(a: seq<string>, b: seq<string>)
    requires (forall p :: p in a ==> '-' !in p) && (forall p :: p in b ==> '-' !in p)
    requires Hyphened(a) == Hyphened(b)
    ensures a == b
    decreases |a|
  {
    if a != [] && b != [] {
      var x, y := Hyphened(a[1..]), Hyphened(b[1..]);
      assert ("-" + a[0] + x)[1..] == a[0] + x && ("-" + b[0] + y)[1..] == b[0] + y;
      HyphenedHead(a[1..]);
      HyphenedHead(b[1..]);
      FirstPart(a[0], x, b[0], y);
      HyphenedIsInjective(a[1..], b[1..]);
      assert a == [a[0]] + a[1..] && b == [b[0]] + b[1..];
    }
  }

  lemma HyphenedHead(a: seq<string>)
    ensures Hyphened(a) != "" ==> Hyphened(a)[0] == '-'
  {
  }

  lemma FirstPart(p: string, x: string, q: string, y: string)
    requires '-' !in p && '-' !in q && p + x == q + y
    requires (x != "" ==> x[0] == '-') && (y != "" ==> y[0] == '-')
    ensures p == q && x == y
  {
    NotShorter(p, x, q, y);
    NotShorter(q, y, p, x);
    var s := p + x;
    assert s[..|p|] == p && s[|p|..] == x && s[..|q|] == q && s[|q|..] == y;
  }

  lemma NotShorter(p: string, x: string, q: string, y: string)
    requires '-' !in q && p + x == q + y && (x != "" ==> x[0] == '-')
    ensures |p| >= |q|
  {
    assert forall i :: 0 <= i < |q| ==> (q + y)[i] == q[i] != '-';
    assert x != "" ==> (p + x)[|p|] == '-';
  }

  /** The end of the parts tells the mobile flag and the hash. */
  lemma EndingIsRead(a: seq<string>, v: Variant, b: seq<string>, w: Variant)
    requires a + Ending(v) == b + Ending(w) && |v.hash| == |w.hash| == HASH_LENGTH
    requires (forall p :: p in a ==> p != "mobile" && |p| != HASH_LENGTH) && (forall p :: p in b ==> p != "mobile" && |p| != HASH_LENGTH)
    ensures a == b && Ending(v) == Ending(w)
    ensures v.mobile == w.mobile && (v.kept > 0) == (w.kept > 0) && (v.kept > 0 ==> v.hash == w.hash)
  {
    HashIsRead(a, v, b, w);
    var m, n: seq<string> := if v.mobile then ["mobile"] else [], if w.mobile then ["mobile"] else [];
    assert a + m == b + n;
    LastIsRead(a, m, b, n, p => p == "mobile");
  }

  lemma HashIsRead(a: seq<string>, v: Variant, b: seq<string>, w: Variant)
    requires a + Ending(v) == b + Ending(w) && |v.hash| == |w.hash| == HASH_LENGTH
    requires (forall p :: p in a ==> |p| != HASH_LENGTH) && (forall p :: p in b ==> |p| != HASH_LENGTH)
    ensures (v.kept > 0) == (w.kept > 0) && (v.kept > 0 ==> v.hash == w.hash)
    ensures a + (if v.mobile then ["mobile"] else []) == b + (if w.mobile then ["mobile"] else [])
  {
    var m, n: seq<string> := if v.mobile then ["mobile"] else [], if w.mobile then ["mobile"] else [];
    var g, h: seq<string> := if v.kept > 0 then [v.hash] else [], if w.kept > 0 then [w.hash] else [];
    assert a + (m + g) == (a + m) + g && b + (n + h) == (b + n) + h;
    LastIsRead(a + m, g, b + n, h, p => |p| == HASH_LENGTH);
  }

  /** At most one element of a kind that occurs nowhere before it. */
  lemma LastIsRead(a: seq<string>, x: seq<string>, b: seq<string>, y: seq<string>, kind: string -> bool)
    requires a + x == b + y && |x| <= 1 && |y| <= 1
    requires (forall p :: p in a || p in b ==> !kind(p)) && (forall p :: p in x || p in y ==> kind(p))
    ensures a == b && x == y
  {
    var s := a + x;
    assert forall i :: 0 <= i < |a| ==> a[i] in a && !kind(a[i]);
    assert forall i :: 0 <= i < |b| ==> b[i] in b && !kind(b[i]);
    assert |x| == 1 ==> s[|s| - 1] == x[0] && kind(x[0]);
    assert |y| == 1 ==> (b + y)[|s| - 1] == y[0] && kind(y[0]);
    assert (|x| == 0 ==> s == a) && (|y| == 0 ==> b + y == b);
    assert |x| == |y|;
    assert s[..|a|] == a && s[|a|..] == x && (b + y)[..|b|] == b && (b + y)[|b|..] == y;
  }

  lemma SameValuesSplit(a: seq<Option<string>>, b: seq<Option<string>>)
    requires |a| == |b| > 0
    ensures var n := |a| - 1;
            SameValues(a, b) <==> SameValues(a[..n], b[..n]) && PartOf(a[n]) == PartOf(b[n])
  {
    var n := |a| - 1;
    assert forall i :: 0 <= i < n ==> a[..n][i] == a[i] && b[..n][i] == b[i];
    if SameValues(a[..n], b[..n]) && PartOf(a[n]) == PartOf(b[n]) {
      forall i | 0 <= i < |a| ensures PartOf(a[i]) == PartOf(b[i]) {
        if i < n {
          assert PartOf(a[..n][i]) == PartOf(b[..n][i]);
        }
      }
    }
  }

  /** Same cookies usable: the cookie parts tell every value. */
  lemma {:induction false} CookiesAreRead(a: seq<Option<string>>, b: seq<Option<string>>)
    requires SameCookies(a, b)
    ensures |CookieParts(a)| == |CookieParts(b)|
    ensures CookieParts(a) == CookieParts(b) <==> SameValues(a, b)
  {
    if a != [] {
      var n := |a| - 1;
      CookiesAreRead(a[..n], b[..n]);
      SameLengthsSplit(CookieParts(a[..n]), PartOf(a[n]), CookieParts(b[..n]), PartOf(b[n]));
      SameValuesSplit(a, b);
    }
  }

  lemma SameLengthsSplit(c: seq<string>, x: seq<string>, d: seq<string>, y: seq<string>)
    requires |c| == |d|
    ensures c + x == d + y <==> c == d && x == y
  {
    assert (c + x)[..|c|] == c && (c + x)[|c|..] == x && (d + y)[..|d|] == d && (d + y)[|d|..] == y;
  }

  /** The front of the parts tells whether the visitor is logged in. */
  lemma LoginIsRead(v: Variant, w: Variant)
    requires IsSeparable(v) && IsSeparable(w)
    requires Login(v) + CookieParts(v.included) == Login(w) + CookieParts(w.included)
    ensures v.loggedIn == w.loggedIn
  {
    NotLoggedWord(v);
    NotLoggedWord(w);
  }

  lemma NotLoggedWord(v: Variant)
    requires IsSeparable(v)
    ensures var front := Login(v) + CookieParts(v.included); v.loggedIn <==> front != [] && front[0] == "logged"
  {
    if !v.loggedIn && CookieParts(v.included) != [] {
      assert CookieParts(v.included)[0] in CookieParts(v.included);
    }
  }

  /** If the same cookies are usable, it tells the role and the cookies too. */
  lemma FrontIsRead(v: Variant, w: Variant)
    requires v.loggedIn == w.loggedIn && SameCookies(v.included, w.included)
    requires Login(v) + CookieParts(v.included) == Login(w) + CookieParts(w.included)
    ensures CookieParts(v.included) == CookieParts(w.included)
    ensures v.loggedIn ==> PartOf(v.role) == PartOf(w.role)
  {
    CookiesAreRead(v.included, w.included);
    var a, b, c, d := Login(v), Login(w), CookieParts(v.included), CookieParts(w.included);
    assert |a| == |b|;
    assert (a + c)[..|a|] == a && (b + d)[..|b|] == b && (a + c)[|a|..] == c && (b + d)[|b|..] == d;
    assert v.loggedIn ==> a[2..] == PartOf(v.role);
    assert w.loggedIn ==> b[2..] == PartOf(w.role);
  }

  lemma FrontIsPlain(v: Variant)
    requires IsSeparable(v)
    ensures forall p :: p in Login(v) + CookieParts(v.included) ==> IsPlainPart(p)
    ensures forall p :: p in Parts(v) ==> '-' !in p
  {
    WordsArePlain();
    assert forall p :: p in Login(v) ==> p == "logged" || p == "in" || p in PartOf(v.role);
    assert forall p :: p in PartOf(v.role) || p in CookieParts(v.included) ==> IsDistinctive(p) && IsPlainPart(p);
    assert forall p :: p in Ending(v) ==> p == "mobile" || p == v.hash;
  }

  predicate IsPlainPart(p: string) {
    '-' !in p && p != "mobile" && |p| != HASH_LENGTH
  }

  lemma WordsArePlain()
    ensures IsPlainPart("logged") && IsPlainPart("in") && '-' !in "mobile"
  {
    assert "logged"[0] != "mobile"[0];
  }

  predicate SameEnding(v: Variant, w: Variant) {
    v.mobile == w.mobile && (v.kept > 0) == (w.kept > 0) && (v.kept > 0 ==> v.hash == w.hash)
  }

  /**
   * Where roles and cookie values are distinctive, two requests share a name exactly when the
   * values of login, role and cookies are the same in sequence, and mobile flag and query hash
   * agree; and then both visitors are logged in or neither is.
   */
  lemma NamesTellParts(v: Variant, w: Variant)
    requires IsSeparable(v) && IsSeparable(w)
    ensures NameOf(v) == NameOf(w)
       <==> Login(v) + CookieParts(v.included) == Login(w) + CookieParts(w.included) && SameEnding(v, w)
    ensures NameOf(v) == NameOf(w) ==> v.loggedIn == w.loggedIn
  {
    NameIsHyphened(v);
    NameIsHyphened(w);
    if NameOf(v) == NameOf(w) {
      FrontIsPlain(v);
      FrontIsPlain(w);
      assert ("index" + Hyphened(Parts(v)))[5..] == Hyphened(Parts(v)) && ("index" + Hyphened(Parts(w)))[5..] == Hyphened(Parts(w));
      HyphenedIsInjective(Parts(v), Parts(w));
      EndingIsRead(Login(v) + CookieParts(v.included), v, Login(w) + CookieParts(w.included), w);
      LoginIsRead(v, w);
    }
  }

  /** So, where the same of the configured cookies are usable, exactly when they are the same variant. */
  lemma NamesTellVariantsApart(v: Variant, w: Variant)
    requires IsSeparable(v) && IsSeparable(w) && SameCookies(v.included, w.included)
    ensures NameOf(v) == NameOf(w) <==> SameVariant(v, w)
  {
    NamesTellParts(v, w);
    CookiesAreRead(v.included, w.included);
    if NameOf(v) == NameOf(w) {
      FrontIsRead(v, w);
    }
  }
}
