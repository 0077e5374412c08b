/**
 * Where a request's page is stored: host, path and name of the page cache's advanced-cache
 * drop-in.
 *
 * Main results: normalising a path is idempotent (NormalizeIsIdempotent) and the result for a/b
 * depends only on the normalised a and on b (PrefixEntersOnlyNormalised); a key decodes to one
 * host, path and name (KeyIsUnambiguous), and accepted hosts keep their identity when ':'
 * becomes '_' (HostSpellingIsInjective).
 */
module PageCache {
  import opened Wrappers
  import opened Strings

  // ---- path -------------------------------------------------------------------------------------

  /** str_replace(['\\', "\0"], ['/', ''], $path). */
  function Clean(path: string): string {
    if path == "" then ""
    else if path[0] == '\\' then "/" + Clean(path[1..])
    else if path[0] == '\0' then Clean(path[1..])
    else [path[0]] + Clean(path[1..])
  }

  predicate AllDots(s: string) {
    forall c :: c in s ==> c == '.'
  }

  /** A segment that names something. */
  predicate Kept(s: string) {
    s != "" && !AllDots(s)
  }

  /** One turn of the segment loop. */
  function Turn(segments: seq<string>, s: string): seq<string> {
    if Kept(s) then segments + [s]
    else if s == ".." && segments != [] then segments[..|segments| - 1]
    else segments
  }

  function Resolve(segments: seq<string>, parts: seq<string>): seq<string>
    decreases |parts|
  {
    if parts == [] then segments else Resolve(Turn(segments, parts[0]), parts[1..])
  }

  function Rooted(segments: seq<string>): string {
    if segments == [] then "" else "/" + Join(segments, '/')
  }

  function Segments(path: string): seq<string> {
    Resolve([], Split(Clean(path), '/'))
  }

  function NormalPath(path: string): string {
    Rooted(Segments(path))
  }

  lemma {:induction false} ResolveAppend(segments: seq<string>, a: seq<string>, b: seq<string>)
    ensures Resolve(segments, a + b) == Resolve(Resolve(segments, a), b)
    decreases |a|
  {
    if a == [] {
      assert a + b == b;
    } else {
      assert (a + b)[1..] == a[1..] + b;
      ResolveAppend(Turn(segments, a[0]), a[1..], b);
    }
  }

  /** The loop that pushes and pops segments. */
  method NormalizePath(path: string) returns (r: string)
    ensures r == NormalPath(path)
  {
    var parts := Split(Clean(path), '/');
    var segments: seq<string> := [];
    for i := 0 to |parts|
      invariant segments == Resolve([], parts[..i])
    {
      assert parts[..i + 1] == parts[..i] + [parts[i]];
      ResolveAppend([], parts[..i], [parts[i]]);
      if parts[i] == "" {
        continue;
      }
      if AllDots(parts[i]) {
        if parts[i] == ".." && segments != [] {
          segments := segments[..|segments| - 1];
        }
        continue;
      }
      segments := segments + [parts[i]];
    }
    assert parts[..|parts|] == parts;
    r := if segments == [] then "" else "/" + Join(segments, '/');
  }

  predicate CleanString(s: string) {
    '\\' !in s && '\0' !in s
  }

  lemma {:induction false} CleanIsClean(path: string)
    ensures CleanString(Clean(path))
    ensures CleanString(path) ==> Clean(path) == path
  {
    if path != "" {
      CleanIsClean(path[1..]);
      assert path == [path[0]] + path[1..];
    }
  }

  lemma {:induction false} CleanOfConcat(a: string, b: string)
    ensures Clean(a + b) == Clean(a) + Clean(b)
  {
    if a == "" {
      assert a + b == b;
    } else {
      assert (a + b)[1..] == a[1..] + b;
      CleanOfConcat(a[1..], b);
    }
  }

  /** A segment as it may stand in a normalised path. */
  predicate GoodSegment(s: string) {
    Kept(s) && '/' !in s && CleanString(s)
  }

  predicate GoodSegments(segments: seq<string>) {
    forall s :: s in segments ==> GoodSegment(s)
  }

  lemma {:induction false} ResolveKeepsGood(segments: seq<string>, parts: seq<string>)
    requires GoodSegments(segments)
    requires forall p :: p in parts ==> '/' !in p && CleanString(p)
    ensures GoodSegments(Resolve(segments, parts))
    decreases |parts|
  {
    if parts != [] {
      assert parts[0] in parts;
      ResolveKeepsGood(Turn(segments, parts[0]), parts[1..]);
    }
  }

  lemma {:induction false} SplitIsClean(s: string)
    requires CleanString(s)
    ensures forall p :: p in Split(s, '/') ==> CleanString(p)
  {
    if s != "" {
      assert s == [s[0]] + s[1..];
      SplitIsClean(s[1..]);
      var rest := Split(s[1..], '/');
      assert rest[0] in rest;
    }
  }

  /** Every normalised path is empty or "/"-joined segments, none of them empty or all dots. */
  lemma {:induction false} NormalPathShape(path: string)
    ensures GoodSegments(Segments(path))
    ensures NormalPath(path) == "" || NormalPath(path)[0] == '/'
  {
    CleanIsClean(path);
    SplitIsFree(Clean(path), '/');
    SplitIsClean(Clean(path));
    ResolveKeepsGood([], Split(Clean(path), '/'));
  }

  lemma {:induction false} ResolveGood(segments: seq<string>, parts: seq<string>)
    requires GoodSegments(parts)
    ensures Resolve(segments, parts) == segments + parts
    decreases |parts|
  {
    if parts == [] {
      assert segments + parts == segments;
    } else {
      assert parts[0] in parts;
      ResolveGood(segments + [parts[0]], parts[1..]);
      assert (segments + [parts[0]]) + parts[1..] == segments + parts;
    }
  }

  lemma {:induction false} JoinIsClean(parts: seq<string>)
    requires GoodSegments(parts)
    ensures CleanString(Join(parts, '/'))
  {
    if |parts| > 1 {
      JoinIsClean(parts[1..]);
      assert parts[0] in parts;
    } else if |parts| == 1 {
      assert parts[0] in parts;
    }
  }

  /** Splitting a rooted path gives an empty first piece and the segments. */
  lemma {:induction false} SplitRooted(segments: seq<string>)
    requires GoodSegments(segments) && segments != []
    ensures Split(Rooted(segments), '/') == [""] + segments
    ensures CleanString(Rooted(segments))
  {
    var body := Join(segments, '/');
    SplitOfJoin(segments, '/');
    JoinIsClean(segments);
    assert Rooted(segments)[1..] == body;
  }

  lemma {:induction false} SegmentsOfRooted(segments: seq<string>)
    requires GoodSegments(segments)
    ensures Segments(Rooted(segments)) == segments
  {
    if segments != [] {
      SplitRooted(segments);
      CleanIsClean(Rooted(segments));
      ResolveAppend([], [""], segments);
      assert Resolve([], [""]) == [];
      ResolveGood([], segments);
      assert [] + segments == segments;
    } else {
      assert Split("", '/') == [""];
      assert Resolve([], [""]) == [];
    }
  }

  lemma {:induction false} NormalizeIsIdempotent(path: string)
    ensures NormalPath(NormalPath(path)) == NormalPath(path)
  {
    NormalPathShape(path);
    SegmentsOfRooted(Segments(path));
  }

  lemma {:induction false} SegmentsOfConcat(a: string, b: string)
    ensures Segments(a + "/" + b) == Resolve(Segments(a), Split(Clean(b), '/'))
  {
    CleanOfConcat(a + "/", b);
    CleanOfConcat(a, "/");
    assert Clean("/") == "/";
    SplitOfConcat(Clean(a), Clean(b), '/');
    ResolveAppend([], Split(Clean(a), '/'), Split(Clean(b), '/'));
  }

  /** The result for a/b depends only on the normalised a and on b. */
  lemma {:induction false} PrefixEntersOnlyNormalised(a: string, b: string)
    ensures NormalPath(a + "/" + b) == NormalPath(NormalPath(a) + "/" + b)
  {
    SegmentsOfConcat(a, b);
    SegmentsOfConcat(NormalPath(a), b);
    NormalPathShape(a);
    SegmentsOfRooted(Segments(a));
  }

  /** Text without anything that separates or is dropped. */
  predicate IsSegmentText(s: string) {
    forall i :: 0 <= i < |s| ==> s[i] != '/' && s[i] != '\\' && s[i] != '\0'
  }

  lemma OnePiece(a: string, s: string)
    requires IsSegmentText(s)
    ensures Segments(a + "/" + s) == Turn(Segments(a), s)
  {
    SegmentsOfConcat(a, s);
    CleanIsClean(s);
    SplitOfFree(s, '/');
    assert [s][1..] == [];
  }

  /**
   * What one more segment does to a path.  Two dots take the last segment away, or nothing at the
   * root; nothing, one dot, and more than two dots are dropped; everything else is added as it is.
   */
  lemma OneMoreSegment(a: string, s: string)
    requires IsSegmentText(s)
    ensures s == ".." ==> Segments(a + "/" + s) == if Segments(a) == [] then [] else Segments(a)[..|Segments(a)| - 1]
    ensures s != ".." && (forall i :: 0 <= i < |s| ==> s[i] == '.') ==> NormalPath(a + "/" + s) == NormalPath(a)
    ensures (exists i :: 0 <= i < |s| && s[i] != '.') ==> NormalPath(a + "/" + s) == NormalPath(a) + "/" + s
  {
    OnePiece(a, s);
    if i :| 0 <= i < |s| && s[i] != '.' {
      assert s[i] in s;
      RootedSnoc(Segments(a), s);
    } else {
      assert forall c :: c in s ==> c == '.';
    }
  }

  lemma {:induction false} RootedSnoc(segments: seq<string>, s: string)
    ensures Rooted(segments + [s]) == Rooted(segments) + "/" + s
  {
    if segments != [] {
      JoinLast(segments, s);
    }
  }

  lemma {:induction false} JoinLast(segments: seq<string>, s: string)
    requires segments != []
    ensures Join(segments + [s], '/') == Join(segments, '/') + "/" + s
  {
    if |segments| == 1 {
      assert (segments + [s])[1..] == [s];
    } else {
      assert (segments + [s])[1..] == segments[1..] + [s];
      JoinLast(segments[1..], s);
    }
  }

  lemma UpAgain(segments: seq<string>, s: string)
    requires exists i :: 0 <= i < |s| && s[i] != '.'
    ensures Turn(Turn(segments, s), "..") == segments
  {
    var i :| 0 <= i < |s| && s[i] != '.';
    assert s[i] in s;
    assert (segments + [s])[..|segments|] == segments;
  }

  /** So a segment and two dots after it are as if they were not there. */
  lemma DotDotUndoes(a: string, s: string)
    requires IsSegmentText(s) && exists i :: 0 <= i < |s| && s[i] != '.'
    ensures NormalPath(a + "/" + s + "/" + "..") == NormalPath(a)
  {
    var segments := Segments(a);
    OnePiece(a, s);
    OnePiece(a + "/" + s, "..");
    UpAgain(segments, s);
  }

  /** At the root they change nothing, and the empty path is the root. */
  lemma DotDotAtTheRoot()
    ensures NormalPath("") == "" && NormalPath("" + "/" + "..") == ""
  {
    assert Split("", '/') == [""];
    assert Resolve([], [""]) == Resolve(Turn([], ""), []);
    OnePiece("", "..");
  }

  /** A backslash is a slash, and a NUL is not there. */
  lemma BackslashIsSlash(a: string, b: string)
    ensures NormalPath(a + "\\" + b) == NormalPath(a + "/" + b)
    ensures NormalPath(a + "\0" + b) == NormalPath(a + b)
  {
    CleanOfConcat(a + "\\", b);
    CleanOfConcat(a, "\\");
    CleanOfConcat(a + "/", b);
    CleanOfConcat(a, "/");
    CleanOfConcat(a + "\0", b);
    CleanOfConcat(a, "\0");
    CleanOfConcat(a, b);
    assert Clean("\\") == "/" && Clean("/") == "/" && Clean("\0") == "";
    assert Clean(a) + "" == Clean(a);
  }

  // ---- host -------------------------------------------------------------------------------------

  predicate IsAlnum(c: char) {
    'a' <= c <= 'z' || '0' <= c <= '9'
  }

  /** [a-z0-9]([a-z0-9.-]*[a-z0-9])? */
  predicate IsHostBody(s: string) {
    && s != "" && IsAlnum(s[0]) && IsAlnum(s[|s| - 1])
    && forall c :: c in s ==> IsAlnum(c) || c == '.' || c == '-'
  }

  /** (:[0-9]{1,5})? */
  predicate IsPort(s: string) {
    s == "" || (2 <= |s| <= 6 && s[0] == ':' && forall i :: 1 <= i < |s| ==> IsDigit(s[i]))
  }

  /** The anchored pattern; its `$` also matches before one final newline. */
  predicate MatchesHost(s: string) {
    var core := if s != "" && s[|s| - 1] == '\n' then s[..|s| - 1] else s;
    var colon := IndexOf(core, ':');
    IsHostBody(core[..colon]) && IsPort(core[colon..])
  }

  predicate HasDoubleDot(s: string) {
    exists i :: 0 <= i < |s| - 1 && s[i] == '.' && s[i + 1] == '.'
  }

  predicate Accepted(lowered: string) {
    lowered != "" && !HasDoubleDot(lowered) && MatchesHost(lowered)
  }

  /** Letters, digits, dots and hyphens between two of the former, no two dots in a row, and at most a port of 1 to 5 digits. */
  predicate IsPlainHost(body: string, port: string) {
    IsPlainBody(body) && |port| <= 5 && forall i :: 0 <= i < |port| ==> '0' <= port[i] <= '9'
  }

  predicate IsPlainBody(body: string) {
    && body != ""
    && (forall i :: 0 <= i < |body| ==> 'a' <= body[i] <= 'z' || '0' <= body[i] <= '9' || body[i] == '.' || body[i] == '-')
    && body[0] != '.' && body[0] != '-' && body[|body| - 1] != '.' && body[|body| - 1] != '-'
    && forall i :: 0 <= i < |body| - 1 ==> !(body[i] == '.' && body[i + 1] == '.')
  }

  function HostText(body: string, port: string): string {
    body + if port == "" then "" else ":" + port
  }

  lemma {:induction false} FirstColon(body: string, rest: string)
    requires ':' !in body && (rest == "" || rest[0] == ':')
    ensures IndexOf(body + rest, ':') == |body|
  {
    if body == "" {
      assert body + rest == rest;
    } else {
      assert (body + rest)[1..] == body[1..] + rest;
      FirstColon(body[1..], rest);
    }
  }

  lemma PortText(port: string)
    requires |port| <= 5 && forall i :: 0 <= i < |port| ==> '0' <= port[i] <= '9'
    ensures IsPort(if port == "" then "" else ":" + port)
    ensures var t := if port == "" then "" else ":" + port; forall i :: 0 <= i < |t| ==> t[i] != '.' && t[i] != '\n'
  {
    assert forall i :: 1 <= i < |":" + port| ==> (":" + port)[i] == port[i - 1];
  }

  lemma NoDoubleDot(body: string, rest: string)
    requires forall i :: 0 <= i < |body| - 1 ==> !(body[i] == '.' && body[i + 1] == '.')
    requires forall i :: 0 <= i < |rest| ==> rest[i] != '.'
    ensures !HasDoubleDot(body + rest)
  {
    forall i | 0 <= i < |body + rest| - 1 ensures !((body + rest)[i] == '.' && (body + rest)[i + 1] == '.') {
      if i + 1 < |body| {
        assert (body + rest)[i] == body[i] && (body + rest)[i + 1] == body[i + 1];
      } else {
        assert (body + rest)[i + 1] == rest[i + 1 - |body|];
      }
    }
  }

  lemma HostBodyByIndex(s: string)
    requires s != "" && IsAlnum(s[0]) && IsAlnum(s[|s| - 1])
    requires forall i :: 0 <= i < |s| ==> IsAlnum(s[i]) || s[i] == '.' || s[i] == '-'
    ensures IsHostBody(s) && ':' !in s
  {
  }

  lemma MatchesParts(body: string, rest: string)
    requires IsHostBody(body) && ':' !in body && IsPort(rest) && (body + rest)[|body + rest| - 1] != '\n'
    ensures MatchesHost(body + rest) && MatchesHost(body + rest + "\n")
  {
    FirstColon(body, rest);
    assert (body + rest)[..|body|] == body && (body + rest)[|body|..] == rest;
    assert (body + rest + "\n")[..|body + rest|] == body + rest;
  }

  /** Every such host is accepted, and so is one with a newline after it. */
  lemma PlainHostsAreAccepted(body: string, port: string)
    requires IsPlainHost(body, port)
    ensures Accepted(HostText(body, port)) && Accepted(HostText(body, port) + "\n")
  {
    var rest := if port == "" then "" else ":" + port;
    PortText(port);
    NoDoubleDot(body, rest);
    NoDoubleDot(body, rest + "\n");
    assert body + (rest + "\n") == body + rest + "\n";
    HostBodyByIndex(body);
    var h := body + rest;
    assert h[|h| - 1] == if rest == "" then body[|body| - 1] else rest[|rest| - 1];
    MatchesParts(body, rest);
  }

  lemma PortBack(rest: string) returns (port: string)
    requires IsPort(rest)
    ensures |port| <= 5 && (forall i :: 0 <= i < |port| ==> '0' <= port[i] <= '9')
    ensures rest == if port == "" then "" else ":" + port
  {
    port := if rest == "" then "" else rest[1..];
    assert forall i :: 0 <= i < |port| ==> port[i] == rest[i + 1];
  }

  lemma BodyBack(h: string, body: string)
    requires IsHostBody(body) && body <= h && !HasDoubleDot(h)
    ensures IsPlainBody(body)
  {
    assert forall i :: 0 <= i < |body| ==> body[i] in body && body[i] == h[i];
  }

  /** The host without a final newline, cut before its port. */
  lemma CutHost(h: string) returns (body: string, rest: string)
    requires Accepted(h)
    ensures h == body + rest || h == body + rest + "\n"
    ensures IsHostBody(body) && body <= h && IsPort(rest) && !HasDoubleDot(h)
  {
    var core := if h[|h| - 1] == '\n' then h[..|h| - 1] else h;
    var colon := IndexOf(core, ':');
    body, rest := core[..colon], core[colon..];
    assert core == body + rest;
  }

  /** And nothing else is. */
  lemma AcceptedIsPlain(h: string) returns (body: string, port: string)
    requires Accepted(h)
    ensures IsPlainHost(body, port) && (h == HostText(body, port) || h == HostText(body, port) + "\n")
  {
    var rest;
    body, rest := CutHost(h);
    port := PortBack(rest);
    BodyBack(h, body);
  }

  function Underscored(s: string): string {
    seq(|s|, i requires 0 <= i < |s| => if s[i] == ':' then '_' else s[i])
  }

  /** The bucket name of a host, or "" when the request bypasses the cache. */
  function NormalHost(raw: string): string {
    if Accepted(Lower(raw)) then Underscored(Lower(raw)) else ""
  }

  lemma UnderscoredConcat(a: string, b: string)
    ensures Underscored(a + b) == Underscored(a) + Underscored(b)
  {
  }

  lemma UnderscoredFree(s: string)
    requires ':' !in s
    ensures Underscored(s) == s
  {
  }

  /** The bucket name of such a host: in small letters, with an underscore before the port. */
  lemma HostIsSpelled(raw: string, body: string, port: string)
    requires IsPlainHost(body, port) && Lower(raw) == HostText(body, port)
    ensures NormalHost(raw) == body + if port == "" then "" else "_" + port
  {
    PlainHostsAreAccepted(body, port);
    UnderscoredConcat(body, if port == "" then "" else ":" + port);
    UnderscoredConcat(":", port);
    UnderscoredFree(body);
    UnderscoredFree(port);
    assert Underscored(":") == "_";
  }

  /** Any other host, but one with a newline after it, has none. */
  lemma NamedHostIsPlain(raw: string) returns (body: string, port: string)
    requires NormalHost(raw) != ""
    ensures IsPlainHost(body, port) && (Lower(raw) == HostText(body, port) || Lower(raw) == HostText(body, port) + "\n")
  {
    body, port := AcceptedIsPlain(Lower(raw));
  }

  lemma {:induction false} AcceptedChars(h: string)
    requires Accepted(h)
    ensures forall c :: c in h ==> c != '_' && c != '/'
  {
    var core := if h != "" && h[|h| - 1] == '\n' then h[..|h| - 1] else h;
    var colon := IndexOf(core, ':');
    forall c | c in h ensures c != '_' && c != '/' {
      var i :| 0 <= i < |h| && h[i] == c;
      if i < colon {
        assert c in core[..colon];
      } else if i < |core| {
        assert core[colon..][i - colon] == c;
      }
    }
  }

  /** ':' becomes '_' without two accepted hosts becoming one, and no host name contains a separator. */
  lemma {:induction false} HostSpellingIsInjective(raw1: string, raw2: string)
    requires NormalHost(raw1) != "" && NormalHost(raw2) != ""
    ensures NormalHost(raw1) == NormalHost(raw2) <==> Lower(raw1) == Lower(raw2)
    ensures '/' !in NormalHost(raw1)
  {
    AcceptedChars(Lower(raw1));
    AcceptedChars(Lower(raw2));
    UnderscoredIsInjective(Lower(raw1), Lower(raw2));
  }

  lemma {:induction false} UnderscoredIsInjective(a: string, b: string)
    requires forall c :: c in a ==> c != '_' && c != '/'
    requires forall c :: c in b ==> c != '_' && c != '/'
    ensures Underscored(a) == Underscored(b) ==> a == b
    ensures '/' !in Underscored(a)
  {
    if Underscored(a) == Underscored(b) {
      assert |a| == |Underscored(a)| == |b|;
      forall i | 0 <= i < |a| ensures a[i] == b[i] {
        assert Underscored(a)[i] == Underscored(b)[i];
        assert a[i] in a && b[i] in b;
      }
    }
    forall i | 0 <= i < |Underscored(a)| ensures Underscored(a)[i] != '/' {
      assert a[i] in a;
    }
  }

  // ---- name -------------------------------------------------------------------------------------

  predicate IsNameChar(c: char) {
    IsAlnum(c) || c == '-' || c == '_'
  }

  /** preg_replace('/[^a-z0-9\-_]/', '', $s). */
  function Filtered(s: string): (f: string)
    ensures forall c :: c in f ==> IsNameChar(c)
  {
    if s == "" then ""
    else if IsNameChar(s[0]) then [s[0]] + Filtered(s[1..])
    else Filtered(s[1..])
  }

  /** It drops characters one by one: only letters in lower case, digits, hyphens and underscores stay. */
  lemma {:induction false} FilteredOfConcat(a: string, b: string)
    ensures Filtered(a + b) == Filtered(a) + Filtered(b)
  {
    if a == "" {
      assert a + b == b;
    } else {
      assert (a + b)[1..] == a[1..] + b;
      FilteredOfConcat(a[1..], b);
    }
  }

  lemma FilteredChar(c: char)
    ensures Filtered([c]) == if 'a' <= c <= 'z' || '0' <= c <= '9' || c == '-' || c == '_' then [c] else ""
  {
    assert [c][1..] == "";
  }

  function Suffix(value: string): string {
    if Filtered(Lower(value)) != "" then "-" + Filtered(Lower(value)) else ""
  }

  function Suffixes(values: seq<Option<string>>): string {
    if values == [] then ""
    else
      var last := values[|values| - 1];
      Suffixes(values[..|values| - 1]) + if last.Some? then Suffix(last.value) else ""
  }

  const MAX_QUERY_KEYS := 12

  predicate IsName(s: string) {
    forall c :: c in s ==> IsNameChar(c)
  }

  /** The logged-in and role part. */
  function Visitor(loggedIn: bool, role: Option<string>): (v: string)
    ensures IsName(v)
  {
    if !loggedIn then ""
    else "-logged-in" + if role.Some? then Suffix(role.value) else ""
  }

  function Tail(mobile: bool, kept: nat, hash: string): (t: string)
    ensures IsName(hash) ==> IsName(t)
  {
    (if mobile then "-mobile" else "") + (if kept > 0 then "-" + hash else "")
  }

  /** What a name is made of. */
  datatype Variant = Variant(loggedIn: bool, role: Option<string>, included: seq<Option<string>>, mobile: bool, kept: nat, hash: string)

  function NameOf(v: Variant): string {
    "index" + Visitor(v.loggedIn, v.role) + Suffixes(v.included) + Tail(v.mobile, v.kept, v.hash)
  }

  /** The loop over the configured cookies. */
  method AppendCookies(base: string, included: seq<Option<string>>) returns (n: string)
    ensures n == base + Suffixes(included)
    ensures IsName(base) ==> IsName(n)
  {
    n := base;
    for i := 0 to |included|
      invariant n == base + Suffixes(included[..i])
      invariant IsName(base) ==> IsName(n)
    {
      assert included[..i + 1][..i] == included[..i];
      if included[i].Some? {
        var value := Filtered(Lower(included[i].value));
        if value != "" {
          n := n + ("-" + value);
        }
      }
    }
    assert included[..|included|] == included;
  }

  /**
   * The cache name: None when the request is not cacheable.  `role` is the role cookie,
   * `included` the configured cookies in order (None when absent or not scalar), `kept` the
   * number of query keys left after the ignored ones, and `hash` their md5 in hexadecimal.
   */
  method BuildName(loggedIn: bool, cacheLoggedIn: bool, role: Option<string>, included: seq<Option<string>>,
                   mobile: bool, kept: nat, hash: string) returns (name: Option<string>)
    ensures name == None <==> (loggedIn && !cacheLoggedIn) || kept > MAX_QUERY_KEYS
    ensures name.Some? ==> name.value == NameOf(Variant(loggedIn, role, included, mobile, kept, hash))
    ensures name.Some? && IsName(hash) ==> IsName(name.value) && '/' !in name.value
  {
    var n := "index";
    if loggedIn {
      if !cacheLoggedIn {
        return None;
      }
      n := n + Visitor(true, role);
    }
    assert n == "index" + Visitor(loggedIn, role);
    n := AppendCookies(n, included);
    if kept > MAX_QUERY_KEYS {
      return None;
    }
    name := Some(n + Tail(mobile, kept, hash));
  }

  // ---- key --------------------------------------------------------------------------------------

  const EXTENSION := ".html.gz"

  function CacheKey(host: string, path: string, name: string): string {
    host + path + "/" + name + EXTENSION
  }

  lemma {:induction false} SplitKey(host: string, segments: seq<string>, name: string)
    requires '/' !in host && '/' !in name && GoodSegments(segments)
    ensures Split(CacheKey(host, Rooted(segments), name), '/') == [host] + segments + [name + EXTENSION]
  {
    var file := name + EXTENSION;
    SplitOfFree(host, '/');
    SplitOfFree(file, '/');
    var left := host + Rooted(segments);
    assert CacheKey(host, Rooted(segments), name) == left + "/" + file;
    SplitOfConcat(left, file, '/');
    if segments == [] {
      assert left == host;
    } else {
      SplitOfJoin(segments, '/');
      assert left == host + "/" + Join(segments, '/');
      SplitOfConcat(host, Join(segments, '/'), '/');
    }
  }

  /** A key stands for one host, one normalised path and one name. */
  lemma {:induction false} KeyIsUnambiguous(h1: string, p1: string, n1: string, h2: string, p2: string, n2: string)
    requires '/' !in h1 && '/' !in h2 && '/' !in n1 && '/' !in n2
    requires CacheKey(h1, NormalPath(p1), n1) == CacheKey(h2, NormalPath(p2), n2)
    ensures h1 == h2 && NormalPath(p1) == NormalPath(p2) && n1 == n2
  {
    NormalPathShape(p1);
    NormalPathShape(p2);
    var s1, s2 := Segments(p1), Segments(p2);
    SplitKey(h1, s1, n1);
    SplitKey(h2, s2, n2);
    var all1, all2 := [h1] + s1 + [n1 + EXTENSION], [h2] + s2 + [n2 + EXTENSION];
    assert all1 == all2;
    assert all1[0] == h1 && all2[0] == h2;
    assert all1[1..|all1| - 1] == s1 && all2[1..|all2| - 1] == s2;
    assert all1[|all1| - 1] == n1 + EXTENSION && all2[|all2| - 1] == n2 + EXTENSION;
    assert (n1 + EXTENSION)[..|n1|] == n1 && (n2 + EXTENSION)[..|n2|] == n2;
  }
}
