/**
 * The texts of downloadAndExtract's errors, in which the corpus generator looks for "429" and "404".
 *
 * Main result: apart from the 404 that a 404's own text ends in, the search finds exactly what
 * stands in the parts that vary: slug, version, status, or the text of the error below (FindsInText).
 */
module FetchErrors {

  /** strings.Contains(s, t). */
  predicate Contains(s: string, t: string) {
    t <= s || (s != "" && Contains(s[1..], t))
  }

  /** How a download fails; `err` is the text of the error that is wrapped. */
  datatype Failure =
    | NotFound                      // status 404
    | Status(code: string)          // any other status but 200
    | Request(err: string)          // the request itself
    | Body(err: string)             // reading the answer
    | Archive(err: string)          // opening the ZIP
    | Interrupted(err: string)      // the context has ended; returned as it is

  // In pieces, each short enough for the solver to see that it has no digit.
  const HOST := "download https:" + "//downloads." + "wordpress.org/plugin"

  function ErrorText(f: Failure, slug: string, version: string): string {
    match f
    case NotFound => "zip not found for " + slug + "@" + version + " (404)"
    case Status(code) => HOST + "/" + slug + "." + version + "." + "zip: HTTP" + " " + code
    case Request(err) => HOST + "/" + slug + "." + version + "." + "zip:" + " " + err
    case Body(err) => "read zip body for" + " " + slug + ":" + " " + err
    case Archive(err) => "open zip for" + " " + slug + ":" + " " + err
    case Interrupted(err) => err
  }

  /** The text stands in one of the parts that vary. */
  predicate Mentions(f: Failure, slug: string, version: string, t: string) {
    match f
    case NotFound => Contains(slug, t) || Contains(version, t)
    case Status(code) => Contains(slug, t) || Contains(version, t) || Contains(code, t)
    case Request(err) => Contains(slug, t) || Contains(version, t) || Contains(err, t)
    case Body(err) => Contains(slug, t) || Contains(err, t)
    case Archive(err) => Contains(slug, t) || Contains(err, t)
    case Interrupted(err) => Contains(err, t)
  }

  /** Text that starts like neither number. */
  lemma {:induction false} FindsNothing(s: string, t: string)
    requires t != "" && t[0] !in s
    ensures !Contains(s, t)
  {
    if s != "" {
      FindsNothing(s[1..], t);
    }
  }

  /** A character that is not in t cannot be crossed. */
  lemma {:induction false} FindsOnOneSide(a: string, c: char, b: string, t: string)
    requires t != "" && c !in t
    ensures Contains(a + [c] + b, t) <==> Contains(a, t) || Contains(b, t)
  {
    var s := a + [c] + b;
    if |a| < |t| <= |s| {
      assert s[..|t|][|a|] == c;
    }
    assert t <= s <==> t <= a;
    if a == "" {
      assert s[1..] == b;
    } else {
      assert s[1..] == a[1..] + [c] + b;
      FindsOnOneSide(a[1..], c, b, t);
    }
  }

  predicate IsSearched(t: string) {
    t == "404" || t == "429"
  }

  lemma HostIsFree()
    ensures '4' !in HOST
  {
    assert '4' !in "download https:";
    assert '4' !in "//downloads.";
    assert '4' !in "wordpress.org/plugin";
  }

  lemma Regroup(host: string, slug: string, version: string, zip: string, code: string)
    ensures host + "/" + slug + "." + version + "." + zip + " " + code
         == host + ['/'] + (slug + ['.'] + (version + ['.'] + (zip + [' '] + code)))
  {
  }

  lemma FindsInParts(host: string, slug: string, version: string, zip: string, code: string, t: string)
    requires IsSearched(t) && !Contains(host, t) && !Contains(zip, t)
    ensures Contains(host + ['/'] + (slug + ['.'] + (version + ['.'] + (zip + [' '] + code))), t)
       <==> Contains(slug, t) || Contains(version, t) || Contains(code, t)
  {
    var s3 := zip + [' '] + code;
    var s2 := version + ['.'] + s3;
    FindsOnOneSide(host, '/', slug + ['.'] + s2, t);
    FindsOnOneSide(slug, '.', s2, t);
    FindsOnOneSide(version, '.', s3, t);
    FindsOnOneSide(zip, ' ', code, t);
  }

  /** In a text that names the download's URL. */
  lemma FindsAfterUrl(slug: string, version: string, zip: string, rest: string, t: string)
    requires IsSearched(t) && '4' !in zip
    ensures Contains(HOST + "/" + slug + "." + version + "." + zip + " " + rest, t)
       <==> Contains(slug, t) || Contains(version, t) || Contains(rest, t)
  {
    Regroup(HOST, slug, version, zip, rest);
    HostIsFree();
    FindsNothing(HOST, t);
    FindsNothing(zip, t);
    FindsInParts(HOST, slug, version, zip, rest, t);
  }

  /** In a text that names the slug only. */
  lemma FindsAfterSlug(start: string, slug: string, err: string, t: string)
    requires IsSearched(t) && '4' !in start
    ensures Contains(start + " " + slug + ":" + " " + err, t) <==> Contains(slug, t) || Contains(err, t)
  {
    var s1 := slug + [':'] + ("" + [' '] + err);
    assert start + " " + slug + ":" + " " + err == start + [' '] + s1;
    FindsNothing(start, t);
    FindsNothing("", t);
    FindsOnOneSide(start, ' ', s1, t);
    FindsOnOneSide(slug, ':', "" + [' '] + err, t);
    FindsOnOneSide("", ' ', err, t);
  }

  /** What the search finds in the text of any failure. */
  lemma FindsInText(f: Failure, slug: string, version: string, t: string)
    requires IsSearched(t)
    ensures Contains(ErrorText(f, slug, version), t) <==> (f.NotFound? && t == "404") || Mentions(f, slug, version, t)
  {
    match f
    case NotFound => FindsInNotFound(slug, version);
    case Status(code) => FindsAfterUrl(slug, version, "zip: HTTP", code, t);
    case Request(err) => FindsAfterUrl(slug, version, "zip:", err, t);
    case Body(err) => FindsAfterSlug("read zip body for", slug, err, t);
    case Archive(err) => FindsAfterSlug("open zip for", slug, err, t);
    case Interrupted(_) =>
  }

  /** In the text of a 404: always "404", and "429" exactly when it is in the slug or the version. */
  lemma FindsInNotFound(slug: string, version: string)
    ensures Contains(ErrorText(NotFound, slug, version), "404")
    ensures Contains(ErrorText(NotFound, slug, version), "429") <==> Contains(slug, "429") || Contains(version, "429")
  {
    SplitNotFound(slug, version, "404");
    SplitNotFound(slug, version, "429");
    FindsOnOneSide("", '(', "404)", "404");
    FindsOnOneSide("", '(', "404)", "429");
    assert "" + ['('] + "404)" == "(404)";
    assert "404" <= "404)";
    assert "404)"[1..] == "04)";
    FindsOnOneSide("4", '0', "4)", "429");
    assert "4" + ['0'] + "4)" == "404)";
    assert !Contains("4", "429") && "4)"[1..] == ")";
    FindsNothing(")", "429");
  }

  lemma SplitNotFound(slug: string, version: string, t: string)
    requires IsSearched(t)
    ensures Contains(ErrorText(NotFound, slug, version), t) <==> Contains(slug, t) || Contains(version, t) || Contains("(404)", t)
  {
    var start := "zip not found for";
    var s2 := version + [' '] + "(404)";
    var s1 := slug + ['@'] + s2;
    assert ErrorText(NotFound, slug, version) == start + [' '] + s1;
    FindsOnOneSide(start, ' ', s1, t);
    FindsOnOneSide(slug, '@', s2, t);
    FindsOnOneSide(version, ' ', "(404)", t);
    FindsNothing(start, t);
  }
}
