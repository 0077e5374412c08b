/**
 * rt_css_rules: the style rules of a stylesheet, on top of the scanner.
 *
 * Main results: the loop ends on every input and computes RulesFrom (Rules); a rule's condition
 * joins those of the open groups (MediaJoinsConditions), and a property keeps all its values
 * (DeclarationsKeepAllValues).  What whole sheets give is in CssReadBack.
 */
module CssRules {
  import opened Wrappers
  import opened Strings
  import opened CssScanner

  /** rt_css_media_norm and rt_css_value_norm. */
  datatype Norms = Norms(media: string -> string, value: string -> string)

  type Decl = map<string, seq<string>>

  datatype Rule = Rule(media: Option<string>, selectors: seq<string>, decl: Decl)

  /** strpos(ltrim($s), '@') === 0. */
  predicate StartsAt(s: string) {
    if s != "" && TrimChar(s[0]) then StartsAt(s[1..]) else s != "" && s[0] == '@'
  }

  predicate IsWord(c: char) {
    'a' <= c <= 'z' || '0' <= c <= '9' || c == '_'
  }

  /** The at-rule's name in lower case, followed by something that ends the word. */
  predicate IsAtRule(prelude: string, name: string) {
    var p := Lower(prelude);
    name <= p && (|p| == |name| || !IsWord(p[|name|]))
  }

  predicate IsConditional(prelude: string) {
    || IsAtRule(prelude, "@media") || IsAtRule(prelude, "@supports")
    || IsAtRule(prelude, "@layer") || IsAtRule(prelude, "@container")
  }

  function GroupCondition(norms: Norms, prelude: string): string {
    if "@media" <= Lower(prelude) then norms.media(prelude[6..]) else ""
  }

  /** One declaration added. */
  function Declare(norms: Norms, decl: Decl, d: string): Decl {
    var prop := PropertyOf(d);
    if prop == "" then decl
    else decl[prop := (if prop in decl then decl[prop] else []) + [norms.value(ValueText(d))]]
  }

  /** What stands before the first colon; empty when there is none. */
  function PropertyOf(d: string): string {
    if IndexOf(d, ':') == |d| then "" else Lower(Trim(d[..IndexOf(d, ':')]))
  }

  /** What stands after it. */
  function ValueText(d: string): string {
    if IndexOf(d, ':') == |d| then "" else d[IndexOf(d, ':') + 1..]
  }

  function Declarations(norms: Norms, parts: seq<string>): Decl {
    if parts == [] then map[] else Declare(norms, Declarations(norms, parts[..|parts| - 1]), parts[|parts| - 1])
  }

  /** The values that the parts give one property, in the order of the parts. */
  function ValuesOf(norms: Norms, parts: seq<string>, prop: string): seq<string> {
    if parts == [] then []
    else
      var n := |parts| - 1;
      ValuesOf(norms, parts[..n], prop) + if PropertyOf(parts[n]) == prop then [norms.value(ValueText(parts[n]))] else []
  }

  /** A property is there exactly when some part declares it, with all its values in order; parts without one leave no trace. */
  lemma {:induction false} DeclarationsKeepAllValues(norms: Norms, parts: seq<string>, prop: string)
    requires prop != ""
    ensures prop in Declarations(norms, parts) <==> ValuesOf(norms, parts, prop) != []
    ensures prop in Declarations(norms, parts) ==> Declarations(norms, parts)[prop] == ValuesOf(norms, parts, prop)
    ensures "" !in Declarations(norms, parts)
  {
    if parts != [] {
      DeclarationsKeepAllValues(norms, parts[..|parts| - 1], prop);
    }
  }

  /** implode(' ', array_filter($open)), null when that is empty. */
  function Conditions(open: seq<string>): seq<string> {
    if open == [] then [] else (if open[0] != "" then [open[0]] else []) + Conditions(open[1..])
  }

  function MediaOf(open: seq<string>): Option<string> {
    if Join(Conditions(open), ' ') == "" then None else Some(Join(Conditions(open), ' '))
  }

  /** `xs` are the elements of `open` that are not empty, in order. */
  ghost predicate AreNonEmptyOf(open: seq<string>, xs: seq<string>) {
    exists at: seq<nat> :: PicksNonEmpty(open, xs, at)
  }

  predicate PicksNonEmpty(open: seq<string>, xs: seq<string>, at: seq<nat>) {
    && |at| == |xs|
    && (forall k :: 0 <= k < |at| ==> at[k] < |open| && xs[k] == open[at[k]] && xs[k] != "")
    && (forall j, k :: 0 <= j < k < |at| ==> at[j] < at[k])
    && (forall i :: 0 <= i < |open| && open[i] != "" ==> i in at)
  }

  lemma {:induction false} ConditionsAreNonEmpty(open: seq<string>) returns (at: seq<nat>)
    ensures PicksNonEmpty(open, Conditions(open), at)
  {
    if open == [] {
      at := [];
    } else {
      at := ConditionsAreNonEmpty(open[1..]);
      at := OneMorePick(open, Conditions(open[1..]), at);
    }
  }

  function Later(at: seq<nat>): seq<nat> {
    seq(|at|, k requires 0 <= k < |at| => at[k] + 1)
  }

  /** The picks among all elements but the first, counted from the first. */
  predicate PicksAfterFirst(open: seq<string>, xs: seq<string>, at: seq<nat>) {
    && |at| == |xs|
    && (forall k :: 0 <= k < |at| ==> 0 < at[k] < |open| && xs[k] == open[at[k]] && xs[k] != "")
    && (forall j, k :: 0 <= j < k < |at| ==> at[j] < at[k])
    && (forall i :: 0 < i < |open| && open[i] != "" ==> i in at)
  }

  lemma PicksLater(open: seq<string>, xs: seq<string>, at: seq<nat>)
    requires open != [] && PicksNonEmpty(open[1..], xs, at)
    ensures PicksAfterFirst(open, xs, Later(at))
  {
    forall i | 0 < i < |open| && open[i] != "" ensures i in Later(at) {
      assert open[1..][i - 1] == open[i];
      var k :| 0 <= k < |at| && at[k] == i - 1;
      assert Later(at)[k] == i;
    }
  }

  lemma OneMorePick(open: seq<string>, xs: seq<string>, rest: seq<nat>) returns (at: seq<nat>)
    requires open != [] && PicksNonEmpty(open[1..], xs, rest)
    ensures PicksNonEmpty(open, (if open[0] != "" then [open[0]] else []) + xs, at)
  {
    at := Later(rest);
    PicksLater(open, xs, rest);
    if open[0] != "" {
      PicksFirst(open, xs, at);
      at := [0] + at;
    } else {
      assert [] + xs == xs;
    }
  }

  lemma PicksFirst(open: seq<string>, xs: seq<string>, at: seq<nat>)
    requires open != [] && open[0] != "" && PicksAfterFirst(open, xs, at)
    ensures PicksNonEmpty(open, [open[0]] + xs, [0] + at)
  {
    assert ([0] + at)[0] == 0;
    assert forall i :: i in at ==> i in [0] + at;
  }

  lemma {:induction false} JoinIsNotEmpty(xs: seq<string>)
    requires xs != [] && forall k :: 0 <= k < |xs| ==> xs[k] != ""
    ensures Join(xs, ' ') != ""
  {
  }

  /** A rule's condition: none if no open group has one, else those that are not empty, in order, with a blank between. */
  ghost predicate IsMediaOf(open: seq<string>, media: Option<string>) {
    && (media.None? <==> forall i :: 0 <= i < |open| ==> open[i] == "")
    && (media.Some? ==> exists xs :: AreNonEmptyOf(open, xs) && media.value == Join(xs, ' '))
  }

  lemma MediaJoinsConditions(open: seq<string>)
    ensures IsMediaOf(open, MediaOf(open))
  {
    var xs := Conditions(open);
    var at := ConditionsAreNonEmpty(open);
    assert AreNonEmptyOf(open, xs);
    if xs == [] {
      assert forall i :: 0 <= i < |open| && open[i] != "" ==> i in at;
    } else {
      JoinIsNotEmpty(xs);
      assert open[at[0]] != "";
    }
  }

  /** A declaration's property is what stands before its first colon, without surrounding blanks and in small letters. */
  lemma PropertyMeans(d: string, before: string, after: string)
    requires d == before + ":" + after && ':' !in before
    ensures exists t :: IsTrimmed(before, t) && PropertyOf(d) == Lower(t)
    ensures ValueText(d) == after
  {
    var i := |before|;
    FirstAt(before, ':', after);
    assert before + ":" + after == before + [':'] + after;
    assert d[..i] == before && d[i + 1..] == after;
    TrimRemovesBlanks(before);
  }

  lemma {:induction false} FirstAt(before: string, c: char, after: string)
    requires c !in before
    ensures IndexOf(before + [c] + after, c) == |before|
  {
    if before != "" {
      FirstAt(before[1..], c, after);
      assert (before + [c] + after)[1..] == before[1..] + [c] + after;
    }
  }

  /** Without a colon there is none. */
  lemma NoColonNoProperty(d: string)
    requires ':' !in d
    ensures PropertyOf(d) == ""
  {
    NeverAt(d, ':');
  }

  lemma {:induction false} NeverAt(s: string, c: char)
    requires c !in s
    ensures IndexOf(s, c) == |s|
  {
    if s != "" {
      NeverAt(s[1..], c);
    }
  }

  function TrimAll(parts: seq<string>): seq<string> {
    seq(|parts|, i requires 0 <= i < |parts| => Trim(parts[i]))
  }

  function MakeRule(norms: Norms, open: seq<string>, prelude: string, body: string): Rule {
    Rule(MediaOf(open), TrimAll(Pieces(prelude, ',', |prelude|)), Declarations(norms, Pieces(body, ';', |body|)))
  }

  /** substr($css, $i + 1, $end - $i - 1). */
  function Body(css: string, i: nat, end: int): string
    requires i < |css| && i <= end < |css|
  {
    if end > i then css[i + 1..end] else ""
  }

  /** Where the loop stands: position, open groups, and the text since the last mark. */
  datatype Place = Place(at: nat, open: seq<string>, buf: string)

  const START := Place(0, [], "")

  /** One turn of the loop: the rules it adds and where it goes on. */
  datatype Turn = Turn(rules: seq<Rule>, next: Place)

  function TurnAt(norms: Norms, css: string, p: Place): (t: Turn)
    requires p.at < |css|
    ensures p.at < t.next.at <= |css|
  {
    var c := css[p.at];
    if c == ';' && StartsAt(p.buf) then Turn([], Place(p.at + 1, p.open, ""))
    else if c == '}' then Turn([], Place(p.at + 1, Pop(p.open), ""))
    else if c != '{' then Turn([], Place(p.at + 1, p.open, p.buf + [c]))
    else BlockTurn(norms, css, p, Trim(p.buf))
  }

  function Pop(open: seq<string>): seq<string> {
    if open == [] then open else open[..|open| - 1]
  }

  /** The turn at an opening brace. */
  function BlockTurn(norms: Norms, css: string, p: Place, prelude: string): (t: Turn)
    requires p.at < |css|
    ensures p.at < t.next.at <= |css|
  {
    var past := Place(FirstClose(css, p.at, p.at) + 1, p.open, "");
    if prelude == "" then Turn([], past)
    else if prelude[0] != '@' then Turn([MakeRule(norms, p.open, prelude, Body(css, p.at, past.at - 1))], past)
    else if IsConditional(prelude) then Turn([], Place(p.at + 1, p.open + [GroupCondition(norms, prelude)], ""))
    else Turn([], past)
  }

  /** The rules of all turns from a place on. */
  function RulesFrom(norms: Norms, css: string, p: Place): seq<Rule>
    decreases |css| - p.at
  {
    if p.at >= |css| then []
    else
      var t := TurnAt(norms, css, p);
      t.rules + RulesFrom(norms, css, t.next)
  }

  /** The body of the declaration loop. */
  method ReadDeclaration(norms: Norms, before: Decl, d: string) returns (decl: Decl)
    ensures decl == Declare(norms, before, d)
  {
    decl := before;
    var colon := IndexOf(d, ':');
    var prop := if colon == |d| then "" else Lower(Trim(d[..colon]));
    if prop != "" {
      var values := if prop in decl then decl[prop] else [];
      decl := decl[prop := values + [norms.value(d[colon + 1..])]];
    }
  }

  /** The declaration loop. */
  method ReadDeclarations(norms: Norms, parts: seq<string>) returns (decl: Decl)
    ensures decl == Declarations(norms, parts)
  {
    decl := map[];
    for i := 0 to |parts|
      invariant decl == Declarations(norms, parts[..i])
    {
      assert parts[..i + 1][..i] == parts[..i];
      decl := ReadDeclaration(norms, decl, parts[i]);
    }
    assert parts[..|parts|] == parts;
  }

  method ReadRule(norms: Norms, open: seq<string>, prelude: string, body: string) returns (rule: Rule)
    ensures rule == MakeRule(norms, open, prelude, body)
  {
    var parts := CssScanner.Split(body, ';');
    var decl := ReadDeclarations(norms, parts);
    var selectors := CssScanner.Split(prelude, ',');
    rule := Rule(MediaOf(open), TrimAll(selectors), decl);
  }

  /** The loop's body. */
  method ReadTurn(norms: Norms, css: string, p: Place) returns (t: Turn)
    requires p.at < |css|
    ensures t == TurnAt(norms, css, p)
  {
    var ch := css[p.at];
    if ch == ';' && StartsAt(p.buf) {
      return Turn([], Place(p.at + 1, p.open, ""));
    }
    if ch == '}' {
      return Turn([], Place(p.at + 1, Pop(p.open), ""));
    }
    if ch != '{' {
      return Turn([], Place(p.at + 1, p.open, p.buf + [ch]));
    }
    var prelude := Trim(p.buf);
    var end := BlockEnd(css, p.at);
    if prelude != "" && prelude[0] == '@' {
      if IsConditional(prelude) {
        return Turn([], Place(p.at + 1, p.open + [GroupCondition(norms, prelude)], ""));
      }
      return Turn([], Place(end + 1, p.open, ""));
    }
    var rules := [];
    if prelude != "" {
      var rule := ReadRule(norms, p.open, prelude, Body(css, p.at, end));
      rules := [rule];
    }
    t := Turn(rules, Place(end + 1, p.open, ""));
  }

  /** A reader: the rules it gives from each place on. */
  type Reader = Place -> seq<Rule>

  /** It works turn by turn. */
  ghost predicate TakesTurns(read: Reader, norms: Norms, css: string) {
    forall p: Place {:trigger TurnAt(norms, css, p)} ::
      p.at < |css| ==> read(p) == TurnAt(norms, css, p).rules + read(TurnAt(norms, css, p).next)
  }

  /** The loop, for any reader that works turn by turn and ends with the sheet. */
  method TakeTurns(norms: Norms, css: string, ghost read: Reader) returns (rules: seq<Rule>)
    requires TakesTurns(read, norms, css) && forall p: Place :: p.at == |css| ==> read(p) == []
    ensures rules == read(START)
  {
    rules := [];
    var p := START;
    while p.at < |css|
      invariant p.at <= |css|
      invariant rules + read(p) == read(START)
      decreases |css| - p.at
    {
      var t := ReadTurn(norms, css, p);
      rules, p := rules + t.rules, t.next;
    }
  }

  /** rt_css_rules on a sheet without comments: every turn moves on, so the loop ends. */
  method Rules(norms: Norms, css: string) returns (rules: seq<Rule>)
    ensures rules == RulesFrom(norms, css, START)
  {
    rules := TakeTurns(norms, css, (p: Place) => RulesFrom(norms, css, p));
  }
}
