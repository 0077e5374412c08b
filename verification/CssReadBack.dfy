/**
 * What rt_css_rules gives for a whole stylesheet.
 *
 * A sheet is written as style rules, conditional groups of any depth, skipped at-rules and
 * statements.  Main result: reading the printed sheet gives one rule for each written one, in
 * order, with the conditions of the groups around it, its selectors and its declarations
 * (SheetReadsBack).
 */
module CssReadBack {
  import opened Wrappers
  import opened Strings
  import opened CssScanner
  import opened CssRules

  /** A rule as text: selectors and declarations. */
  datatype Source = Source(selectors: string, body: string)

  /** Part of a sheet: a rule, a conditional group, another at-rule with a block or a block without a prelude, and a statement. */
  datatype Part =
    | Plain(rule: Source)
    | Group(prelude: string, name: string, rest: string, parts: seq<Part>)
    | Skipped(prelude: string, body: string)
    | Statement(text: string)

  /** Text that contains nothing the rule loop reacts to. */
  predicate IsPlainText(s: string) {
    forall i :: 0 <= i < |s| ==> s[i] != '{' && s[i] != '}' && s[i] != ';'
  }

  /** Its braces outside quotes match, so that only the brace after it closes the block. */
  ghost predicate IsClosedBody(body: string) {
    var block := "{" + body + "}";
    Closes(block, 0, |block| - 1) && forall k :: 0 <= k < |block| - 1 ==> !Closes(block, 0, k)
  }

  const CONDITIONALS := {"@media", "@supports", "@layer", "@container"}

  ghost predicate IsPart(p: Part) {
    match p
    case Plain(r) => IsPlainText(r.selectors) && IsClosedBody(r.body) && Trim(r.selectors) != "" && Trim(r.selectors)[0] != '@'
    case Group(prelude, name, rest, parts) => IsGroupPrelude(prelude, name, rest) && AreParts(parts)
    case Skipped(prelude, body) => IsPlainText(prelude) && IsClosedBody(body) && IsSkippedPrelude(Trim(prelude))
    case Statement(text) => IsPlainText(text) && Trim(text) != "" && Trim(text)[0] == '@'
  }

  ghost predicate AreParts(parts: seq<Part>) {
    forall k :: 0 <= k < |parts| ==> IsPart(parts[k])
  }

  /** Nothing, or something that ends a word. */
  predicate EndsWord(rest: string) {
    rest == "" || !('a' <= rest[0] <= 'z' || 'A' <= rest[0] <= 'Z' || '0' <= rest[0] <= '9' || rest[0] == '_')
  }

  /** The name of a conditional group in any case, and what follows the word. */
  predicate NamesGroup(p: string, name: string, rest: string) {
    p == name + rest && Lower(name) in CONDITIONALS && EndsWord(rest)
  }

  predicate IsGroupPrelude(prelude: string, name: string, rest: string) {
    IsPlainText(prelude) && NamesGroup(Trim(prelude), name, rest)
  }

  /** Nothing, or an at-rule with any other name. */
  predicate IsSkippedPrelude(p: string) {
    p == "" || (p[0] == '@' && forall n :: 0 <= n <= |p| ==> !NamesGroup(p, p[..n], p[n..]))
  }

  /** What a group adds to the conditions: only media queries have one. */
  function ConditionOf(norms: Norms, name: string, rest: string): string {
    if Lower(name) == "@media" then norms.media(rest) else ""
  }

  function PrintPart(p: Part): string
    decreases p
  {
    match p
    case Plain(r) => r.selectors + "{" + r.body + "}"
    case Group(prelude, _, _, parts) => prelude + "{" + PrintAll(parts) + "}"
    case Skipped(prelude, body) => prelude + "{" + body + "}"
    case Statement(text) => text + ";"
  }

  function PrintAll(parts: seq<Part>): string
    decreases parts
  {
    if parts == [] then "" else PrintPart(parts[0]) + PrintAll(parts[1..])
  }

  /** A written rule and the conditions of the groups around it, outermost first. */
  datatype Found = Found(open: seq<string>, rule: Source)

  function PartRules(norms: Norms, open: seq<string>, p: Part): seq<Found>
    decreases p
  {
    match p
    case Plain(r) => [Found(open, r)]
    case Group(_, name, rest, parts) => AllRules(norms, open + [ConditionOf(norms, name, rest)], parts)
    case Skipped(_, _) => []
    case Statement(_) => []
  }

  function AllRules(norms: Norms, open: seq<string>, parts: seq<Part>): seq<Found>
    decreases parts
  {
    if parts == [] then [] else PartRules(norms, open, parts[0]) + AllRules(norms, open, parts[1..])
  }

  function RuleOf(norms: Norms, f: Found): Rule {
    MakeRule(norms, f.open, Trim(f.rule.selectors), f.rule.body)
  }

  function RulesOf(norms: Norms, found: seq<Found>): seq<Rule> {
    seq(|found|, k requires 0 <= k < |found| => RuleOf(norms, found[k]))
  }

  // ---- reading along the text ---------------------------------------------------------------------

  /** The text `t` stands in css at position i. */
  predicate StandsAt(css: string, i: nat, t: string) {
    i + |t| <= |css| && css[i..i + |t|] == t
  }

  lemma StandsSplit(css: string, i: nat, a: string, b: string)
    requires StandsAt(css, i, a + b)
    ensures StandsAt(css, i, a) && StandsAt(css, i + |a|, b)
  {
    assert css[i..i + |a|] == (a + b)[..|a|] == a;
    assert css[i + |a|..i + |a| + |b|] == (a + b)[|a|..] == b;
  }

  lemma StandsChar(css: string, i: nat, t: string, k: nat)
    requires StandsAt(css, i, t) && k < |t|
    ensures css[i + k] == t[k]
  {
    assert css[i..i + |t|][k] == t[k];
  }

  lemma BlockStands(css: string, i: nat, a: string, b: string)
    requires StandsAt(css, i, a + "{" + b + "}")
    ensures StandsAt(css, i, a) && StandsAt(css, i + |a|, "{" + b + "}")
    ensures StandsAt(css, i + |a| + 1, b) && StandsAt(css, i + |a| + 1 + |b|, "}")
    ensures css[i + |a|] == '{' && css[i + |a| + 1 + |b|] == '}'
  {
    var j, block := i + |a|, "{" + b + "}";
    assert a + "{" + b + "}" == a + block;
    StandsSplit(css, i, a, block);
    StandsChar(css, j, block, 0);
    assert block == "{" + (b + "}");
    StandsSplit(css, j, "{", b + "}");
    StandsSplit(css, j + 1, b, "}");
    StandsChar(css, j + 1 + |b|, "}", 0);
  }

  /** From p it adds `rules` and then goes on as from q. */
  predicate Reads(read: Reader, p: Place, rules: seq<Rule>, q: Place) {
    read(p) == rules + read(q)
  }

  lemma OneTurn(read: Reader, norms: Norms, css: string, p: Place)
    requires TakesTurns(read, norms, css) && p.at < |css|
    ensures Reads(read, p, TurnAt(norms, css, p).rules, TurnAt(norms, css, p).next)
  {
  }

  lemma Onward(read: Reader, p: Place, first: seq<Rule>, q: Place, second: seq<Rule>, r: Place)
    requires Reads(read, p, first, q) && Reads(read, q, second, r)
    ensures Reads(read, p, first + second, r)
  {
    assert first + (second + read(r)) == (first + second) + read(r);
  }

  lemma ReadChar(read: Reader, norms: Norms, css: string, p: Place)
    requires TakesTurns(read, norms, css) && p.at < |css| && css[p.at] !in "{};"
    ensures Reads(read, p, [], Place(p.at + 1, p.open, p.buf + [css[p.at]]))
  {
    OneTurn(read, norms, css, p);
  }

  lemma {:induction false} ReadText(read: Reader, norms: Norms, css: string, p: Place, text: string)
    requires TakesTurns(read, norms, css) && StandsAt(css, p.at, text) && IsPlainText(text)
    ensures Reads(read, p, [], Place(p.at + |text|, p.open, p.buf + text))
    decreases |text|
  {
    if text == "" {
      assert p.buf + text == p.buf;
    } else {
      var c := text[0];
      StandsChar(css, p.at, text, 0);
      assert text == [c] + text[1..];
      StandsSplit(css, p.at, [c], text[1..]);
      ReadChar(read, norms, css, p);
      var q := Place(p.at + 1, p.open, p.buf + [c]);
      ReadText(read, norms, css, q, text[1..]);
      assert q.buf + text[1..] == p.buf + text;
      Onward(read, p, [], q, [], Place(p.at + |text|, p.open, p.buf + text));
    }
  }

  lemma ReadFromStart(read: Reader, norms: Norms, css: string, i: nat, open: seq<string>, s: string)
    requires TakesTurns(read, norms, css) && StandsAt(css, i, s) && IsPlainText(s)
    ensures read(Place(i, open, "")) == read(Place(i + |s|, open, s))
  {
    ReadText(read, norms, css, Place(i, open, ""), s);
    assert "" + s == s;
  }

  // ---- blocks -------------------------------------------------------------------------------------

  /** The brace scan sees only the text from the opening brace on. */
  lemma {:induction false} BraceShift(css: string, i: nat, t: string, n: nat)
    requires StandsAt(css, i, t) && n <= |t|
    ensures BraceAt(css, i, i + n) == BraceAt(t, 0, n)
  {
    if n > 0 {
      BraceShift(css, i, t, n - 1);
      StandsChar(css, i, t, n - 1);
    }
  }

  lemma ClosesShift(css: string, i: nat, t: string, n: nat)
    requires StandsAt(css, i, t) && n < |t|
    ensures Closes(css, i, i + n) == Closes(t, 0, n)
  {
    BraceShift(css, i, t, n);
    StandsChar(css, i, t, n);
  }

  lemma {:induction false} ClosedBlockEnds(css: string, i: nat, body: string)
    requires StandsAt(css, i, "{" + body + "}") && IsClosedBody(body)
    ensures i + 1 + |body| < |css| && FirstClose(css, i, i) == i + 1 + |body|
  {
    var block := "{" + body + "}";
    var end := i + 1 + |body|;
    ClosesShift(css, i, block, |block| - 1);
    forall k | i <= k < end ensures !Closes(css, i, k) {
      ClosesShift(css, i, block, k - i);
    }
  }

  lemma ClosedBlockText(css: string, i: nat, body: string)
    requires StandsAt(css, i, "{" + body + "}")
    ensures css[i] == '{' && Body(css, i, i + 1 + |body|) == body
  {
    var block := "{" + body + "}";
    StandsChar(css, i, block, 0);
    forall k | 0 <= k < |body| ensures css[i + 1 + k] == body[k] {
      StandsChar(css, i, block, 1 + k);
    }
  }

  /** What a block gives: nothing when it is skipped, else a rule. */
  function BlockRules(norms: Norms, open: seq<string>, prelude: string, body: string): seq<Rule> {
    if IsSkippedPrelude(prelude) then [] else [MakeRule(norms, open, prelude, body)]
  }

  predicate IsOneTurn(prelude: string) {
    IsSkippedPrelude(prelude) || prelude[0] != '@'
  }

  lemma LowerByChar(p: string)
    requires p != ""
    ensures IsWord(Lower(p)[0]) <==> !EndsWord(p)
  {
  }

  lemma AtRuleNamesGroup(p: string, name: string)
    requires IsAtRule(p, name) && name in CONDITIONALS
    ensures NamesGroup(p, p[..|name|], p[|name|..])
  {
    var n := |name|;
    assert Lower(p[..n]) == Lower(p)[..n] == name;
    assert p == p[..n] + p[n..];
    if n < |p| {
      LowerByChar(p[n..]);
      assert Lower(p[n..])[0] == Lower(p)[n];
    }
  }

  lemma SkippedIsNotConditional(p: string)
    requires IsSkippedPrelude(p) && p != ""
    ensures !IsConditional(p)
  {
    if IsConditional(p) {
      var name :| name in CONDITIONALS && IsAtRule(p, name);
      AtRuleNamesGroup(p, name);
    }
  }

  lemma SkippedTurn(norms: Norms, css: string, p: Place, prelude: string)
    requires p.at < |css| && IsSkippedPrelude(prelude)
    ensures BlockTurn(norms, css, p, prelude) == Turn([], Place(FirstClose(css, p.at, p.at) + 1, p.open, ""))
  {
    if prelude != "" {
      SkippedIsNotConditional(prelude);
    }
  }

  lemma RuleTurn(norms: Norms, css: string, p: Place, prelude: string, end: nat, body: string) returns (rule: Rule)
    requires p.at < |css| && prelude != "" && prelude[0] != '@'
    requires end == FirstClose(css, p.at, p.at) && body == Body(css, p.at, end)
    ensures rule == MakeRule(norms, p.open, prelude, body)
    ensures BlockTurn(norms, css, p, prelude) == Turn([rule], Place(end + 1, p.open, ""))
  {
    rule := MakeRule(norms, p.open, prelude, body);
  }

  lemma ClosedBlockTurn(norms: Norms, css: string, p: Place, prelude: string, body: string)
    requires p.at < |css| && StandsAt(css, p.at, "{" + body + "}") && IsClosedBody(body) && IsOneTurn(prelude)
    ensures BlockTurn(norms, css, p, prelude) == Turn(BlockRules(norms, p.open, prelude, body), Place(p.at + 2 + |body|, p.open, ""))
  {
    ClosedBlockEnds(css, p.at, body);
    if IsSkippedPrelude(prelude) {
      SkippedTurn(norms, css, p, prelude);
    } else {
      ClosedBlockText(css, p.at, body);
      var rule := RuleTurn(norms, css, p, prelude, p.at + 1 + |body|, body);
    }
  }

  lemma TurnReads(read: Reader, norms: Norms, css: string, p: Place, rules: seq<Rule>, next: Place)
    requires TakesTurns(read, norms, css) && p.at < |css| && TurnAt(norms, css, p) == Turn(rules, next)
    ensures Reads(read, p, rules, next)
  {
  }

  lemma BraceTurn(norms: Norms, css: string, p: Place)
    requires p.at < |css| && css[p.at] == '{'
    ensures TurnAt(norms, css, p) == BlockTurn(norms, css, p, Trim(p.buf))
  {
  }

  /** A block that is read or skipped in one turn. */
  lemma ReadBlock(read: Reader, norms: Norms, css: string, at: nat, open: seq<string>, buf: string, body: string)
    requires TakesTurns(read, norms, css) && StandsAt(css, at, "{" + body + "}") && IsClosedBody(body) && IsOneTurn(Trim(buf))
    ensures Reads(read, Place(at, open, buf), BlockRules(norms, open, Trim(buf), body), Place(at + 2 + |body|, open, ""))
  {
    var p, rules := Place(at, open, buf), BlockRules(norms, open, Trim(buf), body);
    ClosedBlockText(css, at, body);
    ClosedBlockTurn(norms, css, p, Trim(buf), body);
    BraceTurn(norms, css, p);
    TurnReads(read, norms, css, p, rules, Place(at + 2 + |body|, open, ""));
  }

  /** The text is read as `rules` wherever it stands inside the groups `open`. */
  ghost predicate ReadsAs(read: Reader, css: string, open: seq<string>, text: string, rules: seq<Rule>) {
    forall i: nat :: StandsAt(css, i, text) ==> Reads(read, Place(i, open, ""), rules, Place(i + |text|, open, ""))
  }

  /** After the text `s` the block gives `rules`, wherever it stands. */
  ghost predicate BlockReadsAs(read: Reader, css: string, open: seq<string>, s: string, body: string, rules: seq<Rule>) {
    forall i: nat :: StandsAt(css, i, "{" + body + "}") ==> Reads(read, Place(i, open, s), rules, Place(i + 2 + |body|, open, ""))
  }

  lemma TextThenBlock(read: Reader, norms: Norms, css: string, open: seq<string>, s: string, body: string, rules: seq<Rule>)
    requires TakesTurns(read, norms, css) && IsPlainText(s) && BlockReadsAs(read, css, open, s, body, rules)
    ensures ReadsAs(read, css, open, s + "{" + body + "}", rules)
  {
    var text := s + "{" + body + "}";
    forall i: nat | StandsAt(css, i, text)
      ensures Reads(read, Place(i, open, ""), rules, Place(i + |text|, open, ""))
    {
      BlockStands(css, i, s, body);
      ReadFromStart(read, norms, css, i, open, s);
      assert Reads(read, Place(i + |s|, open, s), rules, Place(i + |s| + 2 + |body|, open, ""));
    }
  }

  lemma BlockAnywhere(read: Reader, norms: Norms, css: string, open: seq<string>, s: string, body: string)
    requires TakesTurns(read, norms, css) && IsPlainText(s) && IsClosedBody(body) && IsOneTurn(Trim(s))
    ensures ReadsAs(read, css, open, s + "{" + body + "}", BlockRules(norms, open, Trim(s), body))
  {
    var rules := BlockRules(norms, open, Trim(s), body);
    forall i: nat | StandsAt(css, i, "{" + body + "}")
      ensures Reads(read, Place(i, open, s), rules, Place(i + 2 + |body|, open, ""))
    {
      ReadBlock(read, norms, css, i, open, s, body);
    }
    TextThenBlock(read, norms, css, open, s, body, rules);
  }

  // ---- groups -------------------------------------------------------------------------------------

  lemma LowerOfConcat(a: string, b: string)
    ensures Lower(a + b) == Lower(a) + Lower(b)
  {
  }

  lemma GroupPrelude(norms: Norms, p: string, name: string, rest: string)
    requires NamesGroup(p, name, rest)
    ensures p != "" && p[0] == '@' && IsConditional(p) && GroupCondition(norms, p) == ConditionOf(norms, name, rest)
  {
    LowerOfConcat(name, rest);
    if rest != "" {
      LowerByChar(rest);
    }
    assert Lower(p)[0] == Lower(name)[0] == '@';
    assert IsAtRule(p, Lower(name));
    if "@media" <= Lower(p) {
      assert Lower(p)[1] == Lower(name)[1] == 'm';
      assert p[6..] == rest;
    }
  }

  lemma ReadGroupBrace(read: Reader, norms: Norms, css: string, at: nat, open: seq<string>, prelude: string, name: string, rest: string)
    requires TakesTurns(read, norms, css) && at < |css| && css[at] == '{' && IsGroupPrelude(prelude, name, rest)
    ensures read(Place(at, open, prelude)) == read(Place(at + 1, open + [ConditionOf(norms, name, rest)], ""))
  {
    GroupPrelude(norms, Trim(prelude), name, rest);
    OneTurn(read, norms, css, Place(at, open, prelude));
  }

  lemma ReadGroupEnd(read: Reader, norms: Norms, css: string, at: nat, open: seq<string>, cond: string)
    requires TakesTurns(read, norms, css) && at < |css| && css[at] == '}'
    ensures read(Place(at, open + [cond], "")) == read(Place(at + 1, open, ""))
  {
    assert Pop(open + [cond]) == open;
    OneTurn(read, norms, css, Place(at, open + [cond], ""));
  }

  lemma GroupAnywhere(read: Reader, norms: Norms, css: string, open: seq<string>, prelude: string, name: string, rest: string,
                      text: string, rules: seq<Rule>)
    requires TakesTurns(read, norms, css) && IsGroupPrelude(prelude, name, rest)
    requires ReadsAs(read, css, open + [ConditionOf(norms, name, rest)], text, rules)
    ensures ReadsAs(read, css, open, prelude + "{" + text + "}", rules)
  {
    var cond, whole := ConditionOf(norms, name, rest), prelude + "{" + text + "}";
    forall i: nat | StandsAt(css, i, whole)
      ensures Reads(read, Place(i, open, ""), rules, Place(i + |whole|, open, ""))
    {
      BlockStands(css, i, prelude, text);
      ReadFromStart(read, norms, css, i, open, prelude);
      ReadGroupBrace(read, norms, css, i + |prelude|, open, prelude, name, rest);
      ReadGroupEnd(read, norms, css, i + |prelude| + 1 + |text|, open, cond);
    }
  }

  // ---- statements ---------------------------------------------------------------------------------

  lemma {:induction false} StartsAtTrimmed(s: string)
    requires Trim(s) != ""
    ensures StartsAt(s) <==> Trim(s)[0] == '@'
    decreases |s|
  {
    if TrimChar(s[0]) {
      StartsAtTrimmed(s[1..]);
    } else {
      TrimKeepsFirst(s);
    }
  }

  lemma {:induction false} TrimKeepsFirst(s: string)
    requires s != "" && !TrimChar(s[0])
    ensures Trim(s) != "" && Trim(s)[0] == s[0]
    decreases |s|
  {
    if TrimChar(s[|s| - 1]) {
      TrimKeepsFirst(s[..|s| - 1]);
    }
  }

  lemma StatementAnywhere(read: Reader, norms: Norms, css: string, open: seq<string>, text: string)
    requires TakesTurns(read, norms, css) && IsPlainText(text) && Trim(text) != "" && Trim(text)[0] == '@'
    ensures ReadsAs(read, css, open, text + ";", [])
  {
    StartsAtTrimmed(text);
    forall i: nat | StandsAt(css, i, text + ";")
      ensures Reads(read, Place(i, open, ""), [], Place(i + |text| + 1, open, ""))
    {
      StandsChar(css, i, text + ";", |text|);
      StandsSplit(css, i, text, ";");
      ReadFromStart(read, norms, css, i, open, text);
      OneTurn(read, norms, css, Place(i + |text|, open, text));
    }
  }

  // ---- whole sheets -------------------------------------------------------------------------------

  lemma {:induction false} ReadPart(read: Reader, norms: Norms, css: string, open: seq<string>, p: Part)
    requires TakesTurns(read, norms, css) && IsPart(p)
    ensures ReadsAs(read, css, open, PrintPart(p), RulesOf(norms, PartRules(norms, open, p)))
    decreases p
  {
    match p
    case Plain(r) =>
      BlockAnywhere(read, norms, css, open, r.selectors, r.body);
      assert RulesOf(norms, [Found(open, r)]) == [MakeRule(norms, open, Trim(r.selectors), r.body)];
    case Group(prelude, name, rest, parts) =>
      var inner := open + [ConditionOf(norms, name, rest)];
      ReadParts(read, norms, css, inner, parts);
      GroupAnywhere(read, norms, css, open, prelude, name, rest, PrintAll(parts), RulesOf(norms, AllRules(norms, inner, parts)));
    case Skipped(prelude, body) =>
      BlockAnywhere(read, norms, css, open, prelude, body);
      assert RulesOf(norms, []) == [];
    case Statement(text) =>
      StatementAnywhere(read, norms, css, open, text);
      assert RulesOf(norms, []) == [];
  }

  lemma RulesOfConcat(norms: Norms, a: seq<Found>, b: seq<Found>)
    ensures RulesOf(norms, a + b) == RulesOf(norms, a) + RulesOf(norms, b)
  {
  }

  lemma ConcatAnywhere(read: Reader, css: string, open: seq<string>, s: string, first: seq<Rule>, t: string, second: seq<Rule>)
    requires ReadsAs(read, css, open, s, first) && ReadsAs(read, css, open, t, second)
    ensures ReadsAs(read, css, open, s + t, first + second)
  {
    forall i: nat | StandsAt(css, i, s + t)
      ensures Reads(read, Place(i, open, ""), first + second, Place(i + |s + t|, open, ""))
    {
      StandsSplit(css, i, s, t);
      Onward(read, Place(i, open, ""), first, Place(i + |s|, open, ""), second, Place(i + |s| + |t|, open, ""));
    }
  }

  lemma {:induction false} ReadParts(read: Reader, norms: Norms, css: string, open: seq<string>, parts: seq<Part>)
    requires TakesTurns(read, norms, css) && AreParts(parts)
    ensures ReadsAs(read, css, open, PrintAll(parts), RulesOf(norms, AllRules(norms, open, parts)))
    decreases parts
  {
    if parts == [] {
      assert RulesOf(norms, []) == [];
    } else {
      var here, later := PartRules(norms, open, parts[0]), AllRules(norms, open, parts[1..]);
      ReadPart(read, norms, css, open, parts[0]);
      ReadParts(read, norms, css, open, parts[1..]);
      ConcatAnywhere(read, css, open, PrintPart(parts[0]), RulesOf(norms, here), PrintAll(parts[1..]), RulesOf(norms, later));
      RulesOfConcat(norms, here, later);
    }
  }

  lemma SheetIsItsRules(norms: Norms, sheet: seq<Part>)
    requires AreParts(sheet)
    ensures RulesFrom(norms, PrintAll(sheet), START) == RulesOf(norms, AllRules(norms, [], sheet))
  {
    var css := PrintAll(sheet);
    var read: Reader := (p: Place) => RulesFrom(norms, css, p);
    assert TakesTurns(read, norms, css);
    ReadParts(read, norms, css, [], sheet);
    assert css[0..0 + |css|] == css;
    assert read(Place(|css|, [], "")) == [];
  }

  // ---- what a rule says ---------------------------------------------------------------------------

  /** The pieces of `text` between its top-level separators. */
  ghost predicate ArePiecesOf(text: string, sep: char, p: seq<string>) {
    AllBetween(text, Cuts(text, sep, |text|), |text|, p)
  }

  /** The selectors are the pieces between top-level commas, without surrounding blanks. */
  ghost predicate AreSelectorsOf(text: string, selectors: seq<string>) {
    exists prelude, p :: IsTrimmed(text, prelude) && ArePiecesOf(prelude, ',', p) && AreTrimmed(p, selectors)
  }

  ghost predicate AreTrimmed(p: seq<string>, q: seq<string>) {
    |p| == |q| && forall k :: 0 <= k < |p| ==> IsTrimmed(p[k], q[k])
  }

  /** A property is there exactly when a piece between top-level semicolons declares it, with all its values in order. */
  ghost predicate AreDeclarationsOf(norms: Norms, body: string, decl: Decl) {
    exists p :: ArePiecesOf(body, ';', p) && KeepsAllValues(norms, p, decl)
  }

  ghost predicate KeepsAllValues(norms: Norms, parts: seq<string>, decl: Decl) {
    && "" !in decl
    && forall prop: string :: prop != "" ==>
         (prop in decl <==> ValuesOf(norms, parts, prop) != []) && (prop in decl ==> decl[prop] == ValuesOf(norms, parts, prop))
  }

  ghost predicate IsRuleOf(norms: Norms, f: Found, rule: Rule) {
    IsMediaOf(f.open, rule.media) && AreSelectorsOf(f.rule.selectors, rule.selectors) && AreDeclarationsOf(norms, f.rule.body, rule.decl)
  }

  lemma SelectorsMean(text: string)
    ensures AreSelectorsOf(text, TrimAll(Pieces(Trim(text), ',', |Trim(text)|)))
  {
    var prelude := Trim(text);
    var p := Pieces(prelude, ',', |prelude|);
    TrimRemovesBlanks(text);
    CutsAreTopLevel(prelude, ',', |prelude|);
    forall k | 0 <= k < |p| ensures IsTrimmed(p[k], TrimAll(p)[k]) {
      TrimRemovesBlanks(p[k]);
    }
    assert ArePiecesOf(prelude, ',', p) && AreTrimmed(p, TrimAll(p));
  }

  lemma DeclarationsMean(norms: Norms, body: string)
    ensures AreDeclarationsOf(norms, body, Declarations(norms, Pieces(body, ';', |body|)))
  {
    var p := Pieces(body, ';', |body|);
    CutsAreTopLevel(body, ';', |body|);
    forall prop: string | prop != ""
      ensures (prop in Declarations(norms, p) <==> ValuesOf(norms, p, prop) != [])
           && (prop in Declarations(norms, p) ==> Declarations(norms, p)[prop] == ValuesOf(norms, p, prop))
    {
      DeclarationsKeepAllValues(norms, p, prop);
    }
    DeclarationsKeepAllValues(norms, p, "p");
    assert ArePiecesOf(body, ';', p) && KeepsAllValues(norms, p, Declarations(norms, p));
  }

  lemma RuleMeans(norms: Norms, f: Found)
    ensures IsRuleOf(norms, f, RuleOf(norms, f))
  {
    MediaJoinsConditions(f.open);
    SelectorsMean(f.rule.selectors);
    DeclarationsMean(norms, f.rule.body);
  }

  /** A printed sheet reads back as its rules, in order, each as written and under the conditions of its groups. */
  lemma SheetReadsBack(norms: Norms, sheet: seq<Part>)
    requires AreParts(sheet)
    ensures var rules, found := RulesFrom(norms, PrintAll(sheet), START), AllRules(norms, [], sheet);
            |rules| == |found| && forall k :: 0 <= k < |found| ==> IsRuleOf(norms, found[k], rules[k])
  {
    SheetIsItsRules(norms, sheet);
    forall f: Found ensures IsRuleOf(norms, f, RuleOf(norms, f)) {
      RuleMeans(norms, f);
    }
  }

  // ---- closed bodies --------------------------------------------------------------------------------

  /** A body of plain text, quoted text and matching braces is closed. */
  lemma BracedBodyIsClosed(body: string)
    requires IsBracedText("{" + body + "}", 1, |body| + 1)
    ensures IsClosedBody(body)
  {
    var block := "{" + body + "}";
    assert block[0] == '{' && block[|body| + 1] == '}';
    BlockCloses(block, 0, |body| + 1);
  }
}
