/**
 * The CSS scanner of the Elementor round-trip harness: rt_css_split and rt_css_block_end.
 *
 * Main results: joining the pieces of a split gives the string back for every string
 * (SplitLosesNothing), and the cuts are exactly the top-level separators (CutsAreTopLevel), none of
 * them in quotes or brackets (EnclosedTextIsWhole); BlockEnd finds the first brace that closes the
 * block, past quotes and nested blocks (BlockCloses).
 */
module CssScanner {
  import opened Wrappers
  import opened Strings

  /** The state between two characters of rt_css_split: bracket depth, open quote, and whether a backslash just came. */
  datatype Scan = Scan(depth: nat, quote: Option<char>, escaped: bool)

  const TOP := Scan(0, None, false)

  predicate IsQuote(c: char) {
    c == '"' || c == '\''
  }

  /** One character.  Inside a quote a backslash protects the next character. */
  function Next(st: Scan, c: char): Scan {
    if st.quote.Some? then
      if st.escaped then st.(escaped := false)
      else if c == '\\' then st.(escaped := true)
      else if c == st.quote.value then st.(quote := None)
      else st
    else if IsQuote(c) then st.(quote := Some(c))
    else if c == '(' || c == '[' then st.(depth := st.depth + 1)
    else if (c == ')' || c == ']') && st.depth > 0 then st.(depth := st.depth - 1)
    else st
  }

  /** The state before character i. */
  function StateAt(s: string, i: nat): Scan
    requires i <= |s|
  {
    if i == 0 then TOP else Next(StateAt(s, i - 1), s[i - 1])
  }

  /** A separator at top level that is not itself a quote or a bracket. */
  predicate IsCut(s: string, sep: char, i: nat)
    requires i < |s|
  {
    && s[i] == sep && StateAt(s, i).quote.None? && StateAt(s, i).depth == 0
    && !IsQuote(sep) && sep != '(' && sep != '['
  }

  /** The pieces of the first n characters: a cut starts a new piece. */
  function Pieces(s: string, sep: char, n: nat): (p: seq<string>)
    requires n <= |s|
    ensures |p| >= 1
  {
    if n == 0 then [""] else Extend(Pieces(s, sep, n - 1), IsCut(s, sep, n - 1), s[n - 1])
  }

  /** A cut starts a new piece; any other character goes to the last one. */
  function Extend(p: seq<string>, cut: bool, ch: char): (q: seq<string>)
    requires |p| >= 1
    ensures |q| >= 1
  {
    if cut then p + [""] else p[..|p| - 1] + [p[|p| - 1] + [ch]]
  }

  /** One character read: what it does to the pieces and to the state. */
  lemma OneChar(s: string, sep: char, i: nat, parts: seq<string>, buf: string)
    requires i < |s| && parts + [buf] == Pieces(s, sep, i)
    ensures StateAt(s, i + 1) == Next(StateAt(s, i), s[i])
    ensures Pieces(s, sep, i + 1) == if IsCut(s, sep, i) then (parts + [buf]) + [""] else parts + [buf + [s[i]]]
  {
    var p := parts + [buf];
    assert p[..|p| - 1] == parts && p[|p| - 1] == buf;
  }

  /** A backslash in a quote and the character after it. */
  lemma EscapedPair(s: string, sep: char, i: nat, parts: seq<string>, buf: string)
    requires i + 1 < |s| && parts + [buf] == Pieces(s, sep, i)
    requires StateAt(s, i).quote.Some? && !StateAt(s, i).escaped && s[i] == '\\'
    ensures StateAt(s, i + 2) == StateAt(s, i)
    ensures Pieces(s, sep, i + 2) == parts + [buf + [s[i]] + [s[i + 1]]]
  {
    OneChar(s, sep, i, parts, buf);
    OneChar(s, sep, i + 1, parts, buf + [s[i]]);
  }

  /** rt_css_split. */
  method Split(s: string, sep: char) returns (parts: seq<string>)
    ensures parts == Pieces(s, sep, |s|)
  {
    parts := [];
    var buf, depth, i := "", 0, 0;
    var quote: Option<char> := None;
    while i < |s|
      invariant i <= |s| && depth >= 0
      invariant i < |s| ==> StateAt(s, i) == Scan(depth, quote, false)
      invariant parts + [buf] == Pieces(s, sep, i)
      decreases |s| - i
    {
      var ch := s[i];
      OneChar(s, sep, i, parts, buf);
      if quote.Some? {
        ghost var before := buf;
        buf := buf + [ch];
        if ch == '\\' && i + 1 < |s| {
          EscapedPair(s, sep, i, parts, before);
          i := i + 1;
          buf := buf + [s[i]];
        } else if ch == quote.value {
          quote := None;
        }
        i := i + 1;
        continue;
      }
      if IsQuote(ch) {
        quote := Some(ch);
      } else if ch == '(' || ch == '[' {
        depth := depth + 1;
      } else if (ch == ')' || ch == ']') && depth > 0 {
        depth := depth - 1;
      } else if ch == sep && depth == 0 {
        parts := parts + [buf];
        buf := "";
        i := i + 1;
        continue;
      }
      buf := buf + [ch];
      i := i + 1;
    }
    parts := parts + [buf];
  }

  lemma {:induction false} JoinSnoc(p: seq<string>, x: string, sep: char)
    requires p != []
    ensures Join(p + [x], sep) == Join(p, sep) + [sep] + x
  {
    if |p| == 1 {
      assert (p + [x])[1..] == [x];
    } else {
      assert (p + [x])[1..] == p[1..] + [x];
      JoinSnoc(p[1..], x, sep);
    }
  }

  lemma {:induction false} JoinGrows(p: seq<string>, x: string, c: char, sep: char)
    ensures Join(p + [x + [c]], sep) == Join(p + [x], sep) + [c]
  {
    if p != [] {
      JoinSnoc(p, x, sep);
      JoinSnoc(p, x + [c], sep);
    }
  }

  lemma JoinExtended(p: seq<string>, cut: bool, c: char, sep: char)
    requires |p| >= 1 && (cut ==> c == sep)
    ensures Join(Extend(p, cut, c), sep) == Join(p, sep) + [c]
  {
    if cut {
      JoinSnoc(p, "", sep);
    } else {
      assert p == p[..|p| - 1] + [p[|p| - 1]];
      JoinGrows(p[..|p| - 1], p[|p| - 1], c, sep);
    }
  }

  /** Joining the pieces with the separator gives the string back. */
  lemma {:induction false} SplitLosesNothing(s: string, sep: char, n: nat)
    requires n <= |s|
    ensures Join(Pieces(s, sep, n), sep) == s[..n]
  {
    if n > 0 {
      SplitLosesNothing(s, sep, n - 1);
      assert s[..n] == s[..n - 1] + [s[n - 1]];
      JoinExtended(Pieces(s, sep, n - 1), IsCut(s, sep, n - 1), s[n - 1], sep);
    }
  }

  /** The positions of the cuts among the first n characters. */
  function Cuts(s: string, sep: char, n: nat): seq<nat>
    requires n <= |s|
  {
    if n == 0 then [] else AddCut(Cuts(s, sep, n - 1), IsCut(s, sep, n - 1), n - 1)
  }

  function AddCut(c: seq<nat>, cut: bool, n: nat): seq<nat> {
    if cut then c + [n] else c
  }

  /** They are all the top-level separators, in order. */
  lemma {:induction false} CutsAreAllCuts(s: string, sep: char, n: nat)
    requires n <= |s|
    ensures forall i :: 0 <= i < n ==> (i in Cuts(s, sep, n) <==> IsCut(s, sep, i))
    ensures forall i :: i in Cuts(s, sep, n) ==> i < n
    ensures forall j, k :: 0 <= j < k < |Cuts(s, sep, n)| ==> Cuts(s, sep, n)[j] < Cuts(s, sep, n)[k]
  {
    if n > 0 {
      CutsAreAllCuts(s, sep, n - 1);
      var c := Cuts(s, sep, n - 1);
      assert forall k :: 0 <= k < |c| ==> c[k] in c;
    }
  }

  /** The text between cut k - 1 and cut k of the first n characters. */
  predicate LiesBetween(s: string, c: seq<nat>, n: nat, k: nat, x: string)
    requires n <= |s| && k <= |c|
  {
    var from, to := if k == 0 then 0 else c[k - 1] + 1, if k == |c| then n else c[k];
    from <= to <= |s| && x == s[from..to]
  }

  ghost predicate AllBetween(s: string, c: seq<nat>, n: nat, p: seq<string>)
    requires n <= |s|
  {
    |p| == |c| + 1 && forall k :: 0 <= k < |p| ==> LiesBetween(s, c, n, k, p[k])
  }

  lemma {:induction false} AnotherCut(s: string, c: seq<nat>, n: nat, p: seq<string>)
    requires n < |s| && AllBetween(s, c, n, p)
    ensures AllBetween(s, c + [n], n + 1, p + [""])
  {
    forall k | 0 <= k < |p| + 1 ensures LiesBetween(s, c + [n], n + 1, k, (p + [""])[k]) {
      if k < |p| {
        assert LiesBetween(s, c, n, k, p[k]);
      }
    }
  }

  lemma {:induction false} AnotherChar(s: string, c: seq<nat>, n: nat, p: seq<string>)
    requires n < |s| && AllBetween(s, c, n, p)
    ensures AllBetween(s, c, n + 1, p[..|p| - 1] + [p[|p| - 1] + [s[n]]])
  {
    var q := p[..|p| - 1] + [p[|p| - 1] + [s[n]]];
    forall k | 0 <= k < |p| ensures LiesBetween(s, c, n + 1, k, q[k]) {
      assert LiesBetween(s, c, n, k, p[k]);
      if k == |p| - 1 {
        GrowSlice(s, if k == 0 then 0 else c[k - 1] + 1, n);
      }
    }
  }

  lemma NextPieces(s: string, cut: bool, c: seq<nat>, n: nat, p: seq<string>)
    requires n < |s| && AllBetween(s, c, n, p)
    ensures AllBetween(s, AddCut(c, cut, n), n + 1, Extend(p, cut, s[n]))
  {
    if cut {
      AnotherCut(s, c, n, p);
    } else {
      AnotherChar(s, c, n, p);
    }
  }

  /** Piece k is what lies between cut k - 1 and cut k, and Cuts are exactly the top-level separators. */
  lemma {:induction false} CutsAreTopLevel(s: string, sep: char, n: nat)
    requires n <= |s|
    ensures AllBetween(s, Cuts(s, sep, n), n, Pieces(s, sep, n))
  {
    if n == 0 {
      NoCutYet(s);
    } else {
      var c, p, cut := Cuts(s, sep, n - 1), Pieces(s, sep, n - 1), IsCut(s, sep, n - 1);
      CutsAreTopLevel(s, sep, n - 1);
      NextPieces(s, cut, c, n - 1, p);
      assert Cuts(s, sep, n) == AddCut(c, cut, n - 1) && Pieces(s, sep, n) == Extend(p, cut, s[n - 1]);
    }
  }

  lemma NoCutYet(s: string)
    ensures AllBetween(s, [], 0, [""])
  {
  }

  lemma GrowSlice(s: string, from: nat, to: nat)
    requires from <= to < |s|
    ensures s[from..to + 1] == s[from..to] + [s[to]]
  {
  }

  // ---- which separators are at top level ------------------------------------------------------------

  /** Text between quotes: characters other than the quote and the backslash, and pairs of a backslash and any character. */
  predicate IsQuotedText(s: string, quote: char, from: nat, to: nat)
    requires from <= to <= |s|
    decreases |s| - from
  {
    || from == to
    || (s[from] == '\\' && from + 2 <= to && IsQuotedText(s, quote, from + 2, to))
    || (s[from] != '\\' && s[from] != quote && IsQuotedText(s, quote, from + 1, to))
  }

  /** Plain characters, quoted texts, and brackets around such text. */
  ghost predicate IsBalanced(s: string, from: nat, to: nat)
    requires from <= to <= |s|
    decreases |s| - from
  {
    || from == to
    || (s[from] !in "\"'()[]" && IsBalanced(s, from + 1, to))
    || (s[from] in "\"'" && exists j :: from < j < to && s[j] == s[from] && IsQuotedText(s, s[from], from + 1, j) && IsBalanced(s, j + 1, to))
    || (s[from] in "([" && exists j :: from < j < to && s[j] in ")]" && IsBalanced(s, from + 1, j) && IsBalanced(s, j + 1, to))
  }

  lemma {:induction false} QuoteStaysOpen(s: string, q: char, from: nat, to: nat)
    requires from <= to <= |s| && IsQuotedText(s, q, from, to)
    requires StateAt(s, from).quote == Some(q) && !StateAt(s, from).escaped
    ensures StateAt(s, to) == StateAt(s, from)
    ensures forall k :: from <= k <= to ==> StateAt(s, k).quote == Some(q)
    decreases |s| - from
  {
    if from < to {
      if s[from] == '\\' {
        assert StateAt(s, from + 2) == Next(StateAt(s, from + 1), s[from + 1]);
        QuoteStaysOpen(s, q, from + 2, to);
      } else {
        QuoteStaysOpen(s, q, from + 1, to);
      }
    }
  }

  /** Within these positions the scan is inside a quote or at least `depth` deep. */
  predicate IsAtLeast(s: string, from: nat, to: nat, depth: nat)
    requires from <= to <= |s|
  {
    forall k :: from <= k <= to ==> StateAt(s, k).quote.Some? || StateAt(s, k).depth >= depth
  }

  lemma QuotedIsWhole(s: string, from: nat, to: nat)
    requires from < to < |s| && s[from] in "\"'" && s[to] == s[from] && IsQuotedText(s, s[from], from + 1, to)
    requires StateAt(s, from).quote.None? && !StateAt(s, from).escaped
    ensures StateAt(s, to + 1) == StateAt(s, from) && IsAtLeast(s, from, to + 1, StateAt(s, from).depth)
  {
    assert StateAt(s, from + 1) == Next(StateAt(s, from), s[from]);
    QuoteStaysOpen(s, s[from], from + 1, to);
    assert StateAt(s, to + 1) == Next(StateAt(s, to), s[to]);
  }

  lemma BracketedIsWhole(s: string, from: nat, to: nat)
    requires from < to < |s| && s[from] in "([" && s[to] in ")]" && StateAt(s, from).quote.None?
    requires StateAt(s, to) == StateAt(s, from + 1) && IsAtLeast(s, from + 1, to, StateAt(s, from).depth + 1)
    ensures StateAt(s, to + 1) == StateAt(s, from) && IsAtLeast(s, from, to + 1, StateAt(s, from).depth)
  {
    assert StateAt(s, from + 1) == Next(StateAt(s, from), s[from]);
    assert StateAt(s, to + 1) == Next(StateAt(s, to), s[to]);
  }

  lemma AtLeastJoins(s: string, from: nat, mid: nat, to: nat, depth: nat)
    requires from <= mid <= to <= |s| && IsAtLeast(s, from, mid, depth) && IsAtLeast(s, mid, to, depth)
    ensures IsAtLeast(s, from, to, depth)
  {
  }

  lemma {:induction false} BalancedKeepsDepth(s: string, from: nat, to: nat)
    requires from <= to <= |s| && IsBalanced(s, from, to) && StateAt(s, from).quote.None? && !StateAt(s, from).escaped
    ensures StateAt(s, to) == StateAt(s, from) && IsAtLeast(s, from, to, StateAt(s, from).depth)
    decreases |s| - from
  {
    if from < to {
      if s[from] !in "\"'()[]" {
        assert StateAt(s, from + 1) == StateAt(s, from);
        BalancedKeepsDepth(s, from + 1, to);
        AtLeastJoins(s, from, from + 1, to, StateAt(s, from).depth);
      } else if s[from] in "\"'" {
        var j :| from < j < to && s[j] == s[from] && IsQuotedText(s, s[from], from + 1, j) && IsBalanced(s, j + 1, to);
        QuotedIsWhole(s, from, j);
        BalancedKeepsDepth(s, j + 1, to);
        AtLeastJoins(s, from, j + 1, to, StateAt(s, from).depth);
      } else {
        var j :| from < j < to && s[j] in ")]" && IsBalanced(s, from + 1, j) && IsBalanced(s, j + 1, to);
        assert StateAt(s, from + 1) == Next(StateAt(s, from), s[from]);
        BalancedKeepsDepth(s, from + 1, j);
        BracketedIsWhole(s, from, j);
        BalancedKeepsDepth(s, j + 1, to);
        AtLeastJoins(s, from, j + 1, to, StateAt(s, from).depth);
      }
    }
  }

  lemma {:induction false} NotEscapedOutside(s: string, i: nat)
    requires i <= |s| && StateAt(s, i).quote.None?
    ensures !StateAt(s, i).escaped
  {
    if i > 0 && StateAt(s, i - 1).quote.None? {
      NotEscapedOutside(s, i - 1);
    }
  }

  /** No cut lies in a quoted text or between brackets, and what follows is at the level of what came before. */
  lemma EnclosedTextIsWhole(s: string, sep: char, from: nat, to: nat)
    requires from < to < |s| && StateAt(s, from).quote.None?
    requires || (s[from] in "\"'" && s[to] == s[from] && IsQuotedText(s, s[from], from + 1, to))
             || (s[from] in "([" && s[to] in ")]" && IsBalanced(s, from + 1, to))
    ensures forall i :: from <= i < to ==> !IsCut(s, sep, i)
    ensures StateAt(s, to + 1) == StateAt(s, from)
  {
    NotEscapedOutside(s, from);
    if s[from] in "\"'" {
      assert StateAt(s, from + 1) == Next(StateAt(s, from), s[from]);
      QuoteStaysOpen(s, s[from], from + 1, to);
    } else {
      assert StateAt(s, from + 1) == Next(StateAt(s, from), s[from]);
      BalancedKeepsDepth(s, from + 1, to);
    }
  }

  /** A plain separator after balanced text is a cut. */
  lemma SeparatorAfterBalancedIsCut(s: string, sep: char, i: nat)
    requires i < |s| && s[i] == sep && sep !in "\"'([" && IsBalanced(s, 0, i)
    ensures IsCut(s, sep, i)
  {
    BalancedKeepsDepth(s, 0, i);
  }

  // ---- explode --------------------------------------------------------------------------------------

  predicate IsPlain(c: char) {
    !IsQuote(c) && c != '(' && c != ')' && c != '[' && c != ']'
  }

  lemma {:induction false} PlainStaysTop(s: string, n: nat)
    requires n <= |s| && forall i :: 0 <= i < |s| ==> IsPlain(s[i])
    ensures StateAt(s, n) == TOP
  {
    if n > 0 {
      PlainStaysTop(s, n - 1);
    }
  }

  /** Without quotes and brackets the split is explode. */
  lemma {:induction false} PlainSplitIsExplode(s: string, sep: char, n: nat)
    requires n <= |s| && IsPlain(sep) && forall i :: 0 <= i < |s| ==> IsPlain(s[i])
    ensures Pieces(s, sep, n) == Strings.Split(s[..n], sep)
  {
    if n > 0 {
      PlainSplitIsExplode(s, sep, n - 1);
      PlainPieces(s, sep, n);
      ExplodePrefix(s, sep, n);
    }
  }

  lemma PlainPieces(s: string, sep: char, n: nat)
    requires 0 < n <= |s| && IsPlain(sep) && forall i :: 0 <= i < |s| ==> IsPlain(s[i])
    ensures Pieces(s, sep, n) == Extend(Pieces(s, sep, n - 1), s[n - 1] == sep, s[n - 1])
  {
    PlainCut(s, sep, n - 1);
  }

  lemma ExplodePrefix(s: string, sep: char, n: nat)
    requires 0 < n <= |s|
    ensures Strings.Split(s[..n], sep) == Extend(Strings.Split(s[..n - 1], sep), s[n - 1] == sep, s[n - 1])
  {
    assert s[..n] == s[..n - 1] + [s[n - 1]];
    ExplodeNext(s[..n - 1], s[n - 1], sep);
  }

  lemma PlainCut(s: string, sep: char, i: nat)
    requires i < |s| && IsPlain(sep) && forall i :: 0 <= i < |s| ==> IsPlain(s[i])
    ensures IsCut(s, sep, i) <==> s[i] == sep
  {
    PlainStaysTop(s, i);
  }

  lemma ExplodeNext(s: string, c: char, sep: char)
    ensures Strings.Split(s + [c], sep) == Extend(Strings.Split(s, sep), c == sep, c)
  {
    if c == sep {
      SplitOfConcat(s, "", sep);
      assert s + [sep] + "" == s + [c];
    } else {
      ExplodeGrows(s, c, sep);
    }
  }

  lemma {:induction false} ExplodeGrows(s: string, c: char, sep: char)
    requires c != sep
    ensures var p := Strings.Split(s, sep);
            Strings.Split(s + [c], sep) == p[..|p| - 1] + [p[|p| - 1] + [c]]
  {
    var p := Strings.Split(s, sep);
    if s == "" {
      assert s + [c] == [c];
      SplitOfFree([c], sep);
      assert p[..0] + ["" + [c]] == [[c]];
    } else {
      assert (s + [c])[1..] == s[1..] + [c];
      ExplodeGrows(s[1..], c, sep);
      var q := Strings.Split(s[1..], sep);
      var q' := q[..|q| - 1] + [q[|q| - 1] + [c]];
      if s[0] == sep {
        assert p == [""] + q;
        assert [""] + q' == p[..|p| - 1] + [p[|p| - 1] + [c]];
      } else if |q| == 1 {
        assert [s[0]] + (q[0] + [c]) == ([s[0]] + q[0]) + [c];
      } else {
        assert q'[0] == q[0];
        assert [[s[0]] + q[0]] + q'[1..] == p[..|p| - 1] + [p[|p| - 1] + [c]];
      }
    }
  }

  // ---- blocks ---------------------------------------------------------------------------------------

  datatype Brace = Brace(depth: int, quote: Option<char>, escaped: bool)

  function NextBrace(st: Brace, c: char): Brace {
    if st.quote.Some? then
      if st.escaped then st.(escaped := false)
      else if c == '\\' then st.(escaped := true)
      else if c == st.quote.value then st.(quote := None)
      else st
    else if IsQuote(c) then st.(quote := Some(c))
    else if c == '{' then st.(depth := st.depth + 1)
    else if c == '}' then st.(depth := st.depth - 1)
    else st
  }

  /** The state before character i of a scan that starts at `open`. */
  function BraceAt(css: string, open: nat, i: nat): Brace
    requires open <= i <= |css|
    decreases i
  {
    if i == open then Brace(0, None, false) else NextBrace(BraceAt(css, open, i - 1), css[i - 1])
  }

  /** An unquoted brace that brings the depth back to zero. */
  predicate Closes(css: string, open: nat, i: nat)
    requires open <= i < |css|
  {
    css[i] == '}' && BraceAt(css, open, i).quote.None? && BraceAt(css, open, i).depth == 1
  }

  /** Text with quotes and braces that match. */
  ghost predicate IsBracedText(s: string, from: nat, to: nat)
    requires from <= to <= |s|
    decreases |s| - from
  {
    || from == to
    || (s[from] !in "\"'{}" && IsBracedText(s, from + 1, to))
    || (s[from] in "\"'" && exists j :: from < j < to && s[j] == s[from] && IsQuotedText(s, s[from], from + 1, j) && IsBracedText(s, j + 1, to))
    || (s[from] == '{' && exists j :: from < j < to && s[j] == '}' && IsBracedText(s, from + 1, j) && IsBracedText(s, j + 1, to))
  }

  lemma {:induction false} BraceQuoteStaysOpen(s: string, open: nat, q: char, from: nat, to: nat)
    requires open <= from <= to <= |s| && IsQuotedText(s, q, from, to)
    requires BraceAt(s, open, from).quote == Some(q) && !BraceAt(s, open, from).escaped
    ensures BraceAt(s, open, to) == BraceAt(s, open, from)
    ensures forall k :: from <= k <= to ==> BraceAt(s, open, k).quote == Some(q)
    decreases |s| - from
  {
    if from < to {
      if s[from] == '\\' {
        assert BraceAt(s, open, from + 2) == NextBrace(BraceAt(s, open, from + 1), s[from + 1]);
        BraceQuoteStaysOpen(s, open, q, from + 2, to);
      } else {
        BraceQuoteStaysOpen(s, open, q, from + 1, to);
      }
    }
  }

  /** No brace from here to there brings the depth below `depth`. */
  predicate StaysAbove(s: string, open: nat, from: nat, to: nat, depth: int)
    requires open <= from <= to <= |s|
  {
    forall k :: from <= k < to ==> s[k] != '}' || BraceAt(s, open, k).quote.Some? || BraceAt(s, open, k).depth > depth
  }

  lemma BraceQuotedIsWhole(s: string, open: nat, from: nat, to: nat)
    requires open <= from < to < |s| && s[from] in "\"'" && s[to] == s[from] && IsQuotedText(s, s[from], from + 1, to)
    requires BraceAt(s, open, from).quote.None? && !BraceAt(s, open, from).escaped
    ensures BraceAt(s, open, to + 1) == BraceAt(s, open, from) && StaysAbove(s, open, from, to + 1, BraceAt(s, open, from).depth)
  {
    assert BraceAt(s, open, from + 1) == NextBrace(BraceAt(s, open, from), s[from]);
    BraceQuoteStaysOpen(s, open, s[from], from + 1, to);
    assert BraceAt(s, open, to + 1) == NextBrace(BraceAt(s, open, to), s[to]);
  }

  lemma NestedIsWhole(s: string, open: nat, from: nat, to: nat)
    requires open <= from < to < |s| && s[from] == '{' && s[to] == '}' && BraceAt(s, open, from).quote.None?
    requires BraceAt(s, open, to) == BraceAt(s, open, from + 1) && StaysAbove(s, open, from + 1, to, BraceAt(s, open, from).depth + 1)
    ensures BraceAt(s, open, to + 1) == BraceAt(s, open, from) && StaysAbove(s, open, from, to + 1, BraceAt(s, open, from).depth)
  {
    assert BraceAt(s, open, from + 1) == NextBrace(BraceAt(s, open, from), s[from]);
    assert BraceAt(s, open, to + 1) == NextBrace(BraceAt(s, open, to), s[to]);
  }

  lemma AboveJoins(s: string, open: nat, from: nat, mid: nat, to: nat, depth: int)
    requires open <= from <= mid <= to <= |s| && StaysAbove(s, open, from, mid, depth) && StaysAbove(s, open, mid, to, depth)
    ensures StaysAbove(s, open, from, to, depth)
  {
  }

  lemma {:induction false} BracedKeepsDepth(s: string, open: nat, from: nat, to: nat)
    requires open <= from <= to <= |s| && IsBracedText(s, from, to)
    requires BraceAt(s, open, from).quote.None? && !BraceAt(s, open, from).escaped
    ensures BraceAt(s, open, to) == BraceAt(s, open, from) && StaysAbove(s, open, from, to, BraceAt(s, open, from).depth)
    decreases |s| - from
  {
    if from < to {
      if s[from] !in "\"'{}" {
        BracedKeepsDepth(s, open, from + 1, to);
        AboveJoins(s, open, from, from + 1, to, BraceAt(s, open, from).depth);
      } else if s[from] in "\"'" {
        var j :| from < j < to && s[j] == s[from] && IsQuotedText(s, s[from], from + 1, j) && IsBracedText(s, j + 1, to);
        BraceQuotedIsWhole(s, open, from, j);
        BracedKeepsDepth(s, open, j + 1, to);
        AboveJoins(s, open, from, j + 1, to, BraceAt(s, open, from).depth);
      } else {
        var j :| from < j < to && s[j] == '}' && IsBracedText(s, from + 1, j) && IsBracedText(s, j + 1, to);
        assert BraceAt(s, open, from + 1) == NextBrace(BraceAt(s, open, from), s[from]);
        BracedKeepsDepth(s, open, from + 1, j);
        NestedIsWhole(s, open, from, j);
        BracedKeepsDepth(s, open, j + 1, to);
        AboveJoins(s, open, from, j + 1, to, BraceAt(s, open, from).depth);
      }
    }
  }

  /** A block around such text ends at its own brace: those within and those in quotes do not close it. */
  lemma BlockCloses(css: string, open: nat, end: nat)
    requires open < end < |css| && css[open] == '{' && css[end] == '}' && IsBracedText(css, open + 1, end)
    ensures Closes(css, open, end) && forall k :: open <= k < end ==> !Closes(css, open, k)
    ensures FirstClose(css, open, open) == end
  {
    assert BraceAt(css, open, open + 1) == NextBrace(BraceAt(css, open, open), css[open]);
    BracedKeepsDepth(css, open, open + 1, end);
    FirstCloseIs(css, open, end);
  }

  lemma FirstCloseIs(css: string, open: nat, end: nat)
    requires open <= end < |css| && Closes(css, open, end) && forall k :: open <= k < end ==> !Closes(css, open, k)
    ensures FirstClose(css, open, open) == end
  {
  }

  /** The first closing brace at or after i, or the last index. */
  function FirstClose(css: string, open: nat, i: nat): (r: int)
    requires open <= i <= |css|
    ensures r < |css| && (i < |css| ==> i <= r)
    ensures (exists k :: i <= k < |css| && Closes(css, open, k)) ==> r >= i && Closes(css, open, r)
    ensures forall k :: i <= k < r ==> !Closes(css, open, k)
    ensures (forall k :: i <= k < |css| ==> !Closes(css, open, k)) ==> r == |css| - 1
    decreases |css| - i
  {
    if i == |css| then |css| - 1 else if Closes(css, open, i) then i else FirstClose(css, open, i + 1)
  }

  /** rt_css_block_end. */
  method BlockEnd(css: string, open: nat) returns (r: int)
    requires open <= |css|
    ensures r == FirstClose(css, open, open)
  {
    var depth, i := 0, open;
    var quote: Option<char> := None;
    while i < |css|
      invariant open <= i
      invariant quote.Some? ==> IsQuote(quote.value)
      invariant i < |css| ==> BraceAt(css, open, i) == Brace(depth, quote, false)
      invariant FirstClose(css, open, open) == if i <= |css| then FirstClose(css, open, i) else |css| - 1
      decreases |css| - i
    {
      var ch := css[i];
      assert BraceAt(css, open, i + 1) == NextBrace(BraceAt(css, open, i), ch);
      if quote.Some? {
        if ch == '\\' {
          assert FirstClose(css, open, i) == FirstClose(css, open, i + 1);
          i := i + 1;
          assert i < |css| ==> BraceAt(css, open, i + 1) == NextBrace(BraceAt(css, open, i), css[i]);
        } else if ch == quote.value {
          quote := None;
        }
        i := i + 1;
        continue;
      }
      if IsQuote(ch) {
        quote := Some(ch);
      } else if ch == '{' {
        depth := depth + 1;
      } else if ch == '}' {
        depth := depth - 1;
        if depth == 0 {
          return i;
        }
      }
      i := i + 1;
    }
    return |css| - 1;
  }
}
