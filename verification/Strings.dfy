/** explode and implode on one separator character, and the decimal spelling of integers. */
module Strings {

  /** explode(sep, s): always at least one piece. */
  function Split(s: string, sep: char): (parts: seq<string>)
    ensures |parts| >= 1
  {
    if s == [] then [""]
    else if s[0] == sep then [""] + Split(s[1..], sep)
    else
      var rest := Split(s[1..], sep);
      [[s[0]] + rest[0]] + rest[1..]
  }

  /** implode(sep, parts). */
  function Join(parts: seq<string>, sep: char): string {
    if parts == [] then ""
    else if |parts| == 1 then parts[0]
    else parts[0] + [sep] + Join(parts[1..], sep)
  }

  lemma {:induction false} SplitOfFree(s: string, sep: char)
    requires sep !in s
    ensures Split(s, sep) == [s]
  {
    if s != [] {
      SplitOfFree(s[1..], sep);
      assert [s[0]] + s[1..] == s;
    }
  }

  lemma FirstPiece(c: char, left: seq<string>, right: seq<string>)
    requires left != []
    ensures [[c] + (left + right)[0]] + (left + right)[1..] == ([[c] + left[0]] + left[1..]) + right
    ensures [""] + (left + right) == ([""] + left) + right
  {
    assert (left + right)[1..] == left[1..] + right;
  }

  lemma {:induction false} SplitOfConcat(a: string, b: string, sep: char)
    ensures Split(a + [sep] + b, sep) == Split(a, sep) + Split(b, sep)
  {
    if a == [] {
      assert (a + [sep] + b)[1..] == b;
    } else {
      assert (a + [sep] + b)[1..] == a[1..] + [sep] + b;
      SplitOfConcat(a[1..], b, sep);
      FirstPiece(a[0], Split(a[1..], sep), Split(b, sep));
    }
  }

  lemma {:induction false} SplitIsFree(s: string, sep: char)
    ensures forall p :: p in Split(s, sep) ==> sep !in p
  {
    if s != [] {
      SplitIsFree(s[1..], sep);
    }
  }

  lemma {:induction false} JoinOfSplit(s: string, sep: char)
    ensures Join(Split(s, sep), sep) == s
  {
    if s != [] {
      JoinOfSplit(s[1..], sep);
      var rest := Split(s[1..], sep);
      if s[0] == sep {
        assert Split(s, sep)[1..] == rest;
      } else if |rest| > 1 {
        assert Split(s, sep)[1..] == rest[1..];
      }
    }
  }

  lemma {:induction false} SplitOfJoin(parts: seq<string>, sep: char)
    requires parts != [] && forall p :: p in parts ==> sep !in p
    ensures Split(Join(parts, sep), sep) == parts
  {
    SplitOfFree(parts[0], sep);
    if |parts| > 1 {
      SplitOfJoin(parts[1..], sep);
      SplitOfConcat(parts[0], Join(parts[1..], sep), sep);
      assert [parts[0]] + parts[1..] == parts;
    }
  }

  predicate TrimChar(c: char) {
    c == ' ' || c == '\t' || c == '\n' || c == '\r' || c == '\0' || c == 11 as char
  }

  /** trim($s). */
  function Trim(s: string): string
    decreases |s|
  {
    if s != "" && TrimChar(s[0]) then Trim(s[1..])
    else if s != "" && TrimChar(s[|s| - 1]) then Trim(s[..|s| - 1])
    else s
  }

  const BLANKS: string := [' ', '\t', '\n', '\r', '\0', 11 as char]

  /** `t` is `s` without its leading and trailing blanks: what stands from the first other character to the last. */
  ghost predicate IsTrimmed(s: string, t: string) {
    exists from: nat, to: nat :: IsTrimmedAt(s, t, from, to)
  }

  predicate IsTrimmedAt(s: string, t: string, from: nat, to: nat) {
    && from <= to <= |s| && t == s[from..to]
    && (forall i :: 0 <= i < from ==> s[i] in BLANKS)
    && (forall i :: to <= i < |s| ==> s[i] in BLANKS)
    && (from < to ==> s[from] !in BLANKS && s[to - 1] !in BLANKS)
  }

  lemma BlankBefore(s: string, t: string, from: nat, to: nat)
    requires s != "" && s[0] in BLANKS && IsTrimmedAt(s[1..], t, from, to)
    ensures IsTrimmedAt(s, t, from + 1, to + 1)
  {
    assert s[1..][from..to] == s[from + 1..to + 1];
    assert forall i :: 0 < i < |s| ==> s[i] == s[1..][i - 1];
  }

  lemma BlankAfter(s: string, t: string, from: nat, to: nat)
    requires s != "" && s[|s| - 1] in BLANKS && IsTrimmedAt(s[..|s| - 1], t, from, to)
    ensures IsTrimmedAt(s, t, from, to)
  {
    assert s[..|s| - 1][from..to] == s[from..to];
    assert forall i :: 0 <= i < |s| - 1 ==> s[i] == s[..|s| - 1][i];
  }

  lemma {:induction false} TrimFindsText(s: string) returns (from: nat, to: nat)
    ensures IsTrimmedAt(s, Trim(s), from, to)
    decreases |s|
  {
    if s != "" && TrimChar(s[0]) {
      var f, t := TrimFindsText(s[1..]);
      BlankBefore(s, Trim(s[1..]), f, t);
      from, to := f + 1, t + 1;
    } else if s != "" && TrimChar(s[|s| - 1]) {
      from, to := TrimFindsText(s[..|s| - 1]);
      BlankAfter(s, Trim(s[..|s| - 1]), from, to);
    } else {
      from, to := 0, |s|;
      assert s[0..|s|] == s;
    }
  }

  /** trim($s) is the text without its surrounding blanks. */
  lemma TrimRemovesBlanks(s: string)
    ensures IsTrimmed(s, Trim(s))
  {
    var from, to := TrimFindsText(s);
  }

  /** And there is only one such text. */
  lemma TrimmedIsTrim(s: string, t: string)
    requires IsTrimmed(s, t)
    ensures t == Trim(s)
  {
    var f, u :| IsTrimmedAt(s, t, f, u);
    var from, to := TrimFindsText(s);
    if f < u {
      assert from <= f && u <= to && from < to;
      assert f <= from && to <= u;
    } else {
      assert forall i :: 0 <= i < |s| ==> s[i] in BLANKS;
      assert from == to;
    }
  }

  /** strtolower($s). */
  function Lower(s: string): string {
    seq(|s|, i requires 0 <= i < |s| => if 'A' <= s[i] <= 'Z' then s[i] - 'A' + 'a' else s[i])
  }

  /** No capital is left, and the other characters are as they were. */
  lemma LowerHasNoCapitals(s: string)
    ensures |Lower(s)| == |s|
    ensures forall i :: 0 <= i < |s| ==> !(65 <= Lower(s)[i] as int <= 90)
    ensures forall i :: 0 <= i < |s| ==>
      Lower(s)[i] as int == s[i] as int + if 65 <= s[i] as int <= 90 then 32 else 0
  {
  }

  /** strpos($s, $c), or the length when it is absent. */
  function IndexOf(s: string, c: char): (i: nat)
    ensures i <= |s| && c !in s[..i] && (i < |s| ==> s[i] == c)
  {
    if s == "" || s[0] == c then 0 else 1 + IndexOf(s[1..], c)
  }

  function Digit(n: nat): char
    requires n < 10
  {
    '0' + n as char
  }

  /** The decimal spelling of an integer, as PHP prints it. */
  function Decimal(n: int): string
    decreases n < 0, if n < 0 then -n else n
  {
    if n < 0 then "-" + Decimal(-n)
    else if n < 10 then [Digit(n)]
    else Decimal(n / 10) + [Digit(n % 10)]
  }

  predicate IsDigit(c: char) {
    '0' <= c <= '9'
  }

  lemma {:induction false} DecimalIsDigits(n: nat)
    ensures Decimal(n) != [] && forall c :: c in Decimal(n) ==> IsDigit(c)
  {
    if n >= 10 {
      DecimalIsDigits(n / 10);
    }
  }

  lemma {:induction false} DecimalIsInjective(m: int, n: int)
    requires Decimal(m) == Decimal(n)
    ensures m == n
    decreases m < 0, if m < 0 then -m else m
  {
    DecimalSign(m);
    DecimalSign(n);
    if m < 0 {
      assert Decimal(m)[1..] == Decimal(-m) && Decimal(n)[1..] == Decimal(-n);
      DecimalIsInjective(-m, -n);
    } else {
      DecimalLast(m);
      DecimalLast(n);
      if m >= 10 && n >= 10 {
        DecimalIsInjective(m / 10, n / 10);
      }
    }
  }

  lemma DecimalSign(n: int)
    ensures Decimal(n) != [] && (Decimal(n)[0] == '-' <==> n < 0)
  {
    if n >= 0 {
      DecimalIsDigits(n);
      assert Decimal(n)[0] in Decimal(n);
    }
  }

  lemma DecimalLast(n: nat)
    ensures Decimal(n) != [] && Decimal(n)[|Decimal(n)| - 1] == Digit(n % 10)
    ensures n >= 10 ==> Decimal(n)[..|Decimal(n)| - 1] == Decimal(n / 10) && |Decimal(n)| >= 2
  {
    if n >= 10 {
      DecimalIsDigits(n / 10);
    }
  }
}
