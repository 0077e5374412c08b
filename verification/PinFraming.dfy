/**
 * pinOf and firstDiff of the kses check.
 *
 * Main results: the buffer that is hashed determines the list of paths, whatever bytes the
 * inputs and outputs hold, as long as no name contains a newline (BufferDeterminesPaths), so it
 * determines the whole case (BufferDeterminesCase); with a newline in a name it need not
 * (NewlineInNameIsAmbiguous); firstDiff is the length of the longest common prefix (FirstDiff).
 */
module PinFraming {
  import opened Wrappers
  import opened Strings

  datatype Path = Path(name: string, input: string, output: string)

  function Line(s: string): string {
    s + "\n"
  }

  /** A length and the bytes it counts. */
  function Field(s: string): string {
    Line(Decimal(|s|)) + Line(s)
  }

  function Frame(p: Path): string {
    Line(p.name) + (Field(p.input) + Field(p.output))
  }

  function Frames(paths: seq<Path>): string {
    if paths == [] then "" else Frame(paths[0]) + Frames(paths[1..])
  }

  /** The buffer of pinOf. */
  method PinBuffer(paths: seq<Path>) returns (buf: string)
    ensures buf == Frames(paths)
  {
    buf := "";
    for i := 0 to |paths|
      invariant buf + Frames(paths[i..]) == Frames(paths)
    {
      var p := paths[i];
      var frame := p.name + "\n" + Decimal(|p.input|) + "\n" + p.input + "\n" + Decimal(|p.output|) + "\n" + p.output + "\n";
      FrameText(p);
      Appended(buf, frame, paths[i..]);
      buf := buf + frame;
      assert paths[i..][1..] == paths[i + 1..];
    }
    assert buf + "" == buf;
  }

  lemma Appended(before: string, frame: string, paths: seq<Path>)
    requires paths != [] && frame == Frame(paths[0])
    ensures (before + frame) + Frames(paths[1..]) == before + Frames(paths)
  {
    assert (before + frame) + Frames(paths[1..]) == before + (frame + Frames(paths[1..]));
  }

  lemma FrameText(p: Path)
    ensures Frame(p) == p.name + "\n" + Decimal(|p.input|) + "\n" + p.input + "\n" + Decimal(|p.output|) + "\n" + p.output + "\n"
  {
    var a, b, c, d, e := p.name, Decimal(|p.input|), p.input, Decimal(|p.output|), p.output;
    assert a + "\n" + b + "\n" + c + "\n" + d + "\n" + e + "\n" == (a + "\n") + (((b + "\n") + (c + "\n")) + ((d + "\n") + (e + "\n")));
  }

  /** A line is read back up to its newline. */
  lemma {:induction false} LineSplits(x: string, y: string, r: string, s: string)
    requires '\n' !in x && '\n' !in y && Line(x) + r == Line(y) + s
    ensures x == y && r == s
  {
    var w := Line(x) + r;
    assert w[|x|] == '\n' && w[|y|] == '\n';
    assert w[..|x|] == x && w[..|y|] == y;
    assert w[|x| + 1..] == r && w[|y| + 1..] == s;
  }

  /** A counted field is read back, whatever it holds. */
  lemma FieldSplits(x: string, y: string, r: string, s: string)
    requires Field(x) + r == Field(y) + s
    ensures x == y && r == s
  {
    assert Field(x) + r == Line(Decimal(|x|)) + (Line(x) + r);
    assert Field(y) + s == Line(Decimal(|y|)) + (Line(y) + s);
    DecimalIsDigits(|x|);
    DecimalIsDigits(|y|);
    LineSplits(Decimal(|x|), Decimal(|y|), Line(x) + r, Line(y) + s);
    DecimalIsInjective(|x|, |y|);
    var w := Line(x) + r;
    assert w[..|x|] == x && w[..|y|] == y;
    assert w[|x| + 1..] == r && w[|y| + 1..] == s;
  }

  lemma FrameSplits(p: Path, q: Path, r: string, s: string)
    requires '\n' !in p.name && '\n' !in q.name && Frame(p) + r == Frame(q) + s
    ensures p == q && r == s
  {
    var pr, qs := Field(p.input) + (Field(p.output) + r), Field(q.input) + (Field(q.output) + s);
    assert Frame(p) + r == Line(p.name) + pr;
    assert Frame(q) + s == Line(q.name) + qs;
    LineSplits(p.name, q.name, pr, qs);
    FieldSplits(p.input, q.input, Field(p.output) + r, Field(q.output) + s);
    FieldSplits(p.output, q.output, r, s);
  }

  /** Equal buffers come from equal lists. */
  lemma {:induction false} BufferDeterminesPaths(a: seq<Path>, b: seq<Path>)
    requires forall p :: p in a || p in b ==> '\n' !in p.name
    requires Frames(a) == Frames(b)
    ensures a == b
    decreases |a|
  {
    if a != [] && b != [] {
      FrameSplits(a[0], b[0], Frames(a[1..]), Frames(b[1..]));
      BufferDeterminesPaths(a[1..], b[1..]);
      assert a == [a[0]] + a[1..] && b == [b[0]] + b[1..];
    }
  }

  /** One case of a markup file: what went in and what came out, with or without a title. */
  datatype Case = Case(content: string, filtered: string, direct: string, title: Option<Title>)
  datatype Title = Title(text: string, filtered: string)

  function PathsOf(c: Case): seq<Path> {
    [Path("content_save_pre", c.content, c.filtered), Path("wp_kses_post", c.content, c.direct)]
      + if c.title.Some? then [Path("title_save_pre", c.title.value.text, c.title.value.filtered)] else []
  }

  lemma PathsDetermineCase(c: Case, d: Case)
    requires PathsOf(c) == PathsOf(d)
    ensures c == d
  {
    var p, q := PathsOf(c), PathsOf(d);
    assert p[0] == q[0] && p[1] == q[1];
    assert |p| == 3 ==> p[2] == q[2];
  }

  lemma NamesAreFixed(c: Case)
    ensures forall p :: p in PathsOf(c) ==> '\n' !in p.name
  {
    assert forall p :: p in PathsOf(c) ==> p.name in {"content_save_pre", "wp_kses_post", "title_save_pre"};
  }

  /** Two cases share a pin's buffer only if they are the same case: a changed input or output always shows. */
  lemma BufferDeterminesCase(c: Case, d: Case)
    ensures Frames(PathsOf(c)) == Frames(PathsOf(d)) <==> c == d
  {
    var p, q := PathsOf(c), PathsOf(d);
    if Frames(p) == Frames(q) {
      NamesAreFixed(c);
      NamesAreFixed(d);
      BufferDeterminesPaths(p, q);
      PathsDetermineCase(c, d);
    }
  }

  /** One path whose name holds a whole frame has the buffer of two. */
  lemma NewlineInNameIsAmbiguous(p: Path, name: string, input: string, output: string)
    ensures Frames([Path(p.name + "\n" + Field(p.input) + Field(p.output) + name, input, output)])
         == Frames([p, Path(name, input, output)])
  {
    var q := Path(name, input, output);
    var whole := Path(p.name + "\n" + Field(p.input) + Field(p.output) + name, input, output);
    var tail := Field(input) + Field(output);
    assert [p, q][1..] == [q] && [q][1..] == [] && [whole][1..] == [];
    assert Frame(whole) == Frame(p) + Frame(q) by {
      assert Line(whole.name) + tail == (Line(p.name) + (Field(p.input) + Field(p.output))) + (Line(name) + tail);
    }
  }

  /** firstDiff. */
  method FirstDiff(a: string, b: string) returns (i: nat)
    ensures i <= |a| && i <= |b| && a[..i] == b[..i]
    ensures i < |a| && i < |b| ==> a[i] != b[i]
  {
    i := 0;
    var n := if |a| <= |b| then |a| else |b|;
    while i < n && a[i] == b[i]
      invariant i <= n && a[..i] == b[..i]
    {
      i := i + 1;
    }
  }
}
