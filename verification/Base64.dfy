/**
 * Base64 (sections 4 and 5 of RFC 4648) as the agent uses it: PHP's base64_encode and strict
 * base64_decode, and on top of them Admin::base64UrlEncode and Connector::base64UrlDecode.
 *
 * Main results: base64UrlDecode undoes base64UrlEncode on every byte string (UrlRoundTrip), and
 * the digits of an encoding spell the bits of its bytes (SextetsSpellTheBits).
 */
module Base64 {
  import opened Wrappers

  type Sextet = n: int | 0 <= n < 64

  function CharOf(n: Sextet): char {
    if n < 26 then 'A' + n as char
    else if n < 52 then 'a' + (n - 26) as char
    else if n < 62 then '0' + (n - 52) as char
    else if n == 62 then '+' else '/'
  }

  datatype Symbol = Value(n: Sextet) | Blank | Bad

  /** PHP's reverse table: a sextet, whitespace, or a character that is neither. */
  function SymbolOf(c: char): Symbol {
    if 'A' <= c <= 'Z' then Value((c - 'A') as int)
    else if 'a' <= c <= 'z' then Value((c - 'a') as int + 26)
    else if '0' <= c <= '9' then Value((c - '0') as int + 52)
    else if c == '+' then Value(62)
    else if c == '/' then Value(63)
    else if c == ' ' || c == '\t' || c == '\n' || c == '\r' then Blank
    else Bad
  }

  /** The sextets of three bytes, and back. */
  function S0(x: Byte): Sextet { x / 4 }

  function S1(x: Byte, y: Byte): Sextet { x % 4 * 16 + y / 16 }

  function S2(y: Byte, z: Byte): Sextet { y % 16 * 4 + z / 64 }

  function S3(z: Byte): Sextet { z % 64 }

  function B0(p: int, q: int): Byte
    requires 0 <= p < 64 && 0 <= q < 64
  {
    p * 4 + q / 16
  }

  function B1(q: int, r: int): Byte
    requires 0 <= q < 64 && 0 <= r < 64
  {
    q % 16 * 16 + r / 4
  }

  function B2(r: int, t: int): Byte
    requires 0 <= r < 64 && 0 <= t < 64
  {
    r % 4 * 64 + t
  }

  lemma GroupRoundTrip(x: Byte, y: Byte, z: Byte)
    ensures B0(S0(x), S1(x, y)) == x && B1(S1(x, y), S2(y, z)) == y && B2(S2(y, z), S3(z)) == z
  {
  }

  function ToSextets(b: seq<Byte>): seq<Sextet> {
    if |b| == 0 then []
    else if |b| == 1 then [S0(b[0]), S1(b[0], 0)]
    else if |b| == 2 then [S0(b[0]), S1(b[0], b[1]), S2(b[1], 0)]
    else [S0(b[0]), S1(b[0], b[1]), S2(b[1], b[2]), S3(b[2])] + ToSextets(b[3..])
  }

  /** The whole bytes a run of sextets spells; bits left over are dropped. */
  function FromSextets(s: seq<Sextet>): seq<Byte> {
    if |s| < 2 then []
    else if |s| == 2 then [B0(s[0], s[1])]
    else if |s| == 3 then [B0(s[0], s[1]), B1(s[1], s[2])]
    else [B0(s[0], s[1]), B1(s[1], s[2]), B2(s[2], s[3])] + FromSextets(s[4..])
  }

  function Chars(s: seq<Sextet>): string {
    seq(|s|, i requires 0 <= i < |s| => CharOf(s[i]))
  }

  function Pads(n: nat): string {
    seq(n, _ => '=')
  }

  /** base64_encode. */
  function Encode(b: seq<Byte>): string {
    Chars(ToSextets(b)) + Pads((3 - |b| % 3) % 3)
  }

  /** The loop of base64_decode in strict mode: the sextets and the padding read, or a failure. */
  function Scan(s: string, sextets: seq<Sextet>, padding: nat): Option<(seq<Sextet>, nat)> {
    if s == [] then Some((sextets, padding))
    else if s[0] == '=' then Scan(s[1..], sextets, padding + 1)
    else if SymbolOf(s[0]).Blank? then Scan(s[1..], sextets, padding)
    else if SymbolOf(s[0]).Bad? || padding > 0 then None
    else Scan(s[1..], sextets + [SymbolOf(s[0]).n], padding)
  }

  /** What the end of the loop makes of the sextets and the padding read. */
  function Finish(sextets: seq<Sextet>, padding: nat): Option<seq<Byte>> {
    if |sextets| % 4 == 1 then None
    else if padding > 0 && (padding > 2 || (|sextets| + padding) % 4 != 0) then None
    else Some(FromSextets(sextets))
  }

  /** base64_decode($s, true). */
  function Decode(s: string): Option<seq<Byte>> {
    var scan := Scan(s, [], 0);
    if scan.None? then None else Finish(scan.value.0, scan.value.1)
  }

  lemma {:induction false} ScanSkipsBlank(a: string, c: char, b: string, sextets: seq<Sextet>, padding: nat)
    requires c in " \t\n\r"
    ensures Scan(a + [c] + b, sextets, padding) == Scan(a + b, sextets, padding)
    decreases |a|
  {
    if a == "" {
      assert a + [c] + b == [c] + b && a + b == b;
      assert ([c] + b)[1..] == b;
    } else {
      assert (a + [c] + b)[1..] == a[1..] + [c] + b && (a + b)[1..] == a[1..] + b;
      assert (a + [c] + b)[0] == (a + b)[0];
      if a[0] == '=' {
        ScanSkipsBlank(a[1..], c, b, sextets, padding + 1);
      } else if SymbolOf(a[0]).Blank? {
        ScanSkipsBlank(a[1..], c, b, sextets, padding);
      } else if SymbolOf(a[0]).Value? {
        ScanSkipsBlank(a[1..], c, b, sextets + [SymbolOf(a[0]).n], padding);
      }
    }
  }

  lemma {:induction false} ScanRefuses(s: string, i: nat, sextets: seq<Sextet>, padding: nat)
    requires i < |s| && s[i] != '=' && SymbolOf(s[i]).Bad?
    ensures Scan(s, sextets, padding).None?
    decreases |s|
  {
    if i > 0 {
      if s[0] == '=' {
        ScanRefuses(s[1..], i - 1, sextets, padding + 1);
      } else if SymbolOf(s[0]).Blank? {
        ScanRefuses(s[1..], i - 1, sextets, padding);
      } else if SymbolOf(s[0]).Value? {
        ScanRefuses(s[1..], i - 1, sextets + [SymbolOf(s[0]).n], padding);
      }
    }
  }

  /** Strict decoding skips blanks wherever they stand. */
  lemma BlanksDoNotCount(a: string, c: char, b: string)
    requires c in " \t\n\r"
    ensures Decode(a + [c] + b) == Decode(a + b)
  {
    ScanSkipsBlank(a, c, b, [], 0);
  }

  /** And refuses any other character outside its alphabet. */
  lemma OthersAreRefused(s: string, i: nat)
    requires i < |s| && s[i] !in " \t\n\r=+/"
    requires !('A' <= s[i] <= 'Z') && !('a' <= s[i] <= 'z') && !('0' <= s[i] <= '9')
    ensures Decode(s).None?
  {
    ScanRefuses(s, i, [], 0);
  }

  function ToUrl(c: char): char {
    if c == '+' then '-' else if c == '/' then '_' else c
  }

  function FromUrl(c: char): char {
    if c == '-' then '+' else if c == '_' then '/' else c
  }

  /** strtr($s, '+/', '-_'), and back. */
  function ToUrlAlphabet(s: string): string {
    seq(|s|, i requires 0 <= i < |s| => ToUrl(s[i]))
  }

  function FromUrlAlphabet(s: string): string {
    seq(|s|, i requires 0 <= i < |s| => FromUrl(s[i]))
  }

  /** rtrim($s, '='). */
  function TrimPads(s: string): string {
    if s != [] && s[|s| - 1] == '=' then TrimPads(s[..|s| - 1]) else s
  }

  /** Admin::base64UrlEncode. */
  function UrlEncode(b: seq<Byte>): string {
    TrimPads(ToUrlAlphabet(Encode(b)))
  }

  /** Connector::base64UrlDecode: the empty string when the input does not decode. */
  function UrlDecode(s: string): seq<Byte> {
    var padded := if |s| % 4 != 0 then s + Pads(4 - |s| % 4) else s;
    var decoded := Decode(FromUrlAlphabet(padded));
    if decoded.Some? then decoded.value else []
  }

  lemma CharRoundTrip(n: Sextet)
    ensures SymbolOf(CharOf(n)) == Value(n) && CharOf(n) != '='
    ensures FromUrl(ToUrl(CharOf(n))) == CharOf(n) && ToUrl(CharOf(n)) != '='
    ensures ToUrl(CharOf(n)) != '+' && ToUrl(CharOf(n)) != '/' && ToUrl(CharOf(n)) != '.'
  {
  }

  lemma {:induction false} SextetRoundTrip(b: seq<Byte>)
    ensures FromSextets(ToSextets(b)) == b
  {
    if |b| == 1 {
      ShortRoundTrip(b[0], 0);
      assert ToSextets(b) == [S0(b[0]), S1(b[0], 0)];
    } else if |b| == 2 {
      ShortRoundTrip(b[0], b[1]);
      assert ToSextets(b) == [S0(b[0]), S1(b[0], b[1]), S2(b[1], 0)];
    } else if |b| >= 3 {
      LongRoundTrip(b);
      SextetRoundTrip(b[3..]);
    }
  }

  lemma ShortRoundTrip(x: Byte, y: Byte)
    ensures FromSextets([S0(x), S1(x, y)]) == [x]
    ensures FromSextets([S0(x), S1(x, y), S2(y, 0)]) == [x, y]
  {
    GroupRoundTrip(x, y, 0);
  }

  lemma {:induction false} LongRoundTrip(b: seq<Byte>)
    requires |b| >= 3
    ensures FromSextets(ToSextets(b)) == [b[0], b[1], b[2]] + FromSextets(ToSextets(b[3..]))
  {
    var rest := ToSextets(b[3..]);
    UnpackGroup(S0(b[0]), S1(b[0], b[1]), S2(b[1], b[2]), S3(b[2]), rest);
    GroupRoundTrip(b[0], b[1], b[2]);
  }

  lemma UnpackGroup(p: Sextet, q: Sextet, r: Sextet, t: Sextet, rest: seq<Sextet>)
    ensures FromSextets([p, q, r, t] + rest) == [B0(p, q), B1(q, r), B2(r, t)] + FromSextets(rest)
  {
    assert ([p, q, r, t] + rest)[4..] == rest;
  }

  lemma {:induction false} SextetCount(b: seq<Byte>)
    ensures |ToSextets(b)| == |b| / 3 * 4 + (if |b| % 3 == 0 then 0 else |b| % 3 + 1)
  {
    if |b| >= 3 {
      SextetCount(b[3..]);
    }
  }

  lemma {:induction false} ScanReadsChars(s: seq<Sextet>, read: seq<Sextet>, tail: string)
    ensures Scan(Chars(s) + tail, read, 0) == Scan(tail, read + s, 0)
  {
    if s == [] {
      assert Chars(s) + tail == tail;
      assert read + s == read;
    } else {
      CharRoundTrip(s[0]);
      assert (Chars(s) + tail)[1..] == Chars(s[1..]) + tail;
      assert read + s == (read + [s[0]]) + s[1..];
      ScanReadsChars(s[1..], read + [s[0]], tail);
    }
  }

  lemma {:induction false} ScanReadsPads(n: nat, sextets: seq<Sextet>, padding: nat)
    ensures Scan(Pads(n), sextets, padding) == Some((sextets, padding + n))
  {
    if n > 0 {
      assert Pads(n)[1..] == Pads(n - 1);
      ScanReadsPads(n - 1, sextets, padding + 1);
    }
  }

  lemma {:induction false} ScanReadsEncoding(s: seq<Sextet>, n: nat)
    ensures Scan(Chars(s) + Pads(n), [], 0) == Some((s, n))
  {
    ScanReadsChars(s, [], Pads(n));
    assert [] + s == s;
    ScanReadsPads(n, s, 0);
  }

  lemma FourTimes(s: nat, n: nat, k: nat)
    requires n <= 2 && s + n == 4 * k
    ensures s % 4 != 1 && (s + n) % 4 == 0 && n == (if s % 4 != 0 then 4 - s % 4 else 0)
  {
  }

  lemma FinishFull(s: seq<Sextet>, n: nat, k: nat)
    requires n <= 2 && |s| + n == 4 * k
    ensures Finish(s, n) == Some(FromSextets(s))
  {
    FourTimes(|s|, n, k);
  }

  lemma DecodeOfSextets(s: seq<Sextet>, n: nat, k: nat)
    requires n <= 2 && |s| + n == 4 * k
    ensures Decode(Chars(s) + Pads(n)) == Some(FromSextets(s))
  {
    ScanReadsEncoding(s, n);
    FinishFull(s, n, k);
  }

  lemma PadArithmetic(len: nat, s: nat) returns (k: nat)
    requires s == len / 3 * 4 + (if len % 3 == 0 then 0 else len % 3 + 1)
    ensures s + (3 - len % 3) % 3 == 4 * k
  {
    k := if len % 3 == 0 then len / 3 else len / 3 + 1;
  }

  /** Strict decoding undoes encoding. */
  lemma {:induction false} RoundTrip(b: seq<Byte>)
    ensures Decode(Encode(b)) == Some(b)
  {
    SextetCount(b);
    var k := PadArithmetic(|b|, |ToSextets(b)|);
    DecodeOfSextets(ToSextets(b), (3 - |b| % 3) % 3, k);
    SextetRoundTrip(b);
  }

  lemma {:induction false} TrimStripsPads(s: string, n: nat)
    requires s != [] ==> s[|s| - 1] != '='
    ensures TrimPads(s + Pads(n)) == s
  {
    if n == 0 {
      assert s + Pads(0) == s;
    } else {
      var t := s + Pads(n);
      assert t[..|t| - 1] == s + Pads(n - 1);
      TrimStripsPads(s, n - 1);
    }
  }

  /** What the encoder emits: the alphabet without padding, translated. */
  lemma UrlEncodeIsUnpadded(b: seq<Byte>)
    ensures UrlEncode(b) == ToUrlAlphabet(Chars(ToSextets(b)))
    ensures forall c :: c in UrlEncode(b) ==> c != '=' && c != '+' && c != '/' && c != '.'
  {
    var body, n := Chars(ToSextets(b)), (3 - |b| % 3) % 3;
    assert ToUrlAlphabet(Encode(b)) == ToUrlAlphabet(body) + Pads(n);
    forall i | 0 <= i < |body|
      ensures var c := ToUrlAlphabet(body)[i]; c != '=' && c != '+' && c != '/' && c != '.'
    {
      CharRoundTrip(ToSextets(b)[i]);
    }
    TrimStripsPads(ToUrlAlphabet(body), n);
  }

  lemma {:induction false} TranslateBack(s: seq<Sextet>, n: nat)
    ensures FromUrlAlphabet(ToUrlAlphabet(Chars(s)) + Pads(n)) == Chars(s) + Pads(n)
  {
    var there := ToUrlAlphabet(Chars(s)) + Pads(n);
    forall i | 0 <= i < |there| ensures FromUrlAlphabet(there)[i] == (Chars(s) + Pads(n))[i] {
      if i < |s| {
        CharRoundTrip(s[i]);
        assert there[i] == ToUrl(CharOf(s[i]));
      } else {
        assert there[i] == '=';
        assert (Chars(s) + Pads(n))[i] == Pads(n)[i - |s|];
      }
    }
  }

  /** Restoring the padding and the alphabet of an unpadded translated encoding. */
  lemma Unstripped(s: seq<Sextet>, n: nat, k: nat)
    requires n <= 2 && |s| + n == 4 * k
    ensures var url, text := ToUrlAlphabet(Chars(s)), Chars(s) + Pads(n);
            UrlDecode(url) == if Decode(text).Some? then Decode(text).value else []
  {
    FourTimes(|s|, n, k);
    TranslateBack(s, n);
    assert ToUrlAlphabet(Chars(s)) + Pads(0) == ToUrlAlphabet(Chars(s));
  }

  /** Decoding undoes encoding for every byte string, whichever padding was stripped. */
  lemma {:induction false} UrlRoundTrip(b: seq<Byte>)
    ensures UrlDecode(UrlEncode(b)) == b
  {
    var s, n := ToSextets(b), (3 - |b| % 3) % 3;
    UrlEncodeIsUnpadded(b);
    SextetCount(b);
    var k := PadArithmetic(|b|, |s|);
    Unstripped(s, n, k);
    RoundTrip(b);
  }

  lemma {:induction false} LastBitsAreDropped(s: seq<Sextet>, q: Sextet, r: Sextet, k: nat)
    requires |s| == 4 * k + 1 && q / 16 == r / 16
    ensures FromSextets(s + [q]) == FromSextets(s + [r])
  {
    if k > 0 {
      assert s == [s[0], s[1], s[2], s[3]] + s[4..];
      assert s + [q] == [s[0], s[1], s[2], s[3]] + (s[4..] + [q]) && s + [r] == [s[0], s[1], s[2], s[3]] + (s[4..] + [r]);
      UnpackGroup(s[0], s[1], s[2], s[3], s[4..] + [q]);
      UnpackGroup(s[0], s[1], s[2], s[3], s[4..] + [r]);
      LastBitsAreDropped(s[4..], q, r, k - 1);
    } else {
      OneByteOf(s[0], q);
      OneByteOf(s[0], r);
      assert s + [q] == [s[0], q] && s + [r] == [s[0], r];
    }
  }

  lemma OneByteOf(p: Sextet, q: Sextet)
    ensures FromSextets([p, q]) == [p * 4 + q / 16]
  {
  }

  lemma UrlDecodesTo(s: seq<Sextet>, n: nat, k: nat)
    requires n <= 2 && |s| + n == 4 * k
    ensures UrlDecode(ToUrlAlphabet(Chars(s))) == FromSextets(s)
  {
    Unstripped(s, n, k);
    DecodeOfSextets(s, n, k);
  }

  /**
   * Decoding is not injective: in a text of 4k + 2 digits, such as that of 64 bytes, the last digit
   * has four bits nobody looks at.
   */
  lemma LastDigitHasSpellings(s: seq<Sextet>, q: Sextet, r: Sextet, k: nat)
    requires |s| == 4 * k + 1 && q / 16 == r / 16
    ensures UrlDecode(ToUrlAlphabet(Chars(s + [q]))) == UrlDecode(ToUrlAlphabet(Chars(s + [r])))
  {
    UrlDecodesTo(s + [q], 2, k + 1);
    UrlDecodesTo(s + [r], 2, k + 1);
    LastBitsAreDropped(s, q, r, k);
  }

  /** The bytes after `acc` as one number, most significant first. */
  function Number(acc: nat, b: seq<Byte>): nat
    decreases |b|
  {
    if b == [] then acc else Number(acc * 256 + b[0], b[1..])
  }

  function SextetNumber(acc: nat, s: seq<Sextet>): nat
    decreases |s|
  {
    if s == [] then acc else SextetNumber(acc * 64 + s[0], s[1..])
  }

  lemma SextetGroup(acc: nat, p: Sextet, q: Sextet, r: Sextet, t: Sextet, rest: seq<Sextet>)
    ensures SextetNumber(acc, [p, q, r, t] + rest) == SextetNumber(acc * 16777216 + p * 262144 + q * 4096 + r * 64 + t, rest)
  {
    assert [p, q, r, t] + rest == [p] + ([q] + ([r] + ([t] + rest)));
    SextetNumberOf(acc, p, [q] + ([r] + ([t] + rest)));
    SextetNumberOf(acc * 64 + p, q, [r] + ([t] + rest));
    SextetNumberOf((acc * 64 + p) * 64 + q, r, [t] + rest);
    SextetNumberOf(((acc * 64 + p) * 64 + q) * 64 + r, t, rest);
  }

  lemma SextetNumberOf(acc: nat, p: Sextet, rest: seq<Sextet>)
    ensures SextetNumber(acc, [p] + rest) == SextetNumber(acc * 64 + p, rest)
  {
    assert ([p] + rest)[1..] == rest;
  }

  lemma NumberOf(acc: nat, x: Byte, rest: seq<Byte>)
    ensures Number(acc, [x] + rest) == Number(acc * 256 + x, rest)
  {
    assert ([x] + rest)[1..] == rest;
  }

  lemma ByteGroup(acc: nat, b: seq<Byte>)
    requires |b| >= 3
    ensures Number(acc, b) == Number(acc * 16777216 + (b[0] as int) * 65536 + (b[1] as int) * 256 + b[2], b[3..])
  {
    assert b == [b[0]] + ([b[1]] + ([b[2]] + b[3..]));
    NumberOf(acc, b[0], [b[1]] + ([b[2]] + b[3..]));
    NumberOf(acc * 256 + b[0], b[1], [b[2]] + b[3..]);
    NumberOf((acc * 256 + b[0]) * 256 + b[1], b[2], b[3..]);
  }

  lemma GroupIsNumber(x: Byte, y: Byte, z: Byte)
    ensures S0(x) * 262144 + S1(x, y) * 4096 + S2(y, z) * 64 + S3(z) == x * 65536 + y * 256 + z
    ensures S0(x) * 64 + S1(x, 0) == x * 16
    ensures S0(x) * 4096 + S1(x, y) * 64 + S2(y, 0) == (x * 256 + y) * 4
  {
  }

  /** The zero bits that fill up the last sextet, as a factor. */
  function Fill(len: nat): nat {
    if len % 3 == 1 then 16 else if len % 3 == 2 then 4 else 1
  }

  lemma FillOfRest(len: nat)
    requires len >= 3
    ensures Fill(len) == Fill(len - 3)
  {
  }

  /** Both numbers take the first group in the same way. */
  lemma FirstGroup(acc: nat, b: seq<Byte>) returns (next: nat)
    requires |b| >= 3
    ensures SextetNumber(acc, ToSextets(b)) == SextetNumber(next, ToSextets(b[3..]))
    ensures Number(acc, b) == Number(next, b[3..])
  {
    next := acc * 16777216 + (b[0] as int) * 65536 + (b[1] as int) * 256 + b[2];
    GroupIsNumber(b[0], b[1], b[2]);
    SextetGroup(acc, S0(b[0]), S1(b[0], b[1]), S2(b[1], b[2]), S3(b[2]), ToSextets(b[3..]));
    ByteGroup(acc, b);
  }

  /**
   * Section 4 of RFC 4648: the sextets spell the same bits as the bytes, most significant first,
   * with 4 or 2 zero bits after a last group of one or two bytes.
   */
  lemma {:induction false} SextetsSpellTheBits(acc: nat, b: seq<Byte>)
    ensures SextetNumber(acc, ToSextets(b)) == Number(acc, b) * Fill(|b|)
    decreases |b|
  {
    if |b| == 1 {
      OneByte(acc, b);
    } else if |b| == 2 {
      TwoBytes(acc, b);
    } else if |b| >= 3 {
      var next := FirstGroup(acc, b);
      SextetsSpellTheBits(next, b[3..]);
      FillOfRest(|b|);
    }
  }

  lemma OneByte(acc: nat, b: seq<Byte>)
    requires |b| == 1
    ensures SextetNumber(acc, ToSextets(b)) == Number(acc, b) * 16
  {
    GroupIsNumber(b[0], 0, 0);
    SextetNumberOf(acc, S0(b[0]), [S1(b[0], 0)]);
    assert ToSextets(b) == [S0(b[0])] + [S1(b[0], 0)];
    assert b == [b[0]] + [];
    NumberOf(acc, b[0], []);
  }

  lemma TwoBytes(acc: nat, b: seq<Byte>)
    requires |b| == 2
    ensures SextetNumber(acc, ToSextets(b)) == Number(acc, b) * 4
  {
    GroupIsNumber(b[0], b[1], 0);
    var p, q, r := S0(b[0]), S1(b[0], b[1]), S2(b[1], 0);
    assert ToSextets(b) == [p] + ([q] + [r]);
    SextetNumberOf(acc, p, [q] + [r]);
    SextetNumberOf(acc * 64 + p, q, [r]);
    assert b == [b[0]] + [b[1]];
    NumberOf(acc, b[0], [b[1]]);
  }
}
