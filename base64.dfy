/**
 * Base64 encoding and lenient decoding with the RFC 3548 section 3 alphabet
 * and '=' padding, as common/utils.cpp implements it over raw byte buffers.
 *
 * The specification functions work on sequences; the methods walk the
 * buffers the way the C code does and are proved against them.
 */
module Base64 {
  import opened CStrings

  type byte = x: int | 0 <= x < 256

  /** The alphabet in value order: the BASE64_CHARS literal, written as its four runs. */
  const BASE64_CHARS: string := "ABCDEFGHIJKLMNOPQRSTUVWXYZ" + "abcdefghijklmnopqrstuvwxyz" + "0123456789" + "+/"

  const PAD: char := '='

  /** The character of sextet value v, by the ranges of the alphabet. */
  function AlphabetChar(v: nat): char
    requires v < 64
  {
    if v < 26 then ('A' as int + v) as char
    else if v < 52 then ('a' as int + v - 26) as char
    else if v < 62 then ('0' as int + v - 52) as char
    else if v == 62 then '+'
    else '/'
  }

  /** The table holds the characters of the alphabet's ranges in value order. */
  lemma AlphabetTable()
    ensures |BASE64_CHARS| == 64
    ensures forall v | 0 <= v < 64 :: BASE64_CHARS[v] == AlphabetChar(v)
  {
    assert BASE64_CHARS == seq(64, i requires 0 <= i < 64 => AlphabetChar(i));
  }

  lemma CharValueOfAlphabet(v: nat)
    requires v < 64
    ensures CharValue(AlphabetChar(v)) == v
  {
  }

  /** _base64_char_value: the value of an alphabet character, -1 for any other. */
  function CharValue(c: char): (v: int)
    ensures -1 <= v < 64
  {
    if 'A' <= c <= 'Z' then c as int - 'A' as int
    else if 'a' <= c <= 'z' then c as int - 'a' as int + 26
    else if '0' <= c <= '9' then c as int - '0' as int + 2 * 26
    else if c == '+' then 2 * 26 + 10
    else if c == '/' then 2 * 26 + 11
    else -1
  }

  /** CharValue inverts the alphabet and rejects everything outside it. */
  lemma CharValueInverts(c: char)
    ensures forall v | 0 <= v < 64 :: CharValue(BASE64_CHARS[v]) == v
    ensures CharValue(c) >= 0 ==> BASE64_CHARS[CharValue(c)] == c
    ensures CharValue(c) < 0 <==> forall v | 0 <= v < 64 :: BASE64_CHARS[v] != c
  {
    AlphabetTable();
    forall v | 0 <= v < 64
      ensures CharValue(BASE64_CHARS[v]) == v
    {
      CharValueOfAlphabet(v);
    }
  }

  /** Three bytes as one big-endian 24-bit value. */
  function TripleValue(a: byte, b: byte, c: byte): (t: nat)
    ensures t < 0x100_0000
  {
    (a * 256 + b) * 256 + c
  }

  /** The four 6-bit groups of three bytes' 24 bits, most significant first. */
  function SextetValues(a: byte, b: byte, c: byte): (vs: seq<nat>)
    ensures |vs| == 4 && forall i | 0 <= i < 4 :: vs[i] < 64
  {
    [a / 4, a % 4 * 16 + b / 16, b % 16 * 4 + c / 64, c % 64]
  }

  /** The encoding of a whole triple: the alphabet characters of its four sextets. */
  function Group(a: byte, b: byte, c: byte): (g: string)
    ensures |g| == 4
  {
    [AlphabetChar(a / 4), AlphabetChar(a % 4 * 16 + b / 16), AlphabetChar(b % 16 * 4 + c / 64), AlphabetChar(c % 64)]
  }

  /** A group is four alphabet characters, which CharValue reads back as the triple's sextets. */
  lemma GroupValues(a: byte, b: byte, c: byte)
    ensures AllDataChars(Group(a, b, c))
    ensures forall i | 0 <= i < 4 :: CharValue(Group(a, b, c)[i]) == SextetValues(a, b, c)[i]
  {
    CharValueOfAlphabet(a / 4);
    CharValueOfAlphabet(a % 4 * 16 + b / 16);
    CharValueOfAlphabet(b % 16 * 4 + c / 64);
    CharValueOfAlphabet(c % 64);
  }

  /** base64_encode's output before the terminating NUL. */
  function Encode(src: seq<byte>): (r: string)
    ensures r == [] <==> src == []
    decreases |src|
  {
    if |src| >= 3 then Group(src[0], src[1], src[2]) + Encode(src[3..])
    else if |src| == 2 then Group(src[0], src[1], 0)[..3] + [PAD]
    else if |src| == 1 then Group(src[0], 0, 0)[..2] + [PAD, PAD]
    else []
  }

  lemma {:induction false} EncodeLength(src: seq<byte>)
    ensures |Encode(src)| == (|src| + 2) / 3 * 4
    decreases |src|
  {
    if |src| >= 3 {
      EncodeLength(src[3..]);
      assert (|src| + 2) / 3 == (|src| - 3 + 2) / 3 + 1;
    }
  }

  /** base64_encoded_length: the buffer size the encoder needs, NUL included. */
  function EncodedLength(n: nat): (r: nat)
    ensures r % 4 == 1
    ensures 4 * n <= 3 * (r - 1) < 4 * n + 12
  {
    (n + 2) / 3 * 4 + 1
  }

  lemma EncodedLengthFits(src: seq<byte>)
    ensures EncodedLength(|src|) == |Encode(src)| + 1
  {
    EncodeLength(src);
  }

  predicate AllDataChars(s: string) {
    forall i | 0 <= i < |s| :: CharValue(s[i]) >= 0
  }

  lemma AllDataAppend(a: string, b: string)
    ensures AllDataChars(a + b) <==> AllDataChars(a) && AllDataChars(b)
  {
    if AllDataChars(a) && AllDataChars(b) {
      forall i | 0 <= i < |a + b|
        ensures CharValue((a + b)[i]) >= 0
      {
        if i >= |a| {
          assert (a + b)[i] == b[i - |a|];
        }
      }
    }
    if AllDataChars(a + b) {
      assert forall i | 0 <= i < |a| :: (a + b)[i] == a[i];
      forall i | 0 <= i < |b|
        ensures CharValue(b[i]) >= 0
      {
        assert (a + b)[|a| + i] == b[i];
      }
    }
  }

  lemma Mod3Shift(n: nat)
    ensures (n + 3) % 3 == n % 3
  {
  }

  /**
   * Every group of the encoding is four alphabet characters, except that a
   * one-byte tail ends in "==" and a two-byte tail ends in a single "=".
   */
  lemma {:induction false} EncodeShape(src: seq<byte>) returns (body: string, pads: string)
    ensures Encode(src) == body + pads && AllDataChars(body)
    ensures |src| % 3 == 0 ==> pads == []
    ensures |src| % 3 == 1 ==> pads == [PAD, PAD]
    ensures |src| % 3 == 2 ==> pads == [PAD]
    decreases |src|
  {
    if |src| >= 3 {
      var g := Group(src[0], src[1], src[2]);
      var b', p' := EncodeShape(src[3..]);
      Mod3Shift(|src[3..]|);
      body, pads := g + b', p';
      GroupValues(src[0], src[1], src[2]);
      AllDataAppend(g, b');
    } else if |src| == 2 {
      GroupValues(src[0], src[1], 0);
      body, pads := Group(src[0], src[1], 0)[..3], [PAD];
    } else if |src| == 1 {
      GroupValues(src[0], 0, 0);
      body, pads := Group(src[0], 0, 0)[..2], [PAD, PAD];
    } else {
      body, pads := [], [];
    }
  }

  /** Whether the decoder looks at c at all: padding or an alphabet character. */
  predicate Significant(c: char) {
    c == PAD || CharValue(c) >= 0
  }

  /** The characters of s the decoder reads, in order. */
  function SignificantChars(s: string): (r: string)
    ensures |r| <= |s|
  {
    if s == [] then []
    else (if Significant(s[0]) then [s[0]] else []) + SignificantChars(s[1..])
  }

  lemma {:induction false} SignificantAppend(a: string, b: string)
    ensures SignificantChars(a + b) == SignificantChars(a) + SignificantChars(b)
  {
    if a == [] {
      assert a + b == b;
    } else {
      var head := if Significant(a[0]) then [a[0]] else [];
      assert (a + b)[0] == a[0] && (a + b)[1..] == a[1..] + b;
      SignificantAppend(a[1..], b);
      assert SignificantChars(a + b) == head + (SignificantChars(a[1..]) + SignificantChars(b));
      assert head + (SignificantChars(a[1..]) + SignificantChars(b)) == (head + SignificantChars(a[1..])) + SignificantChars(b);
    }
  }

  lemma {:induction false} SignificantOfSignificant(s: string)
    requires forall i | 0 <= i < |s| :: Significant(s[i])
    ensures SignificantChars(s) == s
  {
    if s != [] {
      SignificantOfSignificant(s[1..]);
    }
  }

  /** The number of '=' characters that end q. */
  function TrailingPads(q: string): (k: nat)
    ensures k <= |q|
    ensures forall j | |q| - k <= j < |q| :: q[j] == PAD
    ensures k < |q| ==> q[|q| - k - 1] != PAD
  {
    if q != [] && q[|q| - 1] == PAD then 1 + TrailingPads(q[..|q| - 1]) else 0
  }

  /** The sextet a character contributes; padding counts as 0. */
  function SextetOf(c: char): nat {
    if CharValue(c) >= 0 then CharValue(c) else 0
  }

  /** The three bytes carried by four sextets, most significant first. */
  function Bytes3(s0: nat, s1: nat, s2: nat, s3: nat): (r: seq<byte>)
    requires s0 < 64 && s1 < 64 && s2 < 64 && s3 < 64
    ensures |r| == 3
  {
    [s0 * 4 + s1 / 16, s1 % 16 * 16 + s2 / 4, s2 % 4 * 64 + s3]
  }

  /**
   * _base64_decode_triple: a run of '=' at the end of the quadruple is
   * padding, everything before it must be alphabet characters (otherwise
   * nothing is decoded), and 3 minus the padding length (at least 0) bytes
   * are taken from the top of the 24 bits, padding counting as zero bits.
   */
  function DecodeQuad(q: string): (r: seq<byte>)
    requires |q| == 4
    ensures |r| <= 3
    ensures |r| == 3 ==> AllDataChars(q)
  {
    var k := TrailingPads(q);
    if !AllDataChars(q[..4 - k]) then []
    else Bytes3(SextetOf(q[0]), SextetOf(q[1]), SextetOf(q[2]), SextetOf(q[3]))[..if k >= 3 then 0 else 3 - k]
  }

  /** A '=' followed by a non-padding character invalidates the quadruple. */
  lemma PadBeforeDataRejected(q: string, i: nat, j: nat)
    requires |q| == 4 && i < j < 4
    requires q[i] == PAD && q[j] != PAD
    ensures DecodeQuad(q) == []
  {
    var k := TrailingPads(q);
    assert k <= 3 - j;
    assert q[..4 - k][i] == PAD;
  }

  /** A quadruple with a character outside the alphabet before its padding decodes to nothing. */
  lemma InvalidCharRejected(q: string, i: nat)
    requires |q| == 4 && i < 4
    requires CharValue(q[i]) < 0 && q[i] != PAD
    ensures DecodeQuad(q) == []
  {
    var k := TrailingPads(q);
    assert i < 4 - k;
    assert q[..4 - k][i] == q[i];
  }

  /** Decoding of the significant characters followed by "====", one quadruple at a time, until one yields fewer than 3 bytes. */
  function DecodeGroups(t: string): (r: seq<byte>)
    ensures |r| <= |t| / 4 * 3
    decreases |t|
  {
    if |t| < 4 then []
    else
      var d := DecodeQuad(t[..4]);
      if |d| == 3 then d + DecodeGroups(t[4..]) else d
  }

  /** base64_decode's output: the source is read as a C string, up to its first NUL. */
  function Decode(source: string): (r: seq<byte>)
    ensures |r| <= (|CStr(source)| + 4) / 4 * 3
  {
    DecodeGroups(SignificantChars(CStr(source)) + [PAD, PAD, PAD, PAD])
  }

  lemma SignificantSkips(a: string, c: char, t: string)
    requires !Significant(c)
    ensures SignificantChars(a + [c] + t) == SignificantChars(a + t)
  {
    SignificantAppend(a + [c], t);
    SignificantAppend(a, [c]);
    SignificantAppend(a, t);
    assert SignificantChars([c]) == [] by {
      assert [c][1..] == [];
    }
  }

  /** Characters other than NUL that are neither in the alphabet nor '=' are skipped. */
  lemma DecodeSkipsNoise(a: string, c: char, b: string)
    requires !Significant(c) && c != NUL
    ensures Decode(a + [c] + b) == Decode(a + b)
  {
    assert a + [c] + b == a + ([c] + b);
    CStrAppend(a, [c] + b);
    CStrAppend(a, b);
    if NUL !in a {
      CStrAppend([c], b);
      var t := CStr(b);
      assert a + ([c] + t) == a + [c] + t;
      SignificantSkips(a, c, t);
    }
  }

  /** The decoder stops at the first NUL: nothing after it is read. */
  lemma DecodeStopsAtNul(a: string, b: string)
    ensures Decode(a + [NUL] + b) == Decode(a)
  {
    assert a + [NUL] + b == a + ([NUL] + b);
    CStrAppend(a, [NUL] + b);
    if NUL !in a {
      assert CStr([NUL] + b) == [];
      CStrOfPlain(a);
    }
  }

  /** A four-character group with its last p characters replaced by '=' has exactly p pads. */
  lemma PaddedQuad(g: string, p: nat)
    requires |g| == 4 && AllDataChars(g) && p <= 3
    ensures var q := g[..4 - p] + seq(p, _ => PAD);
      && TrailingPads(q) == p
      && AllDataChars(q[..4 - p])
      && forall i | 0 <= i < 4 :: SextetOf(q[i]) == if i < 4 - p then CharValue(g[i]) else 0
  {
    var q := g[..4 - p] + seq(p, _ => PAD);
    assert q[..4 - p] == g[..4 - p];
    assert q[3 - p] == g[3 - p];
  }

  /** Regrouping the sextets of three bytes into bytes gives the bytes back. */
  lemma BytesOfSextets(a: byte, b: byte, c: byte)
    ensures var vs := SextetValues(a, b, c);
      Bytes3(vs[0], vs[1], vs[2], vs[3]) == [a, b, c]
  {
  }

  /** The encoding of one group, padded as the encoder pads it, decodes to its bytes. */
  lemma QuadOfGroup(a: byte, b: byte, c: byte, p: nat)
    requires p <= 2
    requires p >= 1 ==> c == 0
    requires p == 2 ==> b == 0
    ensures DecodeQuad(Group(a, b, c)[..4 - p] + seq(p, _ => PAD)) == [a, b, c][..3 - p]
  {
    var g := Group(a, b, c);
    var vs := SextetValues(a, b, c);
    var q := g[..4 - p] + seq(p, _ => PAD);
    GroupValues(a, b, c);
    PaddedQuad(g, p);
    BytesOfSextets(a, b, c);
    assert SextetOf(q[0]) == vs[0] && SextetOf(q[1]) == vs[1];
    assert SextetOf(q[2]) == vs[2] && SextetOf(q[3]) == vs[3];
  }

  /** Decoding the encoder's output gives back the input bytes. */
  /** A quad yielding three bytes is decoded and the rest follows. */
  lemma DecodeGroupsStep(q: string, rest: string)
    requires |q| == 4 && |DecodeQuad(q)| == 3
    ensures DecodeGroups(q + rest) == DecodeQuad(q) + DecodeGroups(rest)
  {
    assert (q + rest)[..4] == q;
    assert (q + rest)[4..] == rest;
  }

  /** A padded final quad is decoded and ends the decoding. */
  lemma DecodeGroupsLast(q: string, rest: string)
    requires |q| == 4 && |DecodeQuad(q)| < 3
    ensures DecodeGroups(q + rest) == DecodeQuad(q)
  {
    assert (q + rest)[..4] == q;
  }

  lemma {:induction false} DecodeEncodedTail(src: seq<byte>)
    requires 1 <= |src| <= 2
    ensures DecodeGroups(Encode(src) + [PAD, PAD, PAD, PAD]) == src
  {
    var pads := [PAD, PAD, PAD, PAD];
    var p := 3 - |src|;
    var x := src[0];
    var y := if |src| == 2 then src[1] else 0;
    var q := Group(x, y, 0)[..4 - p] + seq(p, _ => PAD);
    assert Encode(src) == q;
    QuadOfGroup(x, y, 0, p);
    DecodeGroupsLast(q, pads);
    assert [x, y, 0][..3 - p] == src;
  }

  lemma QuadOfFullGroup(a: byte, b: byte, c: byte)
    ensures DecodeQuad(Group(a, b, c)) == [a, b, c]
  {
    QuadOfGroup(a, b, c, 0);
    assert Group(a, b, c)[..4] + seq(0, _ => PAD) == Group(a, b, c);
  }

  /** Decoding a full quad followed by more text. */
  lemma DecodeConcat(g: string, e: string, x: seq<byte>, s: seq<byte>)
    requires |g| == 4 && DecodeQuad(g) == x && |x| == 3
    requires DecodeGroups(e + [PAD, PAD, PAD, PAD]) == s
    ensures DecodeGroups(g + e + [PAD, PAD, PAD, PAD]) == x + s
  {
    DecodeGroupsStep(g, e + [PAD, PAD, PAD, PAD]);
    assert g + e + [PAD, PAD, PAD, PAD] == g + (e + [PAD, PAD, PAD, PAD]);
  }

  lemma {:induction false} DecodeEncodedHead(src: seq<byte>)
    requires |src| >= 3
    requires DecodeGroups(Encode(src[3..]) + [PAD, PAD, PAD, PAD]) == src[3..]
    ensures DecodeGroups(Encode(src) + [PAD, PAD, PAD, PAD]) == src
  {
    QuadOfFullGroup(src[0], src[1], src[2]);
    assert [src[0], src[1], src[2]] == src[..3];
    DecodeConcat(Group(src[0], src[1], src[2]), Encode(src[3..]), src[..3], src[3..]);
    assert src[..3] + src[3..] == src;
  }

  lemma {:induction false} DecodeEncodedGroups(src: seq<byte>)
    ensures DecodeGroups(Encode(src) + [PAD, PAD, PAD, PAD]) == src
    decreases |src|
  {
    if |src| >= 3 {
      DecodeEncodedGroups(src[3..]);
      DecodeEncodedHead(src);
    } else if |src| >= 1 {
      DecodeEncodedTail(src);
    } else {
      DecodeGroupsLast([PAD, PAD, PAD, PAD], []);
      assert [PAD, PAD, PAD, PAD] + [] == [PAD, PAD, PAD, PAD];
    }
  }

  lemma DecodeEncode(src: seq<byte>)
    ensures Decode(Encode(src)) == src
  {
    var e := Encode(src);
    var body, pads := EncodeShape(src);
    forall i | 0 <= i < |e|
      ensures Significant(e[i])
    {
      if i >= |body| {
        assert e[i] == pads[i - |body|];
      }
    }
    SignificantOfSignificant(e);
    assert NUL !in e by {
      assert !Significant(NUL);
    }
    CStrOfPlain(e);
    DecodeEncodedGroups(src);
  }

  // The buffer-walking implementation.

  /** The value of x with its m lowest base-b digits dropped. */
  function ShiftDown(x: nat, b: nat, m: nat): nat
    requires b > 0
  {
    if m == 0 then x else ShiftDown(x, b, m - 1) / b
  }

  lemma ShiftDownStep(x: nat, b: nat, m: nat)
    requires b > 0
    ensures ShiftDown(x, b, m + 1) == ShiftDown(x, b, m) / b
  {
  }

  lemma ShiftDownSmall(x: nat, b: nat)
    requires b > 0
    ensures ShiftDown(x, b, 1) == x / b
    ensures ShiftDown(x, b, 2) == x / b / b
    ensures ShiftDown(x, b, 3) == x / b / b / b
  {
    assert ShiftDown(x, b, 1) == x / b;
    assert ShiftDown(x, b, 2) == x / b / b;
  }

  /** The 6-bit digits of the 24-bit value are the sextets of Group. */
  lemma TripleSextets(a: byte, b: byte, c: byte)
    ensures var t := TripleValue(a, b, c);
      && ShiftDown(t, 64, 3) % 64 == a / 4
      && ShiftDown(t, 64, 2) % 64 == a % 4 * 16 + b / 16
      && ShiftDown(t, 64, 1) % 64 == b % 16 * 4 + c / 64
      && ShiftDown(t, 64, 0) % 64 == c % 64
  {
    var t := TripleValue(a, b, c);
    ShiftDownSmall(t, 64);
    assert t / 64 == a * 1024 + b * 4 + c / 64;
    assert t / 64 / 64 == a * 16 + b / 16;
    assert t / 64 / 64 / 64 == a / 4;
  }

  /** Four characters spelling the 6-bit digits of the 24-bit value, most significant first, are the group. */
  lemma GroupFromDigits(a: byte, b: byte, c: byte, w0: char, w1: char, w2: char, w3: char)
    requires w0 == AlphabetChar(ShiftDown(TripleValue(a, b, c), 64, 3) % 64)
    requires w1 == AlphabetChar(ShiftDown(TripleValue(a, b, c), 64, 2) % 64)
    requires w2 == AlphabetChar(ShiftDown(TripleValue(a, b, c), 64, 1) % 64)
    requires w3 == AlphabetChar(ShiftDown(TripleValue(a, b, c), 64, 0) % 64)
    ensures [w0, w1, w2, w3] == Group(a, b, c)
  {
    TripleSextets(a, b, c);
  }

  lemma TableAt(v: nat)
    requires v < 64
    ensures v < |BASE64_CHARS| && BASE64_CHARS[v] == AlphabetChar(v)
  {
    AlphabetTable();
  }

  /** The 8-bit digits of four sextets' 24-bit value are the bytes of Bytes3. */
  lemma QuadBytes(s0: nat, s1: nat, s2: nat, s3: nat)
    requires s0 < 64 && s1 < 64 && s2 < 64 && s3 < 64
    ensures var t := ((s0 * 64 + s1) * 64 + s2) * 64 + s3;
      && Bytes3(s0, s1, s2, s3)[0] == ShiftDown(t, 256, 2) % 256
      && Bytes3(s0, s1, s2, s3)[1] == ShiftDown(t, 256, 1) % 256
      && Bytes3(s0, s1, s2, s3)[2] == ShiftDown(t, 256, 0) % 256
  {
    var t := ((s0 * 64 + s1) * 64 + s2) * 64 + s3;
    ShiftDownSmall(t, 256);
    assert t / 256 == s0 * 1024 + s1 * 16 + s2 / 4;
    assert t / 256 / 256 == s0 * 4 + s1 / 16;
  }

  lemma QuadDigits(s0: nat, s1: nat, s2: nat, s3: nat, t: nat)
    requires s0 < 64 && s1 < 64 && s2 < 64 && s3 < 64
    requires t == ((s0 * 64 + s1) * 64 + s2) * 64 + s3
    ensures forall j | 0 <= j < 3 :: Bytes3(s0, s1, s2, s3)[j] == ShiftDown(t, 256, 2 - j) % 256
  {
    QuadBytes(s0, s1, s2, s3);
  }

  /** _base64_encode_triple: four characters at target[at..at+4], nothing else changed. */
  method EncodeTriple(source: seq<byte>, from: nat, target: array<char>, at: nat)
    requires from + 3 <= |source| && at + 4 <= target.Length
    modifies target
    ensures target[at..at + 4] == Group(source[from], source[from + 1], source[from + 2])
    ensures forall j | 0 <= j < target.Length && (j < at || at + 4 <= j) :: target[j] == old(target[j])
  {
    var tripleValue: nat := source[from];
    tripleValue := tripleValue * 256;
    tripleValue := tripleValue + source[from + 1];
    tripleValue := tripleValue * 256;
    tripleValue := tripleValue + source[from + 2];
    assert tripleValue == TripleValue(source[from], source[from + 1], source[from + 2]);
    WriteSextets(tripleValue, target, at);
    GroupFromDigits(source[from], source[from + 1], source[from + 2], target[at], target[at + 1], target[at + 2], target[at + 3]);
    assert target[at..at + 4] == [target[at], target[at + 1], target[at + 2], target[at + 3]];
  }

  /** The digit loop of _base64_encode_triple: the four 6-bit digits of t, least significant last, as alphabet characters. */
  method WriteSextets(t: nat, target: array<char>, at: nat)
    requires at + 4 <= target.Length
    modifies target
    ensures forall j | at <= j < at + 4 :: target[j] == AlphabetChar(ShiftDown(t, 64, at + 3 - j) % 64)
    ensures forall j | 0 <= j < target.Length && (j < at || at + 4 <= j) :: target[j] == old(target[j])
  {
    var tripleValue := t;
    var i := 0;
    while i < 4
      invariant 0 <= i <= 4
      invariant tripleValue == ShiftDown(t, 64, i)
      invariant forall j | at + 4 - i <= j < at + 4 :: target[j] == AlphabetChar(ShiftDown(t, 64, at + 3 - j) % 64)
      invariant forall j | 0 <= j < target.Length && (j < at + 4 - i || at + 4 <= j) :: target[j] == old(target[j])
    {
      TableAt(tripleValue % 64);
      target[at + 3 - i] := BASE64_CHARS[tripleValue % 64];
      tripleValue := tripleValue / 64;
      i := i + 1;
    }
  }

  /** Where Encode(src[s..]) sits in the whole encoding e, its first group and the rest follow. */
  lemma EncodeAdvance(src: seq<byte>, s: nat, e: string, t: nat)
    requires s + 3 <= |src| && t <= |e| && e[t..] == Encode(src[s..])
    ensures t + 4 <= |e|
    ensures forall j | t <= j < t + 4 :: e[j] == Group(src[s], src[s + 1], src[s + 2])[j - t]
    ensures e[t + 4..] == Encode(src[s + 3..])
  {
    assert src[s..][3..] == src[s + 3..];
    assert e[t..][4..] == e[t + 4..];
  }

  /** The last group of the encoding: the zero-filled bytes' group, padded after the data. */
  lemma EncodeTailAt(src: seq<byte>, s: nat, e: string, t: nat)
    requires s < |src| <= s + 2 && t <= |e| && e[t..] == Encode(src[s..])
    ensures |e| == t + 4
    ensures var temp := src[s..] + seq(3 - (|src| - s), _ => 0);
      forall j | t <= j <= t + |src| - s :: e[j] == Group(temp[0], temp[1], temp[2])[j - t]
    ensures e[t + 3] == PAD && (|src| - s == 1 ==> e[t + 2] == PAD)
  {
    var temp := src[s..] + seq(3 - (|src| - s), _ => 0);
    assert e[t..][0] == e[t] && e[t..][1] == e[t + 1];
    assert e[t..][2] == e[t + 2] && e[t..][3] == e[t + 3];
  }

  /** A group written at target[t..t+4] that agrees with e on its first n characters extends the agreeing prefix. */
  lemma GroupWritten(target: array<char>, e: string, t: nat, n: nat, g: string)
    requires n <= 4 && t + 4 <= target.Length && t + n <= |e|
    requires target[t..t + 4] == g
    requires forall j | t <= j < t + n :: e[j] == g[j - t]
    requires forall j | 0 <= j < t :: target[j] == e[j]
    ensures forall j | 0 <= j < t + n :: target[j] == e[j]
  {
    forall j | t <= j < t + n
      ensures target[j] == e[j]
    {
      assert target[j] == target[t..t + 4][j - t];
    }
  }

  /** The array holds e, then a NUL, then what it held before. */
  lemma Terminated(target: array<char>, e: string, before: seq<char>)
    requires |e| < target.Length == |before|
    requires forall j | 0 <= j < |e| :: target[j] == e[j]
    requires target[|e|] == '\0'
    requires forall j | |e| < j < target.Length :: target[j] == before[j]
    ensures target[..|e|] == e
    ensures target[|e| + 1..] == before[|e| + 1..]
  {
  }

  /**
   * The main loop of base64_encode: whole triples of src become groups of
   * the encoding e, written from the start of the target.
   */
  method EncodeGroups(src: seq<byte>, target: array<char>, ghost e: string) returns (s: nat, t: nat)
    requires e == Encode(src) && |e| < target.Length
    modifies target
    ensures s <= |src| < s + 3 && t <= |e| && e[t..] == Encode(src[s..])
    ensures forall j | 0 <= j < t :: target[j] == e[j]
    ensures forall j | t <= j < target.Length :: target[j] == old(target[j])
  {
    var sourcelen := |src|;
    s, t := 0, 0;
    while sourcelen >= 3
      invariant 0 <= s <= |src| && s + sourcelen == |src|
      invariant 0 <= t <= |e| && e[t..] == Encode(src[s..])
      invariant forall j | 0 <= j < t :: target[j] == e[j]
      invariant forall j | t <= j < target.Length :: target[j] == old(target[j])
    {
      EncodeAdvance(src, s, e, t);
      EncodeTriple(src, s, target, t);
      GroupWritten(target, e, t, 4, Group(src[s], src[s + 1], src[s + 2]));
      sourcelen, s, t := sourcelen - 3, s + 3, t + 4;
    }
  }

  /**
   * The tail of base64_encode: one or two bytes left over become a group
   * padded with "==" or "=".
   */
  method EncodeRemainder(src: seq<byte>, s: nat, target: array<char>, t: nat, ghost e: string) returns (end: nat)
    requires s <= |src| < s + 3 && t <= |e| < target.Length && e[t..] == Encode(src[s..])
    requires forall j | 0 <= j < t :: target[j] == e[j]
    modifies target
    ensures end == |e|
    ensures forall j | 0 <= j < end :: target[j] == e[j]
    ensures forall j | end <= j < target.Length :: target[j] == old(target[j])
  {
    var sourcelen := |src| - s;
    end := t;
    if sourcelen > 0 {
      EncodeTailAt(src, s, e, t);
      var temp := src[s..] + seq(3 - sourcelen, _ => 0);
      EncodeTriple(temp, 0, target, t);
      GroupWritten(target, e, t, sourcelen + 1, Group(temp[0], temp[1], temp[2]));
      target[t + 3] := PAD;
      if sourcelen == 1 {
        target[t + 2] := PAD;
      }
      end := t + 4;
    }
  }

  /**
   * base64_encode: fails without writing when the encoding and its NUL do
   * not fit; otherwise writes the encoding followed by a NUL.
   */
  method EncodeInto(src: seq<byte>, target: array<char>) returns (ok: bool)
    requires target.Length >= 1
    modifies target
    ensures ok <==> (|src| + 2) / 3 * 4 <= target.Length - 1
    ensures ok ==> |Encode(src)| < target.Length
    ensures ok ==> |Encode(src)| < target.Length && target[..|Encode(src)|] == Encode(src)
    ensures ok ==> |Encode(src)| < target.Length && target[|Encode(src)|] == '\0'
    ensures ok ==> |Encode(src)| < target.Length && target[|Encode(src)| + 1..] == old(target[|Encode(src)| + 1..])
    ensures !ok ==> target[..] == old(target[..])
  {
    if (|src| + 2) / 3 * 4 > target.Length - 1 {
      return false;
    }
    ghost var e := Encode(src);
    EncodeLength(src);
    var s, t := EncodeGroups(src, target, e);
    t := EncodeRemainder(src, s, target, t, e);
    target[t] := '\0';
    Terminated(target, e, old(target[..]));
    return true;
  }

  /** With every character's sextet known and the characters before the padding valid, DecodeQuad takes the top bytes. */
  lemma QuadSextets(q: string, s0: int, s1: int, s2: int, s3: int)
    requires |q| == 4
    requires s0 == SextetOf(q[0]) && s1 == SextetOf(q[1]) && s2 == SextetOf(q[2]) && s3 == SextetOf(q[3])
    requires forall j | 0 <= j < 4 - TrailingPads(q) :: CharValue(q[j]) >= 0
    ensures 0 <= s0 < 64 && 0 <= s1 < 64 && 0 <= s2 < 64 && 0 <= s3 < 64
    ensures var k := TrailingPads(q);
      DecodeQuad(q) == Bytes3(s0, s1, s2, s3)[..if k >= 3 then 0 else 3 - k]
  {
    var k := TrailingPads(q);
    assert AllDataChars(q[..4 - k]);
  }

  /**
   * The first half of _base64_decode_triple: stores each character's value
   * in charValue, then checks from the last character back that the
   * quadruple is alphabet characters followed only by '='; each trailing '='
   * becomes value 0 and lowers the byte count.
   */
  method CheckQuadruple(quadruple: seq<char>, charValue: array<int>) returns (valid: bool, bytesToDecode: int)
    requires |quadruple| == 4 && charValue.Length == 4
    modifies charValue
    ensures valid ==> bytesToDecode == 3 - TrailingPads(quadruple)
    ensures valid ==> forall j | 0 <= j < 4 :: charValue[j] == SextetOf(quadruple[j])
    ensures valid ==> forall j | 0 <= j < 4 - TrailingPads(quadruple) :: CharValue(quadruple[j]) >= 0
    ensures !valid ==> DecodeQuad(quadruple) == []
  {
    ghost var k := TrailingPads(quadruple);
    for i := 0 to 4
      invariant forall j | 0 <= j < i :: charValue[j] == CharValue(quadruple[j])
    {
      charValue[i] := CharValue(quadruple[i]);
    }
    bytesToDecode := 3;
    var onlyEqualsYet := true;
    var i: int := 3;
    while i >= 0
      invariant -1 <= i <= 3
      invariant onlyEqualsYet == (i + k >= 3)
      invariant bytesToDecode == if onlyEqualsYet then i else 3 - k
      invariant forall j | 0 <= j <= i :: charValue[j] == CharValue(quadruple[j])
      invariant forall j | i < j < 4 :: charValue[j] == SextetOf(quadruple[j])
      invariant forall j | i < j < 4 - k :: CharValue(quadruple[j]) >= 0
    {
      if charValue[i] < 0 {
        if onlyEqualsYet && quadruple[i] == PAD {
          charValue[i] := 0;
          bytesToDecode := bytesToDecode - 1;
          i := i - 1;
          continue;
        }
        if quadruple[i] == PAD {
          assert i + k < 3;
          PadBeforeDataRejected(quadruple, i, 3 - k);
        } else {
          InvalidCharRejected(quadruple, i);
        }
        return false, 0;
      }
      onlyEqualsYet := false;
      i := i - 1;
    }
    return true, bytesToDecode;
  }

  /**
   * The second half of _base64_decode_triple: drops the bytes that are not
   * decoded from the 24-bit value, then stores the rest most significant first.
   */
  method StoreBytes(tripleValue: nat, bytesToDecode: int, result: array<byte>)
    requires 0 <= bytesToDecode <= 3 <= result.Length
    modifies result
    ensures forall j | 0 <= j < bytesToDecode :: result[j] == ShiftDown(tripleValue, 256, 2 - j) % 256
    ensures forall j | bytesToDecode <= j < result.Length :: result[j] == old(result[j])
  {
    var value := tripleValue;
    var i := bytesToDecode;
    while i < 3
      invariant bytesToDecode <= i <= 3
      invariant value == ShiftDown(tripleValue, 256, i - bytesToDecode)
      invariant unchanged(result)
    {
      ShiftDownStep(tripleValue, 256, i - bytesToDecode);
      value := value / 256;
      i := i + 1;
    }
    i := bytesToDecode - 1;
    while i >= 0
      invariant -1 <= i < bytesToDecode
      invariant value == ShiftDown(tripleValue, 256, 2 - i)
      invariant forall j | i < j < bytesToDecode :: result[j] == ShiftDown(tripleValue, 256, 2 - j) % 256
      invariant forall j | 0 <= j < result.Length && (j <= i || bytesToDecode <= j) :: result[j] == old(result[j])
    {
      ShiftDownStep(tripleValue, 256, 2 - i);
      result[i] := value % 256;
      value := value / 256;
      i := i - 1;
    }
  }

  /** The array starts with d and holds what it held before after it. */
  lemma Stored(result: array<byte>, d: seq<byte>, before: seq<byte>)
    requires |d| <= result.Length == |before|
    requires forall j | 0 <= j < |d| :: result[j] == d[j]
    requires forall j | |d| <= j < result.Length :: result[j] == before[j]
    ensures result[..|d|] == d
    ensures result[|d|..] == before[|d|..]
  {
  }

  /** _base64_decode_triple: writes DecodeQuad(quadruple) to result and returns its length. */
  method DecodeTriple(quadruple: seq<char>, result: array<byte>) returns (n: int)
    requires |quadruple| == 4 && result.Length >= 3
    modifies result
    ensures n == |DecodeQuad(quadruple)|
    ensures result[..n] == DecodeQuad(quadruple)
    ensures result[n..] == old(result[n..])
  {
    var charValue := new int[4];
    var valid, bytesToDecode := CheckQuadruple(quadruple, charValue);
    if !valid {
      return 0;
    }
    if bytesToDecode < 0 {
      bytesToDecode := 0;
    }
    ghost var s0, s1, s2, s3 := charValue[0], charValue[1], charValue[2], charValue[3];
    QuadSextets(quadruple, s0, s1, s2, s3);
    var tripleValue: nat := charValue[0];
    tripleValue := tripleValue * 64;
    tripleValue := tripleValue + charValue[1];
    tripleValue := tripleValue * 64;
    tripleValue := tripleValue + charValue[2];
    tripleValue := tripleValue * 64;
    tripleValue := tripleValue + charValue[3];
    QuadDigits(s0, s1, s2, s3, tripleValue);
    StoreBytes(tripleValue, bytesToDecode, result);
    Stored(result, Bytes3(s0, s1, s2, s3)[..bytesToDecode], old(result[..]));
    return bytesToDecode;
  }

  lemma SignificantStep(s: string, p: nat)
    requires p < |s|
    ensures SignificantChars(s[p..]) ==
      if Significant(s[p]) then [s[p]] + SignificantChars(s[p + 1..]) else SignificantChars(s[p + 1..])
    ensures p + 1 == |s| ==> SignificantChars(s[p + 1..]) == []
  {
    assert s[p..][1..] == s[p + 1..];
  }

  /** A significant character heads the significant characters of what it starts. */
  lemma TakeSignificant(s: string, p: nat, rest: string)
    requires p < |s| && Significant(s[p]) && SignificantChars(s[p..]) == rest
    ensures |rest| > 0 && rest[0] == s[p] && SignificantChars(s[p + 1..]) == rest[1..]
  {
    SignificantStep(s, p);
  }

  /**
   * The state of base64_decode between two quadruples: while decoding goes
   * on, what is left holds the four appended '=' at its end and decodes to
   * the rest of `whole`; once it stops, `whole` has been produced.
   */
  ghost predicate Decoding(whole: seq<byte>, out: seq<byte>, rest: string, going: bool) {
    if going then |rest| >= 4 && rest[|rest| - 4] == PAD && whole == out + DecodeGroups(rest)
    else whole == out
  }

  /**
   * Decoding the next quadruple: its bytes are the next ones of `whole`, and
   * decoding goes on exactly when it yields three of them. A quadruple that
   * yields three bytes holds no '=', so the appended padding still lies ahead.
   */
  lemma NextQuadruple(whole: seq<byte>, out: seq<byte>, rest: string)
    requires Decoding(whole, out, rest, true)
    ensures var d := DecodeQuad(rest[..4]);
      && |whole| >= |out| + |d|
      && Decoding(whole, out + d, rest[4..], |d| == 3)
  {
    var d := DecodeQuad(rest[..4]);
    if |d| == 3 {
      assert rest[4..][|rest[4..]| - 4] == rest[|rest| - 4];
    }
  }

  /** The significant characters of the padded source end in the four '=' the decoder appends. */
  lemma PaddedSignificant(source: string)
    ensures SignificantChars(source + "====") == SignificantChars(source) + [PAD, PAD, PAD, PAD]
    ensures var sig := SignificantChars(source + "===="); |sig| >= 4 && sig[|sig| - 4] == PAD
  {
    SignificantAppend(source, "====");
    assert SignificantChars("====") == "====" by {
      SignificantOfSignificant("====");
    }
  }

  /**
   * The inner loop of base64_decode: gathers the next four significant
   * characters of `src` from position `p` on, skipping every other character.
   */
  method ReadQuadruple(src: string, p: nat, quadruple: array<char>, ghost rest: string) returns (next: nat)
    requires p <= |src| && quadruple.Length == 4
    requires |rest| >= 4 && SignificantChars(src[p..]) == rest
    modifies quadruple
    ensures next <= |src| && SignificantChars(src[next..]) == rest[4..]
    ensures quadruple[..] == rest[..4]
  {
    next := p;
    for i := 0 to 4
      invariant next <= |src|
      invariant SignificantChars(src[next..]) == rest[i..]
      invariant forall j | 0 <= j < i :: quadruple[j] == rest[j]
    {
      next := SkipInsignificant(src, next, rest[i..]);
      TakeSignificant(src, next, rest[i..]);
      assert rest[i..][1..] == rest[i + 1..];
      quadruple[i] := src[next];
      next := next + 1;
    }
  }

  /**
   * The skipping loop of base64_decode: moves past every character that is
   * neither '=' nor in the alphabet, up to the next significant one.
   */
  method SkipInsignificant(src: string, p: nat, ghost rest: string) returns (next: nat)
    requires p <= |src| && rest != [] && SignificantChars(src[p..]) == rest
    ensures p <= next < |src| && Significant(src[next]) && SignificantChars(src[next..]) == rest
  {
    next := p;
    while src[next] != PAD && CharValue(src[next]) < 0
      invariant p <= next < |src|
      invariant SignificantChars(src[next..]) == rest
      decreases |src| - next
    {
      SignificantStep(src, next);
      next := next + 1;
    }
  }

  /** From position `from` on, `target` still holds its original bytes. */
  predicate KeptFrom(target: array<byte>, initial: seq<byte>, from: nat)
    requires target.Length == |initial|
    reads target
  {
    forall j | from <= j < target.Length :: target[j] == initial[j]
  }

  lemma Untouched(target: array<byte>, initial: seq<byte>, from: nat)
    requires from <= target.Length == |initial|
    requires KeptFrom(target, initial, from)
    ensures target[from..] == initial[from..]
    ensures forall j | from <= j < |initial| :: target[..][j] == initial[j]
  {
  }

  /** The memcpy of base64_decode: copies the first `n` bytes of `from` to `target` at `at`. */
  method CopyBytes(from: array<byte>, n: nat, target: array<byte>, at: nat)
    requires n <= from.Length && at + n <= target.Length && from != target
    modifies target
    ensures target[..at + n] == old(target[..at]) + from[..n]
    ensures forall j | at + n <= j < target.Length :: target[j] == old(target[j])
  {
    forall j | 0 <= j < n {
      target[at + j] := from[j];
    }
    assert target[..at + n] == old(target[..at]) + from[..n];
  }

  /**
   * One pass of base64_decode's loop up to the length check: gathers the next
   * quadruple of `src` from position `p` on and decodes it into `tmpresult`.
   */
  method NextTriple(src: string, p: nat, quadruple: array<char>, tmpresult: array<byte>, ghost rest: string)
      returns (next: nat, tmplen: int)
    requires p <= |src| && |rest| >= 4 && SignificantChars(src[p..]) == rest
    requires quadruple.Length == 4 && tmpresult.Length == 3
    modifies quadruple, tmpresult
    ensures next <= |src| && SignificantChars(src[next..]) == rest[4..]
    ensures tmplen == |DecodeQuad(rest[..4])| && tmpresult[..tmplen] == DecodeQuad(rest[..4])
  {
    next := ReadQuadruple(src, p, quadruple, rest);
    tmplen := DecodeTriple(quadruple[..], tmpresult);
  }

  /** The C conversion (int) of a size_t: its low 32 bits, read in two's complement. */
  function CInt(x: nat): (r: int)
    ensures -0x8000_0000 <= r < 0x8000_0000
    ensures r <= x
    ensures x < 0x8000_0000 ==> r == x
    ensures 0x8000_0000 <= x < 0x1_0000_0000 ==> r == x - 0x1_0000_0000
  {
    var w := x % 0x1_0000_0000;
    if w < 0x8000_0000 then w else w - 0x1_0000_0000
  }

  /**
   * base64_decode: copies the source up to its NUL, appends "====", and
   * decodes quadruples of significant characters until one yields fewer
   * than three bytes. Returns -1 as soon as a quadruple's bytes do not fit
   * in what is left of the target by the (int) test; otherwise returns the
   * number of bytes written.
   */
  method DecodeInto(source: string, target: array<byte>) returns (r: int)
    modifies target
    ensures |Decode(source)| > target.Length ==> r == -1
    ensures r == -1 && target.Length < 0x8000_0000 ==> |Decode(source)| > target.Length
    ensures r != -1 ==> r == |Decode(source)| && target[..r] == Decode(source)
    ensures r != -1 ==> target[r..] == old(target[r..])
  {
    var len := Length(source);
    var src := source[..len] + "====";
    PaddedSignificant(source[..len]);
    assert src[0..] == src;
    r := DecodeQuadruples(src, target, SignificantChars(src), Decode(source));
  }

  /**
   * The loop of base64_decode over the padded copy `src` of the source,
   * whose significant characters are `sig` and decode to `whole`.
   */
  method DecodeQuadruples(src: string, target: array<byte>, ghost sig: string, ghost whole: seq<byte>)
      returns (r: int)
    requires SignificantChars(src[0..]) == sig && Decoding(whole, [], sig, true)
    modifies target
    ensures |whole| > target.Length ==> r == -1
    ensures r == -1 && target.Length < 0x8000_0000 ==> |whole| > target.Length
    ensures r != -1 ==> r == |whole| && target[..r] == whole
    ensures r != -1 ==> target[r..] == old(target[r..])
  {
    var quadruple := new char[4];
    var tmpresult := new byte[3];
    ghost var initial := target[..];
    ghost var rest := sig;
    assert target[..0] == [];
    var p := 0;
    var tmplen := 3;
    var targetlen := target.Length;
    var converted := 0;
    while tmplen == 3
      invariant 0 <= p <= |src| && SignificantChars(src[p..]) == rest
      invariant 0 <= converted <= target.Length && targetlen == target.Length - converted
      invariant Decoding(whole, target[..converted], rest, tmplen == 3)
      invariant KeptFrom(target, initial, converted)
      invariant tmpresult != target
      decreases |rest|
    {
      p, tmplen := NextTriple(src, p, quadruple, tmpresult, rest);
      NextQuadruple(whole, target[..converted], rest);
      if CInt(targetlen) < tmplen {
        return -1;
      }
      CopyBytes(tmpresult, tmplen, target, converted);
      targetlen := targetlen - tmplen;
      converted := converted + tmplen;
      rest := rest[4..];
    }
    Untouched(target, initial, converted);
    return converted;
  }
}
