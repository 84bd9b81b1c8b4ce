/**
 * The frames of sprot, the stop-and-wait serial protocol (sprot/sprot.h,
 * sprot/sprot.cpp): the table-driven CRC-7 that guards every frame, the
 * two-byte control frames, the data frames and their decoding, and the
 * sequence of frames a write puts on the wire.
 */
module Sprot {
  import opened Wrappers

  /** Frame type codes (Frame::Type), consecutive from ACK. */
  const ACK: bv8 := 0x0a
  const NACK: bv8 := 0x0b
  const SEQBEGIN: bv8 := 0x0c
  const SEQEND: bv8 := 0x0d
  const SETSEND: bv8 := 0x0e
  const SETRECV: bv8 := 0x0f
  const DATA: bv8 := 0x10
  /** The type of a Frame nobody has set (the default of Frame::type). */
  const UNDEF: bv8 := 0x11

  /** Mode::Type: which side of a half-duplex exchange this end is on. */
  datatype Mode = Client | Server | Undefined

  /** Switching::Type: Auto switches modes on demand, Manual refuses. */
  datatype Switching = Auto | Manual

  /** The constructor's defaults: Auto switching and a 3 MiB receive reserve. */
  const DEFAULT_SWITCHING: Switching := Auto
  const DEFAULT_RECV_BUF_RESERVE: nat := 3 * 1024 * 1024

  /** Type, sequence number and CRC: the bytes a data frame adds to its payload. */
  const DATA_FRAME_OVERHEAD: nat := 3

  /** How many times write_impl offers one frame before giving up. */
  const SEND_ATTEMPTS: nat := 5

  /** The size of the buffer wait_send_mode / wait_recv_mode read into. */
  const WAIT_BUF_SIZE: nat := 50

  /** The exceptions sprot raises (fplog::exceptions and sprot::exceptions). */
  datatype SprotError =
    | IncorrectParameter
    | IncorrectMode
    | InvalidFrame
    | Timeout
    | WriteFailed
    | ReadFailed
    | BufferOverflow

  // ---------------------------------------------------------------- CRC-7

  const CRC7_POLY: bv8 := 0x91

  /** One step of get_byte_crc: fold the low bit into the polynomial, then shift. */
  function Round(b: bv8): (r: bv8)
    ensures r < 0x80
  {
    (if b & 1 == 1 then b ^ CRC7_POLY else b) >> (1 as bv8)
  }

  /** n steps of get_byte_crc. */
  function Rounds(b: bv8, n: nat): (r: bv8)
    ensures n > 0 ==> r < 0x80
  {
    if n == 0 then b else Round(Rounds(b, n - 1))
  }

  /** get_byte_crc: the table entry for one byte, eight steps. */
  function ByteCrc(b: bv8): (r: bv8)
    ensures r < 0x80
  {
    Rounds(b, 8)
  }

  /** get_byte_crc as written, a loop over the eight bits. */
  method GetByteCrc(byte: bv8) returns (r: bv8)
    ensures r == ByteCrc(byte)
  {
    r := byte;
    var j := 0;
    while j < 8
      invariant 0 <= j <= 8
      invariant r == Rounds(byte, j)
    {
      if r & 1 == 1 {
        r := r ^ CRC7_POLY;
      }
      r := r >> (1 as bv8);
      j := j + 1;
    }
  }

  /** crc_table once build_crc_table has run. */
  ghost predicate IsCrcTable(t: seq<bv8>) {
    |t| == 256 && forall b: bv8 :: t[b as int] == ByteCrc(b)
  }

  /** build_crc_table: fills all 256 entries of the table. */
  method BuildCrcTable() returns (table: array<bv8>)
    ensures fresh(table)
    ensures IsCrcTable(table[..])
  {
    table := new bv8[256];
    var i := 0;
    while i < 256
      invariant 0 <= i <= 256
      invariant forall b: bv8 | b as int < i :: table[b as int] == ByteCrc(b)
    {
      table[i] := GetByteCrc(i as bv8);
      i := i + 1;
    }
  }

  /** The CRC register after one byte: crc = crc_table[crc ^ byte]. */
  function Feed(c: bv8, x: bv8): bv8 {
    ByteCrc(c ^ x)
  }

  /** The CRC register after feeding s to a register holding c. */
  function Crc7From(c: bv8, s: seq<bv8>): (r: bv8)
    ensures c < 0x80 || s != [] ==> r < 0x80
    decreases |s|
  {
    if s == [] then c else Crc7From(Feed(c, s[0]), s[1..])
  }

  /** util::crc7: the register starts at zero. */
  function Crc7(s: seq<bv8>): (r: bv8)
    ensures r < 0x80
  {
    Crc7From(0, s)
  }

  /** util::crc7 as written: one table lookup per byte. */
  method ComputeCrc7(table: array<bv8>, buf: seq<bv8>) returns (crc: bv8)
    requires IsCrcTable(table[..])
    ensures crc == Crc7(buf)
  {
    crc := 0;
    var i := 0;
    while i < |buf|
      invariant 0 <= i <= |buf|
      invariant Crc7From(crc, buf[i..]) == Crc7(buf)
    {
      assert buf[i..][0] == buf[i] && buf[i..][1..] == buf[i + 1..];
      crc := table[(crc ^ buf[i]) as int];
      i := i + 1;
    }
    assert buf[i..] == [];
  }

  /** crc_check: a non-empty buffer whose last byte is the CRC-7 of the rest. */
  predicate CrcCheck(b: seq<bv8>): (r: bool)
    ensures r ==> |b| >= 1
    ensures |b| == 1 ==> (r <==> b[0] == 0)
  {
    |b| >= 1 && b[|b| - 1] == Crc7(b[..|b| - 1])
  }

  /** crc_check as written, through the table-driven crc7. */
  method CheckCrc(table: array<bv8>, b: seq<bv8>) returns (ok: bool)
    requires IsCrcTable(table[..])
    ensures ok <==> CrcCheck(b)
  {
    if |b| < 1 {
      return false;
    }
    var crc := ComputeCrc7(table, b[..|b| - 1]);
    ok := crc == b[|b| - 1];
  }

  /** Appending the CRC seals a buffer, and only that byte does. */
  lemma {:induction false} CrcCheckSeal(b: seq<bv8>, x: bv8)
    ensures CrcCheck(b + [x]) <==> x == Crc7(b)
    ensures CrcCheck(b + [Crc7(b)])
    ensures !CrcCheck([])
  {
    assert (b + [x])[..|b|] == b;
    assert (b + [Crc7(b)])[..|b|] == b;
  }

  /** Feeding a ++ b is feeding a, then b. */
  lemma {:induction false} Crc7FromAppend(c: bv8, a: seq<bv8>, b: seq<bv8>)
    ensures Crc7From(c, a + b) == Crc7From(Crc7From(c, a), b)
    decreases |a|
  {
    if a == [] {
      assert a + b == b;
    } else {
      assert (a + b)[0] == a[0] && (a + b)[1..] == a[1..] + b;
      Crc7FromAppend(Feed(c, a[0]), a[1..], b);
    }
  }

  // ---------------------------------------------------------------- frames

  /** send_frame for a control type: the type byte and its CRC-7. */
  function ControlFrame(t: bv8): (f: seq<bv8>)
    ensures |f| == 2 && f[0] == t
    ensures CrcCheck(f)
  {
    CrcCheckSeal([t], Crc7([t]));
    [t] + [Crc7([t])]
  }

  /** The six control frames on the wire. */
  lemma ControlFrameVectors()
    ensures ControlFrame(ACK) == [0x0a, 0x5f]
    ensures ControlFrame(NACK) == [0x0b, 0x1e]
    ensures ControlFrame(SEQBEGIN) == [0x0c, 0x6a]
    ensures ControlFrame(SEQEND) == [0x0d, 0x2b]
    ensures ControlFrame(SETSEND) == [0x0e, 0x79]
    ensures ControlFrame(SETRECV) == [0x0f, 0x38]
  {
  }

  /** The crc_check test vectors: two valid control frames and a corrupted ACK. */
  lemma CrcVectors()
    ensures CrcCheck([0x0c, 0x6a]) && CrcCheck([0x0f, 0x38])
    ensures !CrcCheck([0x0a, 0xcc])
  {
    ControlFrameVectors();
    assert CrcCheck(ControlFrame(SEQBEGIN)) && CrcCheck(ControlFrame(SETRECV));
    var bad: seq<bv8> := [0x0a, 0xcc];
    assert bad[..1] == [ACK];
    assert ControlFrame(ACK)[1] == Crc7([ACK]) == 0x5f;
  }

  /** A control frame is recognised by its first byte alone. */
  lemma ControlFramesDistinct(t: bv8, u: bv8)
    ensures ControlFrame(t) == ControlFrame(u) <==> t == u
  {
    if ControlFrame(t) == ControlFrame(u) {
      assert ControlFrame(t)[0] == ControlFrame(u)[0];
    }
  }

  /** send_data: type DATA, the sequence number, the payload, then the CRC-7 of all of it. */
  function DataFrame(sequenceNum: bv8, payload: seq<bv8>): (f: seq<bv8>)
    ensures |f| == |payload| + DATA_FRAME_OVERHEAD
    ensures f[0] == DATA && f[1] == sequenceNum && f[2..|f| - 1] == payload
    ensures CrcCheck(f)
  {
    var head := [DATA, sequenceNum] + payload;
    CrcCheckSeal(head, Crc7(head));
    assert (head + [Crc7(head)])[2..|head|] == payload;
    head + [Crc7(head)]
  }

  /** Data_Frame: the payload and sequence number of a received DATA frame. */
  datatype DataFrameFields = DataFrameFields(data: seq<bv8>, sequenceNum: bv8)

  /** make_data_frame: byte 1 is the sequence number, bytes 2 .. len-2 the payload. */
  function MakeDataFrame(frame: seq<bv8>): (r: Result<DataFrameFields, SprotError>)
    ensures r.Err? <==> |frame| < DATA_FRAME_OVERHEAD
    ensures r.Err? ==> r.error == InvalidFrame
    ensures r.Ok? ==> |r.value.data| == |frame| - DATA_FRAME_OVERHEAD
  {
    if |frame| < DATA_FRAME_OVERHEAD then Err(InvalidFrame)
    else Ok(DataFrameFields(frame[2..|frame| - 1], frame[1]))
  }

  /** Decoding a frame built by send_data gives back its payload and sequence number. */
  lemma MakeDataFrameRoundTrip(sequenceNum: bv8, payload: seq<bv8>)
    ensures MakeDataFrame(DataFrame(sequenceNum, payload)) == Ok(DataFrameFields(payload, sequenceNum))
  {
  }

  /** A frame shorter than the overhead, even one with a good CRC such as [DATA, crc], is refused. */
  lemma ShortDataFrameRefused()
    ensures CrcCheck([DATA] + [Crc7([DATA])])
    ensures MakeDataFrame([DATA] + [Crc7([DATA])]) == Err(InvalidFrame)
  {
    CrcCheckSeal([DATA], Crc7([DATA]));
  }

  // ---------------------------------------------------------------- what write puts on the wire

  /** A frame write_impl offers: a control frame or a numbered data frame. */
  datatype Outgoing = Control(kind: bv8) | Data(sequenceNum: bv8, payload: seq<bv8>)

  /** The bytes of an outgoing frame. */
  function Encode(o: Outgoing): (f: seq<bv8>)
    ensures CrcCheck(f)
  {
    match o
    case Control(kind) => ControlFrame(kind)
    case Data(n, payload) => DataFrame(n, payload)
  }

  /**
   * The data frames carrying d, numbered from n: full frames of mtu bytes, the
   * last one with what remains; sequence numbers wrap like an unsigned char.
   */
  function Chunks(d: seq<bv8>, mtu: nat, n: bv8): (r: seq<Outgoing>)
    requires mtu > 0
    ensures |r| <= |d|
    ensures r == [] <==> |d| == 0
    ensures forall i | 0 <= i < |r| :: r[i].Data?
    decreases |d|
  {
    if |d| == 0 then []
    else if |d| <= mtu then [Data(n, d)]
    else [Data(n, d[..mtu])] + Chunks(d[mtu..], mtu, n + 1)
  }

  /**
   * The frames write_impl sends for d, in order: nothing for no data, one data
   * frame numbered 1 when d fits, otherwise SEQBEGIN, the chunks numbered
   * from 1, and SEQEND.
   */
  function WritePlan(d: seq<bv8>, mtu: nat): (r: seq<Outgoing>)
    requires mtu > 0
    ensures r == [] <==> |d| == 0
    ensures |r| <= |d| + 2
  {
    if |d| == 0 then []
    else if |d| <= mtu then [Data(1, d)]
    else [Control(SEQBEGIN)] + Chunks(d, mtu, 1) + [Control(SEQEND)]
  }

  /** The payloads of the data frames, in order. */
  function Payloads(plan: seq<Outgoing>): seq<bv8> {
    if plan == [] then []
    else (if plan[0].Data? then plan[0].payload else []) + Payloads(plan[1..])
  }

  /** A chunking in which every frame is a data frame of 1..mtu bytes, numbered consecutively from n. */
  ghost predicate WellNumbered(plan: seq<Outgoing>, mtu: nat, n: bv8) {
    (forall i | 0 <= i < |plan| :: plan[i].Data? && 0 < |plan[i].payload| <= mtu)
    && (forall i | 0 <= i < |plan| - 1 :: |plan[i].payload| == mtu)
    && (plan != [] ==> plan[0].sequenceNum == n)
    && (forall i | 0 <= i < |plan| - 1 :: plan[i + 1].sequenceNum == plan[i].sequenceNum + 1)
  }

  lemma {:induction false} PayloadsAppend(a: seq<Outgoing>, b: seq<Outgoing>)
    ensures Payloads(a + b) == Payloads(a) + Payloads(b)
    decreases |a|
  {
    if a == [] {
      assert a + b == b;
    } else {
      assert (a + b)[0] == a[0] && (a + b)[1..] == a[1..] + b;
      PayloadsAppend(a[1..], b);
    }
  }

  /** The chunks carry d, in order. */
  lemma {:induction false} ChunksPayloads(d: seq<bv8>, mtu: nat, n: bv8)
    requires mtu > 0
    ensures Payloads(Chunks(d, mtu, n)) == d
    decreases |d|
  {
    var c := Chunks(d, mtu, n);
    if |d| == 0 {
    } else if |d| <= mtu {
      assert c == [Data(n, d)];
      assert Payloads(c) == d + Payloads([]);
    } else {
      var rest := Chunks(d[mtu..], mtu, n + 1);
      ChunksPayloads(d[mtu..], mtu, n + 1);
      assert c == [Data(n, d[..mtu])] + rest;
      PayloadsAppend([Data(n, d[..mtu])], rest);
      assert Payloads([Data(n, d[..mtu])]) == d[..mtu] + Payloads([]);
      assert d == d[..mtu] + d[mtu..];
    }
  }

  /** The chunks are frames of mtu bytes but the last, numbered consecutively from n. */
  lemma {:induction false} ChunksNumbered(d: seq<bv8>, mtu: nat, n: bv8)
    requires mtu > 0
    ensures WellNumbered(Chunks(d, mtu, n), mtu, n)
    ensures |d| > 0 ==> Chunks(d, mtu, n) != []
    ensures |d| > mtu ==> |Chunks(d, mtu, n)| >= 2
    decreases |d|
  {
    var c := Chunks(d, mtu, n);
    if |d| > mtu {
      var rest := Chunks(d[mtu..], mtu, n + 1);
      ChunksNumbered(d[mtu..], mtu, n + 1);
      assert c == [Data(n, d[..mtu])] + rest;
      assert forall i | 1 <= i < |c| :: c[i] == rest[i - 1];
    }
  }

  /**
   * What write_impl puts on the wire carries d: the data payloads concatenate to
   * d, a message that fits is one data frame numbered 1, and a longer one is
   * bracketed by SEQBEGIN and SEQEND around full frames numbered from 1.
   */
  lemma WritePlanFacts(d: seq<bv8>, mtu: nat)
    requires mtu > 0
    ensures Payloads(WritePlan(d, mtu)) == d
    ensures |d| == 0 ==> WritePlan(d, mtu) == []
    ensures 0 < |d| <= mtu ==> WritePlan(d, mtu) == [Data(1, d)]
    ensures |d| > mtu ==>
      var plan := WritePlan(d, mtu);
      |plan| >= 4 && plan[0] == Control(SEQBEGIN) && plan[|plan| - 1] == Control(SEQEND)
      && WellNumbered(plan[1..|plan| - 1], mtu, 1)
  {
    var plan := WritePlan(d, mtu);
    ChunksPayloads(d, mtu, 1);
    ChunksNumbered(d, mtu, 1);
    if |d| == 0 {
    } else if |d| <= mtu {
      assert Payloads(plan) == d + Payloads([]);
    } else {
      var c := Chunks(d, mtu, 1);
      assert plan == [Control(SEQBEGIN)] + (c + [Control(SEQEND)]);
      PayloadsAppend([Control(SEQBEGIN)], c + [Control(SEQEND)]);
      PayloadsAppend(c, [Control(SEQEND)]);
      assert Payloads([Control(SEQBEGIN)]) == [] + Payloads([]);
      assert Payloads([Control(SEQEND)]) == [] + Payloads([]);
      assert plan[1..|plan| - 1] == c;
    }
  }
}
