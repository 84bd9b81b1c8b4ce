/**
 * What sprot promises, proved about the functions of SprotMachine: how the
 * receiver treats repeated and out-of-order frames, that a buffer overflow
 * loses nothing, that a write over an acknowledging transport puts exactly
 * the framed data on the wire, and that a reader fed those frames delivers
 * the data that was written.
 */
module SprotProperties {
  import opened Wrappers
  import opened Sprot
  import opened SprotMachine

  /** n good ACK frames. */
  function Acks(n: nat): (r: seq<seq<bv8>>)
    ensures |r| == n
  {
    if n == 0 then [] else [ControlFrame(ACK)] + Acks(n - 1)
  }

  /** The bytes of each frame of a plan. */
  function Encoded(plan: seq<Outgoing>): (r: seq<seq<bv8>>)
    ensures |r| == |plan|
  {
    if plan == [] then [] else [Encode(plan[0])] + Encoded(plan[1..])
  }

  // ---------------------------------------------------------------- receiving one frame

  /** The only two-byte reply write_impl accepts is the ACK frame itself. */
  lemma GoodAckIsAckFrame(reply: seq<bv8>)
    ensures GoodAck(reply) <==> reply == ControlFrame(ACK)
  {
    if GoodAck(reply) {
      assert reply[..1] == [ACK];
      assert reply == [reply[0]] + [reply[1]];
    }
  }

  /**
   * A retransmitted frame (its ACK was lost) is acknowledged again and not
   * appended twice: after the next frame in order was taken into a sequence,
   * receiving it again changes nothing.
   */
  lemma RetransmissionIgnored(cfg: Config, st: Receiver, w: Wire, f: DataFrameFields)
    requires st.sequenceNum + 1 == f.sequenceNum && st.isSequence
    ensures var s := OnData(cfg, st, w, f);
      s.result == Ok(true) && s.st.buf == st.buf + f.data && s.wire == Send(w, ACK)
      && OnData(cfg, s.st, s.wire, f) == Step(s.st, Send(s.wire, ACK), Ok(true))
  {
  }

  /** A frame neither repeated nor next in order is refused with NACK and leaves the state alone. */
  lemma OutOfOrderRefused(cfg: Config, st: Receiver, w: Wire, f: DataFrameFields)
    requires f.sequenceNum != st.sequenceNum && f.sequenceNum != st.sequenceNum + 1
    ensures OnData(cfg, st, w, f) == Step(st, Send(w, NACK), Ok(true))
  {
  }

  /**
   * The next frame in order outside a sequence ends the read: its payload is
   * copied to the caller when it fits, and otherwise Buffer_Overflow leaves
   * the assembled data in place with the read marked incomplete.
   */
  lemma SingleFrameCompletes(cfg: Config, st: Receiver, w: Wire, f: DataFrameFields)
    requires st.sequenceNum + 1 == f.sequenceNum && !st.isSequence
    ensures var s := OnData(cfg, st, w, f);
      var all := st.buf + f.data;
      s.wire == Send(w, ACK) && s.st.sequenceNum == f.sequenceNum
      && (st.outBufSz >= |all| ==> s.result == Ok(false) && !s.st.incompleteRead && (all != [] ==> s.st.outBuf == all))
      && (st.outBufSz < |all| ==> s.result == Err(BufferOverflow) && s.st.incompleteRead && s.st.buf == all)
  {
  }

  /** A frame failing crc_check is NACKed and consumed, and nothing else happens. */
  lemma CorruptFrameNacked(cfg: Config, st: Receiver, w: Wire)
    requires w.incoming != [] && !CrcCheck(w.incoming[0])
    ensures ReadLoop(cfg, st, w) == ReadLoop(cfg, st, Send(w.(incoming := w.incoming[1..]), NACK))
  {
  }

  // ---------------------------------------------------------------- buffer overflow

  /**
   * After Buffer_Overflow the next read skips reset and the transport: with a
   * buffer large enough it hands over exactly the data assembled before, and
   * with one still too small it raises Buffer_Overflow again, keeping the data.
   */
  lemma RetryAfterOverflow(cfg: Config, st: Receiver, w: Wire, bufSize: nat)
    requires st.incompleteRead && st.buf != []
    ensures var r := Read(cfg, st, w, bufSize);
      r.wire == w
      && (bufSize >= |st.buf| ==>
            r.result == Ok(Delivery(|st.buf|, st.buf))
            && !r.st.incompleteRead && r.st.buf == [])
      && (bufSize < |st.buf| ==>
            r.result == Err(BufferOverflow) && r.st.incompleteRead && r.st.buf == st.buf)
  {
  }

  // ---------------------------------------------------------------- modes

  /** Under Manual switching a read in Client mode and a write in Server mode are refused untouched. */
  lemma ManualSwitchingRefuses(cfg: Config, st: Receiver, w: Wire, bufSize: nat, data: seq<bv8>)
    requires cfg.switching == Manual && cfg.mtu > 0
    ensures st.mode == Client && !st.incompleteRead ==>
      Read(cfg, st, w, bufSize) == Step(Reset(st).(outBufSz := bufSize), w, Err(IncorrectMode))
    ensures st.mode == Server ==>
      Write(cfg, st, w, data) == Step(Reset(st), w, Err(IncorrectMode))
  {
  }

  /** A wait for the mode the protocol is already in returns true at once. */
  lemma WaitInModeReturns(cfg: Config, st: Receiver, w: Wire)
    ensures st.mode == Server ==> WaitRecvMode(cfg, st, w) == Step(st, w, Ok(true))
    ensures st.mode == Client ==> WaitSendMode(cfg, st, w) == Step(st, w, Ok(true))
  {
  }

  // ---------------------------------------------------------------- sending

  /** A frame answered at once with ACK is written once. */
  lemma AttemptAcked(frame: seq<bv8>, w: Wire, k: nat, rest: seq<seq<bv8>>)
    requires k > 0 && w.incoming == [ControlFrame(ACK)] + rest
    ensures Attempt(frame, w, k) == (Wire(rest, w.outgoing + [frame]), true)
  {
    GoodAckIsAckFrame(ControlFrame(ACK));
  }

  /** Replies that are not good ACKs cost one attempt each; after k of them the frame is given up. */
  lemma {:induction false} AttemptRefused(frame: seq<bv8>, w: Wire, k: nat)
    requires |w.incoming| >= k
    requires forall i | 0 <= i < k :: !GoodAck(w.incoming[i])
    ensures Attempt(frame, w, k) == (Wire(w.incoming[k..], w.outgoing + Repeat(frame, k)), false)
    decreases k
  {
    if k > 0 {
      var w2 := Wire(w.incoming[1..], w.outgoing + [frame]);
      assert forall i | 0 <= i < k - 1 :: w2.incoming[i] == w.incoming[i + 1];
      assert !GoodAck(w.incoming[0]);
      assert Attempt(frame, w, k) == Attempt(frame, w2, k - 1);
      AttemptRefused(frame, w2, k - 1);
      assert w.incoming[1..][k - 1..] == w.incoming[k..];
      assert w.outgoing + [frame] + Repeat(frame, k - 1) == w.outgoing + Repeat(frame, k);
      assert Attempt(frame, w2, k - 1) == (Wire(w2.incoming[k - 1..], w2.outgoing + Repeat(frame, k - 1)), false);
      assert w2.incoming[k - 1..] == w.incoming[k..];
    } else {
      assert w.incoming[k..] == w.incoming;
      assert Repeat(frame, k) == [];
      assert w.outgoing + Repeat(frame, k) == w.outgoing;
      assert Attempt(frame, w, k) == (w, false);
    }
  }

  /** A silent transport: every attempt times out, and after k the frame is given up. */
  lemma {:induction false} AttemptTimesOut(frame: seq<bv8>, w: Wire, k: nat)
    requires w.incoming == []
    ensures Attempt(frame, w, k) == (Wire([], w.outgoing + Repeat(frame, k)), false)
    decreases k
  {
    if k > 0 {
      var w1 := w.(outgoing := w.outgoing + [frame]);
      assert Attempt(frame, w, k) == Attempt(frame, w1, k - 1);
      AttemptTimesOut(frame, w1, k - 1);
      assert w.outgoing + [frame] + Repeat(frame, k - 1) == w.outgoing + Repeat(frame, k);
    } else {
      assert w.outgoing + Repeat(frame, k) == w.outgoing;
    }
  }

  /** k copies of a frame. */
  function Repeat(frame: seq<bv8>, k: nat): (r: seq<seq<bv8>>)
    ensures |r| == k
  {
    if k == 0 then [] else [frame] + Repeat(frame, k - 1)
  }

  /** One acknowledged frame: it is written, its ACK consumed, and the rest of the plan follows. */
  lemma SendFirstAcked(st: Receiver, w: Wire, plan: seq<Outgoing>, rest: seq<seq<bv8>>)
    requires plan != [] && w.incoming == [ControlFrame(ACK)] + rest
    ensures SendFrames(st, w, plan)
      == SendFrames(st.(sequenceNum := st.sequenceNum + if plan[0].Data? then 1 else 0),
                    Wire(rest, w.outgoing + [Encode(plan[0])]), plan[1..])
  {
    AttemptAcked(Encode(plan[0]), w, SEND_ATTEMPTS, rest);
  }

  /** The first of n > 0 ACKs, then the others. */
  lemma AcksFirst(n: nat, rest: seq<seq<bv8>>)
    requires n > 0
    ensures Acks(n) + rest == [ControlFrame(ACK)] + (Acks(n - 1) + rest)
  {
  }

  /** Writing the first frame of a plan and then the others writes the plan. */
  lemma EncodedFirst(out: seq<seq<bv8>>, plan: seq<Outgoing>)
    requires plan != []
    ensures out + [Encode(plan[0])] + Encoded(plan[1..]) == out + Encoded(plan)
  {
    Regroup(out, [Encode(plan[0])], Encoded(plan[1..]));
  }

  /** The first frame acknowledged and then, as assumed of the others, the rest of the plan. */
  lemma SendChain(st: Receiver, w: Wire, plan: seq<Outgoing>, rest: seq<seq<bv8>>)
    requires plan != [] && w.incoming == Acks(|plan|) + rest
    requires var st1 := st.(sequenceNum := st.sequenceNum + if plan[0].Data? then 1 else 0);
      var r := SendFrames(st1, Wire(Acks(|plan| - 1) + rest, w.outgoing + [Encode(plan[0])]), plan[1..]);
      r.result == Ok(()) && r.wire == Wire(rest, w.outgoing + [Encode(plan[0])] + Encoded(plan[1..]))
      && r.st == st1.(sequenceNum := r.st.sequenceNum)
    ensures var r := SendFrames(st, w, plan);
      r.result == Ok(()) && r.wire == Wire(rest, w.outgoing + Encoded(plan))
      && r.st == st.(sequenceNum := r.st.sequenceNum)
  {
    AcksFirst(|plan|, rest);
    SendFirstAcked(st, w, plan, Acks(|plan| - 1) + rest);
    EncodedFirst(w.outgoing, plan);
  }

  /**
   * Over a transport answering every frame with ACK, the plan goes out once,
   * frame by frame, and of the state only sequence_num_ moves.
   */
  lemma {:induction false} SendFramesAcked(st: Receiver, w: Wire, plan: seq<Outgoing>, rest: seq<seq<bv8>>)
    requires w.incoming == Acks(|plan|) + rest
    ensures var r := SendFrames(st, w, plan);
      r.result == Ok(()) && r.wire == Wire(rest, w.outgoing + Encoded(plan))
      && r.st == st.(sequenceNum := r.st.sequenceNum)
    decreases |plan|
  {
    if plan != [] {
      SendFramesAcked(st.(sequenceNum := st.sequenceNum + if plan[0].Data? then 1 else 0),
                      Wire(Acks(|plan| - 1) + rest, w.outgoing + [Encode(plan[0])]), plan[1..], rest);
      SendChain(st, w, plan, rest);
    }
  }

  /** The first frame of a plan never acknowledged in five attempts fails the whole write. */
  lemma FirstFrameRefused(st: Receiver, w: Wire, plan: seq<Outgoing>)
    requires plan != [] && |w.incoming| >= SEND_ATTEMPTS
    requires forall i | 0 <= i < SEND_ATTEMPTS :: !GoodAck(w.incoming[i])
    ensures SendFrames(st, w, plan)
      == Step(st, Wire(w.incoming[SEND_ATTEMPTS..], w.outgoing + Repeat(Encode(plan[0]), SEND_ATTEMPTS)), Err(WriteFailed))
  {
    AttemptRefused(Encode(plan[0]), w, SEND_ATTEMPTS);
  }

  /**
   * write in Client or Undefined mode over a transport that ACKs every frame:
   * it returns the data size, and the wire carries exactly the frames of the
   * write plan, each once; the protocol ends in Client mode.
   */
  lemma WriteOverAckingTransport(cfg: Config, st: Receiver, w: Wire, data: seq<bv8>, rest: seq<seq<bv8>>)
    requires cfg.mtu > 0 && st.mode != Server
    requires w.incoming == Acks(|WritePlan(data, cfg.mtu)|) + rest
    ensures var r := Write(cfg, st, w, data);
      r.result == Ok(|data|)
      && r.wire == Wire(rest, w.outgoing + Encoded(WritePlan(data, cfg.mtu)))
      && r.st == Reset(st).(mode := Client)
  {
    var st1 := Reset(st);
    var st2 := if st1.mode == Undefined then st1.(mode := Client) else st1;
    SendFramesAcked(st2.(sequenceNum := 1), w, WritePlan(data, cfg.mtu), rest);
  }

  // ---------------------------------------------------------------- receiving a message
  
  /** The sequence number of the last chunk of d after m; m when there is none. */
  function LastNumber(d: seq<bv8>, mtu: nat, m: bv8): (r: bv8)
    requires mtu > 0
    decreases |d|
  {
    if |d| == 0 then m else if |d| <= mtu then m + 1 else LastNumber(d[mtu..], mtu, m + 1)
  }

  lemma {:induction false} AcksAppend(a: nat, b: nat)
    ensures Acks(a + b) == Acks(a) + Acks(b)
    decreases a
  {
    if a > 0 {
      AcksAppend(a - 1, b);
    }
  }

  /** Inside a sequence, the next data frame in order is ACKed and appended, and reading goes on. */
  lemma NextInSequence(cfg: Config, st: Receiver, w: Wire, p: seq<bv8>, rest: seq<seq<bv8>>)
    requires st.isSequence && w.incoming == [DataFrame(st.sequenceNum + 1, p)] + rest
    ensures ReadLoop(cfg, st, w)
      == ReadLoop(cfg, st.(sequenceNum := st.sequenceNum + 1, buf := st.buf + p), Wire(rest, w.outgoing + Acks(1)))
  {
    var n := st.sequenceNum + 1;
    var frame := DataFrame(n, p);
    MakeDataFrameRoundTrip(n, p);
    assert st.sequenceNum != n;
    var w1 := Wire(rest, w.outgoing);
    var s := OnFrame(cfg, st, w1, frame);
    assert s == OnData(cfg, st, w1, DataFrameFields(p, n));
    assert s == Step(st.(sequenceNum := n, buf := st.buf + p), Send(w1, ACK), Ok(true));
    assert Send(w1, ACK) == Wire(rest, w.outgoing + Acks(1));
  }

  /** The last chunk of a sequence: one frame holding all that remains. */
  lemma ReceiveLastChunk(cfg: Config, st: Receiver, w: Wire, d: seq<bv8>, rest: seq<seq<bv8>>)
    requires 0 < |d| <= cfg.mtu && st.isSequence
    requires w.incoming == Encoded(Chunks(d, cfg.mtu, st.sequenceNum + 1)) + rest
    ensures ReadLoop(cfg, st, w)
      == ReadLoop(cfg, st.(sequenceNum := LastNumber(d, cfg.mtu, st.sequenceNum), buf := st.buf + d),
                  Wire(rest, w.outgoing + Acks(|Chunks(d, cfg.mtu, st.sequenceNum + 1)|)))
  {
    var n := st.sequenceNum + 1;
    assert Chunks(d, cfg.mtu, n) == [Data(n, d)];
    assert Encoded([Data(n, d)]) == [DataFrame(n, d)];
    NextInSequence(cfg, st, w, d, rest);
  }

  /** A chunking longer than one frame: its first frame of mtu bytes, then the chunks of the rest. */
  lemma ChunksSplit(d: seq<bv8>, mtu: nat, m: bv8)
    requires 0 < mtu < |d|
    ensures Chunks(d, mtu, m + 1) == [Data(m + 1, d[..mtu])] + Chunks(d[mtu..], mtu, m + 1 + 1)
    ensures Encoded(Chunks(d, mtu, m + 1)) == [DataFrame(m + 1, d[..mtu])] + Encoded(Chunks(d[mtu..], mtu, m + 1 + 1))
    ensures |Chunks(d, mtu, m + 1)| == 1 + |Chunks(d[mtu..], mtu, m + 1 + 1)|
  {
  }

  /** Cutting a sequence and joining the pieces back gives it back, after any prefix. */
  lemma JoinCut(a: seq<bv8>, d: seq<bv8>, k: nat)
    requires k <= |d|
    ensures a + d[..k] + d[k..] == a + d
  {
    assert d[..k] + d[k..] == d;
  }

  /** Acknowledging one frame and then k more is acknowledging k + 1. */
  lemma AcksThenMore(out: seq<seq<bv8>>, k: nat)
    ensures out + Acks(1) + Acks(k) == out + Acks(1 + k)
  {
    AcksAppend(1, k);
  }

  /** The frames of a chunking longer than one frame, followed by more: the first chunk's frame comes first. */
  lemma ChunksIncoming(d: seq<bv8>, mtu: nat, m: bv8, rest: seq<seq<bv8>>)
    requires 0 < mtu < |d|
    ensures Encoded(Chunks(d, mtu, m + 1)) + rest
      == [DataFrame(m + 1, d[..mtu])] + (Encoded(Chunks(d[mtu..], mtu, m + 1 + 1)) + rest)
  {
    ChunksSplit(d, mtu, m);
  }

  /** The first, full chunk of a longer sequence. */
  lemma ReceiveFirstChunk(cfg: Config, st: Receiver, w: Wire, d: seq<bv8>, rest: seq<seq<bv8>>)
    requires 0 < cfg.mtu < |d| && st.isSequence
    requires w.incoming == Encoded(Chunks(d, cfg.mtu, st.sequenceNum + 1)) + rest
    ensures var n := st.sequenceNum + 1;
      ReadLoop(cfg, st, w)
      == ReadLoop(cfg, st.(sequenceNum := n, buf := st.buf + d[..cfg.mtu]),
                  Wire(Encoded(Chunks(d[cfg.mtu..], cfg.mtu, n + 1)) + rest, w.outgoing + Acks(1)))
  {
    ChunksIncoming(d, cfg.mtu, st.sequenceNum, rest);
    NextInSequence(cfg, st, w, d[..cfg.mtu], Encoded(Chunks(d[cfg.mtu..], cfg.mtu, st.sequenceNum + 1 + 1)) + rest);
  }

  /** The state after the first chunk and then the rest is the state after all the chunks. */
  lemma ChunkStatesAgree(mtu: nat, st: Receiver, d: seq<bv8>)
    requires 0 < mtu < |d|
    ensures var st1 := st.(sequenceNum := st.sequenceNum + 1, buf := st.buf + d[..mtu]);
      st1.(sequenceNum := LastNumber(d[mtu..], mtu, st1.sequenceNum), buf := st1.buf + d[mtu..])
        == st.(sequenceNum := LastNumber(d, mtu, st.sequenceNum), buf := st.buf + d)
  {
    JoinCut(st.buf, d, mtu);
  }

  /** The ACKs for the first chunk and then the rest are the ACKs for all the chunks. */
  lemma ChunkAcksAgree(mtu: nat, m: bv8, out: seq<seq<bv8>>, d: seq<bv8>)
    requires 0 < mtu < |d|
    ensures out + Acks(1) + Acks(|Chunks(d[mtu..], mtu, m + 1 + 1)|) == out + Acks(|Chunks(d, mtu, m + 1)|)
  {
    ChunksSplit(d, mtu, m);
    AcksThenMore(out, |Chunks(d[mtu..], mtu, m + 1 + 1)|);
  }

  /** Receiving a first, full chunk and then, as assumed of the rest, all its chunks, receives all of d. */
  lemma {:induction false} ChunksChain(cfg: Config, st: Receiver, w: Wire, d: seq<bv8>, rest: seq<seq<bv8>>, st1: Receiver, w1: Wire)
    requires 0 < cfg.mtu < |d| && st.isSequence
    requires w.incoming == Encoded(Chunks(d, cfg.mtu, st.sequenceNum + 1)) + rest
    requires st1 == st.(sequenceNum := st.sequenceNum + 1, buf := st.buf + d[..cfg.mtu])
    requires w1 == Wire(Encoded(Chunks(d[cfg.mtu..], cfg.mtu, st.sequenceNum + 1 + 1)) + rest, w.outgoing + Acks(1))
    requires ReadLoop(cfg, st1, w1)
      == ReadLoop(cfg, st1.(sequenceNum := LastNumber(d[cfg.mtu..], cfg.mtu, st1.sequenceNum), buf := st1.buf + d[cfg.mtu..]),
                  Wire(rest, w1.outgoing + Acks(|Chunks(d[cfg.mtu..], cfg.mtu, st.sequenceNum + 1 + 1)|)))
    ensures ReadLoop(cfg, st, w)
      == ReadLoop(cfg, st.(sequenceNum := LastNumber(d, cfg.mtu, st.sequenceNum), buf := st.buf + d),
                  Wire(rest, w.outgoing + Acks(|Chunks(d, cfg.mtu, st.sequenceNum + 1)|)))
  {
    ReceiveFirstChunk(cfg, st, w, d, rest);
    ChunkStatesAgree(cfg.mtu, st, d);
    ChunkAcksAgree(cfg.mtu, st.sequenceNum, w.outgoing, d);
  }


  /**
   * Inside a sequence, the chunks of d numbered on from sequence_num_ are
   * each ACKed once and appended in order.
   */
  lemma {:induction false} ReceiveChunks(cfg: Config, st: Receiver, w: Wire, d: seq<bv8>, rest: seq<seq<bv8>>)
    requires cfg.mtu > 0 && st.isSequence && d != []
    requires w.incoming == Encoded(Chunks(d, cfg.mtu, st.sequenceNum + 1)) + rest
    ensures ReadLoop(cfg, st, w)
      == ReadLoop(cfg, st.(sequenceNum := LastNumber(d, cfg.mtu, st.sequenceNum), buf := st.buf + d),
                  Wire(rest, w.outgoing + Acks(|Chunks(d, cfg.mtu, st.sequenceNum + 1)|)))
    decreases |d|
  {
    var mtu, n := cfg.mtu, st.sequenceNum + 1;
    if |d| <= mtu {
      ReceiveLastChunk(cfg, st, w, d, rest);
    } else {
      var st1 := st.(sequenceNum := n, buf := st.buf + d[..mtu]);
      var w1 := Wire(Encoded(Chunks(d[mtu..], mtu, n + 1)) + rest, w.outgoing + Acks(1));
      ReceiveChunks(cfg, st1, w1, d[mtu..], rest);
      ChunksChain(cfg, st, w, d, rest, st1, w1);
    }
  }

  lemma {:induction false} EncodedAppend(a: seq<Outgoing>, b: seq<Outgoing>)
    ensures Encoded(a + b) == Encoded(a) + Encoded(b)
    decreases |a|
  {
    if a != [] {
      assert (a + b)[1..] == a[1..] + b;
      EncodedAppend(a[1..], b);
    } else {
      assert a + b == b;
    }
  }

  /** The frames write puts on the wire for data longer than one frame, followed by more. */
  lemma SequenceIncoming(d: seq<bv8>, mtu: nat, rest: seq<seq<bv8>>)
    requires 0 < mtu < |d|
    ensures Encoded(WritePlan(d, mtu)) + rest
      == [ControlFrame(SEQBEGIN)] + (Encoded(Chunks(d, mtu, 1)) + ([ControlFrame(SEQEND)] + rest))
  {
    SequencePlanEncoded(d, mtu);
    Regroup4([ControlFrame(SEQBEGIN)], Encoded(Chunks(d, mtu, 1)), [ControlFrame(SEQEND)], rest);
  }

  /** The frames of a multi-frame write: SEQBEGIN, the chunks' frames, SEQEND. */
  lemma SequencePlanEncoded(d: seq<bv8>, mtu: nat)
    requires 0 < mtu < |d|
    ensures Encoded(WritePlan(d, mtu)) == [ControlFrame(SEQBEGIN)] + Encoded(Chunks(d, mtu, 1)) + [ControlFrame(SEQEND)]
  {
    var chunks := Chunks(d, mtu, 1);
    EncodedAppend([Control(SEQBEGIN)] + chunks, [Control(SEQEND)]);
    EncodedAppend([Control(SEQBEGIN)], chunks);
    assert Encoded([Control(SEQBEGIN)]) == [ControlFrame(SEQBEGIN)];
    assert Encoded([Control(SEQEND)]) == [ControlFrame(SEQEND)];
  }

  lemma Regroup4<T>(x: seq<T>, y: seq<T>, z: seq<T>, u: seq<T>)
    ensures x + y + z + u == x + (y + (z + u))
  {
  }

  /** SEQBEGIN starts a sequence: it is ACKed and reading goes on. */
  lemma TakeSeqBegin(cfg: Config, st: Receiver, w: Wire, rest: seq<seq<bv8>>)
    requires w.incoming == [ControlFrame(SEQBEGIN)] + rest
    ensures ReadLoop(cfg, st, w) == ReadLoop(cfg, st.(isSequence := true), Wire(rest, w.outgoing + Acks(1)))
  {
    var s := OnFrame(cfg, st, Wire(rest, w.outgoing), ControlFrame(SEQBEGIN));
    assert s == Step(st.(isSequence := true), Wire(rest, w.outgoing + Acks(1)), Ok(true));
  }

  /** SEQEND ends the sequence: it is ACKed and the read is completed. */
  lemma TakeSeqEnd(cfg: Config, st: Receiver, w: Wire, rest: seq<seq<bv8>>)
    requires w.incoming == [ControlFrame(SEQEND)] + rest
    ensures ReadLoop(cfg, st, w)
      == Step(CompleteRead(cfg, st.(isSequence := false)), Wire(rest, w.outgoing + Acks(1)),
              if Overflows(st) then Err(BufferOverflow) else Ok(()))
  {
  }

  /** What a receiver fresh from reset ends with after all the frames of a write of d. */
  function Received(cfg: Config, st: Receiver, d: seq<bv8>): (r: Receiver)
    requires cfg.mtu > 0
    ensures !Overflows(st.(buf := st.buf + d)) ==> r.buf == (if |st.buf + d| > cfg.recvBufReserve then [] else st.buf + d)
  {
    CompleteRead(cfg, st.(sequenceNum := LastNumber(d, cfg.mtu, 0), buf := st.buf + d))
  }

  /** data that fits one frame: it is ACKed and ends the read at once. */
  lemma ReceiveSingle(cfg: Config, st: Receiver, w: Wire, d: seq<bv8>, rest: seq<seq<bv8>>)
    requires 0 < |d| <= cfg.mtu && !st.isSequence && st.sequenceNum == 0
    requires w.incoming == Encoded(WritePlan(d, cfg.mtu)) + rest
    ensures ReadLoop(cfg, st, w)
      == Step(Received(cfg, st, d), Wire(rest, w.outgoing + Acks(|WritePlan(d, cfg.mtu)|)),
              if Overflows(st.(buf := st.buf + d)) then Err(BufferOverflow) else Ok(()))
  {
    assert Encoded([Data(1, d)]) == [DataFrame(1, d)];
    MakeDataFrameRoundTrip(1, d);
    var s := OnFrame(cfg, st, Wire(rest, w.outgoing), DataFrame(1, d));
    assert s == OnData(cfg, st, Wire(rest, w.outgoing), DataFrameFields(d, 1));
    assert s == Finish(cfg, st.(sequenceNum := 1, buf := st.buf + d), Wire(rest, w.outgoing + Acks(1)));
  }

  /** Receiving SEQBEGIN, the chunks and SEQEND, as assumed of each step, receives the whole of d. */
  lemma {:induction false} SequenceChain(cfg: Config, st: Receiver, w: Wire, d: seq<bv8>, rest: seq<seq<bv8>>,
                       stA: Receiver, wA: Wire, stB: Receiver, wB: Wire)
    requires 0 < cfg.mtu < |d| && !st.isSequence && st.sequenceNum == 0
    requires stA == st.(isSequence := true)
    requires wA == Wire(Encoded(Chunks(d, cfg.mtu, 1)) + ([ControlFrame(SEQEND)] + rest), w.outgoing + Acks(1))
    requires stB == stA.(sequenceNum := LastNumber(d, cfg.mtu, 0), buf := stA.buf + d)
    requires wB == Wire([ControlFrame(SEQEND)] + rest, wA.outgoing + Acks(|Chunks(d, cfg.mtu, 1)|))
    requires ReadLoop(cfg, st, w) == ReadLoop(cfg, stA, wA)
    requires ReadLoop(cfg, stA, wA) == ReadLoop(cfg, stB, wB)
    requires ReadLoop(cfg, stB, wB)
      == Step(CompleteRead(cfg, stB.(isSequence := false)), Wire(rest, wB.outgoing + Acks(1)),
              if Overflows(stB) then Err(BufferOverflow) else Ok(()))
    ensures ReadLoop(cfg, st, w)
      == Step(Received(cfg, st, d), Wire(rest, w.outgoing + Acks(|WritePlan(d, cfg.mtu)|)),
              if Overflows(st.(buf := st.buf + d)) then Err(BufferOverflow) else Ok(()))
  {
    SequenceAcks(w.outgoing, d, cfg.mtu);
    assert stB.(isSequence := false) == st.(sequenceNum := LastNumber(d, cfg.mtu, 0), buf := st.buf + d);
  }


  /** ACKs written in three runs are the ACKs of all three. */
  lemma AcksInThreeRuns(out: seq<seq<bv8>>, a: nat, b: nat, c: nat)
    ensures out + Acks(a) + Acks(b) + Acks(c) == out + Acks(a + b + c)
  {
    AcksAppend(a, b);
    AcksAppend(a + b, c);
    Regroup(out, Acks(a), Acks(b));
    var ab := out + Acks(a + b);
    assert out + Acks(a) + Acks(b) == ab;
    Regroup(out, Acks(a + b), Acks(c));
  }

  lemma Regroup<T>(x: seq<T>, y: seq<T>, z: seq<T>)
    ensures x + y + z == x + (y + z)
  {
  }

  /** The ACKs for SEQBEGIN, the chunks and SEQEND: one per frame of the write plan. */
  lemma SequenceAcks(out: seq<seq<bv8>>, d: seq<bv8>, mtu: nat)
    requires 0 < mtu < |d|
    ensures out + Acks(1) + Acks(|Chunks(d, mtu, 1)|) + Acks(1) == out + Acks(|WritePlan(d, mtu)|)
  {
    assert |WritePlan(d, mtu)| == 1 + |Chunks(d, mtu, 1)| + 1;
    AcksInThreeRuns(out, 1, |Chunks(d, mtu, 1)|, 1);
  }

  /** data longer than one frame: SEQBEGIN, the chunks in order and SEQEND, each ACKed once. */
  lemma ReceiveSequence(cfg: Config, st: Receiver, w: Wire, d: seq<bv8>, rest: seq<seq<bv8>>)
    requires 0 < cfg.mtu < |d| && !st.isSequence && st.sequenceNum == 0
    requires w.incoming == Encoded(WritePlan(d, cfg.mtu)) + rest
    ensures ReadLoop(cfg, st, w)
      == Step(Received(cfg, st, d), Wire(rest, w.outgoing + Acks(|WritePlan(d, cfg.mtu)|)),
              if Overflows(st.(buf := st.buf + d)) then Err(BufferOverflow) else Ok(()))
  {
    var mtu := cfg.mtu;
    SequenceIncoming(d, mtu, rest);
    var stA := st.(isSequence := true);
    var wA := Wire(Encoded(Chunks(d, mtu, 1)) + ([ControlFrame(SEQEND)] + rest), w.outgoing + Acks(1));
    TakeSeqBegin(cfg, st, w, Encoded(Chunks(d, mtu, 1)) + ([ControlFrame(SEQEND)] + rest));
    ReceiveChunks(cfg, stA, wA, d, [ControlFrame(SEQEND)] + rest);
    var stB := stA.(sequenceNum := LastNumber(d, mtu, 0), buf := stA.buf + d);
    var wB := Wire([ControlFrame(SEQEND)] + rest, wA.outgoing + Acks(|Chunks(d, mtu, 1)|));
    TakeSeqEnd(cfg, stB, wB, rest);
    SequenceChain(cfg, st, w, d, rest, stA, wA, stB, wB);
  }

  /** A receiver fresh from reset takes all the frames of a write of d, ACKs each once, and completes the read. */
  lemma ReceiveMessage(cfg: Config, st: Receiver, w: Wire, d: seq<bv8>, rest: seq<seq<bv8>>)
    requires cfg.mtu > 0 && d != [] && !st.isSequence && st.sequenceNum == 0
    requires w.incoming == Encoded(WritePlan(d, cfg.mtu)) + rest
    ensures ReadLoop(cfg, st, w)
      == Step(Received(cfg, st, d), Wire(rest, w.outgoing + Acks(|WritePlan(d, cfg.mtu)|)),
              if Overflows(st.(buf := st.buf + d)) then Err(BufferOverflow) else Ok(()))
  {
    if |d| <= cfg.mtu {
      ReceiveSingle(cfg, st, w, d, rest);
    } else {
      ReceiveSequence(cfg, st, w, d, rest);
    }
  }

  /** The end of a read after the whole message arrived, in a receiver that started empty. */
  lemma DeliverMessage(cfg: Config, st: Receiver, w: Wire, d: seq<bv8>)
    requires cfg.mtu > 0 && d != [] && st.buf == [] && !Overflows(st.(buf := st.buf + d))
    ensures Deliver(Received(cfg, st, d), w) == Step(Reset(st), w, Ok(Delivery(|d|, d)))
  {
    assert st.buf + d == d;
  }

  /**
   * read in Server or Undefined mode over a transport carrying the frames of
   * a write of d: every frame is ACKed once; with a buffer of at least |d|
   * bytes the read returns d and its size and the protocol is left reset in
   * Server mode; with a smaller one it raises Buffer_Overflow and keeps d for
   * the next read.
   */
  lemma ReadMessage(cfg: Config, st: Receiver, w: Wire, bufSize: nat, d: seq<bv8>, rest: seq<seq<bv8>>)
    requires cfg.mtu > 0 && d != [] && st.mode != Client && !st.incompleteRead
    requires w.incoming == Encoded(WritePlan(d, cfg.mtu)) + rest
    ensures var r := Read(cfg, st, w, bufSize);
      r.wire == Wire(rest, w.outgoing + Acks(|WritePlan(d, cfg.mtu)|))
      && (bufSize >= |d| ==> r.result == Ok(Delivery(|d|, d)) && r.st == Reset(st).(mode := Server))
      && (bufSize < |d| ==> r.result == Err(BufferOverflow) && r.st.incompleteRead && r.st.buf == d && r.st.mode == Server)
  {
    var st1 := Reset(st).(mode := Server, outBufSz := bufSize);
    ReceiveMessage(cfg, st1, w, d, rest);
    if bufSize >= |d| {
      DeliverMessage(cfg, st1, Wire(rest, w.outgoing + Acks(|WritePlan(d, cfg.mtu)|)), d);
    } else {
      assert st1.buf + d == d;
    }
  }

  /**
   * The whole exchange: the frames a writer puts on the wire over a reader
   * that ACKs them, given to that reader, deliver the data written, and the
   * ACKs the reader writes back are exactly those the writer consumed.
   */
  lemma WriteThenRead(cfg: Config, writer: Receiver, reader: Receiver, d: seq<bv8>, bufSize: nat)
    requires cfg.mtu > 0 && d != [] && bufSize >= |d|
    requires writer.mode != Server && reader.mode != Client && !reader.incompleteRead
    ensures var n := |WritePlan(d, cfg.mtu)|;
      var sent := Write(cfg, writer, Wire(Acks(n), []), d);
      var got := Read(cfg, reader, Wire(sent.wire.outgoing, []), bufSize);
      sent.result == Ok(|d|) && sent.wire.incoming == []
      && got.result == Ok(Delivery(|d|, d)) && got.wire == Wire([], Acks(n))
  {
    var n := |WritePlan(d, cfg.mtu)|;
    assert Acks(n) + [] == Acks(n);
    WriteOverAckingTransport(cfg, writer, Wire(Acks(n), []), d, []);
    var frames := Encoded(WritePlan(d, cfg.mtu));
    assert [] + frames == frames && frames + [] == frames;
    ReadMessage(cfg, reader, Wire(frames, []), bufSize, d, []);
    assert [] + Acks(n) == Acks(n);
  }

  // ---------------------------------------------------------------- findings in read_impl

  /**
   * As written, a read of more bytes than the receive reserve returns 0:
   * complete_read copies the data out and then releases buf_, whose size is
   * what read_impl returns. Counting the bytes copied returns their number.
   */
  lemma LargeReadCountLost(cfg: Config, st: Receiver, w: Wire)
    requires !Overflows(st) && |st.buf| > cfg.recvBufReserve
    ensures DeliverAsWritten(CompleteRead(cfg, st), w).result == Ok(Delivery(0, st.buf))
    ensures Deliver(CompleteRead(cfg, st), w).result == Ok(Delivery(|st.buf|, st.buf))
  {
  }

  /** SETRECV in a protocol not yet in Server mode: ACKed, reset, now Server, and the read is over. */
  lemma TakeSetRecv(cfg: Config, st: Receiver, w: Wire, rest: seq<seq<bv8>>)
    requires st.mode != Server && w.incoming == [ControlFrame(SETRECV)] + rest
    ensures ReadLoop(cfg, st, w) == Step(Reset(st).(mode := Server), Wire(rest, w.outgoing + Acks(1)), Ok(()))
  {
    var s := OnFrame(cfg, st, Wire(rest, w.outgoing), ControlFrame(SETRECV));
    assert s == Step(Reset(st).(mode := Server), Wire(rest, w.outgoing + Acks(1)), Ok(false));
  }

  /** wait_recv_mode in Client mode, answered by SETRECV: the protocol is reset into Server mode. */
  lemma WaitForSetRecv(cfg: Config, st: Receiver, w: Wire, rest: seq<seq<bv8>>)
    requires st.mode == Client && !st.incompleteRead && w.incoming == [ControlFrame(SETRECV)] + rest
    ensures WaitRecvMode(cfg, st, w) == Step(Reset(st).(mode := Server), Wire(rest, w.outgoing + Acks(1)), Ok(true))
  {
    var st0 := st.(mode := Undefined, outBuf := [], outBufSz := WAIT_BUF_SIZE);
    TakeSetRecv(cfg, st0, w, rest);
    assert Reset(Reset(st0).(mode := Server)) == Reset(st).(mode := Server);
  }

  /**
   * As written, a read in Client mode under Auto switching, where the peer
   * sends SETRECV and then a message, raises Buffer_Overflow whatever the
   * size of the caller's buffer: the wait's nested read ends with reset, and
   * the message is then completed against a buffer of size 0. The data is
   * kept, and only the next read hands it over (RetryAfterOverflow).
   */
  lemma SwitchThenReadAsWritten(cfg: Config, st: Receiver, w: Wire, bufSize: nat, d: seq<bv8>, rest: seq<seq<bv8>>)
    requires cfg.mtu > 0 && cfg.switching == Auto && st.mode == Client && !st.incompleteRead && d != []
    requires w.incoming == [ControlFrame(SETRECV)] + (Encoded(WritePlan(d, cfg.mtu)) + rest)
    ensures var r := ReadInClientAsWritten(cfg, Reset(st), w, bufSize);
      r.result == Err(BufferOverflow) && r.st.incompleteRead && r.st.buf == d && r.st.mode == Server
  {
    var st0 := Reset(st).(outBufSz := bufSize);
    WaitForSetRecv(cfg, st0, w, Encoded(WritePlan(d, cfg.mtu)) + rest);
    var st1 := Reset(st0).(mode := Server);
    ReceiveMessage(cfg, st1, Wire(Encoded(WritePlan(d, cfg.mtu)) + rest, w.outgoing + Acks(1)), d, rest);
    assert st1.buf + d == d;
  }

  /**
   * The same exchange with the caller's buffer targeted again after the
   * wait: the read switches to Server mode and returns the message.
   */
  lemma SwitchThenRead(cfg: Config, st: Receiver, w: Wire, bufSize: nat, d: seq<bv8>, rest: seq<seq<bv8>>)
    requires cfg.mtu > 0 && cfg.switching == Auto && st.mode == Client && !st.incompleteRead && d != []
    requires w.incoming == [ControlFrame(SETRECV)] + (Encoded(WritePlan(d, cfg.mtu)) + rest)
    requires bufSize >= |d|
    ensures var r := Read(cfg, st, w, bufSize);
      r.result == Ok(Delivery(|d|, d)) && r.st == Reset(st).(mode := Server)
      && r.wire == Wire(rest, w.outgoing + Acks(1) + Acks(|WritePlan(d, cfg.mtu)|))
  {
    var st0 := Reset(st).(outBufSz := bufSize);
    WaitForSetRecv(cfg, st0, w, Encoded(WritePlan(d, cfg.mtu)) + rest);
    var st1 := Reset(st0).(mode := Server, outBufSz := bufSize);
    var w1 := Wire(Encoded(WritePlan(d, cfg.mtu)) + rest, w.outgoing + Acks(1));
    ReceiveMessage(cfg, st1, w1, d, rest);
    DeliverMessage(cfg, st1, Wire(rest, w1.outgoing + Acks(|WritePlan(d, cfg.mtu)|)), d);
  }
}
