/**
 * sprot::Protocol as a class (sprot/sprot.h, sprot/sprot.cpp): the fields it
 * updates in place, the transport it talks through, and its members as
 * methods. Every method is proved to leave the fields, the transport and its
 * result exactly as the matching function of SprotMachine prescribes, so the
 * lemmas of SprotProperties hold of the class.
 */
module SprotProtocol {
  import opened Wrappers
  import opened Sprot
  import opened SprotMachine

  /**
   * A scripted Transport_Interface: the frames it will deliver, in order, and
   * the frames written to it. Running out of frames is a read timeout.
   */
  class Transport {
    var incoming: seq<seq<bv8>>
    var outgoing: seq<seq<bv8>>

    constructor(script: seq<seq<bv8>>)
      ensures incoming == script && outgoing == []
    {
      incoming := script;
      outgoing := [];
    }

    /** read: the next frame, or Timeout when none arrives. */
    method Read() returns (r: Result<seq<bv8>, SprotError>)
      modifies this
      ensures old(incoming) == [] ==> r == Err(Timeout) && incoming == old(incoming)
      ensures old(incoming) != [] ==> r == Ok(old(incoming)[0]) && incoming == old(incoming)[1..]
      ensures outgoing == old(outgoing)
    {
      if incoming == [] {
        return Err(Timeout);
      }
      r := Ok(incoming[0]);
      incoming := incoming[1..];
    }

    /** write: the frame goes out whole. */
    method Write(frame: seq<bv8>)
      modifies this
      ensures outgoing == old(outgoing) + [frame] && incoming == old(incoming)
    {
      outgoing := outgoing + [frame];
    }
  }

  /** Which frame write_impl's current_frame points at. */
  datatype Slot = NoFrame | ControlSlot | DataSlot

  /**
   * write_impl's loop variables: seq_begin_sent, data_left,
   * data_frame_counter, current_frame and control_frame's type.
   */
  datatype Cursor = Cursor(seqBeginSent: bool, dataLeft: int, counter: nat, current: Slot, controlType: bv8)

  /**
   * write_impl's progress between frames: whether SEQBEGIN was acknowledged
   * (seq_begin_sent), how many bytes are left (data_left) and the sequence
   * number the next data frame carries (sequence_num_).
   */
  datatype Progress = Progress(seqBeginSent: bool, dataLeft: int, n: bv8)

  /** What the loop variables promise between frames. */
  predicate Sending(data: seq<bv8>, mtu: nat, p: Progress) {
    mtu > 0 && 0 <= p.dataLeft <= |data| &&
    (!p.seqBeginSent ==> (p.dataLeft == |data| || p.dataLeft == 0) && (p.dataLeft > 0 ==> p.n == 1)) &&
    (p.seqBeginSent ==> |data| > mtu)
  }

  /** The frames write_impl still has to send. */
  function Remaining(data: seq<bv8>, mtu: nat, p: Progress): seq<Outgoing>
    requires Sending(data, mtu, p)
  {
    var rest := data[|data| - p.dataLeft..];
    if p.seqBeginSent then Chunks(rest, mtu, p.n) + [Control(SEQEND)] else WritePlan(rest, mtu)
  }

  /**
   * The frame write_impl sends next: SEQBEGIN while it is not acknowledged and
   * more than MTU_ bytes are left, SEQEND once a sequence has no bytes left,
   * otherwise a data frame with up to MTU_ of the bytes left.
   */
  function NextFrame(data: seq<bv8>, mtu: nat, p: Progress): Outgoing
    requires 0 <= p.dataLeft <= |data|
  {
    var off := |data| - p.dataLeft;
    if !p.seqBeginSent && p.dataLeft > mtu then Control(SEQBEGIN)
    else if p.dataLeft == 0 then Control(SEQEND)
    else Data(p.n, data[off..off + if p.dataLeft > mtu then mtu else p.dataLeft])
  }

  /** The progress once frame o is acknowledged. */
  function After(p: Progress, o: Outgoing): Progress {
    if o.Data? then p.(dataLeft := p.dataLeft - |o.payload|, n := p.n + 1)
    else if o == Control(SEQBEGIN) then p.(seqBeginSent := true)
    else p
  }

  /** The frames left after the acknowledged frame o: nothing after SEQEND. */
  function RemainingAfter(data: seq<bv8>, mtu: nat, p: Progress, o: Outgoing): seq<Outgoing>
  {
    if o == Control(SEQEND) || !Sending(data, mtu, After(p, o)) then [] else Remaining(data, mtu, After(p, o))
  }

  /** SendFrames takes the first frame of a plan, then the others. */
  lemma SendFramesFirst(st: Receiver, w: Wire, o: Outgoing, rest: seq<Outgoing>)
    ensures SendFrames(st, w, [o] + rest) ==
      var (w1, ok) := Attempt(Encode(o), w, SEND_ATTEMPTS);
      if !ok then Step(st, w1, Err(WriteFailed))
      else SendFrames(if o.Data? then st.(sequenceNum := st.sequenceNum + 1) else st, w1, rest)
  {
    assert ([o] + rest)[0] == o && ([o] + rest)[1..] == rest;
  }

  /** Acknowledging SEQBEGIN leaves the chunks and SEQEND. */
  lemma StepSeqBegin(data: seq<bv8>, mtu: nat, p: Progress)
    requires Sending(data, mtu, p) && !p.seqBeginSent && p.dataLeft > mtu
    ensures NextFrame(data, mtu, p) == Control(SEQBEGIN)
    ensures Remaining(data, mtu, p) == [Control(SEQBEGIN)] + RemainingAfter(data, mtu, p, Control(SEQBEGIN))
  {
    assert p == Progress(false, |data|, 1);
    assert data[0..] == data;
    assert RemainingAfter(data, mtu, p, Control(SEQBEGIN)) == Remaining(data, mtu, Progress(true, |data|, 1));
  }

  /** With nothing left inside a sequence, SEQEND is the last frame. */
  lemma StepSeqEnd(data: seq<bv8>, mtu: nat, p: Progress)
    requires Sending(data, mtu, p) && p.seqBeginSent && p.dataLeft == 0
    ensures NextFrame(data, mtu, p) == Control(SEQEND)
    ensures Remaining(data, mtu, p) == [Control(SEQEND)] + RemainingAfter(data, mtu, p, Control(SEQEND))
  {
    assert data[|data|..] == [];
  }

  /** Acknowledging the only data frame of a short message leaves nothing. */
  lemma StepSingle(data: seq<bv8>, mtu: nat, p: Progress)
    requires Sending(data, mtu, p) && !p.seqBeginSent && 0 < p.dataLeft <= mtu
    ensures NextFrame(data, mtu, p) == Data(1, data)
    ensures Remaining(data, mtu, p) == [Data(1, data)] + RemainingAfter(data, mtu, p, Data(1, data))
  {
    assert data[0..] == data[0..|data|] == data;
    assert Remaining(data, mtu, Progress(false, 0, 2)) == [] by {
      assert data[|data|..] == [];
    }
  }

  /** Acknowledging a full chunk inside a sequence leaves the chunks after it. */
  lemma StepChunk(data: seq<bv8>, mtu: nat, p: Progress)
    requires Sending(data, mtu, p) && p.seqBeginSent && p.dataLeft > mtu
    ensures var off := |data| - p.dataLeft; var o := Data(p.n, data[off..off + mtu]);
      NextFrame(data, mtu, p) == o && Remaining(data, mtu, p) == [o] + RemainingAfter(data, mtu, p, o)
  {
    var off := |data| - p.dataLeft;
    var o := Data(p.n, data[off..off + mtu]);
    var rest := data[off..];
    assert rest[..mtu] == data[off..off + mtu];
    assert rest[mtu..] == data[|data| - (p.dataLeft - mtu)..];
  }

  /** Acknowledging the last chunk of a sequence leaves SEQEND. */
  lemma StepLastChunk(data: seq<bv8>, mtu: nat, p: Progress)
    requires Sending(data, mtu, p) && p.seqBeginSent && 0 < p.dataLeft <= mtu
    ensures var off := |data| - p.dataLeft; var o := Data(p.n, data[off..]);
      NextFrame(data, mtu, p) == o && Remaining(data, mtu, p) == [o] + RemainingAfter(data, mtu, p, o)
  {
    var off := |data| - p.dataLeft;
    var o := Data(p.n, data[off..]);
    assert data[off..] == data[off..off + p.dataLeft];
    assert data[|data|..] == [];
    assert After(p, o) == Progress(true, 0, p.n + 1);
  }

  /** The plan that remains is the next frame followed by what remains once it is acknowledged. */
  lemma RemainingStep(data: seq<bv8>, mtu: nat, p: Progress)
    requires Sending(data, mtu, p) && (p.seqBeginSent || p.dataLeft > 0)
    ensures var o := NextFrame(data, mtu, p);
      Remaining(data, mtu, p) == [o] + RemainingAfter(data, mtu, p, o)
  {
    if !p.seqBeginSent && p.dataLeft > mtu {
      StepSeqBegin(data, mtu, p);
    } else if p.dataLeft == 0 {
      StepSeqEnd(data, mtu, p);
    } else if !p.seqBeginSent {
      StepSingle(data, mtu, p);
    } else if p.dataLeft > mtu {
      StepChunk(data, mtu, p);
    } else {
      StepLastChunk(data, mtu, p);
    }
  }

  /** The current_frame write_impl keeps between frames, and data_frame_counter * MTU_ as the offset of the bytes left. */
  predicate Pointing(data: seq<bv8>, mtu: nat, p: Progress, counter: nat, current: Slot) {
    (p.dataLeft > 0 ==> counter * mtu == |data| - p.dataLeft) &&
    (current == ControlSlot ==> p.seqBeginSent && p.dataLeft > mtu) &&
    (!p.seqBeginSent ==> current == DataSlot) &&
    current != NoFrame
  }

  /**
   * The head of write_impl's loop body: point current_frame at SEQBEGIN, a data
   * frame, SEQEND or nothing, and fill in the data frame from
   * data_frame_counter * MTU_. The frame chosen is the next one of the plan,
   * and nothing is chosen exactly when a message that needed no sequence has
   * been sent.
   */
  method SelectFrame(data: seq<bv8>, mtu: nat, seqBeginSent: bool, dataLeft: int, counter: nat, n: bv8, current: Slot, controlType: bv8)
    returns (slot: Slot, kind: bv8, payload: seq<bv8>)
    requires Sending(data, mtu, Progress(seqBeginSent, dataLeft, n))
    requires Pointing(data, mtu, Progress(seqBeginSent, dataLeft, n), counter, current)
    ensures slot == NoFrame <==> !seqBeginSent && dataLeft == 0
    ensures slot == DataSlot ==> 0 < |payload| <= dataLeft
    ensures slot == ControlSlot ==> kind == SEQBEGIN || kind == SEQEND
    ensures slot != NoFrame ==>
      (if slot == DataSlot then Data(n, payload) else Control(kind)) == NextFrame(data, mtu, Progress(seqBeginSent, dataLeft, n))
  {
    slot, kind := current, controlType;
    if dataLeft > mtu && !seqBeginSent {
      slot := ControlSlot;
      kind := SEQBEGIN;
    }
    if dataLeft > mtu && seqBeginSent {
      slot := DataSlot;
    }
    if dataLeft <= 0 && !seqBeginSent {
      slot := NoFrame;
    }
    if dataLeft <= 0 && seqBeginSent {
      slot := ControlSlot;
      kind := SEQEND;
    }
    payload := [];
    if slot == DataSlot {
      var size := if dataLeft > mtu then mtu else dataLeft;
      payload := data[counter * mtu..counter * mtu + size];
    }
  }

  /**
   * Once the next frame (other than SEQEND) is acknowledged, the loop
   * variables again promise what they promised: data_frame_counter moves on
   * by one data frame and current_frame points at the frame just sent.
   */
  lemma AfterAck(data: seq<bv8>, mtu: nat, p: Progress, counter: nat, current: Slot, o: Outgoing)
    requires Sending(data, mtu, p) && Pointing(data, mtu, p, counter, current)
    requires (p.seqBeginSent || p.dataLeft > 0) && o == NextFrame(data, mtu, p) && o != Control(SEQEND)
    ensures Sending(data, mtu, After(p, o))
    ensures Pointing(data, mtu, After(p, o), if o.Data? then counter + 1 else counter, if o.Data? then DataSlot else ControlSlot)
  {
    assert (counter + 1) * mtu == counter * mtu + mtu;
  }

  /**
   * One frame of write_impl's loop against SendFrames: a frame never
   * acknowledged ends the write with Write_Failed; an acknowledged frame leaves
   * the rest of the plan, one sequence number further on after a data frame.
   */
  lemma SendFirst(st: Receiver, w: Wire, w1: Wire, ok: bool, o: Outgoing, rest: seq<Outgoing>, target: Step<()>)
    requires SendFrames(st, w, [o] + rest) == target
    requires (w1, ok) == Attempt(Encode(o), w, SEND_ATTEMPTS)
    ensures !ok ==> Step(st, w1, Err(WriteFailed)) == target
    ensures ok ==> SendFrames(if o.Data? then st.(sequenceNum := st.sequenceNum + 1) else st, w1, rest) == target
  {
    SendFramesFirst(st, w, o, rest);
  }

  /**
   * The plan still to send when the loop variables, with n as sequence_num_,
   * are in a state write_impl reaches between two frames; None otherwise.
   */
  ghost function PlanOf(data: seq<bv8>, mtu: nat, c: Cursor, n: bv8): Option<seq<Outgoing>> {
    var p := Progress(c.seqBeginSent, c.dataLeft, n);
    if Sending(data, mtu, p) && Pointing(data, mtu, p, c.counter, c.current) then Some(Remaining(data, mtu, p)) else None
  }

  /** Between two frames of write_impl: the loop variables agree with the plan still to send. */
  ghost predicate Planned(data: seq<bv8>, mtu: nat, c: Cursor, n: bv8, plan: seq<Outgoing>) {
    PlanOf(data, mtu, c, n) == Some(plan)
  }

  /** The loop variables once frame o is acknowledged. */
  function Advance(c: Cursor, o: Outgoing): Cursor {
    if o.Data? then c.(dataLeft := c.dataLeft - |o.payload|, counter := c.counter + 1, current := DataSlot)
    else c.(seqBeginSent := c.seqBeginSent || o == Control(SEQBEGIN), current := ControlSlot, controlType := o.kind)
  }

  /**
   * An acknowledged frame other than SEQEND is the head of the plan, keeps
   * the loop variables in step with the rest of it, and brings the loop
   * closer to its end.
   */
  lemma PlanAcked(data: seq<bv8>, mtu: nat, c: Cursor, n: bv8, o: Outgoing, plan: seq<Outgoing>)
    requires Planned(data, mtu, c, n, plan)
    requires (c.seqBeginSent || c.dataLeft > 0) && o == NextFrame(data, mtu, Progress(c.seqBeginSent, c.dataLeft, n))
    requires o != Control(SEQEND)
    ensures plan == [o] + RemainingAfter(data, mtu, Progress(c.seqBeginSent, c.dataLeft, n), o)
    ensures Planned(data, mtu, Advance(c, o), if o.Data? then n + 1 else n, RemainingAfter(data, mtu, Progress(c.seqBeginSent, c.dataLeft, n), o))
    ensures Advance(c, o).dataLeft < c.dataLeft || (Advance(c, o).dataLeft == c.dataLeft && Advance(c, o).seqBeginSent && !c.seqBeginSent)
  {
    var p := Progress(c.seqBeginSent, c.dataLeft, n);
    RemainingStep(data, mtu, p);
    AfterAck(data, mtu, p, c.counter, c.current, o);
    assert Progress(Advance(c, o).seqBeginSent, Advance(c, o).dataLeft, if o.Data? then n + 1 else n) == After(p, o);
  }

  /** A Protocol: the transport, the fixed configuration, the CRC table and the fields read and write update. */
  class Protocol {
    const transport: Transport
    const switching: Switching
    const recvBufReserve: nat
    const mtu: nat                 // MTU_: payload bytes per data frame
    const crcTable: array<bv8>     // util::crc7's crc_table

    var mode: Mode
    var isSequence: bool
    var buf: seq<bv8>
    var outBuf: seq<bv8>
    var outBufSz: nat
    var sequenceNum: bv8
    var incompleteRead: bool

    /** The fields as a SprotMachine receiver. */
    function State(): (r: Receiver)
      reads this
      ensures r.mode == mode && r.buf == buf && r.sequenceNum == sequenceNum
    {
      Receiver(mode, isSequence, buf, outBuf, outBufSz, sequenceNum, incompleteRead)
    }

    /** The transport as a SprotMachine wire. */
    function WireNow(): (r: Wire)
      reads this, transport
      ensures r.incoming == transport.incoming && r.outgoing == transport.outgoing
    {
      Wire(transport.incoming, transport.outgoing)
    }

    /** The configuration as a SprotMachine config. */
    function Cfg(): (r: Config)
      ensures r.mtu == mtu
    {
      Config(switching, recvBufReserve, mtu)
    }

    /** The CRC table is built and every data frame carries at least one byte. */
    ghost predicate Valid()
      reads this, crcTable
    {
      IsCrcTable(crcTable[..]) && mtu > 0
    }

    /**
     * The constructor: mode Undefined, no sequence, sequence number 0, no
     * pending read, and MTU_ three bytes less than the transport's MTU.
     */
    constructor(transport: Transport, switching: Switching, recvBufReserve: nat, transportMtu: nat)
      requires transportMtu > DATA_FRAME_OVERHEAD
      ensures Valid() && State() == INITIAL
      ensures this.transport == transport && Cfg() == Config(switching, recvBufReserve, transportMtu - DATA_FRAME_OVERHEAD)
    {
      this.transport := transport;
      this.switching := switching;
      this.recvBufReserve := recvBufReserve;
      this.mtu := transportMtu - DATA_FRAME_OVERHEAD;
      var table := BuildCrcTable();
      this.crcTable := table;
      mode := Undefined;
      isSequence := false;
      buf := [];
      outBuf := [];
      outBufSz := 0;
      sequenceNum := 0;
      incompleteRead := false;
    }

    /** reset. */
    method Reset()
      requires Valid()
      modifies this
      ensures Valid()
      ensures State() == SprotMachine.Reset(old(State()))
    {
      incompleteRead := false;
      isSequence := false;
      sequenceNum := 0;
      buf := [];
      outBuf := [];
      outBufSz := 0;
    }

    /** send_frame for a control type: the type byte and its CRC-7 from the table. */
    method SendFrame(t: bv8)
      requires Valid()
      modifies transport
      ensures WireNow() == Send(old(WireNow()), t)
    {
      var crc := ComputeCrc7(crcTable, [t]);
      assert [t, crc] == ControlFrame(t);
      transport.Write([t, crc]);
    }

    /** send_data: DATA, sequence_num_, the payload and the CRC-7 of all three. */
    method SendData(payload: seq<bv8>)
      requires Valid()
      modifies transport
      ensures transport.outgoing == old(transport.outgoing) + [DataFrame(sequenceNum, payload)]
      ensures transport.incoming == old(transport.incoming)
    {
      var head := [DATA, sequenceNum] + payload;
      var crc := ComputeCrc7(crcTable, head);
      transport.Write(head + [crc]);
    }

    /** complete_read: Buffer_Overflow leaves incomplete_read_ set; otherwise copy buf_ out. */
    method CompleteRead() returns (r: Result<(), SprotError>)
      requires Valid()
      modifies this
      ensures Valid()
      ensures State() == SprotMachine.CompleteRead(Cfg(), old(State()))
      ensures r == if Overflows(old(State())) then Err(BufferOverflow) else Ok(())
    {
      incompleteRead := true;
      if outBufSz < |buf| {
        return Err(BufferOverflow);
      }
      incompleteRead := false;
      if buf != [] {
        outBuf := buf;
        if |buf| > recvBufReserve {
          buf := [];
        }
      }
      r := Ok(());
    }

    /** on_seqbegin. */
    method OnSeqBegin() returns (r: Result<bool, SprotError>)
      requires Valid()
      modifies this, transport
      ensures Valid()
      ensures Step(State(), WireNow(), r) == SprotMachine.OnSeqBegin(old(State()), old(WireNow()))
    {
      isSequence := true;
      SendFrame(ACK);
      r := Ok(true);
    }

    /** on_seqend. */
    method OnSeqEnd() returns (r: Result<bool, SprotError>)
      requires Valid()
      modifies this, transport
      ensures Valid()
      ensures Step(State(), WireNow(), r) == SprotMachine.OnSeqEnd(Cfg(), old(State()), old(WireNow()))
    {
      isSequence := false;
      SendFrame(ACK);
      var c := CompleteRead();
      if c.Err? {
        return Err(c.error);
      }
      r := Ok(false);
    }

    /** on_setsend. */
    method OnSetSend() returns (r: Result<bool, SprotError>)
      requires Valid()
      modifies this, transport
      ensures Valid()
      ensures Step(State(), WireNow(), r) == SprotMachine.OnSetSend(old(State()), old(WireNow()))
    {
      SendFrame(ACK);
      Reset();
      if mode == Client {
        return Ok(true);
      }
      mode := Client;
      r := Ok(false);
    }

    /** on_setrecv. */
    method OnSetRecv() returns (r: Result<bool, SprotError>)
      requires Valid()
      modifies this, transport
      ensures Valid()
      ensures Step(State(), WireNow(), r) == SprotMachine.OnSetRecv(old(State()), old(WireNow()))
    {
      SendFrame(ACK);
      Reset();
      if mode == Server {
        return Ok(true);
      }
      mode := Server;
      r := Ok(false);
    }

    /** on_data: a repeated frame is ACKed and dropped, one out of order NACKed, the next one taken. */
    method OnData(frame: DataFrameFields) returns (r: Result<bool, SprotError>)
      requires Valid()
      modifies this, transport
      ensures Valid()
      ensures Step(State(), WireNow(), r) == SprotMachine.OnData(Cfg(), old(State()), old(WireNow()), frame)
    {
      ghost var st, w := State(), WireNow();
      if sequenceNum == frame.sequenceNum {
        assert SprotMachine.OnData(Cfg(), st, w, frame) == Step(st, Send(w, ACK), Ok(true));
        SendFrame(ACK);
        return Ok(true);
      }
      if sequenceNum + 1 != frame.sequenceNum {
        assert SprotMachine.OnData(Cfg(), st, w, frame) == Step(st, Send(w, NACK), Ok(true));
        SendFrame(NACK);
        return Ok(true);
      }
      r := TakeData(frame);
    }

    /** The rest of on_data, for the next frame in order: ACK, append, and outside a sequence complete the read. */
    method TakeData(frame: DataFrameFields) returns (r: Result<bool, SprotError>)
      requires Valid() && sequenceNum != frame.sequenceNum && sequenceNum + 1 == frame.sequenceNum
      modifies this, transport
      ensures Valid()
      ensures Step(State(), WireNow(), r) == SprotMachine.OnData(Cfg(), old(State()), old(WireNow()), frame)
    {
      ghost var st1 := State().(sequenceNum := frame.sequenceNum, buf := buf + frame.data);
      ghost var w1 := Send(WireNow(), ACK);
      assert SprotMachine.OnData(Cfg(), State(), WireNow(), frame) ==
        if st1.isSequence then Step(st1, w1, Ok(true)) else Finish(Cfg(), st1, w1);
      sequenceNum := frame.sequenceNum;
      SendFrame(ACK);
      buf := buf + frame.data;
      if isSequence {
        return Ok(true);
      }
      var c := CompleteRead();
      if c.Err? {
        return Err(c.error);
      }
      r := Ok(false);
    }

    /** on_frame: dispatch on the type byte; true while more frames are needed. */
    method OnFrame(frame: seq<bv8>) returns (r: Result<bool, SprotError>)
      requires Valid()
      modifies this, transport
      ensures Valid()
      ensures Step(State(), WireNow(), r) == SprotMachine.OnFrame(Cfg(), old(State()), old(WireNow()), frame)
    {
      if |frame| == 0 {
        return Ok(true);
      }
      if frame[0] == SEQBEGIN {
        r := OnSeqBegin();
      } else if frame[0] == SEQEND {
        r := OnSeqEnd();
      } else if frame[0] == SETSEND {
        r := OnSetSend();
      } else if frame[0] == SETRECV {
        r := OnSetRecv();
      } else if frame[0] == DATA {
        var f := MakeDataFrame(frame);
        if f.Err? {
          return Err(f.error);
        }
        r := OnData(f.value);
      } else {
        SendFrame(ACK);
        r := Ok(true);
      }
    }

    /**
     * The receive loop of read_impl: take a frame, NACK it when crc_check
     * fails, otherwise hand it to on_frame, until on_frame says the data is
     * complete.
     */
    method ReceiveLoop() returns (r: Result<(), SprotError>)
      requires Valid()
      modifies this, transport
      ensures Valid()
      ensures Step(State(), WireNow(), r) == ReadLoop(Cfg(), old(State()), old(WireNow()))
    {
      ghost var target := ReadLoop(Cfg(), State(), WireNow());
      var looping := true;
      while looping
        invariant looping ==> ReadLoop(Cfg(), State(), WireNow()) == target
        invariant !looping ==> Step(State(), WireNow(), Ok(())) == target
        decreases |transport.incoming|, looping
      {
        var received := transport.Read();
        if received.Err? {
          return Err(received.error);
        }
        var frame := received.value;
        var ok := CheckCrc(crcTable, frame);
        if ok {
          var more := OnFrame(frame);
          if more.Err? {
            return Err(more.error);
          }
          looping := more.value;
        } else {
          SendFrame(NACK);
        }
      }
      r := Ok(());
    }

    /**
     * read_impl: target the caller's buffer of bufSize bytes; finish a pending
     * read from buf_; otherwise check the mode (waiting for SETRECV in Client
     * mode under Auto switching) and run the receive loop; return the number of
     * bytes copied out and reset.
     */
    method ReadImpl(bufSize: nat, noModeCheck: bool) returns (r: Result<Delivery, SprotError>)
      requires Valid()
      modifies this, transport
      ensures Valid()
      ensures Step(State(), WireNow(), r) == SprotMachine.ReadImpl(Cfg(), old(State()), old(WireNow()), bufSize, noModeCheck)
      decreases |transport.incoming|, if noModeCheck then 0 else 2
    {
      outBuf := [];
      outBufSz := bufSize;
      if incompleteRead {
        var c := CompleteRead();
        if c.Err? {
          return Err(c.error);
        }
      } else {
        if !noModeCheck {
          if mode == Undefined {
            mode := Server;
          }
          if mode == Client {
            if switching == Manual {
              return Err(IncorrectMode);
            }
            var switched := WaitRecvMode();
            if switched.Err? {
              return Err(switched.error);
            }
            if !switched.value {
              return Err(IncorrectMode);
            }
            outBufSz := bufSize;
          }
        }
        var received := ReceiveLoop();
        if received.Err? {
          return Err(received.error);
        }
      }
      r := Ok(Delivery(|outBuf|, outBuf));
      Reset();
    }

    /** wait_recv_mode: unless already Server, read in Undefined mode until a frame ends the read. */
    method WaitRecvMode() returns (r: Result<bool, SprotError>)
      requires Valid()
      modifies this, transport
      ensures Valid()
      ensures Step(State(), WireNow(), r) == SprotMachine.WaitRecvMode(Cfg(), old(State()), old(WireNow()))
      decreases |transport.incoming|, 1
    {
      if mode == Server {
        return Ok(true);
      }
      mode := Undefined;
      var got := ReadImpl(WAIT_BUF_SIZE, true);
      if got.Err? {
        return Err(got.error);
      }
      r := Ok(mode == Server);
    }

    /** wait_send_mode: unless already Client, read in Undefined mode until a frame ends the read. */
    method WaitSendMode() returns (r: Result<bool, SprotError>)
      requires Valid()
      modifies this, transport
      ensures Valid()
      ensures Step(State(), WireNow(), r) == SprotMachine.WaitSendMode(Cfg(), old(State()), old(WireNow()))
    {
      if mode == Client {
        return Ok(true);
      }
      mode := Undefined;
      var got := ReadImpl(WAIT_BUF_SIZE, true);
      if got.Err? {
        return Err(got.error);
      }
      r := Ok(mode == Client);
    }

    /** read: reset unless a read is pending, then read_impl; Write_Failed is raised as Read_Failed. */
    method Read(bufSize: nat) returns (r: Result<Delivery, SprotError>)
      requires Valid()
      modifies this, transport
      ensures Valid()
      ensures Step(State(), WireNow(), r) == SprotMachine.Read(Cfg(), old(State()), old(WireNow()), bufSize)
    {
      if !incompleteRead {
        Reset();
      }
      r := ReadImpl(bufSize, false);
      if r == Err(WriteFailed) {
        r := Err(ReadFailed);
      }
    }

    /** The reply write_impl accepts: two bytes, ACK first, passing crc_check. */
    method IsGoodAck(reply: seq<bv8>) returns (good: bool)
      requires Valid()
      ensures good <==> GoodAck(reply)
    {
      if |reply| != 2 || reply[0] != ACK {
        return false;
      }
      good := CheckCrc(crcTable, reply);
    }

    /**
     * The retry loop of write_impl for one frame: up to five times, send it
     * and read a reply; a timeout or anything but a good ACK costs an attempt.
     */
    method OfferFrame(o: Outgoing) returns (acked: bool)
      requires Valid() && (o.Data? ==> o.sequenceNum == sequenceNum)
      modifies transport
      ensures (WireNow(), acked) == Attempt(Encode(o), old(WireNow()), SEND_ATTEMPTS)
    {
      var failCount := SEND_ATTEMPTS;
      while failCount > 0
        invariant Attempt(Encode(o), WireNow(), failCount) == Attempt(Encode(o), old(WireNow()), SEND_ATTEMPTS)
      {
        if o.Data? {
          SendData(o.payload);
        } else {
          SendFrame(o.kind);
        }
        var reply := transport.Read();
        if reply.Ok? {
          var good := IsGoodAck(reply.value);
          if good {
            return true;
          }
        }
        failCount := failCount - 1;
      }
      acked := false;
    }

    /** Between two frames of write_impl: the loop variables agree with the plan still to send, and sending it gives target. */
    ghost predicate Writing(data: seq<bv8>, c: Cursor, plan: seq<Outgoing>, target: Step<()>)
      reads this, transport
    {
      Planned(data, mtu, c, sequenceNum, plan) && SendFrames(State(), WireNow(), plan) == target
    }

    /**
     * One pass of write_impl's do-while body: choose the frame, offer it up
     * to five times, and on its ACK advance the loop variables. It reports
     * the end of the loop: nothing left to send, SEQEND acknowledged, or
     * Write_Failed.
     */
    method WriteNext(data: seq<bv8>, c: Cursor, ghost plan: seq<Outgoing>, ghost target: Step<()>)
      returns (next: Cursor, done: Option<Result<(), SprotError>>, ghost rest: seq<Outgoing>)
      requires Valid() && Writing(data, c, plan, target)
      modifies this, transport
      ensures Valid()
      ensures done.Some? ==> Step(State(), WireNow(), done.value) == target
      ensures done.None? ==> Writing(data, next, rest, target)
      ensures done.None? ==> next.dataLeft < c.dataLeft || (next.dataLeft == c.dataLeft && next.seqBeginSent && !c.seqBeginSent)
    {
      var current, controlType, payload := SelectFrame(data, mtu, c.seqBeginSent, c.dataLeft, c.counter, sequenceNum, c.current, c.controlType);
      next := c.(current := current, controlType := controlType);
      rest := plan;
      if current == NoFrame {
        assert data[|data|..] == [];
        return next, Some(Ok(())), rest;
      }
      var o := if current == DataSlot then Data(sequenceNum, payload) else Control(controlType);
      next, done, rest := SendNext(data, c, o, plan, target);
    }

    /**
     * The rest of write_impl's loop body once frame o is chosen: offer it up
     * to five times; Write_Failed when it is never acknowledged, the end of
     * the loop when SEQEND is, otherwise the loop variables move on.
     */
    method SendNext(data: seq<bv8>, c: Cursor, o: Outgoing, ghost plan: seq<Outgoing>, ghost target: Step<()>)
      returns (next: Cursor, done: Option<Result<(), SprotError>>, ghost rest: seq<Outgoing>)
      requires Valid() && Writing(data, c, plan, target) && (c.seqBeginSent || c.dataLeft > 0)
      requires o == NextFrame(data, mtu, Progress(c.seqBeginSent, c.dataLeft, sequenceNum))
      modifies this, transport
      ensures Valid()
      ensures done.Some? ==> Step(State(), WireNow(), done.value) == target
      ensures done.None? ==> Writing(data, next, rest, target)
      ensures done.None? ==> next.dataLeft < c.dataLeft || (next.dataLeft == c.dataLeft && next.seqBeginSent && !c.seqBeginSent)
    {
      ghost var p := Progress(c.seqBeginSent, c.dataLeft, sequenceNum);
      ghost var st, w := State(), WireNow();
      next := c;
      var acked := OfferFrame(o);
      rest := RemainingAfter(data, mtu, p, o);
      RemainingStep(data, mtu, p);
      SendFirst(st, w, WireNow(), acked, o, rest, target);
      if !acked {
        return next, Some(Err(WriteFailed)), rest;
      }
      if o == Control(SEQEND) {
        return next, Some(Ok(())), rest;
      }
      next, rest := Acknowledged(data, c, o, plan, target);
      done := None;
    }

    /**
     * The end of write_impl's loop body once frame o, other than SEQEND, is
     * acknowledged: data_left, data_frame_counter and sequence_num_ move on
     * past a data frame, seq_begin_sent is set by SEQBEGIN.
     */
    method Acknowledged(data: seq<bv8>, c: Cursor, o: Outgoing, ghost plan: seq<Outgoing>, ghost target: Step<()>)
      returns (next: Cursor, ghost rest: seq<Outgoing>)
      requires Valid()
      requires Planned(data, mtu, c, sequenceNum, plan) && (c.seqBeginSent || c.dataLeft > 0)
      requires o == NextFrame(data, mtu, Progress(c.seqBeginSent, c.dataLeft, sequenceNum)) && o != Control(SEQEND)
      requires SendFrames(if o.Data? then State().(sequenceNum := sequenceNum + 1) else State(), WireNow(),
        RemainingAfter(data, mtu, Progress(c.seqBeginSent, c.dataLeft, sequenceNum), o)) == target
      modifies this
      ensures Valid()
      ensures Writing(data, next, rest, target)
      ensures next.dataLeft < c.dataLeft || (next.dataLeft == c.dataLeft && next.seqBeginSent && !c.seqBeginSent)
    {
      rest := RemainingAfter(data, mtu, Progress(c.seqBeginSent, c.dataLeft, sequenceNum), o);
      PlanAcked(data, mtu, c, sequenceNum, o, plan);
      next := Advance(c, o);
      if o.Data? {
        sequenceNum := sequenceNum + 1;
      }
    }

    /**
     * The do-while loop of write_impl: sequence_num_ starts at 1; SEQBEGIN
     * when more than MTU_ bytes are left and it has not been acknowledged,
     * then data frames of MTU_ bytes from data_frame_counter * MTU_, the
     * last one shorter, then SEQEND; a single short message is one data
     * frame. A frame never acknowledged raises Write_Failed.
     */
    method SendMessage(data: seq<bv8>) returns (r: Result<(), SprotError>)
      requires Valid()
      modifies this, transport
      ensures Valid()
      ensures Step(State(), WireNow(), r) == SendFrames(old(State()).(sequenceNum := 1), old(WireNow()), WritePlan(data, mtu))
    {
      var c := Cursor(false, |data|, 0, DataSlot, UNDEF);
      sequenceNum := 1;
      ghost var plan := WritePlan(data, mtu);
      ghost var target := SendFrames(State(), WireNow(), plan);
      assert data[|data| - c.dataLeft..] == data;
      while true
        invariant Writing(data, c, plan, target)
        decreases c.dataLeft, !c.seqBeginSent
      {
        var done;
        c, done, plan := WriteNext(data, c, plan, target);
        if done.Some? {
          return done.value;
        }
      }
    }

    /**
     * write_impl: check the mode (waiting for SETSEND in Server mode under
     * Auto switching), send the message, reset and return its size.
     */
    method WriteImpl(data: seq<bv8>, noModeCheck: bool) returns (r: Result<nat, SprotError>)
      requires Valid()
      modifies this, transport
      ensures Valid()
      ensures Step(State(), WireNow(), r) == SprotMachine.WriteImpl(Cfg(), old(State()), old(WireNow()), data, noModeCheck)
    {
      if !noModeCheck {
        if mode == Undefined {
          mode := Client;
        }
        if mode == Server {
          if switching == Manual {
            return Err(IncorrectMode);
          }
          var switched := WaitSendMode();
          if switched.Err? {
            return Err(switched.error);
          }
          if !switched.value {
            return Err(IncorrectMode);
          }
        }
      }
      var sent := SendMessage(data);
      if sent.Err? {
        return Err(sent.error);
      }
      Reset();
      r := Ok(|data|);
    }

    /** write: reset, then write_impl; Read_Failed is raised as Write_Failed. */
    method Write(data: seq<bv8>) returns (r: Result<nat, SprotError>)
      requires Valid()
      modifies this, transport
      ensures Valid()
      ensures Step(State(), WireNow(), r) == SprotMachine.Write(Cfg(), old(State()), old(WireNow()), data)
    {
      Reset();
      r := WriteImpl(data, false);
      if r == Err(ReadFailed) {
        r := Err(WriteFailed);
      }
    }
  }
}
