/**
 * The behaviour of sprot::Protocol (sprot/sprot.cpp) as functions of its state:
 * what each frame handler, read, write and the mode waits do to the receiving
 * state and to the wire, and what they return or raise. The class in
 * SprotProtocol is proved to follow these functions; the lemmas here state
 * what the protocol promises.
 */
module SprotMachine {
  import opened Wrappers
  import opened Sprot

  /** The mutable fields of a Protocol. */
  datatype Receiver = Receiver(
    mode: Mode,              // current_mode_
    isSequence: bool,        // is_sequence_: inside SEQBEGIN .. SEQEND
    buf: seq<bv8>,           // buf_: the data assembled so far
    outBuf: seq<bv8>,        // what complete_read copied through out_buf_
    outBufSz: nat,           // out_buf_sz_
    sequenceNum: bv8,        // sequence_num_
    incompleteRead: bool)    // incomplete_read_

  /** The fixed configuration: switching policy, receive reserve and MTU_ (payload bytes per data frame). */
  datatype Config = Config(switching: Switching, recvBufReserve: nat, mtu: nat)

  /** The transport: frames it will still deliver, in order, and frames written to it so far. */
  datatype Wire = Wire(incoming: seq<seq<bv8>>, outgoing: seq<seq<bv8>>)

  /** The state after an operation, and what it returned or raised. */
  datatype Step<T> = Step(st: Receiver, wire: Wire, result: Result<T, SprotError>)

  /** What a read hands back: the value it returns and the bytes it copied to the caller's buffer. */
  datatype Delivery = Delivery(count: nat, data: seq<bv8>)

  /** The fields right after construction. */
  const INITIAL: Receiver := Receiver(Undefined, false, [], [], 0, 0, false)

  /** reset: forget the assembled data, the sequence and the target buffer; the mode stays. */
  function Reset(st: Receiver): (r: Receiver)
    ensures r.mode == st.mode && r.buf == [] && !r.incompleteRead && !r.isSequence
    ensures r.sequenceNum == 0 && r.outBufSz == 0 && r.outBuf == []
  {
    st.(incompleteRead := false, isSequence := false, sequenceNum := 0, buf := [], outBuf := [], outBufSz := 0)
  }

  /** send_frame of a control type: the two-byte frame goes out. */
  function Send(w: Wire, t: bv8): Wire {
    w.(outgoing := w.outgoing + [ControlFrame(t)])
  }

  /** complete_read cannot fit the assembled data into the caller's buffer. */
  predicate Overflows(st: Receiver) {
    st.outBufSz < |st.buf|
  }

  /**
   * complete_read: on overflow it raises Buffer_Overflow with incomplete_read_
   * set and buf_ kept; otherwise it copies buf_ out and releases it when it
   * grew beyond the reserve.
   */
  function CompleteRead(cfg: Config, st: Receiver): (r: Receiver)
    ensures Overflows(st) ==> r == st.(incompleteRead := true)
    ensures !Overflows(st) ==> !r.incompleteRead && r.outBuf == (if st.buf == [] then st.outBuf else st.buf)
    ensures !Overflows(st) ==> r.buf == (if |st.buf| > cfg.recvBufReserve then [] else st.buf)
  {
    if Overflows(st) then st.(incompleteRead := true)
    else if st.buf == [] then st.(incompleteRead := false)
    else st.(incompleteRead := false, outBuf := st.buf, buf := if |st.buf| > cfg.recvBufReserve then [] else st.buf)
  }

  /** complete_read followed by "return false": the read is over, or Buffer_Overflow. */
  function Finish(cfg: Config, st: Receiver, w: Wire): (r: Step<bool>)
    ensures r.wire == w && r.st == CompleteRead(cfg, st)
    ensures r.result == if Overflows(st) then Err(BufferOverflow) else Ok(false)
  {
    Step(CompleteRead(cfg, st), w, if Overflows(st) then Err(BufferOverflow) else Ok(false))
  }

  /** on_seqbegin: a sequence starts; ACK; keep reading. */
  function OnSeqBegin(st: Receiver, w: Wire): (r: Step<bool>)
    ensures r.st.isSequence && r.result == Ok(true)
    ensures r.wire == Send(w, ACK)
  {
    Step(st.(isSequence := true), Send(w, ACK), Ok(true))
  }

  /** on_seqend: the sequence ends; ACK; hand the data over. */
  function OnSeqEnd(cfg: Config, st: Receiver, w: Wire): (r: Step<bool>)
    ensures !r.st.isSequence && r.wire == Send(w, ACK)
    ensures r.result == Ok(false) || r.result == Err(BufferOverflow)
  {
    Finish(cfg, st.(isSequence := false), Send(w, ACK))
  }

  /** on_setsend: ACK, reset, become Client; the wait ends only if the mode changed. */
  function OnSetSend(st: Receiver, w: Wire): (r: Step<bool>)
    ensures r.st.mode == Client && r.wire == Send(w, ACK)
    ensures r.result == Ok(st.mode == Client)
  {
    var st1 := Reset(st);
    if st1.mode == Client then Step(st1, Send(w, ACK), Ok(true))
    else Step(st1.(mode := Client), Send(w, ACK), Ok(false))
  }

  /** on_setrecv: ACK, reset, become Server; the wait ends only if the mode changed. */
  function OnSetRecv(st: Receiver, w: Wire): (r: Step<bool>)
    ensures r.st.mode == Server && r.wire == Send(w, ACK)
    ensures r.result == Ok(st.mode == Server)
  {
    var st1 := Reset(st);
    if st1.mode == Server then Step(st1, Send(w, ACK), Ok(true))
    else Step(st1.(mode := Server), Send(w, ACK), Ok(false))
  }

  /**
   * on_data: a repeat of the last frame is ACKed and dropped, a frame out of
   * order is NACKed, the next frame is ACKed and appended, and outside a
   * sequence it ends the read.
   */
  function OnData(cfg: Config, st: Receiver, w: Wire, f: DataFrameFields): (r: Step<bool>)
    ensures r.wire == Send(w, if st.sequenceNum == f.sequenceNum || st.sequenceNum + 1 == f.sequenceNum then ACK else NACK)
    ensures st.sequenceNum + 1 != f.sequenceNum ==> r.st == st && r.result == Ok(true)
  {
    if st.sequenceNum == f.sequenceNum then Step(st, Send(w, ACK), Ok(true))
    else if st.sequenceNum + 1 != f.sequenceNum then Step(st, Send(w, NACK), Ok(true))
    else
      var st1 := st.(sequenceNum := f.sequenceNum, buf := st.buf + f.data);
      if st1.isSequence then Step(st1, Send(w, ACK), Ok(true))
      else Finish(cfg, st1, Send(w, ACK))
  }

  /**
   * on_frame: dispatch on the type byte. ACK, NACK and unknown types are
   * answered with ACK; a DATA frame too short to decode raises Invalid_Frame.
   * The result is true while more frames are needed.
   */
  function OnFrame(cfg: Config, st: Receiver, w: Wire, frame: seq<bv8>): (r: Step<bool>)
    ensures r.wire.incoming == w.incoming
  {
    if |frame| == 0 then Step(st, w, Ok(true))
    else if frame[0] == SEQBEGIN then OnSeqBegin(st, w)
    else if frame[0] == SEQEND then OnSeqEnd(cfg, st, w)
    else if frame[0] == SETSEND then OnSetSend(st, w)
    else if frame[0] == SETRECV then OnSetRecv(st, w)
    else if frame[0] == DATA then
      match MakeDataFrame(frame)
      case Err(e) => Step(st, w, Err(e))
      case Ok(f) => OnData(cfg, st, w, f)
    else Step(st, Send(w, ACK), Ok(true))
  }

  /**
   * The receive loop of read_impl: take frames off the transport, NACK those
   * failing crc_check, hand the others to on_frame, until on_frame says the
   * data is complete. An exhausted transport is a timeout.
   */
  function ReadLoop(cfg: Config, st: Receiver, w: Wire): (r: Step<()>)
    ensures |r.wire.incoming| <= |w.incoming|
    decreases |w.incoming|
  {
    if w.incoming == [] then Step(st, w, Err(Timeout))
    else
      var frame := w.incoming[0];
      var w1 := w.(incoming := w.incoming[1..]);
      if !CrcCheck(frame) then ReadLoop(cfg, st, Send(w1, NACK))
      else
        var s := OnFrame(cfg, st, w1, frame);
        if s.result.Err? then Step(s.st, s.wire, Err(s.result.error))
        else if s.result.value then ReadLoop(cfg, s.st, s.wire)
        else Step(s.st, s.wire, Ok(()))
  }

  /**
   * The end of read_impl as written: return buf_.size(), then reset. When
   * complete_read has just released a buf_ larger than the receive reserve,
   * buf_ is empty and the count is 0 although the data was copied out.
   */
  function DeliverAsWritten(st: Receiver, w: Wire): (r: Step<Delivery>)
    ensures r.result.Ok? && r.result.value.data == st.outBuf && r.result.value.count == |st.buf|
    ensures r.st == Reset(st) && r.wire == w
  {
    Step(Reset(st), w, Ok(Delivery(|st.buf|, st.outBuf)))
  }

  /** The end of read_impl as intended: return the number of bytes complete_read copied out, then reset. */
  function Deliver(st: Receiver, w: Wire): (r: Step<Delivery>)
    ensures r.result.Ok? && r.result.value.count == |r.result.value.data|
  {
    Step(Reset(st), w, Ok(Delivery(|st.outBuf|, st.outBuf)))
  }

  /**
   * read_impl: target the caller's buffer; finish an incomplete read from
   * buf_; otherwise check the mode (Undefined becomes Server; Client waits for
   * SETRECV under Auto switching and is refused under Manual) and run the
   * receive loop. An exception leaves the state as it is. Two points follow
   * the evident intent rather than the code: the count returned is the number
   * of bytes copied out (DeliverAsWritten), and after waiting for SETRECV the
   * caller's buffer is targeted again (ReadInClientAsWritten).
   */
  function ReadImpl(cfg: Config, st: Receiver, w: Wire, bufSize: nat, noModeCheck: bool): (r: Step<Delivery>)
    ensures |r.wire.incoming| <= |w.incoming|
    ensures r.result.Ok? ==> r.result.value.count == |r.result.value.data|
    decreases |w.incoming|, if noModeCheck then 0 else 2
  {
    var st0 := st.(outBuf := [], outBufSz := bufSize);
    if st0.incompleteRead then
      if Overflows(st0) then Step(CompleteRead(cfg, st0), w, Err(BufferOverflow))
      else Deliver(CompleteRead(cfg, st0), w)
    else
      var pre :=
        if noModeCheck then Step(st0, w, Ok(()))
        else
          var st1 := if st0.mode == Undefined then st0.(mode := Server) else st0;
          if st1.mode != Client then Step(st1, w, Ok(()))
          else if cfg.switching == Manual then Step(st1, w, Err(IncorrectMode))
          else
            var wait := WaitRecvMode(cfg, st1, w);
            if wait.result.Err? then Step(wait.st, wait.wire, Err(wait.result.error))
            else if !wait.result.value then Step(wait.st, wait.wire, Err(IncorrectMode))
            else Step(wait.st.(outBufSz := bufSize), wait.wire, Ok(()));
      if pre.result.Err? then Step(pre.st, pre.wire, Err(pre.result.error))
      else
        var loop := ReadLoop(cfg, pre.st, pre.wire);
        if loop.result.Err? then Step(loop.st, loop.wire, Err(loop.result.error))
        else Deliver(loop.st, loop.wire)
  }

  /**
   * wait_recv_mode: in Server mode there is nothing to wait for; otherwise go
   * Undefined and read (into a 50-byte buffer, without mode checks) until a
   * frame ends the read; succeed if that left the protocol in Server mode.
   */
  function WaitRecvMode(cfg: Config, st: Receiver, w: Wire): (r: Step<bool>)
    ensures |r.wire.incoming| <= |w.incoming|
    ensures r.result == Ok(true) ==> r.st.mode == Server
    decreases |w.incoming|, 1
  {
    if st.mode == Server then Step(st, w, Ok(true))
    else
      var r := ReadImpl(cfg, st.(mode := Undefined), w, WAIT_BUF_SIZE, true);
      if r.result.Err? then Step(r.st, r.wire, Err(r.result.error))
      else Step(r.st, r.wire, Ok(r.st.mode == Server))
  }

  /** wait_send_mode: the same wait, for Client mode. */
  function WaitSendMode(cfg: Config, st: Receiver, w: Wire): (r: Step<bool>)
    ensures r.result == Ok(true) ==> r.st.mode == Client
  {
    if st.mode == Client then Step(st, w, Ok(true))
    else
      var r := ReadImpl(cfg, st.(mode := Undefined), w, WAIT_BUF_SIZE, true);
      if r.result.Err? then Step(r.st, r.wire, Err(r.result.error))
      else Step(r.st, r.wire, Ok(r.st.mode == Client))
  }

  /**
   * read_impl as written, for a read in Client mode under Auto switching: the
   * nested read of wait_recv_mode ends with reset, which leaves out_buf_sz_ at
   * 0, and the receive loop then goes on with that size.
   */
  function ReadInClientAsWritten(cfg: Config, st: Receiver, w: Wire, bufSize: nat): (r: Step<Delivery>)
    requires st.mode == Client && cfg.switching == Auto && !st.incompleteRead
    ensures r.result.Ok? ==> r.st.buf == [] && r.st.outBufSz == 0
  {
    var st0 := st.(outBuf := [], outBufSz := bufSize);
    var wait := WaitRecvMode(cfg, st0, w);
    if wait.result.Err? then Step(wait.st, wait.wire, Err(wait.result.error))
    else if !wait.result.value then Step(wait.st, wait.wire, Err(IncorrectMode))
    else
      var loop := ReadLoop(cfg, wait.st, wait.wire);
      if loop.result.Err? then Step(loop.st, loop.wire, Err(loop.result.error))
      else DeliverAsWritten(loop.st, loop.wire)
  }

  /** read: reset unless a read is pending, then read_impl; Write_Failed becomes Read_Failed. */
  function Read(cfg: Config, st: Receiver, w: Wire, bufSize: nat): (r: Step<Delivery>)
    ensures r.result != Err(WriteFailed)
    ensures r.result.Ok? ==> r.result.value.count == |r.result.value.data|
  {
    var r := ReadImpl(cfg, if st.incompleteRead then st else Reset(st), w, bufSize, false);
    if r.result == Err(WriteFailed) then r.(result := Err(ReadFailed)) else r
  }

  // ---------------------------------------------------------------- sending

  /** The reply write_impl accepts: exactly two bytes, ACK first, passing crc_check. */
  predicate GoodAck(reply: seq<bv8>) {
    |reply| == 2 && reply[0] == ACK && CrcCheck(reply)
  }

  /**
   * Up to k attempts at one frame: write it, read a reply; a missing reply
   * (timeout) or anything but a good ACK costs an attempt.
   */
  function Attempt(frame: seq<bv8>, w: Wire, k: nat): (r: (Wire, bool))
    ensures |r.0.incoming| <= |w.incoming|
    decreases k
  {
    if k == 0 then (w, false)
    else
      var w1 := w.(outgoing := w.outgoing + [frame]);
      if w1.incoming == [] then Attempt(frame, w1, k - 1)
      else
        var w2 := w1.(incoming := w1.incoming[1..]);
        if GoodAck(w1.incoming[0]) then (w2, true) else Attempt(frame, w2, k - 1)
  }

  /**
   * The frames of a plan in order, each with five attempts; an acknowledged
   * data frame advances sequence_num_; a frame that is never acknowledged
   * raises Write_Failed.
   */
  function SendFrames(st: Receiver, w: Wire, plan: seq<Outgoing>): (r: Step<()>)
    ensures r.st == st.(sequenceNum := r.st.sequenceNum)
    ensures r.result.Err? ==> r.result.error == WriteFailed
    decreases |plan|
  {
    if plan == [] then Step(st, w, Ok(()))
    else
      var (w1, ok) := Attempt(Encode(plan[0]), w, SEND_ATTEMPTS);
      if !ok then Step(st, w1, Err(WriteFailed))
      else SendFrames(if plan[0].Data? then st.(sequenceNum := st.sequenceNum + 1) else st, w1, plan[1..])
  }

  /**
   * write_impl: check the mode (Undefined becomes Client; Server waits for
   * SETSEND under Auto switching and is refused under Manual), number data
   * frames from 1, send the plan for the data, reset and return its size.
   */
  function WriteImpl(cfg: Config, st: Receiver, w: Wire, data: seq<bv8>, noModeCheck: bool): (r: Step<nat>)
    requires cfg.mtu > 0
    ensures r.result.Ok? ==> r.result.value == |data| && r.st.buf == [] && r.st.sequenceNum == 0
  {
    var pre :=
      if noModeCheck then Step(st, w, Ok(()))
      else
        var st1 := if st.mode == Undefined then st.(mode := Client) else st;
        if st1.mode != Server then Step(st1, w, Ok(()))
        else if cfg.switching == Manual then Step(st1, w, Err(IncorrectMode))
        else
          var wait := WaitSendMode(cfg, st1, w);
          if wait.result.Err? then Step(wait.st, wait.wire, Err(wait.result.error))
          else if !wait.result.value then Step(wait.st, wait.wire, Err(IncorrectMode))
          else Step(wait.st, wait.wire, Ok(()));
    if pre.result.Err? then Step(pre.st, pre.wire, Err(pre.result.error))
    else
      var sent := SendFrames(pre.st.(sequenceNum := 1), pre.wire, WritePlan(data, cfg.mtu));
      if sent.result.Err? then Step(sent.st, sent.wire, Err(sent.result.error))
      else Step(Reset(sent.st), sent.wire, Ok(|data|))
  }

  /** write: reset, then write_impl; Read_Failed becomes Write_Failed. */
  function Write(cfg: Config, st: Receiver, w: Wire, data: seq<bv8>): (r: Step<nat>)
    requires cfg.mtu > 0
    ensures r.result != Err(ReadFailed)
    ensures r.result.Ok? ==> r.result.value == |data|
  {
    var r := WriteImpl(cfg, Reset(st), w, data, false);
    if r.result == Err(ReadFailed) then r.(result := Err(WriteFailed)) else r
  }
}
