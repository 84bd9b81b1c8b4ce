/**
 * The sequential rules inside fplogd's Impl (fplogd/fplogd.cpp): the accepted
 * batch_size range of start(), the hostname splice of append_hostname, and
 * one pass of mq_reader, which fills a batch from the Queue_Controller and
 * decides whether to send it.
 */
module Daemon {
  import opened Wrappers
  import opened QueueControl

  /** batch_size_ before any configuration. */
  const DEFAULT_BATCH_SIZE: nat := 30

  /** A configured batch_size is accepted only strictly between 0 and this bound. */
  const BATCH_SIZE_BOUND: nat := 1000

  /** Idle passes with a partial batch before it is sent anyway. */
  const FLUSH_PASSES: nat := 300

  /** The text spliced in before the host name. */
  const HOSTNAME_FIELD: string := "\"hostname\":\""

  /** The text appended after the host name. */
  const HOSTNAME_END: string := "\"}"

  // ---------------------------------------------------------------------------
  // start(): batch_size
  // ---------------------------------------------------------------------------

  predicate Acceptable(v: int) {
    0 < v < BATCH_SIZE_BOUND
  }

  /**
   * batch_size_ after start() has seen the configured batch_size values in
   * order: the last acceptable one, or the default when none is.
   */
  function ConfiguredBatchSize(values: seq<int>): (n: nat)
    ensures 0 < n < BATCH_SIZE_BOUND
    ensures n == DEFAULT_BATCH_SIZE || n in values
    ensures (forall i | 0 <= i < |values| :: !Acceptable(values[i])) ==> n == DEFAULT_BATCH_SIZE
    ensures values != [] && Acceptable(values[|values| - 1]) ==> n == values[|values| - 1]
  {
    if values == [] then DEFAULT_BATCH_SIZE
    else if Acceptable(values[|values| - 1]) then values[|values| - 1]
    else ConfiguredBatchSize(values[..|values| - 1])
  }

  // ---------------------------------------------------------------------------
  // append_hostname
  // ---------------------------------------------------------------------------

  /** std::string::rfind: the index of the last occurrence of c. */
  function RFind(s: string, c: char): (r: Option<nat>)
    ensures r.Some? ==> r.value < |s| && s[r.value] == c && forall j | r.value < j < |s| :: s[j] != c
    ensures r.None? ==> forall j | 0 <= j < |s| :: s[j] != c
  {
    if s == [] then None
    else if s[|s| - 1] == c then Some(|s| - 1)
    else RFind(s[..|s| - 1], c)
  }

  /** `int pos = str->rfind('}')`: npos becomes -1 in the int. */
  function BracePos(s: string): int {
    match RFind(s, '}')
    case Some(p) => p
    case None => -1
  }

  /**
   * The string after append_hostname: when its last '}' is past index 0,
   * that '}' becomes ',' and "hostname":"<host>"} is appended.
   */
  function WithHostname(s: string, host: string): (r: string)
    ensures BracePos(s) <= 0 ==> r == s
    ensures BracePos(s) > 0 ==>
      var p := BracePos(s);
      |r| == |s| + |host| + 14 && r[p] == ',' &&
      (forall i | 0 <= i < |s| && i != p :: r[i] == s[i]) &&
      r[|s|..] == HOSTNAME_FIELD + host + HOSTNAME_END
  {
    var p := BracePos(s);
    if p > 0 then s[p := ','] + HOSTNAME_FIELD + host + HOSTNAME_END else s
  }

  /** A JSON object text ending in '}' gets the hostname as its last member. */
  lemma HostnameOfObject(body: string, host: string)
    requires |body| > 0
    ensures WithHostname(body + "}", host) == body + "," + HOSTNAME_FIELD + host + HOSTNAME_END
  {
    var s := body + "}";
    assert BracePos(s) == |body|;
    assert s[|body| := ','] == body + ",";
  }

  /** A string without '}', or whose only '}' opens it, is left alone. */
  lemma HostnameUnchanged(s: string, host: string)
    requires forall j | 0 < j < |s| :: s[j] != '}'
    ensures WithHostname(s, host) == s
  {
  }

  // ---------------------------------------------------------------------------
  // mq_reader: filling and flushing a batch
  // ---------------------------------------------------------------------------

  /** `batch_size_ * 300 / 2`: a message at least this long travels alone. */
  function LargeThreshold(batchSize: nat): nat {
    batchSize * 300 / 2
  }

  /** The state the fill loop leaves: the batch, the rest of the queue and send_batch. */
  datatype Filled = Filled(batch: seq<string>, queue: seq<string>, send: bool)

  /**
   * The fill loop: move messages from the queue front into the batch until
   * the queue is empty, the batch is full, or a large message is met; a large
   * message is taken only into an empty batch, and it ends the filling.
   */
  function Fill(batch: seq<string>, queue: seq<string>, batchSize: nat): (f: Filled)
    ensures |f.batch| + |f.queue| == |batch| + |queue|
    ensures |batch| <= |f.batch|
    decreases |queue|
  {
    if queue == [] || |batch| >= batchSize then Filled(batch, queue, false)
    else if |queue[0]| >= LargeThreshold(batchSize) then
      if |batch| == 0 then Filled(batch + [queue[0]], queue[1..], true)
      else Filled(batch, queue, true)
    else Fill(batch + [queue[0]], queue[1..], batchSize)
  }

  /**
   * Filling only moves messages from the queue front to the batch end, never
   * grows a batch past batch_size_, and stops for one of the three reasons;
   * every message taken is small, unless it is a large one alone in its batch.
   */
  lemma {:induction false} FillFacts(batch: seq<string>, queue: seq<string>, batchSize: nat)
    ensures var f := Fill(batch, queue, batchSize);
      f.batch + f.queue == batch + queue &&
      |batch| <= |f.batch| && f.batch[..|batch|] == batch &&
      (|batch| <= batchSize ==> |f.batch| <= batchSize) &&
      (!f.send ==> f.queue == [] || |f.batch| >= batchSize) &&
      (forall i | |batch| <= i < |f.batch| :: |f.batch[i]| < LargeThreshold(batchSize) || f.batch == [f.batch[i]])
    decreases |queue|
  {
    if queue == [] || |batch| >= batchSize {
      assert batch[..|batch|] == batch;
    } else if |queue[0]| >= LargeThreshold(batchSize) {
      assert batch + [queue[0]] + queue[1..] == batch + queue;
      assert (batch + [queue[0]])[..|batch|] == batch;
    } else {
      var b := batch + [queue[0]];
      FillFacts(b, queue[1..], batchSize);
      var f := Fill(b, queue[1..], batchSize);
      assert b + queue[1..] == batch + queue;
      assert f.batch[..|batch|] == f.batch[..|b|][..|batch|];
      assert f.batch[|batch|] == queue[0];
    }
  }

  /**
   * send_batch is set only for a large message: either it was taken alone
   * into an empty batch, or it waits at the queue front behind a non-empty batch.
   */
  lemma {:induction false} FillSendsLarge(batch: seq<string>, queue: seq<string>, batchSize: nat)
    ensures var f := Fill(batch, queue, batchSize);
      f.send ==>
        (batch == [] && |f.batch| == 1 && |f.batch[0]| >= LargeThreshold(batchSize)) ||
        (f.batch != [] && f.queue != [] && |f.queue[0]| >= LargeThreshold(batchSize))
    decreases |queue|
  {
    if queue != [] && |batch| < batchSize && |queue[0]| < LargeThreshold(batchSize) {
      FillSendsLarge(batch + [queue[0]], queue[1..], batchSize);
    }
  }

  /** What happens after a fill: whether the batch goes out now, and the idle counter. */
  datatype FlushDecision = FlushDecision(flush: bool, counter: nat)

  /**
   * The flush rule: a full batch or a large message sends at once and resets
   * the counter; otherwise the counter grows on passes with a non-empty
   * batch and the batch goes out once it reaches 300.
   */
  function Flush(batchLen: nat, batchSize: nat, send: bool, counter: nat): (d: FlushDecision)
    ensures d.counter < FLUSH_PASSES
    ensures d.flush ==> d.counter == 0
    ensures batchLen >= batchSize || send ==> d.flush
  {
    if batchLen < batchSize && !send then
      var c := if batchLen > 0 then counter + 1 else counter;
      if c < FLUSH_PASSES then FlushDecision(false, c) else FlushDecision(true, 0)
    else FlushDecision(true, 0)
  }

  /** The idle passes a partial batch waits through, counted from the given counter. */
  function PassesUntilFlush(batchLen: nat, batchSize: nat, counter: nat): nat
    requires 0 < batchLen < batchSize && counter < FLUSH_PASSES
    decreases FLUSH_PASSES - counter
  {
    var d := Flush(batchLen, batchSize, false, counter);
    if d.flush then 1 else 1 + PassesUntilFlush(batchLen, batchSize, d.counter)
  }

  /** A partial, non-empty batch that gets no new message is sent after exactly 300 - counter passes. */
  lemma {:induction false} PartialBatchFlushed(batchLen: nat, batchSize: nat, counter: nat)
    requires 0 < batchLen < batchSize && counter < FLUSH_PASSES
    ensures PassesUntilFlush(batchLen, batchSize, counter) == FLUSH_PASSES - counter
    decreases FLUSH_PASSES - counter
  {
    if counter + 1 < FLUSH_PASSES {
      PartialBatchFlushed(batchLen, batchSize, counter + 1);
    }
  }

  /** A send always resets the counter, and a counter kept is below 300. */
  lemma FlushResets(batchLen: nat, batchSize: nat, send: bool, counter: nat)
    requires counter < FLUSH_PASSES
    ensures var d := Flush(batchLen, batchSize, send, counter);
      (d.flush ==> d.counter == 0) && (!d.flush ==> d.counter < FLUSH_PASSES) &&
      (batchLen >= batchSize || send ==> d.flush) &&
      (batchLen == 0 && !send && batchSize > 0 ==> !d.flush)
  {
  }

  /** The message strings of a queue without nulls. */
  function Values(q: seq<Entry>): (r: seq<string>)
    requires NoNull(q)
    ensures |r| == |q| && forall i | 0 <= i < |q| :: r[i] == q[i].value
  {
    if q == [] then [] else [q[0].value] + Values(q[1..])
  }

  /** fplogd's Impl as far as these rules need it: its queue, batch_size_ and hostname_. */
  class Reader {
    const mq: Controller
    var batchSize: nat
    var hostname: string

    constructor(queue: Controller, host: string)
      ensures mq == queue && batchSize == DEFAULT_BATCH_SIZE && hostname == host
    {
      mq, batchSize, hostname := queue, DEFAULT_BATCH_SIZE, host;
    }

    /** start(): batch_size_ is reset to 30, then each acceptable configured value replaces it. */
    method Start(values: seq<int>)
      modifies `batchSize
      ensures batchSize == ConfiguredBatchSize(values)
    {
      batchSize := DEFAULT_BATCH_SIZE;
      for i := 0 to |values|
        invariant batchSize == ConfiguredBatchSize(values[..i])
      {
        assert values[..i + 1][..i] == values[..i];
        if 0 < values[i] < BATCH_SIZE_BOUND {
          batchSize := values[i];
        }
      }
      assert values[..|values|] == values;
    }

    /** append_hostname: a null message is left alone; otherwise the string is edited in place. */
    method AppendHostname(str: Option<string>) returns (r: Option<string>)
      ensures str.None? ==> r.None?
      ensures str.Some? ==> r == Some(WithHostname(str.value, hostname))
    {
      if str.None? {
        return str;
      }
      var s := str.value;
      var pos := BracePos(s);
      if pos > 0 {
        s := s[pos := ','];
        s := s + HOSTNAME_FIELD;
        s := s + hostname;
        s := s + HOSTNAME_END;
      }
      r := Some(s);
    }

    /** The fill loop of mq_reader, popping through the controller. */
    method FillBatch(batch: seq<string>) returns (batch': seq<string>, sendBatch: bool)
      requires mq.Valid()
      modifies mq`mq, mq`mqSize
      ensures mq.Valid()
      ensures Fill(batch, Values(old(mq.mq)), batchSize) == Filled(batch', Values(mq.mq), sendBatch)
    {
      batch', sendBatch := batch, false;
      while mq.mq != [] && |batch'| < batchSize && !sendBatch
        invariant mq.Valid()
        invariant Fill(batch, Values(old(mq.mq)), batchSize) ==
                  if sendBatch then Filled(batch', Values(mq.mq), true) else Fill(batch', Values(mq.mq), batchSize)
        decreases |mq.mq|, !sendBatch
      {
        var entry := mq.Front();
        var str := entry.value;
        assert Values(mq.mq)[1..] == Values(mq.mq[1..]);
        if |str| >= LargeThreshold(batchSize) {
          if |batch'| == 0 {
            sendBatch := true;
            mq.Pop();
            batch' := batch' + [str];
          } else {
            sendBatch := true;
          }
        } else {
          mq.Pop();
          batch' := batch' + [str];
        }
      }
    }

    /**
     * One pass of mq_reader's loop with the batch and batch_flush_counter it
     * carries: fill, then either keep waiting or hand the batch over for
     * sending (sent) and start an empty one.
     */
    method ReaderPass(batch: seq<string>, counter: nat) returns (batch': seq<string>, counter': nat, sent: Option<seq<string>>)
      requires mq.Valid()
      modifies mq`mq, mq`mqSize
      ensures mq.Valid()
      ensures var f := Fill(batch, Values(old(mq.mq)), batchSize);
        var d := Flush(|f.batch|, batchSize, f.send, counter);
        Values(mq.mq) == f.queue && counter' == d.counter &&
        (if d.flush then sent == Some(f.batch) && batch' == [] else sent.None? && batch' == f.batch)
    {
      var sendBatch;
      batch', sendBatch := FillBatch(batch);
      counter' := counter;
      if |batch'| < batchSize && !sendBatch {
        if |batch'| > 0 {
          counter' := counter' + 1;
        }
        if counter' < FLUSH_PASSES {
          return batch', counter', None;
        }
        counter' := 0;
      } else {
        counter' := 0;
      }
      sent := Some(batch');
      batch' := [];
    }
  }
}
