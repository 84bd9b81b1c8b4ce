/**
 * fplogd's Queue_Controller (fplogd/Queue_Controller.cpp): a FIFO of pending
 * log messages with a running byte count. When the count stays above the
 * limit for too long, an eviction policy drops messages, and a fallback
 * policy runs when the first one was not enough.
 */
module QueueControl {
  import opened Wrappers
  import opened CStrings

  /** A queued message: a string, or null. */
  type Entry = Option<string>

  /** size_t is 64 bits wide. */
  const SIZE_T_MODULUS: int := 0x1_0000_0000_0000_0000

  /** The bytes an entry adds to the running count; a null entry adds none. */
  function EntryLen(e: Entry): nat {
    if e.Some? then StrLen(e.value) else 0
  }

  /** The running byte count a queue should have. */
  function Total(q: seq<Entry>): nat {
    if q == [] then 0 else EntryLen(q[0]) + Total(q[1..])
  }

  /** `cs >= max_size_` with the int cs converted to size_t, as C++ compares them. */
  predicate AtLimit(cs: int, limit: nat) {
    (if cs < 0 then cs + SIZE_T_MODULUS else cs) >= limit
  }

  /** `if (cs < 0) cs = 0;` */
  function Clamp(cs: int): nat {
    if cs < 0 then 0 else cs
  }

  predicate NoNull(q: seq<Entry>) {
    forall i | 0 <= i < |q| :: q[i].Some?
  }

  /** The non-null entries, in order. */
  function NonNull(q: seq<Entry>): (r: seq<Entry>)
    ensures |r| <= |q|
  {
    if q == [] then []
    else if q[0].Some? then [q[0]] + NonNull(q[1..])
    else NonNull(q[1..])
  }

  /** The non-null entries the filter selects (wanted) or does not select (!wanted), in order. */
  function Matching(q: seq<Entry>, sel: string -> bool, wanted: bool): seq<Entry> {
    if q == [] then []
    else if q[0].Some? && sel(q[0].value) == wanted then [q[0]] + Matching(q[1..], sel, wanted)
    else Matching(q[1..], sel, wanted)
  }

  function Reverse<T>(s: seq<T>): (r: seq<T>)
    ensures |r| == |s|
  {
    if s == [] then [] else Reverse(s[1..]) + [s[0]]
  }

  /** The entries of s whose mask bit is set, in order. */
  function Keep<T>(s: seq<T>, mask: seq<bool>): seq<T>
    requires |mask| == |s|
  {
    if s == [] then [] else (if mask[0] then [s[0]] else []) + Keep(s[1..], mask[1..])
  }

  /** a is s with some entries deleted and the rest in their original order. */
  ghost predicate IsSubseq<T>(a: seq<T>, s: seq<T>) {
    exists mask: seq<bool> :: |mask| == |s| && Keep(s, mask) == a
  }

  // ---------------------------------------------------------------------------
  // The four eviction policies as functions of the queue
  // ---------------------------------------------------------------------------

  /** What a policy leaves behind: the surviving queue, the final cs and the number of deletions. */
  datatype Eviction = Eviction(kept: seq<Entry>, size: int, removed: nat)

  /** Algo::Result: the clamped size and removed_count. */
  datatype AlgoResult = AlgoResult(currentSize: nat, removedCount: nat)

  function Outcome(e: Eviction): AlgoResult {
    AlgoResult(Clamp(e.size), e.removed)
  }

  /** Remove_Oldest: pop from the front while cs is at the limit and the queue is not empty. */
  function DropOldest(q: seq<Entry>, cs: int, limit: nat): (r: Eviction)
    ensures |r.kept| + r.removed == |q|
    decreases |q|
  {
    if q == [] || !AtLimit(cs, limit) then Eviction(q, cs, 0)
    else
      var r := DropOldest(q[1..], cs - EntryLen(q[0]), limit);
      r.(removed := r.removed + 1)
  }

  /** Remove_Newest: pop from the back under the same condition. */
  function DropNewest(q: seq<Entry>, cs: int, limit: nat): (r: Eviction)
    ensures |r.kept| + r.removed == |q|
    decreases |q|
  {
    if q == [] || !AtLimit(cs, limit) then Eviction(q, cs, 0)
    else
      var r := DropNewest(q[..|q| - 1], cs - EntryLen(q[|q| - 1]), limit);
      r.(removed := r.removed + 1)
  }

  /**
   * Remove_Oldest_Below_Priority: scan front to back, drop nulls, delete a
   * selected entry while cs is at the limit, keep everything else.
   */
  function ScanOldest(q: seq<Entry>, cs: int, limit: nat, sel: string -> bool): (r: Eviction)
    ensures |r.kept| + r.removed <= |q|
    ensures NoNull(r.kept)
    decreases |q|
  {
    if q == [] then Eviction([], cs, 0)
    else if q[0].None? then ScanOldest(q[1..], cs, limit, sel)
    else if AtLimit(cs, limit) && sel(q[0].value) then
      var r := ScanOldest(q[1..], cs - StrLen(q[0].value), limit, sel);
      r.(removed := r.removed + 1)
    else
      var r := ScanOldest(q[1..], cs, limit, sel);
      r.(kept := [q[0]] + r.kept)
  }

  /**
   * Remove_Newest_Below_Priority: the non-null entries reversed, scanned as
   * above, and the survivors reversed back into their original order.
   */
  function ScanNewest(q: seq<Entry>, cs: int, limit: nat, sel: string -> bool): (r: Eviction)
    ensures |r.kept| + r.removed <= |q|
  {
    var r := ScanOldest(Reverse(NonNull(q)), cs, limit, sel);
    r.(kept := Reverse(r.kept))
  }

  /** The eviction policies a Queue_Controller can hold; the priority ones carry their filter. */
  datatype Algo =
    | RemoveOldest
    | RemoveNewest
    | RemoveOldestBelowPriority(filter: string -> bool)
    | RemoveNewestBelowPriority(filter: string -> bool)

  /** Algo::Fallback_Options::Type: the two named fallbacks, or any other option. */
  datatype FallbackOption = FallbackRemoveNewest | FallbackRemoveOldest | OtherFallback

  /** process_queue of a policy on queue q with current size cs. */
  function Evict(a: Algo, q: seq<Entry>, cs: int, limit: nat): (r: Eviction)
    ensures |r.kept| + r.removed <= |q|
  {
    match a
    case RemoveOldest => DropOldest(q, cs, limit)
    case RemoveNewest => DropNewest(q, cs, limit)
    case RemoveOldestBelowPriority(sel) => ScanOldest(q, cs, limit, sel)
    case RemoveNewestBelowPriority(sel) => ScanNewest(q, cs, limit, sel)
  }

  /**
   * The queue after handle_emergency: the policy runs on a consistent count;
   * the fallback runs afterwards only when the emergency persists, that is
   * when the count is still above the limit and the clock says so.
   */
  function AfterEmergency(q: seq<Entry>, algo: Algo, fallback: Algo, limit: nat, stillTimedOut: bool): (r: seq<Entry>)
    ensures |r| <= |q|
  {
    var q1 := Evict(algo, q, Total(q), limit).kept;
    if Total(q1) > limit && stillTimedOut then Evict(fallback, q1, Total(q1), limit).kept else q1
  }

  // ---------------------------------------------------------------------------
  // The controller
  // ---------------------------------------------------------------------------

  class Controller {
    var mq: seq<Entry>
    var mqSize: int
    const maxSize: nat
    var algo: Algo
    var fallback: Algo

    /** The running count matches the queue, which holds no null (push refuses them). */
    predicate Valid()
      reads this
    {
      mqSize == Total(mq) && NoNull(mq)
    }

    /**
     * The constructor: an empty queue; Remove_Oldest_Below_Priority at
     * warning as the policy (its filter is given) and Remove_Oldest as the fallback.
     */
    constructor(sizeLimit: nat, warningFilter: string -> bool)
      ensures Valid() && mq == [] && maxSize == sizeLimit
      ensures algo == RemoveOldestBelowPriority(warningFilter) && fallback == RemoveOldest
    {
      mq, mqSize, maxSize := [], 0, sizeLimit;
      algo := RemoveOldestBelowPriority(warningFilter);
      fallback := RemoveOldest;
    }

    /** state_of_emergency, with the wall-clock timeout reduced to a flag. */
    predicate StateOfEmergency(timedOut: bool): (r: bool)
      reads this
      ensures r ==> mqSize > maxSize
      ensures !timedOut ==> !r
    {
      mqSize > maxSize && timedOut
    }

    /** empty */
    predicate Empty()
      reads this
    {
      mq == []
    }

    /** front: the oldest entry; the queue must not be empty. */
    method Front() returns (e: Entry)
      requires mq != []
      ensures e == mq[0]
    {
      e := mq[0];
    }

    /** pop: removes the front entry and subtracts its length; a null entry subtracts nothing. */
    method Pop()
      requires Valid() && mq != []
      modifies `mq, `mqSize
      ensures Valid()
      ensures mq == old(mq)[1..] && mqSize == old(mqSize) - EntryLen(old(mq)[0])
    {
      var str := mq[0];
      mq := mq[1..];
      if str.None? {
        return;
      }
      mqSize := mqSize - StrLen(str.value);
    }

    /**
     * push: a null entry is ignored; otherwise an emergency is handled first,
     * then the entry goes to the back and its length is added to the count.
     * timedOut and stillTimedOut stand for the two clock readings.
     */
    method Push(str: Entry, timedOut: bool, stillTimedOut: bool)
      requires Valid()
      modifies `mq, `mqSize
      ensures Valid()
      ensures str.None? ==> mq == old(mq)
      ensures str.Some? && !old(StateOfEmergency(timedOut)) ==> mq == old(mq) + [str]
      ensures str.Some? && old(StateOfEmergency(timedOut)) ==>
        mq == AfterEmergency(old(mq), algo, fallback, maxSize, stillTimedOut) + [str]
    {
      if str.None? {
        return;
      }
      var len := StrLen(str.value);
      if StateOfEmergency(timedOut) {
        HandleEmergency(stillTimedOut);
      }
      TotalAppend(mq, [str]);
      mq := mq + [str];
      mqSize := mqSize + len;
    }

    /** handle_emergency: run the policy, then the fallback if the emergency persists. */
    method HandleEmergency(stillTimedOut: bool)
      requires Valid()
      modifies `mq, `mqSize
      ensures Valid()
      ensures mq == AfterEmergency(old(mq), algo, fallback, maxSize, stillTimedOut)
    {
      EvictConsistent(algo, mq, maxSize);
      var res := ProcessQueue(algo, mqSize);
      mqSize := res.currentSize;
      if StateOfEmergency(stillTimedOut) {
        EvictConsistent(fallback, mq, maxSize);
        res := ProcessQueue(fallback, mqSize);
      }
      mqSize := res.currentSize;
    }

    /** change_algo: the fallback changes only for the Remove_Newest and Remove_Oldest options. */
    method ChangeAlgo(a: Algo, option: FallbackOption)
      modifies `algo, `fallback
      ensures algo == a
      ensures fallback == match option
        case FallbackRemoveNewest => RemoveNewest
        case FallbackRemoveOldest => RemoveOldest
        case OtherFallback => old(fallback)
    {
      algo := a;
      if option == FallbackRemoveNewest {
        fallback := RemoveNewest;
      }
      if option == FallbackRemoveOldest {
        fallback := RemoveOldest;
      }
    }

    /** Algo::process_queue, dispatched on the policy. */
    method ProcessQueue(a: Algo, currentSize: int) returns (res: AlgoResult)
      modifies `mq
      ensures mq == Evict(a, old(mq), currentSize, maxSize).kept
      ensures res == Outcome(Evict(a, old(mq), currentSize, maxSize))
    {
      match a
      case RemoveOldest =>
        res := ProcessOldest(currentSize);
      case RemoveNewest =>
        res := ProcessNewest(currentSize);
      case RemoveOldestBelowPriority(sel) =>
        res := ProcessOldestBelowPriority(sel, currentSize);
      case RemoveNewestBelowPriority(sel) =>
        res := ProcessNewestBelowPriority(sel, currentSize);
    }

    /** Remove_Oldest::process_queue. */
    method ProcessOldest(currentSize: int) returns (res: AlgoResult)
      modifies `mq
      ensures mq == DropOldest(old(mq), currentSize, maxSize).kept
      ensures res == Outcome(DropOldest(old(mq), currentSize, maxSize))
    {
      var cs, removed := currentSize, 0;
      while AtLimit(cs, maxSize)
        invariant DropOldest(old(mq), currentSize, maxSize) == Shifted(DropOldest(mq, cs, maxSize), removed)
        decreases |mq|
      {
        if mq == [] {
          break;
        }
        var str := mq[0];
        mq := mq[1..];
        if str.Some? {
          cs := cs - StrLen(str.value);
        }
        removed := removed + 1;
      }
      res := AlgoResult(Clamp(cs), removed);
    }

    /** Remove_Newest::process_queue: drain into a vector, pop its back, refill. */
    method ProcessNewest(currentSize: int) returns (res: AlgoResult)
      modifies `mq
      ensures mq == DropNewest(old(mq), currentSize, maxSize).kept
      ensures res == Outcome(DropNewest(old(mq), currentSize, maxSize))
    {
      var cs := currentSize;
      var v := Drain();
      var removed := 0;
      while AtLimit(cs, maxSize)
        invariant DropNewest(old(mq), currentSize, maxSize) == Shifted(DropNewest(v, cs, maxSize), removed)
        decreases |v|
      {
        if v == [] {
          break;
        }
        var str := v[|v| - 1];
        v := v[..|v| - 1];
        if str.Some? {
          cs := cs - StrLen(str.value);
        }
        removed := removed + 1;
      }
      PushAll(v);
      res := AlgoResult(Clamp(cs), removed);
    }

    /** Remove_Oldest_Below_Priority::process_queue. */
    method ProcessOldestBelowPriority(sel: string -> bool, currentSize: int) returns (res: AlgoResult)
      modifies `mq
      ensures mq == ScanOldest(old(mq), currentSize, maxSize, sel).kept
      ensures res == Outcome(ScanOldest(old(mq), currentSize, maxSize, sel))
    {
      var kept, cs, removed := Scan(sel, currentSize);
      mq := kept;
      res := AlgoResult(Clamp(cs), removed);
    }

    /**
     * Remove_Newest_Below_Priority::process_queue: drop the nulls, refill
     * newest first, scan, and refill the survivors reversed.
     */
    method ProcessNewestBelowPriority(sel: string -> bool, currentSize: int) returns (res: AlgoResult)
      modifies `mq
      ensures mq == ScanNewest(old(mq), currentSize, maxSize, sel).kept
      ensures res == Outcome(ScanNewest(old(mq), currentSize, maxSize, sel))
    {
      var v := DrainNonNull();
      PushReversed(v);
      assert mq == Reverse(v);
      var kept, cs, removed := Scan(sel, currentSize);
      PushReversed(kept);
      assert mq == Reverse(kept);
      res := AlgoResult(Clamp(cs), removed);
    }

    /** The scan loop shared by both priority policies; the survivors are collected in order. */
    method Scan(sel: string -> bool, currentSize: int) returns (kept: seq<Entry>, cs: int, removed: nat)
      modifies `mq
      ensures mq == []
      ensures ScanOldest(old(mq), currentSize, maxSize, sel) == Eviction(kept, cs, removed)
    {
      kept, cs, removed := [], currentSize, 0;
      ghost var target := ScanOldest(mq, cs, maxSize, sel);
      assert target == Joined(kept, removed, target);
      while mq != []
        invariant Joined(kept, removed, ScanOldest(mq, cs, maxSize, sel)) == target
        decreases |mq|
      {
        kept, cs, removed := ScanFront(sel, kept, cs, removed);
      }
    }

    /** One pass of the scan loop: the front entry is kept, deleted or (when null) dropped, then popped. */
    method ScanFront(sel: string -> bool, kept: seq<Entry>, cs: int, removed: nat)
      returns (kept': seq<Entry>, cs': int, removed': nat)
      requires mq != []
      modifies `mq
      ensures mq == old(mq)[1..]
      ensures Joined(kept', removed', ScanOldest(mq, cs', maxSize, sel)) ==
              Joined(kept, removed, ScanOldest(old(mq), cs, maxSize, sel))
    {
      ScanStep(mq, cs, maxSize, sel, kept, removed);
      kept', cs', removed' := kept, cs, removed;
      var str := mq[0];
      if str.Some? {
        if AtLimit(cs, maxSize) {
          var len := StrLen(str.value);
          if sel(str.value) {
            cs' := cs - len;
            removed' := removed + 1;
          } else {
            kept' := kept + [str];
          }
        } else {
          kept' := kept + [str];
        }
      }
      mq := mq[1..];
    }

    /** Moves every entry, in order, from the queue into a vector. */
    method Drain() returns (v: seq<Entry>)
      modifies `mq
      ensures v == old(mq) && mq == []
    {
      v := [];
      while mq != []
        invariant v + mq == old(mq)
        decreases |mq|
      {
        v := v + [mq[0]];
        mq := mq[1..];
      }
    }

    /** Like Drain, but null entries are dropped. */
    method DrainNonNull() returns (v: seq<Entry>)
      modifies `mq
      ensures v == NonNull(old(mq)) && mq == []
    {
      v := [];
      while mq != []
        invariant v + NonNull(mq) == NonNull(old(mq))
        decreases |mq|
      {
        var str := mq[0];
        mq := mq[1..];
        if str.None? {
          continue;
        }
        v := v + [str];
      }
    }

    /** Pushes the entries of v to the back, first to last. */
    method PushAll(v: seq<Entry>)
      modifies `mq
      ensures mq == old(mq) + v
    {
      var i := 0;
      while i < |v|
        invariant 0 <= i <= |v| && mq == old(mq) + v[..i]
      {
        mq := mq + [v[i]];
        i := i + 1;
      }
    }

    /** Pushes the entries of v to the back, last to first (a reverse_iterator walk). */
    method PushReversed(v: seq<Entry>)
      modifies `mq
      ensures mq == old(mq) + Reverse(v)
    {
      var i := |v|;
      while i > 0
        invariant 0 <= i <= |v| && mq == old(mq) + Reverse(v[i..])
      {
        i := i - 1;
        assert v[i..][1..] == v[i + 1..];
        mq := mq + [v[i]];
      }
    }
  }

  /** An eviction result with n earlier deletions added. */
  function Shifted(e: Eviction, n: nat): Eviction {
    e.(removed := e.removed + n)
  }

  /** An eviction result after kept survivors and removed deletions have already been collected. */
  function Joined(kept: seq<Entry>, removed: nat, e: Eviction): Eviction {
    Eviction(kept + e.kept, e.size, removed + e.removed)
  }

  /** One step of the priority scan, seen from an accumulated result. */
  lemma ScanStep(q: seq<Entry>, cs: int, limit: nat, sel: string -> bool, kept: seq<Entry>, removed: nat)
    requires q != []
    ensures var e := q[0];
      var del := e.Some? && AtLimit(cs, limit) && sel(e.value);
      var cs' := if del then cs - StrLen(e.value) else cs;
      Joined(kept, removed, ScanOldest(q, cs, limit, sel)) ==
        Joined(kept + (if e.Some? && !del then [e] else []), removed + (if del then 1 else 0), ScanOldest(q[1..], cs', limit, sel))
  {
    var e := q[0];
    if e.Some? && !(AtLimit(cs, limit) && sel(e.value)) {
      var r := ScanOldest(q[1..], cs, limit, sel);
      assert kept + ([e] + r.kept) == (kept + [e]) + r.kept;
    } else {
      var cs' := if e.Some? then cs - StrLen(e.value) else cs;
      assert kept + [] == kept;
    }
  }

  // ---------------------------------------------------------------------------
  // Properties of the policies
  // ---------------------------------------------------------------------------

  lemma {:induction false} TotalAppend(a: seq<Entry>, b: seq<Entry>)
    ensures Total(a + b) == Total(a) + Total(b)
    decreases |a|
  {
    if a == [] {
      assert a + b == b;
    } else {
      assert (a + b)[0] == a[0] && (a + b)[1..] == a[1..] + b;
      TotalAppend(a[1..], b);
    }
  }

  /**
   * Remove_Oldest: the survivors are a suffix of the queue, the count drops
   * by exactly their complement, and it stops only on an empty queue or below the limit.
   */
  lemma {:induction false} DropOldestFacts(q: seq<Entry>, cs: int, limit: nat)
    ensures var r := DropOldest(q, cs, limit);
      r.removed <= |q| && r.kept == q[r.removed..] &&
      r.size + Total(q) == cs + Total(r.kept) &&
      (r.kept == [] || !AtLimit(r.size, limit))
    decreases |q|
  {
    if q != [] && AtLimit(cs, limit) {
      DropOldestFacts(q[1..], cs - EntryLen(q[0]), limit);
      var r := DropOldest(q[1..], cs - EntryLen(q[0]), limit);
      assert q[1..][r.removed..] == q[r.removed + 1..];
    }
  }

  /** The count of a queue split before its last entry. */
  lemma TotalLast(q: seq<Entry>)
    requires q != []
    ensures Total(q) == Total(q[..|q| - 1]) + EntryLen(q[|q| - 1])
  {
    var front, last := q[..|q| - 1], q[|q| - 1];
    TotalAppend(front, [last]);
    assert front + [last] == q;
    assert Total([last]) == EntryLen(last) + Total([]);
  }

  /** Taking m entries off the back of q's first |q|-1 entries takes m+1 off q. */
  lemma PrefixOfFront(q: seq<Entry>, m: nat)
    requires m < |q|
    ensures q[..|q| - 1][..|q| - 1 - m] == q[..|q| - (m + 1)]
  {
  }

  /**
   * Remove_Newest: the survivors are a prefix of the queue, with the same
   * accounting and stopping rule.
   */
  lemma {:induction false} DropNewestFacts(q: seq<Entry>, cs: int, limit: nat)
    ensures var r := DropNewest(q, cs, limit);
      r.removed <= |q| && r.kept == q[..|q| - r.removed] &&
      r.size + Total(q) == cs + Total(r.kept) &&
      (r.kept == [] || !AtLimit(r.size, limit))
    decreases |q|
  {
    if q == [] || !AtLimit(cs, limit) {
      assert q[..|q|] == q;
    } else {
      var front := q[..|q| - 1];
      var cs' := cs - EntryLen(q[|q| - 1]);
      DropNewestFacts(front, cs', limit);
      PrefixOfFront(q, DropNewest(front, cs', limit).removed);
      TotalLast(q);
    }
  }

  /** Below the limit a priority scan deletes nothing and only drops the nulls. */
  lemma {:induction false} ScanBelowLimit(q: seq<Entry>, cs: int, limit: nat, sel: string -> bool)
    requires !AtLimit(cs, limit)
    ensures ScanOldest(q, cs, limit, sel) == Eviction(NonNull(q), cs, 0)
    decreases |q|
  {
    if q != [] {
      ScanBelowLimit(q[1..], cs, limit, sel);
    }
  }

  /** A priority scan drops the nulls and accounts for each deletion in count and size. */
  lemma {:induction false} ScanOldestCounts(q: seq<Entry>, cs: int, limit: nat, sel: string -> bool)
    ensures var r := ScanOldest(q, cs, limit, sel);
      NonNull(r.kept) == r.kept &&
      |r.kept| + r.removed == |NonNull(q)| &&
      r.size + Total(q) == cs + Total(r.kept)
    decreases |q|
  {
    if q == [] {
      return;
    }
    var head, tail := q[0], q[1..];
    var del := head.Some? && AtLimit(cs, limit) && sel(head.value);
    var cs' := if del then cs - StrLen(head.value) else cs;
    ScanOldestCounts(tail, cs', limit, sel);
    if head.Some? && !del {
      var k := [head] + ScanOldest(tail, cs', limit, sel).kept;
      assert k[1..] == ScanOldest(tail, cs', limit, sel).kept;
    }
  }

  /**
   * A priority scan keeps every unselected non-null entry and deletes the
   * oldest selected ones.
   */
  lemma {:induction false} ScanOldestMatching(q: seq<Entry>, cs: int, limit: nat, sel: string -> bool)
    ensures var r := ScanOldest(q, cs, limit, sel);
      Matching(r.kept, sel, false) == Matching(q, sel, false) &&
      r.removed <= |Matching(q, sel, true)| &&
      Matching(r.kept, sel, true) == Matching(q, sel, true)[r.removed..]
    decreases |q|
  {
    if q == [] {
      return;
    }
    var head, tail := q[0], q[1..];
    if head.None? {
      ScanOldestMatching(tail, cs, limit, sel);
    } else if AtLimit(cs, limit) && sel(head.value) {
      ScanOldestMatching(tail, cs - StrLen(head.value), limit, sel);
      var r := ScanOldest(tail, cs - StrLen(head.value), limit, sel);
      assert Matching(q, sel, true) == [head] + Matching(tail, sel, true);
      assert Matching(tail, sel, true)[r.removed..] == Matching(q, sel, true)[r.removed + 1..];
    } else {
      ScanOldestMatching(tail, cs, limit, sel);
      var r := ScanOldest(tail, cs, limit, sel);
      var k := [head] + r.kept;
      assert k[1..] == r.kept;
      if sel(head.value) {
        ScanBelowLimit(tail, cs, limit, sel);
        assert Matching(q, sel, true) == [head] + Matching(tail, sel, true);
      }
    }
  }

  /**
   * A priority scan keeps every unselected non-null entry, deletes the
   * oldest selected ones, drops the nulls and accounts for each deletion.
   */
  lemma ScanOldestFacts(q: seq<Entry>, cs: int, limit: nat, sel: string -> bool)
    ensures var r := ScanOldest(q, cs, limit, sel);
      NonNull(r.kept) == r.kept &&
      IsSubseq(r.kept, NonNull(q)) &&
      Matching(r.kept, sel, false) == Matching(q, sel, false) &&
      r.removed <= |Matching(q, sel, true)| &&
      Matching(r.kept, sel, true) == Matching(q, sel, true)[r.removed..] &&
      |r.kept| + r.removed == |NonNull(q)| &&
      r.size + Total(q) == cs + Total(r.kept) &&
      (AtLimit(r.size, limit) ==> Matching(r.kept, sel, true) == [])
  {
    ScanOldestCounts(q, cs, limit, sel);
    ScanOldestMatching(q, cs, limit, sel);
    ScanOldestOrder(q, cs, limit, sel);
    ScanOldestStops(q, cs, limit, sel);
  }

  /** A priority scan that ends at the limit has deleted every selected entry. */
  lemma {:induction false} ScanOldestStops(q: seq<Entry>, cs: int, limit: nat, sel: string -> bool)
    ensures var r := ScanOldest(q, cs, limit, sel);
      AtLimit(r.size, limit) ==> Matching(r.kept, sel, true) == []
    decreases |q|
  {
    if q == [] {
      return;
    }
    var head, tail := q[0], q[1..];
    if head.None? {
      ScanOldestStops(tail, cs, limit, sel);
    } else if AtLimit(cs, limit) && sel(head.value) {
      ScanOldestStops(tail, cs - StrLen(head.value), limit, sel);
    } else if sel(head.value) {
      ScanBelowLimit(tail, cs, limit, sel);
    } else {
      ScanOldestStops(tail, cs, limit, sel);
      var r := ScanOldest(tail, cs, limit, sel);
      assert ([head] + r.kept)[1..] == r.kept;
    }
  }

  /** The deletion mask of a priority scan over the non-null entries. */
  lemma {:induction false} ScanOldestMask(q: seq<Entry>, cs: int, limit: nat, sel: string -> bool)
    returns (mask: seq<bool>)
    ensures |mask| == |NonNull(q)| && Keep(NonNull(q), mask) == ScanOldest(q, cs, limit, sel).kept
    decreases |q|
  {
    if q == [] {
      return [];
    }
    var head, tail := q[0], q[1..];
    if head.None? {
      mask := ScanOldestMask(tail, cs, limit, sel);
      return;
    }
    var del := AtLimit(cs, limit) && sel(head.value);
    var cs' := if del then cs - StrLen(head.value) else cs;
    var rest := ScanOldestMask(tail, cs', limit, sel);
    KeepCons(head, NonNull(tail), !del, rest);
    mask := [!del] + rest;
    assert ScanOldest(q, cs, limit, sel).kept == (if del then [] else [head]) + ScanOldest(tail, cs', limit, sel).kept;
  }

  /** The survivors of a priority scan keep their original relative order. */
  lemma ScanOldestOrder(q: seq<Entry>, cs: int, limit: nat, sel: string -> bool)
    ensures IsSubseq(ScanOldest(q, cs, limit, sel).kept, NonNull(q))
  {
    var mask := ScanOldestMask(q, cs, limit, sel);
  }

  lemma KeepCons<T>(x: T, s: seq<T>, b: bool, mask: seq<bool>)
    requires |mask| == |s|
    ensures Keep([x] + s, [b] + mask) == (if b then [x] else []) + Keep(s, mask)
  {
    assert ([x] + s)[1..] == s && ([b] + mask)[1..] == mask;
  }

  lemma {:induction false} ReverseAppend<T>(a: seq<T>, b: seq<T>)
    ensures Reverse(a + b) == Reverse(b) + Reverse(a)
    decreases |a|
  {
    if a == [] {
      assert a + b == b;
    } else {
      assert (a + b)[0] == a[0] && (a + b)[1..] == a[1..] + b;
      ReverseAppend(a[1..], b);
      assert Reverse(a + b) == (Reverse(b) + Reverse(a[1..])) + [a[0]];
      assert (Reverse(b) + Reverse(a[1..])) + [a[0]] == Reverse(b) + (Reverse(a[1..]) + [a[0]]);
    }
  }

  lemma {:induction false} ReverseFacts<T>(s: seq<T>)
    ensures |Reverse(s)| == |s| && Reverse(Reverse(s)) == s
    decreases |s|
  {
    if s != [] {
      ReverseFacts(s[1..]);
      ReverseAppend(Reverse(s[1..]), [s[0]]);
      assert Reverse([s[0]]) == [s[0]];
      assert [s[0]] + s[1..] == s;
    }
  }

  /** Dropping k entries from the front of a reversal drops k from the back of the original. */
  lemma ReverseSuffix<T>(s: seq<T>, k: nat)
    requires k <= |s|
    ensures |Reverse(s)| == |s| && Reverse(Reverse(s)[k..]) == s[..|s| - k]
  {
    ReverseFacts(s);
    var a, b := s[..|s| - k], s[|s| - k..];
    assert s == a + b;
    ReverseAppend(a, b);
    ReverseFacts(a);
    ReverseFacts(b);
    var rb, ra := Reverse(b), Reverse(a);
    assert |rb| == k;
    assert (rb + ra)[k..] == ra;
  }

  lemma {:induction false} NonNullReverse(q: seq<Entry>)
    ensures NonNull(Reverse(q)) == Reverse(NonNull(q))
    decreases |q|
  {
    if q != [] {
      NonNullReverse(q[1..]);
      NonNullAppend(Reverse(q[1..]), [q[0]]);
      if q[0].Some? {
        ReverseAppend([q[0]], NonNull(q[1..]));
      }
    }
  }

  lemma {:induction false} NonNullAppend(a: seq<Entry>, b: seq<Entry>)
    ensures NonNull(a + b) == NonNull(a) + NonNull(b)
    decreases |a|
  {
    if a == [] {
      assert a + b == b;
    } else {
      var h := if a[0].Some? then [a[0]] else [];
      assert (a + b)[0] == a[0] && (a + b)[1..] == a[1..] + b;
      NonNullAppend(a[1..], b);
      assert NonNull(a + b) == h + (NonNull(a[1..]) + NonNull(b));
      assert h + (NonNull(a[1..]) + NonNull(b)) == (h + NonNull(a[1..])) + NonNull(b);
    }
  }

  lemma {:induction false} MatchingAppend(a: seq<Entry>, b: seq<Entry>, sel: string -> bool, wanted: bool)
    ensures Matching(a + b, sel, wanted) == Matching(a, sel, wanted) + Matching(b, sel, wanted)
    decreases |a|
  {
    if a == [] {
      assert a + b == b;
    } else {
      var t := a[1..];
      assert (a + b)[0] == a[0] && (a + b)[1..] == t + b;
      MatchingAppend(t, b, sel, wanted);
      if a[0].Some? && sel(a[0].value) == wanted {
        assert [a[0]] + (Matching(t, sel, wanted) + Matching(b, sel, wanted)) ==
               ([a[0]] + Matching(t, sel, wanted)) + Matching(b, sel, wanted);
      }
    }
  }

  lemma {:induction false} MatchingReverse(q: seq<Entry>, sel: string -> bool, wanted: bool)
    ensures Matching(Reverse(q), sel, wanted) == Reverse(Matching(q, sel, wanted))
    decreases |q|
  {
    if q != [] {
      MatchingReverse(q[1..], sel, wanted);
      MatchingAppend(Reverse(q[1..]), [q[0]], sel, wanted);
      if q[0].Some? && sel(q[0].value) == wanted {
        ReverseAppend([q[0]], Matching(q[1..], sel, wanted));
      }
    }
  }

  /** Nulls never match. */
  lemma {:induction false} MatchingNonNull(q: seq<Entry>, sel: string -> bool, wanted: bool)
    ensures Matching(NonNull(q), sel, wanted) == Matching(q, sel, wanted)
    ensures |NonNull(NonNull(q))| == |NonNull(q)|
    decreases |q|
  {
    if q != [] {
      MatchingNonNull(q[1..], sel, wanted);
      if q[0].Some? {
        assert ([q[0]] + NonNull(q[1..]))[1..] == NonNull(q[1..]);
      }
    }
  }

  lemma {:induction false} TotalReverse(q: seq<Entry>)
    ensures Total(Reverse(q)) == Total(q)
    decreases |q|
  {
    if q != [] {
      TotalReverse(q[1..]);
      TotalAppend(Reverse(q[1..]), [q[0]]);
    }
  }

  lemma {:induction false} TotalNonNull(q: seq<Entry>)
    ensures Total(NonNull(q)) == Total(q)
    decreases |q|
  {
    if q != [] {
      TotalNonNull(q[1..]);
      if q[0].Some? {
        assert ([q[0]] + NonNull(q[1..]))[1..] == NonNull(q[1..]);
      }
    }
  }

  lemma {:induction false} KeepAppend<T>(a: seq<T>, ma: seq<bool>, b: seq<T>, mb: seq<bool>)
    requires |ma| == |a| && |mb| == |b|
    ensures Keep(a + b, ma + mb) == Keep(a, ma) + Keep(b, mb)
    decreases |a|
  {
    if a == [] {
      assert a + b == b && ma + mb == mb;
    } else {
      var h := if ma[0] then [a[0]] else [];
      assert (a + b)[0] == a[0] && (ma + mb)[0] == ma[0];
      assert (a + b)[1..] == a[1..] + b && (ma + mb)[1..] == ma[1..] + mb;
      KeepAppend(a[1..], ma[1..], b, mb);
      assert Keep(a + b, ma + mb) == h + (Keep(a[1..], ma[1..]) + Keep(b, mb));
      assert h + (Keep(a[1..], ma[1..]) + Keep(b, mb)) == (h + Keep(a[1..], ma[1..])) + Keep(b, mb);
    }
  }

  lemma {:induction false} KeepReverse<T>(s: seq<T>, mask: seq<bool>)
    requires |mask| == |s|
    ensures |Reverse(mask)| == |Reverse(s)| && Keep(Reverse(s), Reverse(mask)) == Reverse(Keep(s, mask))
    decreases |s|
  {
    ReverseFacts(s);
    ReverseFacts(mask);
    if s != [] {
      KeepReverse(s[1..], mask[1..]);
      ReverseFacts(s[1..]);
      ReverseFacts(mask[1..]);
      KeepAppend(Reverse(s[1..]), Reverse(mask[1..]), [s[0]], [mask[0]]);
      var h := if mask[0] then [s[0]] else [];
      ReverseAppend(h, Keep(s[1..], mask[1..]));
      assert Reverse(h) == h;
      assert Keep([s[0]], [mask[0]]) == h;
    }
  }

  /** Reversing both sides keeps the subsequence relation. */
  lemma SubseqReverse<T>(a: seq<T>, s: seq<T>)
    requires IsSubseq(a, s)
    ensures IsSubseq(Reverse(a), Reverse(s))
  {
    var mask :| |mask| == |s| && Keep(s, mask) == a;
    KeepReverse(s, mask);
  }

  lemma {:induction false} NonNullIdempotent(q: seq<Entry>)
    ensures NonNull(NonNull(q)) == NonNull(q)
    decreases |q|
  {
    if q != [] {
      NonNullIdempotent(q[1..]);
      if q[0].Some? {
        assert ([q[0]] + NonNull(q[1..]))[1..] == NonNull(q[1..]);
      }
    }
  }

  /** The reversed non-null entries Remove_Newest_Below_Priority scans hold no null. */
  lemma ReversedNonNull(q: seq<Entry>)
    ensures NonNull(Reverse(NonNull(q))) == Reverse(NonNull(q))
  {
    NonNullReverse(NonNull(q));
    NonNullIdempotent(q);
  }

  lemma ScanNewestShape(q: seq<Entry>, cs: int, limit: nat, sel: string -> bool)
    ensures var r := ScanNewest(q, cs, limit, sel);
      NonNull(r.kept) == r.kept &&
      |r.kept| + r.removed == |NonNull(q)| &&
      r.size + Total(q) == cs + Total(r.kept)
  {
    var n := NonNull(q);
    var rn := Reverse(n);
    var k := ScanOldest(rn, cs, limit, sel).kept;
    ScanOldestFacts(rn, cs, limit, sel);
    ReversedNonNull(q);
    NonNullReverse(k);
    ReverseFacts(n);
    ReverseFacts(k);
    TotalReverse(n);
    TotalReverse(k);
    TotalNonNull(q);
  }

  lemma ScanNewestMatching(q: seq<Entry>, cs: int, limit: nat, sel: string -> bool)
    ensures var r := ScanNewest(q, cs, limit, sel);
      Matching(r.kept, sel, false) == Matching(q, sel, false) &&
      r.removed <= |Matching(q, sel, true)| &&
      Matching(r.kept, sel, true) == Matching(q, sel, true)[..|Matching(q, sel, true)| - r.removed]
  {
    var n := NonNull(q);
    var rn := Reverse(n);
    var s := ScanOldest(rn, cs, limit, sel);
    var k := s.kept;
    ScanOldestFacts(rn, cs, limit, sel);
    MatchingNonNull(q, sel, false);
    MatchingNonNull(q, sel, true);
    MatchingReverse(n, sel, false);
    MatchingReverse(n, sel, true);
    MatchingReverse(k, sel, false);
    MatchingReverse(k, sel, true);
    ReverseFacts(Matching(n, sel, false));
    ReverseFacts(Matching(n, sel, true));
    ReverseSuffix(Matching(n, sel, true), s.removed);
  }

  lemma ScanNewestOrder(q: seq<Entry>, cs: int, limit: nat, sel: string -> bool)
    ensures IsSubseq(ScanNewest(q, cs, limit, sel).kept, NonNull(q))
  {
    var n := NonNull(q);
    var rn := Reverse(n);
    ScanOldestOrder(rn, cs, limit, sel);
    ReversedNonNull(q);
    SubseqReverse(ScanOldest(rn, cs, limit, sel).kept, rn);
    ReverseFacts(n);
  }

  lemma ScanNewestStops(q: seq<Entry>, cs: int, limit: nat, sel: string -> bool)
    ensures var r := ScanNewest(q, cs, limit, sel);
      AtLimit(r.size, limit) ==> Matching(r.kept, sel, true) == []
  {
    var rn := Reverse(NonNull(q));
    ScanOldestStops(rn, cs, limit, sel);
    MatchingReverse(ScanOldest(rn, cs, limit, sel).kept, sel, true);
  }

  /**
   * Remove_Newest_Below_Priority keeps every unselected non-null entry in
   * order, deletes the newest selected ones, drops the nulls and accounts
   * for each deletion.
   */
  lemma ScanNewestFacts(q: seq<Entry>, cs: int, limit: nat, sel: string -> bool)
    ensures var r := ScanNewest(q, cs, limit, sel);
      NonNull(r.kept) == r.kept &&
      IsSubseq(r.kept, NonNull(q)) &&
      Matching(r.kept, sel, false) == Matching(q, sel, false) &&
      r.removed <= |Matching(q, sel, true)| &&
      Matching(r.kept, sel, true) == Matching(q, sel, true)[..|Matching(q, sel, true)| - r.removed] &&
      |r.kept| + r.removed == |NonNull(q)| &&
      r.size + Total(q) == cs + Total(r.kept) &&
      (AtLimit(r.size, limit) ==> Matching(r.kept, sel, true) == [])
  {
    ScanNewestShape(q, cs, limit, sel);
    ScanNewestMatching(q, cs, limit, sel);
    ScanNewestOrder(q, cs, limit, sel);
    ScanNewestStops(q, cs, limit, sel);
  }

  /** Every policy, run on a consistent count, leaves a consistent, non-negative count. */
  lemma {:induction false} NonNullHasNoNull(q: seq<Entry>)
    ensures NoNull(NonNull(q))
    decreases |q|
  {
    if q != [] {
      NonNullHasNoNull(q[1..]);
    }
  }

  /**
   * Every policy, run on a consistent count, leaves a consistent,
   * non-negative count and lets no null in.
   */
  lemma EvictConsistent(a: Algo, q: seq<Entry>, limit: nat)
    ensures var r := Evict(a, q, Total(q), limit); r.size == Total(r.kept)
    ensures NoNull(q) ==> NoNull(Evict(a, q, Total(q), limit).kept)
  {
    var r := Evict(a, q, Total(q), limit);
    NonNullHasNoNull(r.kept);
    match a
    case RemoveOldest => DropOldestFacts(q, Total(q), limit);
    case RemoveNewest => DropNewestFacts(q, Total(q), limit);
    case RemoveOldestBelowPriority(sel) => ScanOldestFacts(q, Total(q), limit, sel);
    case RemoveNewestBelowPriority(sel) => ScanNewestFacts(q, Total(q), limit, sel);
  }
}
