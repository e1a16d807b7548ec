/** A stream over the job of the second interface, behind the status checks of the common interface. */
module StreamV2 {
  import opened Options
  import opened StreamSpec
  import opened Words
  import opened JobV2

  const IMM_OP_DONE: int := 0x4000_0100   // OP_DONE << 8, immediately, to register 0
  const TABLE_WRITE: int := 1
  const MIN_GROWTH: nat := 1024

  /** How many words have been written, and how many the job's array has, which is a 32-bit number. */
  datatype Extent = Extent(ptr: nat, size: uint32) {
    predicate Inside() {
      ptr <= size
    }
  }

  /** The array after preparing for some words. */
  function Prepared(at: Extent, words: uint32): (e: Extent) {
    if at.ptr + words > at.size then
      at.(size := (at.size + if words < MIN_GROWTH then MIN_GROWTH else words) % WORD)
    else at
  }

  /** Preparing makes room exactly when the new size has 32 bits, which is exactly when the array does not shrink. */
  lemma PreparedRoom(at: Extent, words: uint32)
    requires at.Inside()
    ensures var size := Prepared(at, words).size;
            var growth := if words < MIN_GROWTH then MIN_GROWTH else words;
            var fits := at.ptr + words <= at.size || at.size + growth < WORD;
            (at.ptr + words <= size <==> fits) && (at.size <= size <==> fits)
  {
  }

  /** Preparing a new job for 2^32 - 65536 words succeeds and leaves it without any. */
  lemma WrappedSize()
    ensures Prepared(Extent(0, 65536), 0xFFFF_0000) == Extent(0, 0)
  {
  }

  /** One call. When the write position is behind the array after it, that is an overflow. */
  function Step(at: Extent, op: Op): (e: Extent) {
    match op
    case Prep(words) => Prepared(at, words)
    case Push(_) => at.(ptr := at.ptr + 1)
    case PushReloc(_, _) =>
      Extent(at.ptr + 1, if at.ptr == at.size then (at.size + 256) % WORD else at.size)
  }

  /** The array after `n` calls. */
  function Taken(ops: seq<Op>, n: nat, first: uint32): (e: Extent)
    requires n <= |ops|
  {
    if n == 0 then Extent(0, first) else Step(Taken(ops, n - 1, first), ops[n - 1])
  }

  /** After each of the first `n` calls, what has been written lies in the array. */
  predicate Contained(ops: seq<Op>, n: nat, first: uint32)
    requires n <= |ops|
  {
    Taken(ops, n, first).Inside() && (n == 0 || Contained(ops, n - 1, first))
  }

  lemma {:induction false} ContainedBefore(ops: seq<Op>, i: nat, n: nat, first: uint32)
    requires i <= n <= |ops| && Contained(ops, n, first)
    ensures Contained(ops, i, first)
  {
    if i == n {
    } else {
      ContainedBefore(ops, i, n - 1, first);
    }
  }

  /** The write position counts the words written. */
  lemma {:induction false} PositionCounts(ops: seq<Op>, n: nat, first: uint32)
    requires n <= |ops|
    ensures Taken(ops, n, first).ptr == |Written(ops, n)|
  {
    if n == 0 {
    } else {
      PositionCounts(ops, n - 1, first);
    }
  }

  /** A bound on the words by which a call may have the array grow. */
  function Growth(op: Op): (g: nat) {
    match op
    case Prep(words) => if words < MIN_GROWTH then MIN_GROWTH else words
    case Push(_) => 0
    case PushReloc(_, _) => 256
  }

  function AllGrowth(ops: seq<Op>, n: nat): (g: nat)
    requires n <= |ops|
  {
    if n == 0 then 0 else AllGrowth(ops, n - 1) + Growth(ops[n - 1])
  }

  lemma StepKeepsRoom(at: Extent, op: Op, budget: nat)
    requires at.ptr + budget <= at.size && at.size + Growth(op) < WORD && (op.Push? ==> budget > 0)
    ensures var next := Step(at, op);
            at.size <= next.size <= at.size + Growth(op) && next.ptr + Left(op, budget) <= next.size
  {
  }

  /**
   * A stream that pushes no more than the array has, or than it prepared for, stays in the array while sizes do not
   * wrap.
   */
  lemma {:induction false} DisciplinedIsContained(ops: seq<Op>, n: nat, first: uint32)
    requires n <= |ops| && Disciplined(ops, first) && first + AllGrowth(ops, n) < WORD
    ensures Contained(ops, n, first)
    ensures var e := Taken(ops, n, first);
            first <= e.size <= first + AllGrowth(ops, n) && e.ptr + Budget(ops, n, first) <= e.size
  {
    if n == 0 {
    } else {
      DisciplinedIsContained(ops, n - 1, first);
      StepKeepsRoom(Taken(ops, n - 1, first), ops[n - 1], Budget(ops, n - 1, first));
    }
  }

  lemma {:induction false} TakenPrefix(ops: seq<Op>, more: seq<Op>, n: nat, first: uint32)
    requires ops <= more && n <= |ops|
    ensures Taken(ops, n, first) == Taken(more, n, first) && Contained(ops, n, first) == Contained(more, n, first)
  {
    if n == 0 {
    } else {
      TakenPrefix(ops, more, n - 1, first);
    }
  }

  /** With the closing word a stream is contained exactly when it is without it and does not fill the array. */
  lemma ClosingWord(ops: seq<Op>, all: seq<Op>, first: uint32)
    requires all == ops + [Push(IMM_OP_DONE)]
    ensures Written(all, |all|) == Written(ops, |ops|) + [Word(IMM_OP_DONE)]
    ensures Contained(all, |all|, first)
            <==> Contained(ops, |ops|, first) && |Written(ops, |ops|)| < Taken(ops, |ops|, first).size
  {
    WrittenPrefix(ops, all, |ops|);
    TakenPrefix(ops, all, |ops|, first);
    PositionCounts(ops, |ops|, first);
  }

  lemma {:induction false} OnlyPushes(ops: seq<Op>, n: nat, first: uint32)
    requires n <= |ops| <= first && forall i :: 0 <= i < |ops| ==> ops[i].Push?
    ensures Taken(ops, n, first) == Extent(n, first) && Contained(ops, n, first) && Budget(ops, n, first) == first - n
  {
    if n == 0 {
    } else {
      OnlyPushes(ops, n - 1, first);
    }
  }

  /** A job filled to the last word is contained, and its closing word is not. */
  lemma FullJob(ops: seq<Op>, all: seq<Op>, first: uint32)
    requires |ops| == first && all == ops + [Push(IMM_OP_DONE)] && forall i :: 0 <= i < |ops| ==> ops[i].Push?
    ensures Disciplined(ops, first) && Contained(ops, |ops|, first) && !Contained(all, |all|, first)
  {
    forall i | 0 <= i < |ops| ensures Budget(ops, i, first) > 0 {
      OnlyPushes(ops, i, first);
    }
    OnlyPushes(ops, |ops|, first);
    PositionCounts(ops, |ops|, first);
    ClosingWord(ops, all, first);
  }

  class Stream {
    const job: Job
    var status: Status

    /** A free stream always has an empty job, and every buffer of a job is written to. */
    ghost predicate Valid()
      reads this, job, job.start, job.boTable
    {
      && job.Valid() && job.Tight() && (status == Free ==> job.tokens == [] && job.ptr == 0 && job.numBos == 0)
      && forall i :: 0 <= i < job.numBos ==> job.boTable[i].flags == 1
    }

    /** The write position and the size of the job's array. */
    function Where(): (e: Extent)
      requires job.start.Length < WORD
      reads job
    {
      Extent(job.ptr, job.start.Length)
    }

    ghost function Repr(): set<object>
      reads this, job
    {
      {this, job, job.start, job.boTable}
    }

    constructor ()
      ensures Valid() && status == Free && fresh(Repr()) && job.start.Length == 65536
    {
      job := new Job(16, 65536);
      status := Free;
    }

    method Begin() returns (ok: bool)
      requires Valid()
      modifies this`status
      ensures Valid() && ok == (old(status) == Free) && status == if ok then Construct else old(status)
    {
      ok := status == Free;
      if ok {
        status := Construct;
      }
    }

    /**
     * Makes room for some words. A size that wraps makes the array shrink; when the write position is behind its end,
     * that is an overflow, and nothing is known of memory.
     */
    method Prep(words: uint32) returns (ok: bool, overflow: bool)
      requires Valid()
      modifies job`start, job`boTable
      ensures Valid() && overflow == (status == Construct && !Prepared(old(Where()), words).Inside())
      ensures ok == (status == Construct && !overflow)
      ensures Where() == if ok then Prepared(old(Where()), words) else old(Where())
      ensures ok ==> job.start.Length == if old(job.ptr + words <= job.start.Length) then old(job.start.Length)
                     else (old(job.start.Length) + if words < 1024 then 1024 else words) % 0x1_0000_0000
      ensures ok ==> (job.ptr + words <= job.start.Length <==> old(job.start.Length) <= job.start.Length)
      ensures (job.start == old(job.start) || fresh(job.start))
              && (job.boTable == old(job.boTable) || fresh(job.boTable))
    {
      ok, overflow := status == Construct, false;
      if ok && job.ptr + words > job.start.Length {
        PreparedRoom(Where(), words);
        var size := (job.start.Length + if words < MIN_GROWTH then MIN_GROWTH else words) % WORD;
        overflow := size < job.ptr;
        ok := !overflow;
        if ok {
          job.Resize(size, job.numBos);
        }
      }
    }

    /**
     * A raw push checks no bounds: behind the last word of the array it is an overflow, and nothing is known of
     * memory.
     */
    method Push(word: int) returns (ok: bool, overflow: bool)
      requires Valid()
      modifies job`ptr, job`tokens, job.start
      ensures Valid() && overflow == (status == Construct && old(job.ptr == job.start.Length))
      ensures ok == (status == Construct && !overflow)
      ensures job.tokens == (if ok then old(job.tokens) + [Word(word)] else old(job.tokens))
      ensures job.ptr == old(job.ptr) + if ok then 1 else 0
    {
      overflow := status == Construct && job.ptr == job.start.Length;
      ok := status == Construct && !overflow;
      if ok {
        RelocHandlesMore(job.tokens, Word(word));
        job.Store(word, Word(word));
      }
    }

    method PushReloc(handle: int, offset: nat) returns (ok: bool, overflow: bool)
      requires Valid()
      modifies job, job.start, job.boTable
      ensures overflow == (status == Construct && !Step(old(Where()), Op.PushReloc(handle, offset)).Inside())
      ensures ok == (status == Construct && !overflow) && (!overflow ==> Valid())
      ensures ok ==> Where() == Step(old(Where()), Op.PushReloc(handle, offset))
      ensures !overflow ==> job.tokens == (if ok then old(job.tokens) + [Reloc(handle, offset)] else old(job.tokens))
      ensures (job.start == old(job.start) || fresh(job.start))
              && (job.boTable == old(job.boTable) || fresh(job.boTable))
    {
      ok, overflow := status == Construct, false;
      if ok {
        overflow := job.PushReloc(handle, offset, TABLE_WRITE);
        ok := !overflow;
      }
    }

    /**
     * Ends the stream with a sync point increment, for which no room is made: in a full array the closing word is an
     * overflow.
     */
    method End() returns (ok: bool, overflow: bool)
      requires Valid()
      modifies this`status, job`ptr, job`tokens, job.start
      ensures Valid() && overflow == old(status == Construct && job.ptr == job.start.Length)
      ensures ok == (old(status) == Construct && !overflow) && status == if ok then Ready else old(status)
      ensures job.tokens == (if ok then old(job.tokens) + [Word(IMM_OP_DONE)] else old(job.tokens))
    {
      ok, overflow := Push(IMM_OP_DONE);
      if ok {
        status := Ready;
      }
    }

    method Cleanup()
      requires Valid()
      modifies this`status, job`ptr, job`numBos, job`tokens
      ensures Valid() && status == Free
    {
      job.Reset();
      status := Free;
    }

    /** Submits a complete stream, if a fence can be had, and starts over in any case. */
    method Submit(fence: bool) returns (sub: Option<Submission>)
      requires Valid()
      modifies this`status, job`ptr, job`numBos, job`tokens
      ensures Valid() && status == Free && (sub.Some? <==> old(status) == Ready && fence)
      ensures sub.Some? ==>
                Stores(sub.value.words, sub.value.table, old(job.tokens)) && DistinctHandles(sub.value.table)
                && (forall i :: 0 <= i < |sub.value.table| ==> sub.value.table[i].flags == 1)
                && (AsWritten(sub.value, old(job.tokens)) <==> Fits(old(job.tokens)))
    {
      sub := None;
      if status == Free {
        return;
      }
      if status == Ready && fence {
        var s := job.Submit();
        sub := Some(s);
      }
      Cleanup();
    }
  }

  /** One call, with what it wrote to the stream. */
  method Perform(s: Stream, op: Op) returns (overflow: bool)
    requires s.Valid() && s.status == Construct
    modifies s.job, s.job.start, s.job.boTable
    ensures overflow == !Step(old(s.Where()), op).Inside()
    ensures !overflow ==>
              s.Valid() && s.Where() == Step(old(s.Where()), op) && s.job.tokens == old(s.job.tokens) + TokenOf(op)
    ensures (s.job.start == old(s.job.start) || fresh(s.job.start))
    ensures (s.job.boTable == old(s.job.boTable) || fresh(s.job.boTable))
  {
    var ok;
    match op
    case Prep(words) =>
      ok, overflow := s.Prep(words);
      assert s.job.tokens + [] == s.job.tokens;
    case Push(word) =>
      ok, overflow := s.Push(word);
    case PushReloc(handle, offset) =>
      ok, overflow := s.PushReloc(handle, offset);
  }

  /** The stream after its first `i` calls. */
  ghost predicate At(s: Stream, ops: seq<Op>, i: nat, first: uint32)
    reads s, s.Repr()
  {
    && i <= |ops| && s.Valid() && s.status == Construct
    && s.job.tokens == Written(ops, i) && s.Where() == Taken(ops, i, first) && Contained(ops, i, first)
  }

  method PerformNext(s: Stream, ops: seq<Op>, i: nat, ghost first: uint32) returns (overflow: bool)
    requires At(s, ops, i, first) && i < |ops|
    modifies s.job, s.job.start, s.job.boTable
    ensures if overflow then !Contained(ops, |ops|, first) else At(s, ops, i + 1, first)
    ensures (s.job.start == old(s.job.start) || fresh(s.job.start))
    ensures (s.job.boTable == old(s.job.boTable) || fresh(s.job.boTable))
  {
    overflow := Perform(s, ops[i]);
    if overflow && Contained(ops, |ops|, first) {
      ContainedBefore(ops, i + 1, |ops|, first);
    }
  }

  method PerformAll(s: Stream, ops: seq<Op>, ghost first: uint32) returns (overflow: bool)
    requires At(s, ops, 0, first)
    modifies s.job, s.job.start, s.job.boTable
    ensures if overflow then !Contained(ops, |ops|, first) else At(s, ops, |ops|, first)
    ensures (s.job.start == old(s.job.start) || fresh(s.job.start))
    ensures (s.job.boTable == old(s.job.boTable) || fresh(s.job.boTable))
  {
    overflow := false;
    for i := 0 to |ops|
      invariant At(s, ops, i, first) && !overflow
      invariant (s.job.start == old(s.job.start) || fresh(s.job.start))
      invariant (s.job.boTable == old(s.job.boTable) || fresh(s.job.boTable))
    {
      overflow := PerformNext(s, ops, i, first);
      if overflow {
        return;
      }
    }
  }

  /**
   * A whole stream, from begin to submit: it overflows exactly when with its closing word it is not contained in the
   * array; otherwise it is executed as written exactly when it fits the job's fields, and the kernel is told that every
   * buffer is written to.
   */
  method Run(s: Stream, ops: seq<Op>, fence: bool) returns (overflow: bool, sub: Option<Submission>)
    requires s.Valid() && s.status == Free
    modifies s.Repr()
    ensures overflow <==> var all := ops + [Push(IMM_OP_DONE)]; !Contained(all, |all|, old(s.job.start.Length))
    ensures !overflow ==>
              s.Valid() && s.status == Free && s.job.start.Length == Taken(ops, |ops|, old(s.job.start.Length)).size
    ensures (sub.Some? <==> !overflow && fence) && fresh(s.Repr() - old(s.Repr()))
    ensures sub.Some? ==>
              var tokens := Written(ops, |ops|) + [Word(0x4000_0100)];
              && Stores(sub.value.words, sub.value.table, tokens) && DistinctHandles(sub.value.table)
              && (forall i :: 0 <= i < |sub.value.table| ==> sub.value.table[i].flags == 1)
              && (AsWritten(sub.value, tokens) <==> Fits(tokens))
  {
    ghost var first, all := s.job.start.Length, ops + [Push(IMM_OP_DONE)];
    ClosingWord(ops, all, first);
    PositionCounts(ops, |ops|, first);
    sub := None;
    var ok := s.Begin();
    overflow := PerformAll(s, ops, first);
    if !overflow {
      ok, overflow := s.End();
      if !overflow {
        sub := s.Submit(fence);
      }
    }
  }
}
