/** A stream over the push buffers of the first interface, behind the status checks of the common interface. */
module StreamV1 {
  import opened Options
  import opened StreamSpec
  import opened Words
  import opened SubmitV1
  import opened PushbufV1

  const OP_DONE: nat := 1

  /** How far a run of calls has come: it is still writing, a call has failed, or a word has no place in the buffer. */
  datatype Course = Writing(at: Place) | Failing | Overflowing

  function Succeeding(at: Option<Place>): (c: Course) {
    if at.Some? then Writing(at.value) else Failing
  }

  function Step(at: Place, op: Op, grant: Grant): (c: Course) {
    match op
    case Prep(words) => Succeeding(Prepared(at, words, grant))
    case Push(_) => if at.Room(1) then Writing(Behind(at)) else Overflowing
    case PushReloc(_, _) =>
      var p := Prepared(at, 1, grant);
      if p.Some? then Writing(Behind(p.value)) else Failing
  }

  /** The course after a begin and `n` calls. */
  function Taken(ops: seq<Op>, grants: seq<Grant>, n: nat): (c: Course)
    requires n <= |ops| < |grants|
  {
    if n == 0 then Succeeding(Prepared(Nowhere, 1, grants[0]))
    else
      var before := Taken(ops, grants, n - 1);
      if before.Writing? then Step(before.at, ops[n - 1], grants[n]) else before
  }

  /** No call asks for more than the greatest page. */
  predicate Modest(ops: seq<Op>) {
    forall i :: 0 <= i < |ops| && ops[i].Prep? ==> ops[i].words <= MAX_PAGE
  }

  /** Buffers are to be had whenever needed, and no call asks for no words, which the push buffer refuses. */
  predicate Granting(ops: seq<Op>, grants: seq<Grant>) {
    (forall i :: 0 <= i < |grants| ==> grants[i].Granted?) && forall i :: 0 <= i < |ops| ==> ops[i] != Prep(0)
  }

  lemma StepKeepsRoom(at: Place, op: Op, grant: Grant, budget: nat)
    requires at.Place? && at.ptr <= at.size <= MAX_WORDS && at.Room(budget)
    requires (op.Push? ==> budget > 0) && (op.Prep? ==> op.words <= MAX_PAGE)
    ensures var c := Step(at, op, grant);
            && !c.Overflowing? && (grant.Granted? && op != Prep(0) ==> c.Writing?)
            && (c.Writing? ==> c.at.Place? && c.at.ptr <= c.at.size <= MAX_WORDS && c.at.Room(Left(op, budget)))
  {
    if op.Prep? {
      PageWordsExact(op.words);
      if Prepared(at, op.words, grant).Some? {
        PreparedRoom(at, op.words, grant);
      }
    } else if op.PushReloc? {
      PageWordsExact(1);
      if Prepared(at, 1, grant).Some? {
        PreparedRoom(at, 1, grant);
      }
    }
  }

  /** A stream that pushes a page, or what it prepared for, never overflows, and is complete if it gets its buffers. */
  lemma {:induction false} DisciplinedStaysInside(ops: seq<Op>, grants: seq<Grant>, n: nat)
    requires n <= |ops| < |grants| && Modest(ops) && Disciplined(ops, PAGE_WORDS)
    ensures var c := Taken(ops, grants, n);
            && !c.Overflowing? && (Granting(ops, grants) ==> c.Writing?)
            && (c.Writing? ==>
                  c.at.Place? && c.at.ptr <= c.at.size <= MAX_WORDS && c.at.Room(Budget(ops, n, PAGE_WORDS)))
  {
    PageWordsExact(1);
    if n == 0 {
      if Prepared(Nowhere, 1, grants[0]).Some? {
        PreparedRoom(Nowhere, 1, grants[0]);
      }
    } else {
      DisciplinedStaysInside(ops, grants, n - 1);
      var before := Taken(ops, grants, n - 1);
      if before.Writing? {
        StepKeepsRoom(before.at, ops[n - 1], grants[n], Budget(ops, n - 1, PAGE_WORDS));
      }
    }
  }

  /** Nothing but raw words behind the start of a page: it fills up, and the word behind it has no place. */
  lemma {:induction false} PageOverflows(ops: seq<Op>, grants: seq<Grant>, from: nat, n: nat)
    requires from <= n <= |ops| < |grants| && forall i :: from <= i < |ops| ==> ops[i].Push?
    requires Taken(ops, grants, from) == Writing(Place(0, PAGE_WORDS))
    ensures Taken(ops, grants, n) == if n - from <= PAGE_WORDS then Writing(Place(n - from, PAGE_WORDS))
            else Overflowing
  {
    if n == from {
    } else {
      PageOverflows(ops, grants, from, n - 1);
    }
  }

  lemma {:induction false} BudgetOfPushes(ops: seq<Op>, n: nat, first: nat, budget: nat)
    requires 1 <= n <= |ops| && forall i :: 1 <= i < |ops| ==> ops[i].Push?
    requires Budget(ops, 1, first) == budget >= n
    ensures Budget(ops, n, first) == budget - (n - 1)
  {
    if n == 1 {
    } else {
      BudgetOfPushes(ops, n - 1, first, budget);
    }
  }

  /** Preparing for 2^30 + 1 words succeeds, and a disciplined stream that goes on to push 1025 of them overflows. */
  lemma WrappedPrepOverflows(ops: seq<Op>, grants: seq<Grant>)
    requires |ops| == PAGE_WORDS + 2 && ops[0] == Prep(0x4000_0001) && forall i :: 1 <= i < |ops| ==> ops[i].Push?
    requires |grants| == |ops| + 2 && forall i :: 0 <= i < |grants| ==> grants[i].Granted? && grants[i].extra == 0
    ensures Disciplined(ops, PAGE_WORDS) && Granting(ops, grants) && Taken(ops, grants, |ops|).Overflowing?
  {
    PageWordsExact(1);
    assert Taken(ops, grants, 0) == Writing(Place(0, PAGE_WORDS));
    WrappedPage();
    assert Taken(ops, grants, 1) == Writing(Place(0, PAGE_WORDS));
    PageOverflows(ops, grants, 1, |ops|);
    assert Budget(ops, 1, PAGE_WORDS) == 0x4000_0001;
    forall i | 0 <= i < |ops| && ops[i].Push? ensures Budget(ops, i, PAGE_WORDS) > 0 {
      BudgetOfPushes(ops, i, PAGE_WORDS, 0x4000_0001);
    }
  }

  class Stream {
    const syncpt: uint32
    var status: Status
    var pushbuf: Pushbuf?
    var stale: bool     // the job field still holds a job that has been freed

    /** A free stream has no job. */
    ghost predicate Valid()
      reads this, if pushbuf == null then {} else PushbufRepr(pushbuf)
    {
      && (stale ==> status == Free)
      && (pushbuf == null <==> status == Free)
      && (pushbuf != null ==> pushbuf.Valid() && pushbuf.job.syncpt == syncpt)
      && (status == Construct ==> pushbuf.bo != null)
    }

    ghost function Repr(): set<object>
      reads this, if pushbuf == null then {} else PushbufRepr(pushbuf)
    {
      {this} + if pushbuf == null then {} else PushbufRepr(pushbuf)
    }

    constructor (id: uint32)
      ensures Valid() && status == Free && syncpt == id && !stale
    {
      syncpt, status, pushbuf, stale := id, Free, null, false;
    }

    /** Starts a job with a first buffer. When that is not to be had, the job is freed but not forgotten. */
    method Begin(grant: Grant) returns (ok: bool)
      requires Valid()
      modifies this
      ensures Valid() && ok == (old(status) == Free && grant.Granted?)
      ensures status == if ok then Construct else old(status)
      ensures !ok ==> pushbuf == old(pushbuf)
      ensures stale == if old(status) == Free then !ok else old(stale)
      ensures ok ==> fresh(PushbufRepr(pushbuf)) && pushbuf.Stream() == [] && pushbuf.used <= {grant.handle}
      ensures ok ==> Prepared(Nowhere, 1, grant) == Some(pushbuf.Where()) && pushbuf.Room(PAGE_WORDS)
    {
      hide Prepared, PageWords, Aligned, Holds, Stores, Relocs, PageRelocs, Content, Min;
      if status != Free {
        return false;
      }
      var job := new Job(syncpt);
      var p := new Pushbuf(job);
      FirstPage(grant);
      ok := p.Prepare(1, grant);
      if ok {
        pushbuf, status := p, Construct;
      }
      stale := !ok;
    }

    method Prep(words: uint32, grant: Grant) returns (ok: bool)
      requires Valid() && (grant.Granted? && pushbuf != null ==> grant.handle !in pushbuf.used)
      modifies Repr()
      ensures Valid() && pushbuf == old(pushbuf) && stale == old(stale)
      ensures pushbuf != null ==>
                pushbuf.bo == old(pushbuf.bo) || (pushbuf.bo != null && fresh(pushbuf.bo) && fresh(pushbuf.bo.data))
      ensures old(status) != Construct ==> !ok && status == old(status)
      ensures old(status) == Construct ==> status == if ok then Construct else Failed
      ensures old(status) == Construct ==> ok == Prepared(old(pushbuf.Where()), words, grant).Some?
      ensures ok ==> Prepared(old(pushbuf.Where()), words, grant) == Some(pushbuf.Where())
                     && pushbuf.Stream() == old(pushbuf.Stream())
      ensures ok ==> (pushbuf.Room(words) <==> old(pushbuf.Room(words)) || words <= MAX_PAGE)
      ensures ok && words <= MAX_PAGE ==> forall n: nat :: old(pushbuf.Room(n)) ==> pushbuf.Room(n)
      ensures ok ==> pushbuf.used <= old(pushbuf.used) + if grant.Granted? then {grant.handle} else {}
    {
      ok := false;
      if status == Construct {
        ok := pushbuf.Prepare(words, grant);
        if !ok {
          status := Failed;
        }
      }
    }

    /**
     * A raw push checks no bounds: behind the last word of the buffer it is an overflow, and nothing is known of
     * memory.
     */
    method Push(word: int) returns (ok: bool, overflow: bool)
      requires Valid()
      modifies Repr()
      ensures Valid() && pushbuf == old(pushbuf) && status == old(status) && stale == old(stale)
      ensures pushbuf != null ==> pushbuf.bo == old(pushbuf.bo)
      ensures overflow == (status == Construct && !old(pushbuf.Room(1))) && ok == (status == Construct && !overflow)
      ensures ok ==> pushbuf.Where() == Behind(old(pushbuf.Where()))
                     && pushbuf.Stream() == old(pushbuf.Stream()) + [Word(word)] && pushbuf.used == old(pushbuf.used)
    {
      overflow := status == Construct && !pushbuf.Room(1);
      ok := status == Construct && !overflow;
      if ok {
        pushbuf.Push(word);
      }
    }

    method PushReloc(handle: int, offset: nat, grant: Grant) returns (ok: bool)
      requires Valid() && (grant.Granted? && pushbuf != null ==> grant.handle !in pushbuf.used)
      modifies Repr()
      ensures Valid() && pushbuf == old(pushbuf) && stale == old(stale)
      ensures pushbuf != null ==>
                pushbuf.bo == old(pushbuf.bo) || (pushbuf.bo != null && fresh(pushbuf.bo) && fresh(pushbuf.bo.data))
      ensures old(status) != Construct ==> !ok && status == old(status)
      ensures old(status) == Construct ==> status == if ok then Construct else Failed
      ensures old(status) == Construct ==> ok == Prepared(old(pushbuf.Where()), 1, grant).Some?
      ensures ok ==> pushbuf.Where() == Behind(Prepared(old(pushbuf.Where()), 1, grant).value)
                     && pushbuf.Stream() == old(pushbuf.Stream()) + [Reloc(handle, offset)]
      ensures ok ==> forall n: nat :: old(pushbuf.Room(n + 1)) ==> pushbuf.Room(n)
      ensures ok ==> pushbuf.used <= old(pushbuf.used) + if grant.Granted? then {grant.handle} else {}
    {
      ok := false;
      if status == Construct {
        ok := pushbuf.Relocate(handle, offset, grant);
        if !ok {
          status := Failed;
        }
      }
    }

    /** Ends the stream with a sync point increment. */
    method End(grant: Grant) returns (ok: bool)
      requires Valid() && (grant.Granted? && pushbuf != null ==> grant.handle !in pushbuf.used)
      modifies Repr()
      ensures Valid() && pushbuf == old(pushbuf) && stale == old(stale)
      ensures pushbuf != null ==>
                pushbuf.bo == old(pushbuf.bo) || (pushbuf.bo != null && fresh(pushbuf.bo) && fresh(pushbuf.bo.data))
      ensures old(status) != Construct ==> !ok && status == old(status)
      ensures old(status) == Construct ==> status == if ok then Ready else Failed
      ensures old(status) == Construct ==> ok == Prepared(old(pushbuf.Where()), 2, grant).Some?
      ensures ok ==> pushbuf.Stream() == old(pushbuf.Stream()) + [Word(0x2000_0001), Word(Or(0x100, syncpt))]
    {
      ok := false;
      if status == Construct {
        ok := pushbuf.Sync(OP_DONE, grant);
        status := if ok then Ready else Failed;
      }
    }

    /** Frees the job. After a failed begin it is freed a second time. */
    method Cleanup() returns (freedTwice: bool)
      requires Valid()
      modifies this
      ensures Valid() && status == Free && pushbuf == null && !stale && freedTwice == old(stale)
    {
      freedTwice := stale;
      pushbuf, status, stale := null, Free, false;
    }

    /** Submits a complete stream, and starts over in any case. */
    method Submit() returns (sub: Option<Submission>)
      requires Valid()
      modifies Repr()
      ensures Valid() && status == Free && (sub.Some? <==> old(status) == Ready) && stale == old(stale)
      ensures sub.Some? ==> forall base: int -> int ::
                Executed(sub.value, |sub.value.cmdbufs|, base) == Patched(old(pushbuf.Stream()), base)
      ensures sub.Some? ==> DistinctBuffers(sub.value)
    {
      sub := None;
      if status == Free {
        return;
      }
      if status == Ready {
        var s := pushbuf.Submit();
        sub := Some(s);
      }
      var freedTwice := Cleanup();
    }
  }

  /** Without a first buffer a stream does not begin, and cleaning up afterwards frees its job a second time. */
  method BeginDenied(s: Stream) returns (freedTwice: bool)
    requires s.Valid() && s.status == Free
    modifies s
    ensures freedTwice && s.Valid() && s.status == Free
  {
    var ok := s.Begin(Denied);
    freedTwice := s.Cleanup();
  }

  /** No two command buffers of a job share a buffer object. */
  ghost predicate DistinctBuffers(sub: Submission) {
    forall i, j :: 0 <= i < j < |sub.cmdbufs| ==> sub.cmdbufs[i].handle != sub.cmdbufs[j].handle
  }

  ghost predicate DistinctGrants(grants: seq<Grant>) {
    forall i, j :: 0 <= i < j < |grants| && grants[i].Granted? && grants[j].Granted? ==>
      grants[i].handle != grants[j].handle
  }

  /** The handles granted by the first `n` grants. */
  ghost function Handles(grants: seq<Grant>, n: nat): (h: set<int>)
    requires n <= |grants|
    ensures forall x :: x in h ==> exists i :: 0 <= i < n && grants[i].Granted? && grants[i].handle == x
  {
    if n == 0 then {} else Handles(grants, n - 1) + if grants[n - 1].Granted? then {grants[n - 1].handle} else {}
  }

  ghost function PushbufRepr(p: Pushbuf): set<object>
    reads p
  {
    {p, p.job} + if p.bo == null then {} else {p.bo.data}
  }

  lemma GrantIsNew(grants: seq<Grant>, n: nat)
    requires DistinctGrants(grants) && n < |grants| && grants[n].Granted?
    ensures grants[n].handle !in Handles(grants, n)
  {
  }

  /** The stream is under construction at a place, or has failed. */
  ghost predicate On(s: Stream, course: Course)
    reads s, s.Repr()
  {
    s.Valid() && !s.stale
    && if course.Writing? then s.status == Construct && s.pushbuf.Where() == course.at
       else course.Failing? && s.status == Failed
  }

  /** One call, with what it wrote to the stream. */
  method Perform(s: Stream, op: Op, grant: Grant) returns (overflow: bool)
    requires s.Valid() && s.status == Construct && !s.stale
    requires grant.Granted? ==> grant.handle !in s.pushbuf.used
    modifies s.Repr()
    ensures s.pushbuf == old(s.pushbuf) && s.pushbuf != null
    ensures s.pushbuf.bo == old(s.pushbuf.bo) || (s.pushbuf.bo != null && fresh(s.pushbuf.bo)
                                                  && fresh(s.pushbuf.bo.data))
    ensures s.Valid() && overflow == Step(old(s.pushbuf.Where()), op, grant).Overflowing?
    ensures !overflow ==> On(s, Step(old(s.pushbuf.Where()), op, grant))
    ensures !overflow && s.status == Construct ==>
              && s.pushbuf.Stream() == old(s.pushbuf.Stream()) + TokenOf(op)
              && s.pushbuf.used <= old(s.pushbuf.used) + if grant.Granted? then {grant.handle} else {}
  {
    var ok;
    overflow := false;
    match op
    case Prep(words) =>
      ok := s.Prep(words, grant);
    case Push(word) =>
      ok, overflow := s.Push(word);
    case PushReloc(handle, offset) =>
      ok := s.PushReloc(handle, offset, grant);
  }

  /** The stream after its first `i` calls, with every handle it uses granted by then. */
  ghost predicate At(s: Stream, ops: seq<Op>, grants: seq<Grant>, i: nat)
    reads s, s.Repr()
  {
    && i <= |ops| < |grants| && On(s, Taken(ops, grants, i)) && s.pushbuf != null
    && (s.status == Construct ==> s.pushbuf.Stream() == Written(ops, i) && s.pushbuf.used <= Handles(grants, i + 1))
  }

  /** The stream after a call that did not succeed, which decides the whole course. */
  ghost predicate Stopped(s: Stream, ops: seq<Op>, grants: seq<Grant>, overflow: bool)
    reads s, s.Repr()
  {
    && |ops| < |grants| && s.pushbuf != null && overflow == Taken(ops, grants, |ops|).Overflowing?
    && (!overflow ==> s.status == Failed && On(s, Taken(ops, grants, |ops|)))
  }

  lemma {:induction false} CourseStays(ops: seq<Op>, grants: seq<Grant>, i: nat, n: nat)
    requires i <= n <= |ops| < |grants| && !Taken(ops, grants, i).Writing?
    ensures Taken(ops, grants, n) == Taken(ops, grants, i)
  {
    if i == n {
    } else {
      CourseStays(ops, grants, i, n - 1);
    }
  }

  method PerformNext(s: Stream, ops: seq<Op>, grants: seq<Grant>, i: nat) returns (ok: bool, overflow: bool)
    requires At(s, ops, grants, i) && s.status == Construct && i < |ops| && DistinctGrants(grants)
    modifies s.Repr()
    ensures s.pushbuf == old(s.pushbuf)
    ensures s.pushbuf.bo == old(s.pushbuf.bo) || (s.pushbuf.bo != null && fresh(s.pushbuf.bo)
                                                  && fresh(s.pushbuf.bo.data))
    ensures if ok then !overflow && At(s, ops, grants, i + 1) && s.status == Construct
            else Stopped(s, ops, grants, overflow)
  {
    if grants[i + 1].Granted? {
      GrantIsNew(grants, i + 1);
    }
    overflow := Perform(s, ops[i], grants[i + 1]);
    ok := !overflow && s.status == Construct;
    if !ok {
      CourseStays(ops, grants, i + 1, |ops|);
    }
  }

  /** The calls in turn, up to the first that fails. The first grant is the one the stream began with. */
  method PerformAll(s: Stream, ops: seq<Op>, grants: seq<Grant>) returns (ok: bool, overflow: bool)
    requires At(s, ops, grants, 0) && s.status == Construct && DistinctGrants(grants)
    modifies s.Repr()
    ensures s.pushbuf == old(s.pushbuf)
    ensures s.pushbuf.bo == old(s.pushbuf.bo) || (s.pushbuf.bo != null && fresh(s.pushbuf.bo)
                                                  && fresh(s.pushbuf.bo.data))
    ensures if ok then !overflow && At(s, ops, grants, |ops|) && s.status == Construct
            else Stopped(s, ops, grants, overflow)
  {
    ok, overflow := true, false;
    for i := 0 to |ops|
      invariant At(s, ops, grants, i) && s.status == Construct && s.pushbuf == old(s.pushbuf) && ok && !overflow
      invariant s.pushbuf.bo == old(s.pushbuf.bo) || (fresh(s.pushbuf.bo) && fresh(s.pushbuf.bo.data))
    {
      ok, overflow := PerformNext(s, ops, grants, i);
      if !ok {
        return;
      }
    }
  }

  /** The calls succeed and so does the closing increment. */
  predicate Completes(ops: seq<Op>, grants: seq<Grant>)
    requires |grants| == |ops| + 2
  {
    var c := Taken(ops, grants, |ops|);
    c.Writing? && Prepared(c.at, 2, grants[|ops| + 1]).Some?
  }

  /**
   * A whole stream, from begin to submit: what is submitted is executed as it was written, wherever the buffers are,
   * and something is submitted exactly when the calls succeed.
   */
  method Run(s: Stream, ops: seq<Op>, grants: seq<Grant>) returns (overflow: bool, sub: Option<Submission>)
    requires s.Valid() && s.status == Free
    requires |grants| == |ops| + 2 && DistinctGrants(grants)
    modifies s
    ensures overflow == Taken(ops, grants, |ops|).Overflowing? && (overflow ==> sub.None?)
    ensures !overflow ==> s.Valid() && s.status == Free && s.stale == grants[0].Denied?
    ensures sub.Some? <==> Completes(ops, grants)
    ensures sub.Some? ==> DistinctBuffers(sub.value) && forall base: int -> int ::
              Executed(sub.value, |sub.value.cmdbufs|, base)
              == Patched(Written(ops, |ops|) + [Word(0x2000_0001), Word(Or(0x100, s.syncpt))], base)
  {
    var ok := s.Begin(grants[0]);
    if !ok {
      CourseStays(ops, grants, 0, |ops|);
      return false, None;
    }
    ok, overflow := PerformAll(s, ops, grants);
    if overflow {
      return true, None;
    }
    if ok {
      if grants[|ops| + 1].Granted? {
        GrantIsNew(grants, |ops| + 1);
      }
      ok := s.End(grants[|ops| + 1]);
    }
    sub := s.Submit();
  }

  /** A stream that pushes no more than its first page, or than it prepared for, is submitted if it gets its buffers. */
  lemma DisciplinedCompletes(ops: seq<Op>, grants: seq<Grant>)
    requires |grants| == |ops| + 2 && Modest(ops) && Disciplined(ops, PAGE_WORDS)
    ensures !Taken(ops, grants, |ops|).Overflowing? && (Granting(ops, grants) ==> Completes(ops, grants))
  {
    DisciplinedStaysInside(ops, grants, |ops|);
    PageWordsExact(2);
  }
}
