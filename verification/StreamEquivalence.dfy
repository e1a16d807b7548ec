/** Both interfaces describe the same stream. */
module StreamEquivalence {
  import opened Options
  import opened StreamSpec
  import opened Words
  import S1 = SubmitV1
  import J2 = JobV2
  import V1 = StreamV1
  import V2 = StreamV2
  import P1 = PushbufV1

  lemma FitsWithWord(tokens: seq<Token>, word: int)
    ensures J2.Fits(tokens + [Word(word)]) <==> J2.Fits(tokens)
  {
    J2.RelocHandlesMore(tokens, Word(word));
    var all := tokens + [Word(word)];
    assert forall t :: t in all <==> t in tokens || t == Word(word);
  }

  /**
   * Calls that push no more than a page beyond what they prepare for stay in the buffers of both interfaces, if buffers
   * are to be had and sizes have 32 bits. Only the second interface's closing word may be one too many, in a full
   * array.
   */
  lemma DisciplinedFitsBoth(ops: seq<Op>, grants: seq<P1.Grant>, first: uint32)
    requires |grants| == |ops| + 2 && V1.Granting(ops, grants) && V1.Modest(ops) && Disciplined(ops, P1.PAGE_WORDS)
    requires P1.PAGE_WORDS <= first && first + V2.AllGrowth(ops, |ops|) < WORD
    ensures V1.Completes(ops, grants) && V2.Contained(ops, |ops|, first)
    ensures var all := ops + [Push(V2.IMM_OP_DONE)];
            V2.Contained(all, |all|, first) <==> |Written(ops, |ops|)| < V2.Taken(ops, |ops|, first).size
  {
    V1.DisciplinedCompletes(ops, grants);
    DisciplinedWithMore(ops, P1.PAGE_WORDS, first);
    V2.DisciplinedIsContained(ops, |ops|, first);
    V2.ClosingWord(ops, ops + [Push(V2.IMM_OP_DONE)], first);
  }

  /** The words that end a stream of the first interface. */
  function EndTokens(s1: V1.Stream): (t: seq<Token>) {
    [Word(0x2000_0001), Word(Or(0x100, s1.syncpt))]
  }

  /** The hardware executes the same through both interfaces, up to the closing words, wherever the buffers are. */
  ghost predicate Agree(sub1: S1.Submission, sub2: J2.Submission, tokens: seq<Token>, all: seq<Token>, tail: seq<Token>)
    requires tokens <= all && |all| == |sub2.words|
  {
    forall base: int -> int ::
      S1.Executed(sub1, |sub1.cmdbufs|, base) == J2.Executed(sub2, all, base)[..|tokens|] + Patched(tail, base)
  }

  /** What the first interface executes tells whether the second executes what was written. */
  lemma AgreeExactly(sub1: S1.Submission, sub2: J2.Submission, tokens: seq<Token>, all: seq<Token>, tail: seq<Token>)
    requires all == tokens + [Word(V2.IMM_OP_DONE)] && |all| == |sub2.words|
    requires J2.Stores(sub2.words, sub2.table, all)
    requires forall base: int -> int :: S1.Executed(sub1, |sub1.cmdbufs|, base) == Patched(tokens + tail, base)
    ensures Agree(sub1, sub2, tokens, all, tail) <==> J2.AsWritten(sub2, all)
  {
    var n := |tokens|;
    forall base: int -> int
      ensures S1.Executed(sub1, |sub1.cmdbufs|, base) == J2.Executed(sub2, all, base)[..n] + Patched(tail, base)
              <==> J2.Executed(sub2, all, base) == Patched(all, base)
    {
      PatchedConcat(tokens, tail, base);
      PatchedConcat(tokens, [Word(V2.IMM_OP_DONE)], base);
      var x, y := J2.Executed(sub2, all, base), Patched(all, base);
      assert J2.IsToken(sub2.words[n], sub2.table, all[n]);
      SameFront(x, y, Patched(tokens, base), Patched(tail, base), n);
    }
  }

  /** Sequences with the same last element are equal exactly when what is in front of it is. */
  lemma SameFront(x: seq<int>, y: seq<int>, front: seq<int>, tail: seq<int>, n: nat)
    requires |x| == |y| == n + 1 && x[n] == y[n] && y[..n] == front
    ensures front + tail == x[..n] + tail <==> x == y
  {
    if front + tail == x[..n] + tail {
      assert x[..n] == (x[..n] + tail)[..n] == (front + tail)[..n] == front;
      assert x == x[..n] + [x[n]] && y == y[..n] + [y[n]];
    }
  }

  /**
   * For any calls that overflow no buffer, the words the hardware executes are the same through both interfaces up to
   * the closing sync point words, wherever the buffers are, exactly when the stream fits the relocation words of the
   * second one.
   */
  method BothAgree(s1: V1.Stream, s2: V2.Stream, ops: seq<Op>, grants: seq<P1.Grant>, fence: bool)
    returns (overflow1: bool, sub1: Option<S1.Submission>, overflow2: bool, sub2: Option<J2.Submission>)
    requires s1.Valid() && s1.status.Free? && s2.Valid() && s2.status.Free?
    requires |grants| == |ops| + 2 && V1.DistinctGrants(grants)
    modifies s1, s2.Repr()
    ensures overflow1 <==> V1.Taken(ops, grants, |ops|).Overflowing?
    ensures overflow2 <==> var all := ops + [Push(V2.IMM_OP_DONE)]; !V2.Contained(all, |all|, old(s2.job.start.Length))
    ensures (sub1.Some? <==> V1.Completes(ops, grants)) && (sub2.Some? <==> !overflow2 && fence)
    ensures sub1.Some? && sub2.Some? ==>
              var tokens := Written(ops, |ops|);
              var all := tokens + [Word(V2.IMM_OP_DONE)];
              && |sub2.value.words| == |all|
              && (Agree(sub1.value, sub2.value, tokens, all, EndTokens(s1)) <==> J2.Fits(tokens))
  {
    overflow1, sub1 := V1.Run(s1, ops, grants);
    overflow2, sub2 := V2.Run(s2, ops, fence);
    if sub1.Some? && sub2.Some? {
      ghost var tokens := Written(ops, |ops|);
      FitsWithWord(tokens, V2.IMM_OP_DONE);
      AgreeExactly(sub1.value, sub2.value, tokens, tokens + [Word(V2.IMM_OP_DONE)], EndTokens(s1));
    }
  }
}
