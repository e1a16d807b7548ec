/** What a command stream says, independently of how a back end stores it. */
module StreamSpec {
  import opened Words

  datatype Status = Free | Construct | Failed | Ready

  datatype Token = Word(word: int) | Reloc(handle: int, offset: nat)

  /** The calls that write a stream. */
  datatype Op = Prep(words: uint32) | Push(word: int) | PushReloc(handle: int, offset: nat)

  function TokenOf(op: Op): (t: seq<Token>) {
    match op
    case Prep(_) => []
    case Push(word) => [Word(word)]
    case PushReloc(handle, offset) => [Reloc(handle, offset)]
  }

  /** What the first `n` calls write. */
  function Written(ops: seq<Op>, n: nat): (tokens: seq<Token>)
    requires n <= |ops|
  {
    if n == 0 then [] else Written(ops, n - 1) + TokenOf(ops[n - 1])
  }

  /** How many words may still be pushed after a call, when it was `budget` before. */
  function Left(op: Op, budget: nat): (b: nat) {
    match op
    case Prep(words) => if budget < words then words else budget
    case _ => if budget > 0 then budget - 1 else 0
  }

  function Budget(ops: seq<Op>, n: nat, first: nat): (b: nat)
    requires n <= |ops|
  {
    if n == 0 then first else Left(ops[n - 1], Budget(ops, n - 1, first))
  }

  /** No word is pushed beyond the first ones without having been prepared for. Relocations make room for themselves. */
  predicate Disciplined(ops: seq<Op>, first: nat) {
    forall i :: 0 <= i < |ops| && ops[i].Push? ==> Budget(ops, i, first) > 0
  }

  lemma {:induction false} BudgetGrows(ops: seq<Op>, n: nat, low: nat, high: nat)
    requires n <= |ops| && low <= high
    ensures Budget(ops, n, low) <= Budget(ops, n, high)
  {
    if n == 0 {
    } else {
      BudgetGrows(ops, n - 1, low, high);
    }
  }

  lemma DisciplinedWithMore(ops: seq<Op>, low: nat, high: nat)
    requires Disciplined(ops, low) && low <= high
    ensures Disciplined(ops, high)
  {
    forall i | 0 <= i < |ops| && ops[i].Push? ensures Budget(ops, i, high) > 0 {
      BudgetGrows(ops, i, low, high);
    }
  }

  /** The first calls of a longer list write the same. */
  lemma {:induction false} WrittenPrefix(ops: seq<Op>, more: seq<Op>, n: nat)
    requires ops <= more && n <= |ops|
    ensures Written(ops, n) == Written(more, n)
  {
    if n == 0 {
    } else {
      WrittenPrefix(ops, more, n - 1);
    }
  }

  /** The word the hardware sees, when `base` tells where the buffers are. */
  function Patch(t: Token, base: int -> int): (w: int) {
    match t
    case Word(word) => word
    case Reloc(handle, offset) => base(handle) + offset
  }

  function Patched(tokens: seq<Token>, base: int -> int): (words: seq<int>)
    ensures |words| == |tokens| && forall i :: 0 <= i < |tokens| ==> words[i] == Patch(tokens[i], base)
  {
    seq(|tokens|, i requires 0 <= i < |tokens| => Patch(tokens[i], base))
  }

  lemma PatchedConcat(a: seq<Token>, b: seq<Token>, base: int -> int)
    ensures Patched(a + b, base) == Patched(a, base) + Patched(b, base)
  {
    assert forall i :: 0 <= i < |a| + |b| ==> (a + b)[i] == if i < |a| then a[i] else b[i - |a|];
  }
}
