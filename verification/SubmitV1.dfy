/** How the kernel executes a job of the first interface: buffers in order, patched by a relocation table. */
module SubmitV1 {
  import opened StreamSpec

  datatype Cmdbuf = Cmdbuf(handle: int, words: nat)

  /** Patch the word at a byte offset of one buffer with the address of another. */
  datatype RelocEntry = RelocEntry(cmdHandle: int, cmdOffset: nat, target: int, targetOffset: nat, shift: nat)

  /** What is handed to the kernel: command buffers, relocations, and what the buffers hold. */
  datatype Submission = Submission(cmdbufs: seq<Cmdbuf>, relocs: seq<RelocEntry>, memory: map<int, seq<int>>)

  const PLACEHOLDER: int := 0xdeadbeef

  /** One relocation applied to the contents of the buffer `handle`. */
  function Relocated(content: seq<int>, handle: int, r: RelocEntry, base: int -> int): (c: seq<int>)
    ensures |c| == |content|
  {
    if r.cmdHandle == handle && r.cmdOffset % 4 == 0 && r.cmdOffset / 4 < |content| && r.shift == 0 then
      content[r.cmdOffset / 4 := base(r.target) + r.targetOffset]
    else content
  }

  function Apply(content: seq<int>, handle: int, relocs: seq<RelocEntry>, n: nat, base: int -> int): (c: seq<int>)
    requires n <= |relocs|
    ensures |c| == |content|
  {
    if n == 0 then content else Relocated(Apply(content, handle, relocs, n - 1, base), handle, relocs[n - 1], base)
  }

  /** The words the hardware executes from one command buffer. */
  function BufferExecuted(sub: Submission, k: nat, base: int -> int): (words: seq<int>)
    requires k < |sub.cmdbufs|
  {
    var c := sub.cmdbufs[k];
    var content := if c.handle in sub.memory then sub.memory[c.handle] else [];
    var patched := Apply(content, c.handle, sub.relocs, |sub.relocs|, base);
    if c.words <= |patched| then patched[..c.words] else patched
  }

  /** The words the hardware executes from the first `n` command buffers. */
  function Executed(sub: Submission, n: nat, base: int -> int): (words: seq<int>)
    requires n <= |sub.cmdbufs|
  {
    if n == 0 then [] else Executed(sub, n - 1, base) + BufferExecuted(sub, n - 1, base)
  }

  /** A buffer and what has been written to it. */
  datatype Page = Page(handle: int, tokens: seq<Token>)

  function Raw(t: Token): (w: int) {
    if t.Word? then t.word else PLACEHOLDER
  }

  predicate Holds(content: seq<int>, tokens: seq<Token>) {
    |tokens| <= |content| && forall i :: 0 <= i < |tokens| ==> content[i] == Raw(tokens[i])
  }

  function Content(pages: seq<Page>, n: nat): (tokens: seq<Token>)
    requires n <= |pages|
  {
    if n == 0 then [] else Content(pages, n - 1) + pages[n - 1].tokens
  }

  /** The relocation of the token at index `i` of a buffer: it points at its own placeholder. */
  function RelocAt(handle: int, tokens: seq<Token>, i: nat): (r: seq<RelocEntry>)
    requires i < |tokens|
  {
    if tokens[i].Reloc? then [RelocEntry(handle, 4 * i, tokens[i].handle, tokens[i].offset, 0)] else []
  }

  function PageRelocs(handle: int, tokens: seq<Token>, n: nat): (r: seq<RelocEntry>)
    requires n <= |tokens|
    ensures forall k :: 0 <= k < |r| ==> r[k].cmdHandle == handle
  {
    if n == 0 then [] else PageRelocs(handle, tokens, n - 1) + RelocAt(handle, tokens, n - 1)
  }

  function Relocs(pages: seq<Page>, n: nat): (r: seq<RelocEntry>)
    requires n <= |pages|
  {
    if n == 0 then []
    else Relocs(pages, n - 1) + PageRelocs(pages[n - 1].handle, pages[n - 1].tokens, |pages[n - 1].tokens|)
  }

  predicate DistinctPages(pages: seq<Page>) {
    forall i, j :: 0 <= i < j < |pages| ==> pages[i].handle != pages[j].handle
  }

  /** The submission stores the pages: one command buffer a page, and every relocation of every page. */
  predicate Stores(sub: Submission, pages: seq<Page>) {
    && DistinctPages(pages)
    && |sub.cmdbufs| == |pages| && sub.relocs == Relocs(pages, |pages|)
    && forall k :: 0 <= k < |pages| ==>
         sub.cmdbufs[k] == Cmdbuf(pages[k].handle, |pages[k].tokens|)
         && pages[k].handle in sub.memory && Holds(sub.memory[pages[k].handle], pages[k].tokens)
  }

  /** Relocations of other buffers leave a buffer alone. */
  lemma {:induction false} ApplyOthers(content: seq<int>, handle: int, relocs: seq<RelocEntry>, from: nat, n: nat,
                                       base: int -> int)
    requires from <= n <= |relocs| && forall k :: from <= k < n ==> relocs[k].cmdHandle != handle
    ensures Apply(content, handle, relocs, n, base) == Apply(content, handle, relocs, from, base)
  {
    if from >= n {
    } else {
      ApplyOthers(content, handle, relocs, from, n - 1, base);
    }
  }

  lemma {:induction false} ApplyPrefix(content: seq<int>, handle: int, a: seq<RelocEntry>, b: seq<RelocEntry>, n: nat,
                                       base: int -> int)
    requires n <= |a| && a <= b
    ensures Apply(content, handle, b, n, base) == Apply(content, handle, a, n, base)
  {
    if n == 0 {
    } else {
      ApplyPrefix(content, handle, a, b, n - 1, base);
    }
  }

  /** The contents with the first `n` tokens patched. */
  predicate PatchedUpTo(content: seq<int>, tokens: seq<Token>, n: nat, base: int -> int) {
    && n <= |tokens| <= |content|
    && forall i :: 0 <= i < |tokens| ==> content[i] == if i < n then Patch(tokens[i], base) else Raw(tokens[i])
  }

  /** Patching the placeholder of one more token, if it is one. */
  lemma PatchNext(content: seq<int>, handle: int, tokens: seq<Token>, i: nat, next: seq<int>, base: int -> int)
    requires i < |tokens| && PatchedUpTo(content, tokens, i, base)
    requires next == if tokens[i].Reloc? then Relocated(content, handle, RelocAt(handle, tokens, i)[0], base)
             else content
    ensures PatchedUpTo(next, tokens, i + 1, base)
  {
  }

  lemma ApplyLast(content: seq<int>, handle: int, less: seq<RelocEntry>, relocs: seq<RelocEntry>, n: nat,
                  base: int -> int)
    requires n == |less| < |relocs| && less <= relocs
    ensures Apply(content, handle, relocs, n + 1, base)
            == Relocated(Apply(content, handle, less, n, base), handle, relocs[n], base)
  {
    ApplyPrefix(content, handle, less, relocs, n, base);
  }

  /** The relocation of one more token, if it has one, patches its placeholder. */
  lemma ApplyNext(content: seq<int>, handle: int, less: seq<RelocEntry>, relocs: seq<RelocEntry>, n: nat,
                  tokens: seq<Token>, i: nat, base: int -> int)
    requires i < |tokens| && tokens[i].Reloc? && n == |less| < |relocs| && less <= relocs
    requires relocs[n] == RelocAt(handle, tokens, i)[0]
    requires PatchedUpTo(Apply(content, handle, less, n, base), tokens, i, base)
    ensures PatchedUpTo(Apply(content, handle, relocs, n + 1, base), tokens, i + 1, base)
  {
    ApplyLast(content, handle, less, relocs, n, base);
    PatchNext(Apply(content, handle, less, n, base), handle, tokens, i, Apply(content, handle, relocs, n + 1, base),
              base);
  }

  /** A buffer's own relocations patch exactly its placeholders. */
  lemma {:induction false} ApplyOwn(content: seq<int>, handle: int, before: seq<RelocEntry>, tokens: seq<Token>, n: nat,
                                    relocs: seq<RelocEntry>, base: int -> int)
    requires n <= |tokens| && Holds(content, tokens) && relocs == before + PageRelocs(handle, tokens, n)
    requires forall k :: 0 <= k < |before| ==> before[k].cmdHandle != handle
    ensures PatchedUpTo(Apply(content, handle, relocs, |relocs|, base), tokens, n, base)
  {
    if n == 0 {
      assert relocs == before;
      ApplyOthers(content, handle, relocs, 0, |relocs|, base);
    } else {
      var less := before + PageRelocs(handle, tokens, n - 1);
      ApplyOwn(content, handle, before, tokens, n - 1, less, base);
      assert relocs == less + RelocAt(handle, tokens, n - 1);
      if tokens[n - 1].Reloc? {
        ApplyNext(content, handle, less, relocs, |less|, tokens, n - 1, base);
      } else {
        assert relocs == less;
        PatchNext(Apply(content, handle, less, |less|, base), handle, tokens, n - 1,
                  Apply(content, handle, less, |less|, base), base);
      }
    }
  }

  lemma {:induction false} RelocsBelong(pages: seq<Page>, n: nat, handle: int)
    requires n <= |pages| && forall k :: 0 <= k < n ==> pages[k].handle != handle
    ensures forall i :: 0 <= i < |Relocs(pages, n)| ==> Relocs(pages, n)[i].cmdHandle != handle
  {
    if n == 0 {
    } else {
      RelocsBelong(pages, n - 1, handle);
    }
  }

  /** The relocations behind those of the first `n` pages are about later pages. */
  lemma {:induction false} LaterRelocs(pages: seq<Page>, from: nat, n: nat, handle: int)
    requires from <= n <= |pages| && forall k :: from <= k < n ==> pages[k].handle != handle
    ensures Relocs(pages, from) <= Relocs(pages, n)
    ensures forall i :: |Relocs(pages, from)| <= i < |Relocs(pages, n)| ==> Relocs(pages, n)[i].cmdHandle != handle
  {
    if from >= n {
    } else {
      LaterRelocs(pages, from, n - 1, handle);
    }
  }

  /** A page is executed as what was written to it. */
  lemma PageExecuted(sub: Submission, pages: seq<Page>, k: nat, base: int -> int)
    requires Stores(sub, pages) && k < |pages|
    ensures BufferExecuted(sub, k, base) == Patched(pages[k].tokens, base)
  {
    var handle, tokens, content := pages[k].handle, pages[k].tokens, sub.memory[pages[k].handle];
    var before, own := Relocs(pages, k), Relocs(pages, k + 1);
    RelocsBelong(pages, k, handle);
    ApplyOwn(content, handle, before, tokens, |tokens|, own, base);
    LaterRelocs(pages, k + 1, |pages|, handle);
    ApplyOthers(content, handle, sub.relocs, |own|, |sub.relocs|, base);
    ApplyPrefix(content, handle, own, sub.relocs, |own|, base);
  }

  /** The hardware executes the pages' contents, in order, with every relocation resolved. */
  lemma {:induction false} Executes(sub: Submission, pages: seq<Page>, n: nat, base: int -> int)
    requires Stores(sub, pages) && n <= |pages|
    ensures Executed(sub, n, base) == Patched(Content(pages, n), base)
  {
    if n == 0 {
    } else {
      Executes(sub, pages, n - 1, base);
      PageExecuted(sub, pages, n - 1, base);
      PatchedConcat(Content(pages, n - 1), pages[n - 1].tokens, base);
    }
  }
}
