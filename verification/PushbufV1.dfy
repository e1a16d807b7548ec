/** The push buffer of the first interface: words go to fixed buffers, and full buffers are chained into the job. */
module PushbufV1 {
  import opened Options
  import opened StreamSpec
  import opened Words
  import opened SubmitV1

  /** A buffer object mapped for writing. */
  class Bo {
    const handle: int
    const data: array<int>

    constructor (h: int, words: nat)
      ensures handle == h && fresh(data) && data.Length == words
    {
      handle := h;
      data := new int[words];
    }
  }

  /**
   * What asking for a buffer object brings: nothing, or a handle that is not in use, and some words beyond the
   * request.
   */
  datatype Grant = Denied | Granted(handle: int, extra: nat)

  const PAGE_WORDS: nat := 1024
  const MAX_PAGE: nat := 0x3FFF_FC00    // the most words whose whole pages are fewer than 2^32 bytes
  const MAX_WORDS: nat := 0x3FFF_FFFF   // a buffer's size in bytes has 32 bits

  function Aligned(words: nat): (n: nat)
    ensures words <= n < words + PAGE_WORDS && n % PAGE_WORDS == 0
  {
    (words + PAGE_WORDS - 1) / PAGE_WORDS * PAGE_WORDS
  }

  /** The words of the pages asked for: rounding up wraps at 32 bits, and so does the number of bytes. */
  function PageWords(words: uint32): (n: nat) {
    Aligned(words) % WORD * 4 % WORD / 4
  }

  /** The pages are counted modulo 2^20. */
  lemma PageWordsWrap(words: uint32, pages: nat)
    requires Aligned(words) == pages * PAGE_WORDS
    ensures PageWords(words) == pages % 0x10_0000 * PAGE_WORDS
  {
    assert pages * 0x400 % WORD == pages % 0x40_0000 * 0x400;
    assert pages % 0x40_0000 * 0x1000 % WORD == pages % 0x10_0000 * 0x1000;
  }

  /** Whole pages are asked for, modulo 2^30 words. */
  lemma PageWordsIs(words: uint32)
    ensures PageWords(words) == (words + 1023) / 1024 * 1024 % 0x4000_0000
  {
    var pages := (words + 1023) / 1024;
    PageWordsWrap(words, pages);
    assert pages * 0x400 % 0x4000_0000 == pages % 0x10_0000 * 0x400;
  }

  /** Enough is asked for exactly up to the greatest page; otherwise nothing, or some smaller pages. */
  lemma PageWordsExact(words: uint32)
    ensures PageWords(words) >= words <==> words <= MAX_PAGE
    ensures words <= MAX_PAGE ==> PageWords(words) == Aligned(words)
    ensures PageWords(words) == 0 || PAGE_WORDS <= PageWords(words) <= MAX_PAGE
    ensures PageWords(words) == 0 <==> words == 0 || (words - 1) % 0x4000_0000 >= MAX_PAGE
  {
    var pages: nat := (words + PAGE_WORDS - 1) / PAGE_WORDS;
    PageWordsWrap(words, pages);
  }

  /** A request of 2^30 + 1 words is granted as a single page. */
  lemma WrappedPage()
    ensures PageWords(0x4000_0001) == PAGE_WORDS
  {
  }

  /** Where the next word goes in the current buffer, and how many words the buffer has. */
  datatype Place = Nowhere | Place(ptr: nat, size: nat) {
    /** The next `n` words can be written. */
    predicate Room(n: nat) {
      Place? && ptr + n <= size
    }
  }

  /** The place after making room for some words, if that succeeds. */
  function Prepared(at: Place, words: uint32, grant: Grant): (p: Option<Place>) {
    if words == 0 then None
    else if at.Place? && at.ptr + words < at.size then Some(at)
    else if grant.Denied? || PageWords(words) == 0 then None
    else Some(Place(0, Min(PageWords(words) + grant.extra, MAX_WORDS)))
  }

  /** A first buffer is all it takes. */
  lemma FirstPage(grant: Grant)
    ensures Prepared(Nowhere, 1, grant).Some? <==> grant.Granted?
  {
    PageWordsExact(1);
  }

  /** The place behind the next word. */
  function Behind(at: Place): (p: Place) {
    if at.Place? then at.(ptr := at.ptr + 1) else at
  }

  /** There is room for the words asked for exactly when their bytes fit 32 bits, and a first buffer has a page. */
  lemma PreparedRoom(at: Place, words: uint32, grant: Grant)
    requires Prepared(at, words, grant).Some? && (at.Place? ==> at.ptr <= at.size <= MAX_WORDS)
    ensures var p := Prepared(at, words, grant).value;
            && p.ptr <= p.size <= MAX_WORDS
            && (p.Room(words) <==> at.Room(words) || words <= MAX_PAGE)
            && (words <= MAX_PAGE ==> forall n: nat :: at.Room(n) ==> p.Room(n))
            && (at.Nowhere? ==> p.Room(PAGE_WORDS))
  {
    PageWordsExact(words);
  }

  class Job {
    var cmdbufs: seq<Cmdbuf>
    var relocs: seq<RelocEntry>
    var increments: nat
    const syncpt: uint32
    var memory: map<int, seq<int>>   // what the queued buffers hold, which nobody writes any more

    constructor (id: uint32)
      ensures cmdbufs == [] && relocs == [] && memory == map[] && syncpt == id && increments == 0
    {
      cmdbufs, relocs, increments, syncpt, memory := [], [], 0, id, map[];
    }

    method AddReloc(r: RelocEntry)
      modifies this`relocs
      ensures relocs == old(relocs) + [r]
    {
      relocs := relocs + [r];
    }

    method AddCmdbuf(c: Cmdbuf, content: seq<int>)
      modifies this`cmdbufs, this`memory
      ensures cmdbufs == old(cmdbufs) + [c] && memory == old(memory)[c.handle := content]
    {
      cmdbufs := cmdbufs + [c];
      memory := memory[c.handle := content];
    }
  }

  lemma StoresMore(cmdbufs: seq<Cmdbuf>, memory: map<int, seq<int>>, pages: seq<Page>, p: Page, content: seq<int>)
    requires Stores(Submission(cmdbufs, Relocs(pages, |pages|), memory), pages)
    requires Holds(content, p.tokens) && forall k :: 0 <= k < |pages| ==> pages[k].handle != p.handle
    ensures var all := pages + [p];
            && Relocs(all, |all|) == Relocs(pages, |pages|) + PageRelocs(p.handle, p.tokens, |p.tokens|)
            && Content(all, |all|) == Content(pages, |pages|) + p.tokens
            && Stores(Submission(cmdbufs + [Cmdbuf(p.handle, |p.tokens|)], Relocs(all, |all|),
                                 memory[p.handle := content]),
                      all)
  {
    PrefixPages(pages, pages + [p], |pages|);
  }

  lemma {:induction false} PrefixPages(a: seq<Page>, b: seq<Page>, n: nat)
    requires a <= b && n <= |a|
    ensures Relocs(a, n) == Relocs(b, n) && Content(a, n) == Content(b, n)
  {
    if n == 0 {
    } else {
      PrefixPages(a, b, n - 1);
    }
  }

  lemma {:induction false} PageRelocsMore(handle: int, a: seq<Token>, b: seq<Token>, n: nat)
    requires a <= b && n <= |a|
    ensures PageRelocs(handle, a, n) == PageRelocs(handle, b, n)
  {
    if n == 0 {
    } else {
      PageRelocsMore(handle, a, b, n - 1);
    }
  }

  lemma HoldsMore(content: seq<int>, tokens: seq<Token>, t: Token)
    requires Holds(content, tokens) && |tokens| < |content|
    ensures Holds(content[|tokens| := Raw(t)], tokens + [t])
  {
  }

  class Pushbuf {
    const job: Job
    var bo: Bo?        // the buffer being written, which starts at word 0 and ends at data.Length
    var ptr: nat
    ghost var pages: seq<Page>      // the queued buffers
    ghost var tokens: seq<Token>    // what has been written to the current one
    ghost var used: set<int>        // the handles of all of them

    ghost predicate Queued()
      reads this`pages, job`cmdbufs, job`relocs, job`memory
    {
      Stores(Submission(job.cmdbufs, Relocs(pages, |pages|), job.memory), pages)
    }

    ghost predicate Valid()
      reads this, job`cmdbufs, job`relocs, job`memory, if bo == null then {} else {bo.data}
    {
      && Queued() && (forall k :: 0 <= k < |pages| ==> pages[k].handle in used)
      && if bo == null then tokens == [] && job.relocs == Relocs(pages, |pages|)
         else
           && ptr == |tokens| && Holds(bo.data[..], tokens) && bo.data.Length <= MAX_WORDS
           && job.relocs == Relocs(pages, |pages|) + PageRelocs(bo.handle, tokens, |tokens|)
           && bo.handle in used && forall k :: 0 <= k < |pages| ==> pages[k].handle != bo.handle
    }

    /** Everything written so far. */
    ghost function Stream(): (s: seq<Token>)
      reads this
    {
      Content(pages, |pages|) + tokens
    }

    function Where(): (p: Place)
      reads this
    {
      if bo == null then Nowhere else Place(ptr, bo.data.Length)
    }

    /** The next `n` words can be written. */
    predicate Room(n: nat)
      reads this
    {
      Where().Room(n)
    }

    constructor (j: Job)
      requires j.cmdbufs == [] && j.relocs == []
      ensures Valid() && job == j && bo == null && Stream() == [] && used == {}
    {
      job, bo, ptr, pages, tokens, used := j, null, 0, [], [], {};
    }

    /** Hands the current buffer to the job. */
    method Queue()
      requires Valid()
      modifies this`bo, this`pages, this`tokens, job`cmdbufs, job`memory
      ensures Valid() && bo == null && Stream() == old(Stream())
      ensures |job.cmdbufs| == |pages| && job.relocs == Relocs(pages, |pages|)
    {
      if bo == null {
        return;
      }
      var content := bo.data[..];
      ghost var page := Page(bo.handle, tokens);
      StoresMore(job.cmdbufs, job.memory, pages, page, content);
      var cmdbuf := Cmdbuf(bo.handle, ptr);
      bo := null;
      job.AddCmdbuf(cmdbuf, content);
      pages, tokens := pages + [page], [];
    }

    method StartPage(next: Bo)
      requires Valid() && bo == null && next.handle !in used && next.data.Length <= MAX_WORDS
      modifies this`bo, this`ptr, this`used
      ensures Valid() && bo == next && ptr == 0 && used == old(used) + {next.handle}
    {
      bo, ptr, used := next, 0, used + {next.handle};
    }

    /** Makes room for some words, in the current buffer or a new one. */
    method Prepare(words: uint32, grant: Grant) returns (ok: bool)
      requires Valid() && (grant.Granted? ==> grant.handle !in used)
      modifies this, job`cmdbufs, job`memory
      ensures Valid() && Stream() == old(Stream()) && job.relocs == old(job.relocs)
      ensures ok == Prepared(old(Where()), words, grant).Some?
      ensures if ok then Where() == Prepared(old(Where()), words, grant).value else bo == old(bo) && ptr == old(ptr)
      ensures var fits := old(bo != null && ptr + words < bo.data.Length);
              && ok == (words > 0 && (fits || (grant.Granted? && PageWords(words) > 0)))
              && (ok ==> if fits then bo == old(bo) && ptr == old(ptr)
                         else
                           && bo != null && bo.handle == grant.handle && ptr == 0
                           && bo.data.Length == Min(PageWords(words) + grant.extra, 0x3FFF_FFFF))
      ensures bo == old(bo) || (fresh(bo) && fresh(bo.data))
      ensures ok ==> (Room(words) <==> old(Room(words)) || words <= MAX_PAGE)
      ensures ok && words <= MAX_PAGE ==> forall n: nat :: old(Room(n)) ==> Room(n)
      ensures ok && old(bo) == null ==> Room(PAGE_WORDS)
      ensures used <= old(used) + if grant.Granted? then {grant.handle} else {}
    {
      ghost var at := Where();
      ok := words > 0 && ((bo != null && ptr + words < bo.data.Length) || (grant.Granted? && PageWords(words) > 0));
      if ok {
        PreparedRoom(at, words, grant);
      }
      if ok && !(bo != null && ptr + words < bo.data.Length) {
        var next := new Bo(grant.handle, Min(PageWords(words) + grant.extra, MAX_WORDS));
        Queue();
        StartPage(next);
      }
    }

    /** Writes a word, for which the job already has the relocation if it takes one. */
    method Store(word: int, ghost t: Token)
      requires Queued() && bo != null && ptr < bo.data.Length && word == Raw(t)
      requires forall k :: 0 <= k < |pages| ==> pages[k].handle in used && pages[k].handle != bo.handle
      requires bo.handle in used && ptr == |tokens| && Holds(bo.data[..], tokens) && bo.data.Length <= MAX_WORDS
      requires job.relocs == Relocs(pages, |pages|) + PageRelocs(bo.handle, tokens, |tokens|)
                             + RelocAt(bo.handle, tokens + [t], ptr)
      modifies this`ptr, this`tokens, bo.data
      ensures Valid() && ptr == old(ptr) + 1 && Stream() == old(Stream()) + [t] && bo.data[old(ptr)] == word
    {
      ghost var before, content := tokens, bo.data[..];
      HoldsMore(content, before, t);
      bo.data[ptr] := word;
      assert bo.data[..] == content[ptr := word];
      ptr := ptr + 1;
      tokens := tokens + [t];
      PageRelocsMore(bo.handle, before, tokens, |before|);
      assert Content(pages, |pages|) + tokens == Content(pages, |pages|) + before + [t];
    }

    /** A raw push through the write pointer. */
    method Push(word: int)
      requires Valid() && Room(1)
      modifies this`ptr, this`tokens, bo.data
      ensures Valid() && ptr == old(ptr) + 1 && Stream() == old(Stream()) + [Word(word)] && bo.data[old(ptr)] == word
    {
      assert job.relocs + [] == job.relocs;
      Store(word, Word(word));
    }

    /** Records a relocation for the next word, which gets a placeholder. */
    method AddReloc(target: int, offset: nat)
      requires Valid() && Room(1)
      modifies this`ptr, this`tokens, job`relocs, bo.data
      ensures Valid() && ptr == old(ptr) + 1 && Stream() == old(Stream()) + [Reloc(target, offset)]
      ensures bo.data[old(ptr)] == 0xdeadbeef
      ensures job.relocs == old(job.relocs) + [RelocEntry(bo.handle, 4 * old(ptr), target, offset, 0)]
    {
      job.AddReloc(RelocEntry(bo.handle, ptr * 4, target, offset, 0));
      Store(PLACEHOLDER, Reloc(target, offset));
    }

    method Relocate(target: int, offset: nat, grant: Grant) returns (ok: bool)
      requires Valid() && (grant.Granted? ==> grant.handle !in used)
      modifies this, job`cmdbufs, job`memory, job`relocs, if bo == null then {} else {bo.data}
      ensures Valid() && Stream() == old(Stream()) + if ok then [Reloc(target, offset)] else []
      ensures ok == Prepared(old(Where()), 1, grant).Some?
      ensures if ok then Where() == Behind(Prepared(old(Where()), 1, grant).value)
              else bo == old(bo) && ptr == old(ptr)
      ensures ok ==> bo != null && ptr > 0 && ptr <= bo.data.Length && bo.data[ptr - 1] == 0xdeadbeef
                     && job.relocs == old(job.relocs) + [RelocEntry(bo.handle, 4 * (ptr - 1), target, offset, 0)]
      ensures ok ==> forall n: nat :: old(Room(n + 1)) ==> Room(n)
      ensures used <= old(used) + if grant.Granted? then {grant.handle} else {}
      ensures bo == old(bo) || (fresh(bo) && fresh(bo.data))
    {
      ok := Prepare(1, grant);
      if ok {
        AddReloc(target, offset);
      }
    }

    method PushTwo(a: int, b: int)
      requires Valid() && Room(2)
      modifies this`ptr, this`tokens, bo.data
      ensures Valid() && Stream() == old(Stream()) + [Word(a), Word(b)]
    {
      Push(a);
      Push(b);
    }

    /** Writes the two words of an increment, for which there is room, and counts it. */
    method Increment(cond: nat)
      requires Valid() && Room(2)
      modifies this`ptr, this`tokens, bo.data, job`increments
      ensures Valid() && job.increments == old(job.increments) + 1
      ensures Stream() == old(Stream()) + SyncTokens(cond, job.syncpt)
    {
      job.increments := job.increments + 1;
      PushTwo(NONINCR_0_1, Or(cond * 0x100, job.syncpt));
    }

    /** Makes room for the two words that increment the job's sync point, and writes them. */
    method Sync(cond: nat, grant: Grant) returns (ok: bool)
      requires Valid() && (grant.Granted? ==> grant.handle !in used)
      modifies this, job`cmdbufs, job`memory, job`increments, if bo == null then {} else {bo.data}
      ensures Valid() && job.increments == old(job.increments) + if ok then 1 else 0
      ensures Stream() == old(Stream()) + if ok then [Word(0x2000_0001), Word(Or(cond * 0x100, job.syncpt))] else []
      ensures ok <==> cond < 4 && Prepared(old(Where()), 2, grant).Some?
      ensures bo == old(bo) || (bo != null && fresh(bo) && fresh(bo.data))
    {
      ok := cond < SYNCPT_COND_MAX;
      if ok {
        ok := Prepare(2, grant);
      }
      if ok {
        Increment(cond);
      }
    }

    /** What the kernel is given once the stream is complete. */
    method Submit() returns (sub: Submission)
      requires Valid()
      modifies this`bo, this`pages, this`tokens, job`cmdbufs, job`memory
      ensures Valid() && bo == null && Stream() == old(Stream())
      ensures Stores(sub, pages) && Content(pages, |pages|) == Stream()
      ensures forall base: int -> int :: Executed(sub, |sub.cmdbufs|, base) == Patched(old(Stream()), base)
    {
      Queue();
      sub := Submission(job.cmdbufs, job.relocs, job.memory);
      assert Stream() == Content(pages, |pages|);
      forall base: int -> int ensures Executed(sub, |sub.cmdbufs|, base) == Patched(Stream(), base) {
        Executes(sub, pages, |pages|, base);
      }
    }
  }

  const SYNCPT_COND_MAX: nat := 4
  const NONINCR_0_1: int := 0x2000_0001   // one word to register 0, without advancing

  function SyncTokens(cond: nat, syncpt: nat): (t: seq<Token>) {
    [Word(NONINCR_0_1), Word(Or(cond * 0x100, syncpt))]
  }

  /** A sync point of eight bits stands below the condition. */
  lemma SyncFields(cond: nat, syncpt: nat)
    requires syncpt < 0x100
    ensures SyncTokens(cond, syncpt) == [Word(NONINCR_0_1), Word(cond * 0x100 + syncpt)]
  {
    assert Power(8) == 0x100;
    OrOfLow(cond, syncpt, 8, 0x100);
  }
}
