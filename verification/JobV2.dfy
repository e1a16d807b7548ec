/** The job of the second interface: one growing array of words, with relocations in place of addresses. */
module JobV2 {
  import opened StreamSpec
  import opened Words

  datatype BoEntry = BoEntry(handle: int, flags: int)

  /** What is handed to the kernel: words and a table of buffers. */
  datatype Submission = Submission(words: seq<int>, table: seq<BoEntry>)

  const MAX_INDEX: nat := 64            // 6 bits
  const MAX_OFFSET: nat := 0x400_0000   // 26 bits

  /** The relocation word: the index in the low 6 bits, the offset in the 26 bits above. */
  function Encode(index: nat, offset: nat): (w: nat) {
    index % MAX_INDEX + MAX_INDEX * (offset % MAX_OFFSET)
  }

  /** The address the kernel puts in place of a relocation word. */
  function Resolve(w: int, table: seq<BoEntry>, base: int -> int): (a: int) {
    var index := w % MAX_INDEX;
    if index < |table| then base(table[index].handle) + w / MAX_INDEX else 0
  }

  /** The words the hardware executes: relocation words resolved, others as they are. */
  function Executed(sub: Submission, tokens: seq<Token>, base: int -> int): (words: seq<int>)
    requires |tokens| == |sub.words|
  {
    seq(|tokens|, i requires 0 <= i < |tokens| =>
      if tokens[i].Reloc? then Resolve(sub.words[i], sub.table, base) else sub.words[i])
  }

  /** The hardware executes what was written, wherever the buffers are. */
  ghost predicate AsWritten(sub: Submission, tokens: seq<Token>)
    requires |tokens| == |sub.words|
  {
    forall base: int -> int :: Executed(sub, tokens, base) == Patched(tokens, base)
  }

  lemma EncodeDecodes(index: nat, offset: nat, w: nat)
    requires w == Encode(index, offset)
    ensures w % MAX_INDEX == index % MAX_INDEX && w / MAX_INDEX == offset % MAX_OFFSET
  {
  }

  /** In numbers: below 64 and 64 MiB, the offset stands above the six bits of the index. */
  lemma EncodeInBits(index: nat, offset: nat)
    ensures index < 64 && offset < 0x400_0000 ==> Encode(index, offset) == index + 64 * offset < 0x1_0000_0000
    ensures Encode(index, offset) == Encode(index % 64, offset % 0x400_0000)
  {
    EncodeDecodes(index, offset, Encode(index, offset));
  }

  predicate DistinctHandles(table: seq<BoEntry>) {
    forall i, j :: 0 <= i < j < |table| ==> table[i].handle != table[j].handle
  }

  /** A relocation word means its target exactly when the index and the offset fit their fields. */
  lemma RelocExact(index: nat, offset: nat, table: seq<BoEntry>)
    requires index < |table| && DistinctHandles(table)
    ensures (forall base: int -> int :: Resolve(Encode(index, offset), table, base)
                == base(table[index].handle) + offset)
            <==> index < MAX_INDEX && offset < MAX_OFFSET
  {
    var w := Encode(index, offset);
    EncodeDecodes(index, offset, w);
    if index >= MAX_INDEX {
      var low := index % MAX_INDEX;
      assert table[low].handle != table[index].handle;
      var off := offset - offset % MAX_OFFSET;
      var base := h => if h == table[low].handle then off + 1 else 0;
      assert Resolve(w, table, base) != base(table[index].handle) + offset;
    } else if offset >= MAX_OFFSET {
      var base := h => 0;
      assert Resolve(w, table, base) != base(table[index].handle) + offset;
    }
  }

  /** The word of a relocation: an encoding of the place of its target in the table. */
  ghost predicate IsReloc(w: int, table: seq<BoEntry>, handle: int, offset: nat) {
    exists i :: 0 <= i < |table| && table[i].handle == handle && w == Encode(i, offset)
  }

  ghost predicate IsToken(w: int, table: seq<BoEntry>, t: Token) {
    match t
    case Word(word) => w == word
    case Reloc(handle, offset) => IsReloc(w, table, handle, offset)
  }

  ghost predicate Stores(words: seq<int>, table: seq<BoEntry>, tokens: seq<Token>) {
    |words| == |tokens| && forall i :: 0 <= i < |tokens| ==> IsToken(words[i], table, tokens[i])
  }

  /** A relocation whose target sits in the first 64 entries and whose offset is below 64 MiB. */
  ghost predicate Expressible(table: seq<BoEntry>, t: Token) {
    t.Reloc? ==> t.offset < MAX_OFFSET && exists k :: 0 <= k < |table| && k < MAX_INDEX && table[k].handle == t.handle
  }

  lemma TokenExact(w: int, table: seq<BoEntry>, t: Token)
    requires IsToken(w, table, t) && DistinctHandles(table) && t.Reloc?
    ensures (forall base: int -> int :: Resolve(w, table, base) == Patch(t, base)) <==> Expressible(table, t)
  {
    var i :| 0 <= i < |table| && table[i].handle == t.handle && w == Encode(i, t.offset);
    RelocExact(i, t.offset, table);
    assert forall base: int -> int :: Patch(t, base) == base(table[i].handle) + t.offset;
    if forall base: int -> int :: Resolve(w, table, base) == Patch(t, base) {
      forall base: int -> int ensures Resolve(Encode(i, t.offset), table, base) == base(table[i].handle) + t.offset {
        assert Resolve(w, table, base) == Patch(t, base);
      }
    }
  }

  /** A job is executed as what was written to it, wherever the buffers are, exactly when it can express all of it. */
  lemma ExecutesExactly(sub: Submission, tokens: seq<Token>)
    requires Stores(sub.words, sub.table, tokens) && DistinctHandles(sub.table)
    ensures AsWritten(sub, tokens) <==> forall i :: 0 <= i < |tokens| ==> Expressible(sub.table, tokens[i])
  {
    if forall i :: 0 <= i < |tokens| ==> Expressible(sub.table, tokens[i]) {
      forall base: int -> int ensures Executed(sub, tokens, base) == Patched(tokens, base) {
        Executes(sub, tokens, base);
      }
    } else {
      var i :| 0 <= i < |tokens| && !Expressible(sub.table, tokens[i]);
      assert IsToken(sub.words[i], sub.table, tokens[i]);
      TokenExact(sub.words[i], sub.table, tokens[i]);
      var base: int -> int :| Resolve(sub.words[i], sub.table, base) != Patch(tokens[i], base);
      assert Executed(sub, tokens, base)[i] != Patched(tokens, base)[i];
    }
  }

  lemma Executes(sub: Submission, tokens: seq<Token>, base: int -> int)
    requires Stores(sub.words, sub.table, tokens) && DistinctHandles(sub.table)
    requires forall i :: 0 <= i < |tokens| ==> Expressible(sub.table, tokens[i])
    ensures Executed(sub, tokens, base) == Patched(tokens, base)
  {
    forall i | 0 <= i < |tokens| && tokens[i].Reloc?
      ensures Resolve(sub.words[i], sub.table, base) == Patch(tokens[i], base)
    {
      assert Expressible(sub.table, tokens[i]) && IsToken(sub.words[i], sub.table, tokens[i]);
      TokenExact(sub.words[i], sub.table, tokens[i]);
    }
  }

  function TableHandles(table: seq<BoEntry>): (h: set<int>) {
    set e | e in table :: e.handle
  }

  function RelocHandles(tokens: seq<Token>): (h: set<int>) {
    set t | t in tokens && t.Reloc? :: t.handle
  }

  /** At most 64 buffers are referred to, all at offsets below 64 MiB. */
  predicate Fits(tokens: seq<Token>) {
    |RelocHandles(tokens)| <= MAX_INDEX && forall t :: t in tokens && t.Reloc? ==> t.offset < MAX_OFFSET
  }

  lemma {:induction false} TableSize(table: seq<BoEntry>)
    requires DistinctHandles(table)
    ensures |TableHandles(table)| == |table|
  {
    if table == [] {
    } else {
      var n := |table| - 1;
      TableSize(table[..n]);
      assert table == table[..n] + [table[n]];
      assert TableHandles(table) == TableHandles(table[..n]) + {table[n].handle};
      assert table[n].handle !in TableHandles(table[..n]);
    }
  }

  /** The stream can be expressed exactly when it fits. */
  lemma FitsExactly(table: seq<BoEntry>, tokens: seq<Token>)
    requires DistinctHandles(table) && TableHandles(table) == RelocHandles(tokens)
    ensures (forall i :: 0 <= i < |tokens| ==> Expressible(table, tokens[i])) <==> Fits(tokens)
  {
    TableSize(table);
    if Fits(tokens) {
      forall i | 0 <= i < |tokens| && tokens[i].Reloc? ensures Expressible(table, tokens[i]) {
        assert tokens[i] in tokens && tokens[i].handle in TableHandles(table);
      }
    } else if |table| > MAX_INDEX {
      assert table[MAX_INDEX].handle in TableHandles(table);
      var t :| t in tokens && t.Reloc? && t.handle == table[MAX_INDEX].handle;
      assert !Expressible(table, t);
    } else {
      var t :| t in tokens && t.Reloc? && t.offset >= MAX_OFFSET;
      assert !Expressible(table, t);
    }
  }

  /** A relocation at an offset of 64 MiB is stored, and executed as one at offset 0. */
  lemma UnfitExample(sub: Submission, base: int -> int)
    requires sub == Submission([Encode(0, MAX_OFFSET)], [BoEntry(7, 1)])
    ensures var tokens := [Reloc(7, MAX_OFFSET)];
            && Stores(sub.words, sub.table, tokens) && !Fits(tokens)
            && Executed(sub, tokens, base) == [base(7)] && Patched(tokens, base) == [base(7) + MAX_OFFSET]
  {
    var t := Reloc(7, MAX_OFFSET);
    assert t in [t];
    assert IsReloc(sub.words[0], sub.table, 7, MAX_OFFSET);
  }

  method CopyPrefix<T>(src: array<T>, dst: array<T>, n: nat)
    requires n <= src.Length && n <= dst.Length && src != dst
    modifies dst
    ensures dst[..n] == old(src[..n])
  {
    for i := 0 to n
      invariant dst[..i] == src[..i]
    {
      dst[i] := src[i];
    }
  }

  class Job {
    var start: array<int>         // num_words is its length
    var ptr: nat                  // where the next word goes
    var boTable: array<BoEntry>   // num_bos_max is its length
    var numBos: nat
    ghost var tokens: seq<Token>

    ghost predicate Valid()
      reads this, start, boTable
    {
      && ptr <= start.Length < WORD && numBos <= boTable.Length
      && Stores(start[..ptr], boTable[..numBos], tokens) && DistinctHandles(boTable[..numBos])
    }

    /** Every entry of the table is there for a relocation. */
    ghost predicate Tight()
      requires numBos <= boTable.Length
      reads this, boTable
    {
      TableHandles(boTable[..numBos]) == RelocHandles(tokens)
    }

    constructor (numBosExpected: uint32, numWordsExpected: uint32)
      ensures Valid() && Tight() && tokens == [] && ptr == 0 && numBos == 0 && fresh(start) && fresh(boTable)
      ensures start.Length == if numWordsExpected < 64 then 64 else numWordsExpected
      ensures boTable.Length == if numBosExpected < 8 then 8 else numBosExpected
    {
      start := new int[if numWordsExpected < 64 then 64 else numWordsExpected];
      boTable := new BoEntry[if numBosExpected < 8 then 8 else numBosExpected];
      ptr, numBos, tokens := 0, 0, [];
    }

    method ResizeWords(numWords: nat)
      modifies this`start
      ensures start.Length == numWords && (start == old(start) || fresh(start))
      ensures start[..Min(numWords, old(start.Length))] == old(start[..Min(numWords, start.Length)])
    {
      if numWords != start.Length {
        var newStart := new int[numWords];
        CopyPrefix(start, newStart, Min(numWords, start.Length));
        start := newStart;
      }
    }

    method ResizeTable(num: nat)
      modifies this`boTable
      ensures boTable.Length == num && (boTable == old(boTable) || fresh(boTable))
      ensures boTable[..Min(num, old(boTable.Length))] == old(boTable[..Min(num, boTable.Length)])
    {
      if num != boTable.Length {
        var newTable := new BoEntry[num];
        CopyPrefix(boTable, newTable, Min(num, boTable.Length));
        boTable := newTable;
      }
    }

    /** Both arrays get a new size; what fits is kept, and so is the write position. */
    method Resize(numWords: uint32, num: nat)
      requires Valid() && ptr <= numWords && numBos <= num
      modifies this`start, this`boTable
      ensures Valid() && start.Length == numWords && boTable.Length == num
      ensures start[..ptr] == old(start[..ptr]) && boTable[..numBos] == old(boTable[..numBos])
      ensures (start == old(start) || fresh(start)) && (boTable == old(boTable) || fresh(boTable))
    {
      ghost var words, table := start[..ptr], boTable[..numBos];
      ResizeWords(numWords);
      assert start[..ptr] == start[..Min(numWords, old(start.Length))][..ptr] == words;
      ResizeTable(num);
      assert boTable[..numBos] == boTable[..Min(num, old(boTable.Length))][..numBos] == table;
    }

    method Reset()
      requires Valid()
      modifies this`ptr, this`numBos, this`tokens
      ensures Valid() && Tight() && tokens == [] && ptr == 0 && numBos == 0
    {
      ptr, numBos, tokens := 0, 0, [];
    }

    /** The place of a handle in the table, or the end of the table. */
    method FindBo(handle: int) returns (i: nat)
      requires numBos <= boTable.Length
      ensures i <= numBos && (i < numBos ==> boTable[i].handle == handle)
      ensures i == numBos ==> forall k :: 0 <= k < numBos ==> boTable[k].handle != handle
    {
      i := 0;
      while i < numBos && boTable[i].handle != handle
        invariant i <= numBos && forall k :: 0 <= k < i ==> boTable[k].handle != handle
      {
        i := i + 1;
      }
    }

    /** Enters a handle that is not in the table yet, which grows by 8 when it is full. */
    method AddBo(handle: int, flags: int)
      requires Valid() && forall k :: 0 <= k < numBos ==> boTable[k].handle != handle
      modifies this`boTable, this`numBos, this`start, boTable
      ensures Valid() && numBos == old(numBos) + 1
      ensures boTable[..numBos] == old(boTable[..numBos]) + [BoEntry(handle, flags)]
      ensures boTable.Length == old(boTable.Length) + if old(numBos == boTable.Length) then 8 else 0
      ensures start.Length == old(start.Length) && start[..ptr] == old(start[..ptr])
      ensures (start == old(start) || fresh(start)) && (boTable == old(boTable) || fresh(boTable))
    {
      if numBos == boTable.Length {
        Resize(start.Length, boTable.Length + 8);
      }
      ghost var table := boTable[..numBos];
      boTable[numBos] := BoEntry(handle, flags);
      numBos := numBos + 1;
      assert boTable[..numBos] == table + [BoEntry(handle, flags)];
      StoresMore(start[..ptr], table, tokens, BoEntry(handle, flags));
    }

    /** Writes a word that means `t`. */
    method Store(word: int, ghost t: Token)
      requires Valid() && ptr < start.Length && IsToken(word, boTable[..numBos], t)
      modifies this`ptr, this`tokens, start
      ensures Valid() && ptr == old(ptr) + 1 && tokens == old(tokens) + [t]
    {
      ghost var words := start[..ptr];
      start[ptr] := word;
      ptr := ptr + 1;
      tokens := tokens + [t];
      assert start[..ptr] == words + [word];
    }

    /** The table entry of a buffer, which is made, with the flags, if there is none. */
    method EntryOf(handle: int, flags: int) returns (i: nat)
      requires Valid()
      modifies this`boTable, this`numBos, this`start, boTable
      ensures Valid() && i < numBos && boTable[i].handle == handle && old(boTable[..numBos]) <= boTable[..numBos]
      ensures boTable[..numBos] == old(boTable[..numBos])
                                   + if old(exists k :: 0 <= k < numBos && boTable[k].handle == handle) then []
                                     else [BoEntry(handle, flags)]
      ensures TableHandles(boTable[..numBos]) == old(TableHandles(boTable[..numBos])) + {handle}
      ensures start.Length == old(start.Length) && start[..ptr] == old(start[..ptr])
      ensures (start == old(start) || fresh(start)) && (boTable == old(boTable) || fresh(boTable))
    {
      i := FindBo(handle);
      ghost var table := boTable[..numBos];
      if i == numBos {
        AddBo(handle, flags);
        HandlesMore(table, BoEntry(handle, flags));
      } else {
        assert table[i] in table;
      }
    }

    /**
     * Grows the words by 256 when they are full. With 2^32 - 256 words or more the new size wraps, and the write
     * position lies behind the array: then nothing is known of memory.
     */
    method Grow() returns (overflow: bool)
      requires Valid()
      modifies this`start, this`boTable
      ensures Valid() && overflow == old(ptr == start.Length && start.Length + 256 >= WORD)
      ensures !overflow ==> start.Length == (old(start.Length) + if old(ptr == start.Length) then 256 else 0)
      ensures start[..ptr] == old(start[..ptr]) && boTable[..numBos] == old(boTable[..numBos])
      ensures (start == old(start) || fresh(start)) && (boTable == old(boTable) || fresh(boTable))
    {
      overflow := ptr == start.Length && (start.Length + 256) % WORD < ptr;
      if ptr == start.Length && !overflow {
        Resize((start.Length + 256) % WORD, boTable.Length);
      }
    }

    /** Writes a relocation, unless there is no room for it. */
    method PushReloc(handle: int, offset: nat, flags: int) returns (overflow: bool)
      requires Valid()
      modifies this`boTable, this`numBos, this`start, this`ptr, this`tokens, boTable, start
      ensures Valid() && overflow == old(ptr == start.Length && start.Length + 256 >= WORD)
      ensures !overflow ==>
                tokens == old(tokens) + [Reloc(handle, offset)] && ptr == old(ptr) + 1 && (old(Tight()) ==> Tight())
      ensures !overflow ==> start.Length == old(start.Length) + if old(ptr == start.Length) then 256 else 0
      ensures boTable[..numBos] == old(boTable[..numBos])
                                   + if old(exists k :: 0 <= k < numBos && boTable[k].handle == handle) then []
                                     else [BoEntry(handle, flags)]
      ensures (start == old(start) || fresh(start)) && (boTable == old(boTable) || fresh(boTable))
    {
      var i := EntryOf(handle, flags);
      ghost var table := boTable[..numBos];
      overflow := Grow();
      if !overflow {
        assert table[i].handle == handle;
        RelocHandlesMore(tokens, Reloc(handle, offset));
        Store(Encode(i, offset), Reloc(handle, offset));
      }
    }

    method Submit() returns (sub: Submission)
      requires Valid()
      ensures Stores(sub.words, sub.table, tokens) && DistinctHandles(sub.table) && sub.table == boTable[..numBos]
      ensures Tight() ==> (AsWritten(sub, tokens) <==> Fits(tokens))
    {
      sub := Submission(start[..ptr], boTable[..numBos]);
      ExecutesExactly(sub, tokens);
      if Tight() {
        FitsExactly(sub.table, tokens);
      }
    }
  }

  lemma HandlesMore(table: seq<BoEntry>, e: BoEntry)
    ensures TableHandles(table + [e]) == TableHandles(table) + {e.handle}
  {
    assert forall x :: x in table + [e] <==> x in table || x == e;
    assert e in table + [e];
  }

  lemma RelocHandlesMore(tokens: seq<Token>, t: Token)
    ensures RelocHandles(tokens + [t]) == RelocHandles(tokens) + if t.Reloc? then {t.handle} else {}
  {
    assert forall x :: x in tokens + [t] <==> x in tokens || x == t;
    assert t in tokens + [t];
  }

  /** Relocations keep their meaning when the table grows. */
  lemma StoresMore(words: seq<int>, table: seq<BoEntry>, tokens: seq<Token>, e: BoEntry)
    requires Stores(words, table, tokens)
    ensures Stores(words, table + [e], tokens)
  {
    forall i | 0 <= i < |tokens| ensures IsToken(words[i], table + [e], tokens[i]) {
      if tokens[i].Reloc? {
        assert IsToken(words[i], table, tokens[i]);
        var k :| 0 <= k < |table| && table[k].handle == tokens[i].handle && words[i] == Encode(k, tokens[i].offset);
        assert (table + [e])[k] == table[k];
      }
    }
  }
}
