/** What a restore pass writes (strippointers.py:24-63 with `restore_from`
    given): when the pointer slots of the file share no byte, the pass puts
    the restore stream's pointers into them in visiting order, sends what
    they held to the extract stream, and leaves the file's layout (its block
    headers and so its slots) as it found it. Stripping a file and restoring
    it from what was extracted gives the file back. */
module PointerRestore {
  import opened Errors
  import opened Bytes
  import opened DnaField
  import opened Sdna
  import opened Header
  import opened PointerWalk
  import opened PointerSlots
  import opened PointerLocal
  import opened PointerProps
  import opened PointerCount
  import opened PointerExec

  // ---------------------------------------------------------------------------
  // The whole pass is the flat program

  /** From the block header at `pos` on, the loop is the flat program over
      the slots from there, while the bytes from `pos` on are still those of
      `file` and the program runs to the end. */
  lemma {:induction false} FromSeq(file: seq<byte>, lay: Layout, structs: seq<Struct>, index: map<string, nat>,
                                   pos: nat, st: State)
    requires Indexes(index, structs) && SameFrom(st.data, file, pos)
    requires FileTrace(file, lay, structs, index, pos).stop.None?
    requires Exec(FileTrace(file, lay, structs, index, pos).slots, lay.ptrSize, st).stop.None?
    ensures StripFrom(file, lay, structs, index, pos, st)
         == Exec(FileTrace(file, lay, structs, index, pos).slots, lay.ptrSize, st)
    decreases Left(file, pos)
  {
    match HeaderAt(file, lay, pos)
    case Ok(Some(h)) =>
      var b, next := Block(pos, h), NextAt(pos, h, lay);
      var first := BlockTrace(b, lay, structs, index, |file|);
      LeftDecreases(file, lay, pos, h);
      var rest := FileTrace(file, lay, structs, index, next);
      ExecAppend(first.slots, rest.slots, lay.ptrSize, st);
      var e1 := Exec(first.slots, lay.ptrSize, st);
      HeaderAtSame(st.data, file, lay, pos);
      BlockSeq(b, lay, structs, index, st);
      StripFromStep(file, lay, structs, index, pos, st, h);
      assert SameFrom(e1.st.data, file, next) by {
        ExecLocal(first.slots, lay.ptrSize, st);
        BlockBelow(b, lay, structs, index, |file|);
        SameAbove(st.data, e1.st.data, first.slots, next);
      }
      FromSeq(file, lay, structs, index, next, e1.st);
    case Ok(None) =>
      StripFromEnd(file, lay, structs, index, pos, st);
    case Err(_) =>
  }

  /** Equal outside slots that end by `q`: equal from `q` on. */
  lemma SameAbove(a: seq<byte>, b: seq<byte>, slots: seq<Slot>, q: nat)
    requires SameOutside(a, b, 0, slots) && Within(slots, q)
    ensures forall i :: q <= i < |a| ==> a[i] == b[i]
  {
    SameMeans(a, b, 0, slots);
    forall i | q <= i < |a|
      ensures a[i] == b[i]
    {
      NotCovered(i, slots, q);
    }
  }

  /** No slot that ends by `q` covers a position from `q` on. */
  lemma NotCovered(i: int, slots: seq<Slot>, q: nat)
    requires Within(slots, q) && q <= i
    ensures !Covered(i, slots)
  {
    forall k | 0 <= k < |slots|
      ensures !(slots[k].at <= i < slots[k].at + slots[k].width)
    {
    }
  }

  // ---------------------------------------------------------------------------
  // Where the slots lie

  /** Every slot starts at `lo` or after. */
  predicate Above(slots: seq<Slot>, lo: nat)
  {
    forall k :: 0 <= k < |slots| ==> lo <= slots[k].at
  }

  lemma AboveAppend(a: seq<Slot>, b: seq<Slot>, lo: nat)
    requires Above(a, lo) && Above(b, lo)
    ensures Above(a + b, lo)
  {
    assert forall k :: |a| <= k < |a + b| ==> (a + b)[k] == b[k - |a|];
  }

  lemma WithinMore(slots: seq<Slot>, size: nat, more: nat)
    requires Within(slots, size) && size <= more
    ensures Within(slots, more)
  {
  }

  lemma {:induction false} FieldsAbove(structs: seq<Struct>, index: map<string, nat>, fields: seq<Field>,
                                       begin: nat, fuel: nat, end: nat)
    requires Indexes(index, structs)
    ensures Above(FieldsTrace(structs, index, fields, begin, fuel, end).slots, begin)
    decreases fuel, |fields|, 1
  {
    if |fields| > 0 {
      var first := FieldTrace(structs, index, fields[0], begin, fuel, end);
      FieldAbove(structs, index, fields[0], begin, fuel, end);
      if first.stop.None? {
        var rest := FieldsTrace(structs, index, fields[1..], begin, fuel, end);
        FieldsAbove(structs, index, fields[1..], begin, fuel, end);
        AboveAppend(first.slots, rest.slots, begin);
      }
    }
  }

  lemma {:induction false} FieldAbove(structs: seq<Struct>, index: map<string, nat>, f: Field, begin: nat,
                                      fuel: nat, end: nat)
    requires Indexes(index, structs)
    ensures Above(FieldTrace(structs, index, f, begin, fuel, end).slots, begin)
    decreases fuel, 0, 0
  {
    if !f.isPtr && f.typeName in index && fuel > 0 {
      FieldsAbove(structs, index, structs[index[f.typeName]].fields, begin + f.offset, fuel - 1, end);
    }
  }

  lemma {:induction false} ElementsAbove(structs: seq<Struct>, index: map<string, nat>, ds: Struct, pos: nat,
                                         n: nat, len: nat)
    requires Indexes(index, structs)
    ensures Above(ElementsTrace(structs, index, ds, pos, n, len).slots, pos)
    decreases n
  {
    if n > 0 && pos + ds.size <= len {
      var first := ElementSlots(structs, index, ds, pos);
      FieldsAbove(structs, index, ds.fields, pos, |structs|, pos + ds.size);
      if first.stop.None? {
        var rest := ElementsTrace(structs, index, ds, pos + ds.size, n - 1, len);
        ElementsAbove(structs, index, ds, pos + ds.size, n - 1, len);
        AboveAppend(first.slots, rest.slots, pos);
      }
    }
  }

  /** `n` elements from `pos` keep their slots within `n` elements' bytes. */
  lemma {:induction false} ElementsBelow(structs: seq<Struct>, index: map<string, nat>, ds: Struct, pos: nat,
                                         n: nat, len: nat)
    requires Indexes(index, structs)
    ensures Within(ElementsTrace(structs, index, ds, pos, n, len).slots, pos + ds.size * n)
    decreases n
  {
    if n > 0 && pos + ds.size <= len {
      var first := ElementSlots(structs, index, ds, pos);
      assert pos + ds.size * n == pos + ds.size + ds.size * (n - 1) by {
        MulNext(ds.size, n - 1);
      }
      FieldsWithin(structs, index, ds.fields, pos, |structs|, pos + ds.size);
      WithinMore(first.slots, pos + ds.size, pos + ds.size * n);
      if first.stop.None? {
        var rest := ElementsTrace(structs, index, ds, pos + ds.size, n - 1, len);
        ElementsBelow(structs, index, ds, pos + ds.size, n - 1, len);
        WithinAppend(first.slots, rest.slots, pos + ds.size * n);
      }
    }
  }

  /** A block's slots lie inside the block. */
  lemma BlockBelow(b: Block, lay: Layout, structs: seq<Struct>, index: map<string, nat>, len: nat)
    requires Indexes(index, structs)
    ensures Within(BlockTrace(b, lay, structs, index, len).slots, NextAt(b.at, b.header, lay))
  {
    var h, next := b.header, NextAt(b.at, b.header, lay);
    var head := [Slot(b.at + 8, lay.ptrSize)];
    if 0 < h.sdnaIndex < |structs| && structs[h.sdnaIndex].size * h.count == h.size {
      var ds := structs[h.sdnaIndex];
      var t := ElementsTrace(structs, index, ds, b.at + HeaderSize(lay), h.count, len);
      ElementsBelow(structs, index, ds, b.at + HeaderSize(lay), h.count, len);
      WithinAppend(head, t.slots, next);
    }
  }

  /** The slots from a block header at `pos` on: the header's address first,
      every other one past the header. */
  predicate HeadShape(slots: seq<Slot>, pos: nat, lay: Layout)
  {
    |slots| > 0 && slots[0] == Slot(pos + 8, lay.ptrSize) && Above(slots[1..], pos + HeaderSize(lay))
  }

  lemma BlockShape(b: Block, lay: Layout, structs: seq<Struct>, index: map<string, nat>, len: nat)
    requires Indexes(index, structs)
    ensures HeadShape(BlockTrace(b, lay, structs, index, len).slots, b.at, lay)
  {
    var h := b.header;
    var head := [Slot(b.at + 8, lay.ptrSize)];
    if 0 < h.sdnaIndex < |structs| && structs[h.sdnaIndex].size * h.count == h.size {
      var ds := structs[h.sdnaIndex];
      var t := ElementsTrace(structs, index, ds, b.at + HeaderSize(lay), h.count, len);
      ElementsAbove(structs, index, ds, b.at + HeaderSize(lay), h.count, len);
      assert (head + t.slots)[1..] == t.slots;
    }
  }

  /** More slots after the block keep the shape. */
  lemma ShapeAppend(first: seq<Slot>, rest: seq<Slot>, pos: nat, lay: Layout, next: nat)
    requires HeadShape(first, pos, lay) && Above(rest, next) && pos + HeaderSize(lay) <= next
    ensures HeadShape(first + rest, pos, lay)
  {
    assert (first + rest)[1..] == first[1..] + rest;
    AboveAppend(first[1..], rest, pos + HeaderSize(lay));
  }

  lemma {:induction false} FileAbove(file: seq<byte>, lay: Layout, structs: seq<Struct>, index: map<string, nat>,
                                     pos: nat)
    requires Indexes(index, structs)
    ensures Above(FileTrace(file, lay, structs, index, pos).slots, pos)
    decreases Left(file, pos)
  {
    match HeaderAt(file, lay, pos)
    case Ok(Some(h)) =>
      var first := BlockTrace(Block(pos, h), lay, structs, index, |file|);
      BlockShape(Block(pos, h), lay, structs, index, |file|);
      assert Above(first.slots, pos) by {
        assert forall k :: 1 <= k < |first.slots| ==> first.slots[k] == first.slots[1..][k - 1];
      }
      if first.stop.None? {
        LeftDecreases(file, lay, pos, h);
        var rest := FileTrace(file, lay, structs, index, NextAt(pos, h, lay));
        FileAbove(file, lay, structs, index, NextAt(pos, h, lay));
        AboveAppend(first.slots, rest.slots, pos);
      }
    case _ =>
  }

  /** The slots from a block header: the address first, the rest past the header. */
  lemma FileShape(file: seq<byte>, lay: Layout, structs: seq<Struct>, index: map<string, nat>, pos: nat,
                  h: BlockHeader)
    requires Indexes(index, structs) && HeaderAt(file, lay, pos) == Ok(Some(h))
    ensures HeadShape(FileTrace(file, lay, structs, index, pos).slots, pos, lay)
  {
    var first := BlockTrace(Block(pos, h), lay, structs, index, |file|);
    BlockShape(Block(pos, h), lay, structs, index, |file|);
    if first.stop.None? {
      LeftDecreases(file, lay, pos, h);
      var next := NextAt(pos, h, lay);
      FileAbove(file, lay, structs, index, next);
      ShapeAppend(first.slots, FileTrace(file, lay, structs, index, next).slots, pos, lay, next);
    }
  }

  // ---------------------------------------------------------------------------
  // The slots do not move

  /** A byte of a block header other than its address is in no slot. */
  lemma HeaderUncovered(i: int, slots: seq<Slot>, pos: nat, lay: Layout)
    requires HeadShape(slots, pos, lay)
    requires pos <= i < pos + 8 || pos + 8 + lay.ptrSize <= i < pos + HeaderSize(lay)
    ensures !Covered(i, slots)
  {
    forall k | 0 <= k < |slots|
      ensures !(slots[k].at <= i < slots[k].at + slots[k].width)
    {
      if k > 0 {
        assert slots[k] == slots[1..][k - 1];
      }
    }
  }

  lemma CoveredSplit(i: int, s1: seq<Slot>, s2: seq<Slot>)
    ensures Covered(i, s1 + s2) ==> Covered(i, s1) || Covered(i, s2)
  {
    if Covered(i, s1 + s2) {
      var k :| 0 <= k < |s1 + s2| && (s1 + s2)[k].at <= i < (s1 + s2)[k].at + (s1 + s2)[k].width;
      if k < |s1| {
        assert (s1 + s2)[k] == s1[k];
      } else {
        assert (s1 + s2)[k] == s2[k - |s1|];
      }
    }
  }

  /** A block header whose bytes other than the address are unchanged reads
      the same but for the address. */
  lemma HeaderKept(g: seq<byte>, file: seq<byte>, lay: Layout, pos: nat)
    requires |g| == |file| && pos + HeaderSize(lay) <= |file|
    requires forall i :: pos <= i < pos + 8 ==> g[i] == file[i]
    requires forall i :: pos + 8 + lay.ptrSize <= i < pos + HeaderSize(lay) ==> g[i] == file[i]
    ensures HeaderAt(g, lay, pos).Ok? && HeaderAt(file, lay, pos).Ok?
    ensures HeaderAt(g, lay, pos).value.None? == HeaderAt(file, lay, pos).value.None?
    ensures HeaderAt(file, lay, pos).value.Some? ==>
      var hg, hf := HeaderAt(g, lay, pos).value.value, HeaderAt(file, lay, pos).value.value;
      hg.code == hf.code && hg.size == hf.size && hg.sdnaIndex == hf.sdnaIndex && hg.count == hf.count
  {
    var p, n := lay.ptrSize, HeaderSize(lay);
    var a, b := g[pos..pos + n], file[pos..pos + n];
    forall i: int | 0 <= i < 8 || 8 + p <= i < n
      ensures a[i] == b[i]
    {
      assert a[i] == g[pos + i] && b[i] == file[pos + i];
    }
    assert a[..4] == b[..4];
    assert a[4..8] == b[4..8];
    assert a[8 + p..12 + p] == b[8 + p..12 + p];
    assert a[12 + p..16 + p] == b[12 + p..16 + p];
  }

  /** Changing a file only in its slots leaves its slots where they were. */
  lemma {:induction false} FileTraceSame(g: seq<byte>, file: seq<byte>, lay: Layout, structs: seq<Struct>,
                                         index: map<string, nat>, pos: nat)
    requires Indexes(index, structs) && |g| == |file|
    requires forall i :: pos <= i < |file| && !Covered(i, FileTrace(file, lay, structs, index, pos).slots)
                         ==> g[i] == file[i]
    ensures FileTrace(g, lay, structs, index, pos) == FileTrace(file, lay, structs, index, pos)
    decreases Left(file, pos)
  {
    var t := FileTrace(file, lay, structs, index, pos);
    if pos + HeaderSize(lay) <= |file| {
      var hf := HeaderAt(file, lay, pos);
      if hf.value.Some? {
        var h := hf.value.value;
        var first := BlockTrace(Block(pos, h), lay, structs, index, |file|);
        var hg := BlockSame(g, file, lay, structs, index, pos, h);
        if first.stop.None? {
          LeftDecreases(file, lay, pos, h);
          var next := NextAt(pos, h, lay);
          var rest := FileTrace(file, lay, structs, index, next);
          assert t.slots == first.slots + rest.slots;
          BlockBelow(Block(pos, h), lay, structs, index, |file|);
          forall i | next <= i < |file| && !Covered(i, rest.slots)
            ensures g[i] == file[i]
          {
            NotCovered(i, first.slots, next);
            CoveredSplit(i, first.slots, rest.slots);
          }
          FileTraceSame(g, file, lay, structs, index, next);
        }
      } else {
        forall i | pos <= i < pos + HeaderSize(lay)
          ensures g[i] == file[i]
        {
          assert !Covered(i, t.slots);
        }
        HeaderKept(g, file, lay, pos);
      }
    }
  }

  /** The block at `pos` reads the same but for its address, and has the same slots. */
  lemma BlockSame(g: seq<byte>, file: seq<byte>, lay: Layout, structs: seq<Struct>, index: map<string, nat>,
                  pos: nat, h: BlockHeader) returns (hg: BlockHeader)
    requires Indexes(index, structs) && |g| == |file| && HeaderAt(file, lay, pos) == Ok(Some(h))
    requires forall i :: pos <= i < |file| && !Covered(i, FileTrace(file, lay, structs, index, pos).slots)
                         ==> g[i] == file[i]
    ensures HeaderAt(g, lay, pos) == Ok(Some(hg)) && NextAt(pos, hg, lay) == NextAt(pos, h, lay)
    ensures BlockTrace(Block(pos, hg), lay, structs, index, |g|) == BlockTrace(Block(pos, h), lay, structs, index, |file|)
  {
    var t := FileTrace(file, lay, structs, index, pos);
    FileShape(file, lay, structs, index, pos, h);
    forall i | pos <= i < pos + 8 || pos + 8 + lay.ptrSize <= i < pos + HeaderSize(lay)
      ensures g[i] == file[i]
    {
      HeaderUncovered(i, t.slots, pos, lay);
    }
    HeaderKept(g, file, lay, pos);
    hg := HeaderAt(g, lay, pos).value.value;
  }

  // ---------------------------------------------------------------------------
  // What a restore writes

  /** A restore pass over a file whose pointer slots share no byte, with a
      restore stream holding at least a pointer for each: it runs to the end,
      takes exactly one pointer per slot off the front of the stream, leaves
      those pointers in the slots in visiting order, sends the bytes the slots
      held to the extract stream, and leaves the file's slots where they
      were. */
  lemma Restore(file: seq<byte>, lay: Layout, structs: seq<Struct>, s: seq<byte>, out: Option<seq<byte>>)
    requires SchemaSized(structs, lay.ptrSize)
    requires Slots(file, lay, structs).stop.None? && Disjoint(Slots(file, lay, structs).slots)
    requires |s| >= lay.ptrSize * |Slots(file, lay, structs).slots|
    ensures var t := Slots(file, lay, structs).slots;
      var n := lay.ptrSize * |t|;
      var r := Strip(file, lay, structs, Some(s), out);
      && r.stop.None?
      && Gather(r.st.data, t) == s[..n]
      && r.st.input == Some(s[n..])
      && r.st.output == Emit(out, Gather(file, t))
      && Slots(r.st.data, lay, structs) == Slots(file, lay, structs)
  {
    var p, index := lay.ptrSize, IndexByName(structs);
    var t := Slots(file, lay, structs).slots;
    var st := State(file, Some(s), out);
    SlotsWithin(file, lay, structs);
    FileSized(file, lay, structs, index, FileHeaderSize);
    ExecRestore(t, p, file, s, out);
    FromSeq(file, lay, structs, index, FileHeaderSize, st);
    var r := Strip(file, lay, structs, Some(s), out);
    assert Slots(r.st.data, lay, structs) == Slots(file, lay, structs) by {
      ExecLocal(t, p, st);
      SameMeans(file, r.st.data, 0, t);
      FileTraceSame(r.st.data, file, lay, structs, index, FileHeaderSize);
    }
  }

  /** Stripping a file with any stream of replacement pointers and an empty
      extract stream, then restoring the stripped file from what was
      extracted, gives the original file back and uses up the stream. */
  lemma StripThenRestore(file: seq<byte>, lay: Layout, structs: seq<Struct>, z: seq<byte>)
    requires SchemaSized(structs, lay.ptrSize)
    requires Slots(file, lay, structs).stop.None? && Disjoint(Slots(file, lay, structs).slots)
    requires |z| >= lay.ptrSize * |Slots(file, lay, structs).slots|
    ensures var stripped := Strip(file, lay, structs, Some(z), Some([]));
      && stripped.stop.None?
      && stripped.st.output == Some(Gather(file, Slots(file, lay, structs).slots))
      && var restored := Strip(stripped.st.data, lay, structs, Some(stripped.st.output.value), None);
         && restored.stop.None?
         && restored.st.input == Some([])
         && restored.st.data == file
  {
    var p, t := lay.ptrSize, Slots(file, lay, structs).slots;
    var g := Gather(file, t);
    Restore(file, lay, structs, z, Some([]));
    var r1 := Strip(file, lay, structs, Some(z), Some([]));
    assert [] + g == g;
    SlotsWithin(file, lay, structs);
    FileSized(file, lay, structs, IndexByName(structs), FileHeaderSize);
    GatherLength(file, t, p);
    Restore(r1.st.data, lay, structs, g, None);
    var r2 := Strip(r1.st.data, lay, structs, Some(g), None);
    assert g[..p * |t|] == g && g[p * |t|..] == [];
    assert r2.st.data == file by {
      RestoreLocal(file, lay, structs, Some(z), Some([]));
      RestoreLocal(r1.st.data, lay, structs, Some(g), None);
      GatherSame(r2.st.data, file, t);
      forall i | 0 <= i < |file|
        ensures r2.st.data[i] == file[i]
      {
      }
    }
  }
}
