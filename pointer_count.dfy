/** How many PTR_SIZE values an extraction writes (strippointers.py:24-56):
    one per block header, and for a typed block `count` times the number of
    pointer fields its struct holds, embedded structs included. */
module PointerCount {
  import opened Errors
  import opened Bytes
  import opened DnaField
  import opened Sdna
  import opened Header
  import opened PointerWalk
  import opened PointerSlots
  import opened PointerProps

  /** The pointer fields among `fields`, counting into embedded structs the
      way `replace_in_struct` recurses into them (strippointers.py:41-52). */
  function FieldsCount(structs: seq<Struct>, index: map<string, nat>, fields: seq<Field>, fuel: nat): nat
    requires Indexes(index, structs)
    decreases fuel, |fields|, 1
  {
    if |fields| == 0 then 0
    else FieldCount(structs, index, fields[0], fuel) + FieldsCount(structs, index, fields[1..], fuel)
  }

  function FieldCount(structs: seq<Struct>, index: map<string, nat>, f: Field, fuel: nat): nat
    requires Indexes(index, structs)
    decreases fuel, 0, 0
  {
    if f.isPtr then 1
    else if f.typeName !in index || fuel == 0 then 0
    else FieldsCount(structs, index, structs[index[f.typeName]].fields, fuel - 1)
  }

  /** The values one element of `ds` contributes. */
  function PointerCount(structs: seq<Struct>, index: map<string, nat>, ds: Struct): nat
    requires Indexes(index, structs)
  {
    FieldsCount(structs, index, ds.fields, |structs|)
  }

  /** The values one block contributes: its address, then `count` elements
      when it is typed. */
  function BlockValues(b: Block, structs: seq<Struct>, index: map<string, nat>): nat
    requires Indexes(index, structs)
  {
    var h := b.header;
    if h.sdnaIndex == 0 || h.sdnaIndex >= |structs| then 1
    else 1 + h.count * PointerCount(structs, index, structs[h.sdnaIndex])
  }

  function BlocksValues(bs: seq<Block>, structs: seq<Struct>, index: map<string, nat>): nat
    requires Indexes(index, structs)
  {
    if |bs| == 0 then 0 else BlockValues(bs[0], structs, index) + BlocksValues(bs[1..], structs, index)
  }

  /** Every slot is `p` bytes wide. */
  predicate Sized(slots: seq<Slot>, p: nat)
  {
    forall k :: 0 <= k < |slots| ==> slots[k].width == p
  }

  lemma SizedAppend(a: seq<Slot>, b: seq<Slot>, p: nat)
    requires Sized(a, p) && Sized(b, p)
    ensures Sized(a + b, p)
  {
    assert forall k :: |a| <= k < |a + b| ==> (a + b)[k] == b[k - |a|];
  }

  /** Chunks inside the file, each `p` bytes wide, gather to `p` bytes each. */
  lemma {:induction false} GatherLength(d: seq<byte>, slots: seq<Slot>, p: nat)
    requires Within(slots, |d|) && Sized(slots, p)
    ensures |Gather(d, slots)| == p * |slots|
    decreases |slots|
  {
    if |slots| > 0 {
      var rest := slots[1..];
      assert Within(rest, |d|) && Sized(rest, p) by {
        assert forall k :: 0 <= k < |rest| ==> rest[k] == slots[k + 1];
      }
      var chunk := ReadAt(d, slots[0].at, slots[0].width);
      assert |chunk| == p by {
        assert slots[0].at + slots[0].width <= |d| && slots[0].width == p;
      }
      GatherLength(d, rest, p);
      assert Gather(d, slots) == chunk + Gather(d, rest);
      MulNext(p, |rest|);
    }
  }

  lemma MulNext(p: nat, n: nat)
    ensures p * (n + 1) == p + p * n
  {
  }

  // ---------------------------------------------------------------------------
  // Widths

  lemma {:induction false} FieldsSized(structs: seq<Struct>, index: map<string, nat>, fields: seq<Field>,
                                       begin: nat, fuel: nat, end: nat, p: nat)
    requires Indexes(index, structs) && SchemaSized(structs, p) && PointersSized(fields, p)
    ensures Sized(FieldsTrace(structs, index, fields, begin, fuel, end).slots, p)
    decreases fuel, |fields|, 1
  {
    if |fields| > 0 {
      var first := FieldTrace(structs, index, fields[0], begin, fuel, end);
      FieldSized(structs, index, fields[0], begin, fuel, end, p);
      if first.stop.None? {
        var rest := FieldsTrace(structs, index, fields[1..], begin, fuel, end);
        assert PointersSized(fields[1..], p) by {
          assert forall j :: 0 <= j < |fields| - 1 ==> fields[1..][j] == fields[j + 1];
        }
        FieldsSized(structs, index, fields[1..], begin, fuel, end, p);
        SizedAppend(first.slots, rest.slots, p);
      }
    }
  }

  lemma {:induction false} FieldSized(structs: seq<Struct>, index: map<string, nat>, f: Field, begin: nat,
                                      fuel: nat, end: nat, p: nat)
    requires Indexes(index, structs) && SchemaSized(structs, p) && (f.isPtr ==> f.size == p)
    ensures Sized(FieldTrace(structs, index, f, begin, fuel, end).slots, p)
    decreases fuel, 0, 0
  {
    if !f.isPtr && f.typeName in index && fuel > 0 {
      FieldsSized(structs, index, structs[index[f.typeName]].fields, begin + f.offset, fuel - 1, end, p);
    }
  }

  lemma {:induction false} ElementsSized(structs: seq<Struct>, index: map<string, nat>, ds: Struct, pos: nat,
                                         n: nat, len: nat, p: nat)
    requires Indexes(index, structs) && SchemaSized(structs, p) && PointersSized(ds.fields, p)
    ensures Sized(ElementsTrace(structs, index, ds, pos, n, len).slots, p)
    decreases n
  {
    if n > 0 && pos + ds.size <= len {
      var first := ElementSlots(structs, index, ds, pos);
      FieldsSized(structs, index, ds.fields, pos, |structs|, pos + ds.size, p);
      if first.stop.None? {
        var rest := ElementsTrace(structs, index, ds, pos + ds.size, n - 1, len);
        ElementsSized(structs, index, ds, pos + ds.size, n - 1, len, p);
        SizedAppend(first.slots, rest.slots, p);
      }
    }
  }

  lemma BlockSized(b: Block, lay: Layout, structs: seq<Struct>, index: map<string, nat>, len: nat)
    requires Indexes(index, structs) && SchemaSized(structs, lay.ptrSize)
    ensures Sized(BlockTrace(b, lay, structs, index, len).slots, lay.ptrSize)
  {
    var h, p := b.header, lay.ptrSize;
    var head := [Slot(b.at + 8, p)];
    if 0 < h.sdnaIndex < |structs| && structs[h.sdnaIndex].size * h.count == h.size {
      var ds := structs[h.sdnaIndex];
      var rest := ElementsTrace(structs, index, ds, b.at + HeaderSize(lay), h.count, len);
      ElementsSized(structs, index, ds, b.at + HeaderSize(lay), h.count, len, p);
      SizedAppend(head, rest.slots, p);
    }
  }

  lemma {:induction false} FileSized(file: seq<byte>, lay: Layout, structs: seq<Struct>, index: map<string, nat>,
                                     pos: nat)
    requires Indexes(index, structs) && SchemaSized(structs, lay.ptrSize)
    ensures Sized(FileTrace(file, lay, structs, index, pos).slots, lay.ptrSize)
    decreases Left(file, pos)
  {
    match HeaderAt(file, lay, pos)
    case Ok(Some(h)) =>
      var first := BlockTrace(Block(pos, h), lay, structs, index, |file|);
      BlockSized(Block(pos, h), lay, structs, index, |file|);
      if first.stop.None? {
        LeftDecreases(file, lay, pos, h);
        var rest := FileTrace(file, lay, structs, index, NextAt(pos, h, lay));
        FileSized(file, lay, structs, index, NextAt(pos, h, lay));
        SizedAppend(first.slots, rest.slots, lay.ptrSize);
      }
    case _ =>
  }

  // ---------------------------------------------------------------------------
  // Counts

  lemma {:induction false} FieldsCounted(structs: seq<Struct>, index: map<string, nat>, fields: seq<Field>,
                                         begin: nat, fuel: nat, end: nat)
    requires Indexes(index, structs)
    ensures var t := FieldsTrace(structs, index, fields, begin, fuel, end);
      t.stop.None? ==> |t.slots| == FieldsCount(structs, index, fields, fuel)
    decreases fuel, |fields|, 1
  {
    if |fields| > 0 {
      FieldCounted(structs, index, fields[0], begin, fuel, end);
      FieldsCounted(structs, index, fields[1..], begin, fuel, end);
    }
  }

  lemma {:induction false} FieldCounted(structs: seq<Struct>, index: map<string, nat>, f: Field, begin: nat,
                                        fuel: nat, end: nat)
    requires Indexes(index, structs)
    ensures var t := FieldTrace(structs, index, f, begin, fuel, end);
      t.stop.None? ==> |t.slots| == FieldCount(structs, index, f, fuel)
    decreases fuel, 0, 0
  {
    if !f.isPtr && f.typeName in index && fuel > 0 {
      FieldsCounted(structs, index, structs[index[f.typeName]].fields, begin + f.offset, fuel - 1, end);
    }
  }

  lemma {:induction false} ElementsCounted(structs: seq<Struct>, index: map<string, nat>, ds: Struct, pos: nat,
                                           n: nat, len: nat)
    requires Indexes(index, structs)
    ensures var t := ElementsTrace(structs, index, ds, pos, n, len);
      t.stop.None? ==> |t.slots| == n * PointerCount(structs, index, ds)
    decreases n
  {
    if n > 0 && pos + ds.size <= len {
      FieldsCounted(structs, index, ds.fields, pos, |structs|, pos + ds.size);
      ElementsCounted(structs, index, ds, pos + ds.size, n - 1, len);
      assert n * PointerCount(structs, index, ds)
          == PointerCount(structs, index, ds) + (n - 1) * PointerCount(structs, index, ds);
    }
  }

  lemma BlockCounted(b: Block, lay: Layout, structs: seq<Struct>, index: map<string, nat>, len: nat)
    requires Indexes(index, structs)
    ensures var t := BlockTrace(b, lay, structs, index, len);
      t.stop.None? ==> |t.slots| == BlockValues(b, structs, index)
  {
    var h := b.header;
    if 0 < h.sdnaIndex < |structs| && structs[h.sdnaIndex].size * h.count == h.size {
      ElementsCounted(structs, index, structs[h.sdnaIndex], b.at + HeaderSize(lay), h.count, len);
    }
  }

  lemma {:induction false} FileCounted(file: seq<byte>, lay: Layout, structs: seq<Struct>, index: map<string, nat>,
                                       pos: nat)
    requires Indexes(index, structs)
    ensures var t := FileTrace(file, lay, structs, index, pos);
      var bl := BlocksFrom(file, lay, pos);
      t.stop.None? ==> bl.stop.None? && |t.slots| == BlocksValues(bl.blocks, structs, index)
    decreases Left(file, pos)
  {
    match HeaderAt(file, lay, pos)
    case Ok(Some(h)) =>
      var b := Block(pos, h);
      BlockCounted(b, lay, structs, index, |file|);
      LeftDecreases(file, lay, pos, h);
      var next := NextAt(pos, h, lay);
      FileCounted(file, lay, structs, index, next);
      var rest := BlocksFrom(file, lay, next);
      assert BlocksFrom(file, lay, pos) == BlockList([b] + rest.blocks, rest.stop);
      assert ([b] + rest.blocks)[1..] == rest.blocks;
    case _ =>
  }

  /** A whole extraction that goes through writes exactly one PTR_SIZE value
      per block of the file and, for every typed block, `count` times the
      pointer count of its struct more; and it goes through only on a file
      whose blocks end at ENDB. */
  lemma ExtractCount(file: seq<byte>, lay: Layout, structs: seq<Struct>, o: seq<byte>)
    requires SchemaSized(structs, lay.ptrSize)
    ensures var r := Strip(file, lay, structs, None, Some(o));
      var bl := Blocks(file, lay);
      r.stop.None? ==>
        && bl.stop.None?
        && r.st.output.Some? && o <= r.st.output.value
        && |r.st.output.value| == |o| + lay.ptrSize * BlocksValues(bl.blocks, structs, IndexByName(structs))
  {
    var index := IndexByName(structs);
    var t := Slots(file, lay, structs);
    Extract(file, lay, structs, o);
    SlotsWithin(file, lay, structs);
    FileSized(file, lay, structs, index, FileHeaderSize);
    FileCounted(file, lay, structs, index, FileHeaderSize);
    GatherLength(file, t.slots, lay.ptrSize);
  }
}
