/** Where the pointer chunks of a .blend file lie, worked out from the file's
    block headers and the schema alone: the reference against which the
    walk of `PointerWalk` is measured. Extraction copies exactly these byte
    ranges, in this order (strippointers.py:24-56); restoration writes
    nowhere else (strippointers.py:25-29, 47, 58-63). */
module PointerSlots {
  import opened Errors
  import opened Bytes
  import opened DnaField
  import opened Sdna
  import opened Header
  import opened PointerWalk

  /** A pointer chunk: `width` bytes from `at`. */
  datatype Slot = Slot(at: nat, width: nat)

  /** The chunks a walk visits, in visiting order, and why it stops early, if it does. */
  datatype Trace = Trace(slots: seq<Slot>, stop: Option<Error>)

  /** Every slot lies within the first `size` bytes. */
  predicate Within(slots: seq<Slot>, size: nat)
  {
    forall k :: 0 <= k < |slots| ==> slots[k].at + slots[k].width <= size
  }

  /** The bytes of `d` under `slots`, one chunk after the other. */
  function Gather(d: seq<byte>, slots: seq<Slot>): (r: seq<byte>)
  {
    if |slots| == 0 then []
    else ReadAt(d, slots[0].at, slots[0].width) + Gather(d, slots[1..])
  }

  // ---------------------------------------------------------------------------
  // The slots, level by level

  /** The pointer fields among `fields` of a struct placed at file position
      `begin` inside an element that ends at `end`, depth first, in
      declaration order (strippointers.py:41-52). */
  function FieldsTrace(structs: seq<Struct>, index: map<string, nat>, fields: seq<Field>, begin: nat, fuel: nat,
                       end: nat): (r: Trace)
    requires Indexes(index, structs)
    decreases fuel, |fields|, 1
  {
    if |fields| == 0 then Trace([], None)
    else
      var first := FieldTrace(structs, index, fields[0], begin, fuel, end);
      if first.stop.Some? then first
      else
        var rest := FieldsTrace(structs, index, fields[1..], begin, fuel, end);
        Trace(first.slots + rest.slots, rest.stop)
  }

  /** One field: a pointer field is one slot, a field of a struct type the
      slots of that struct at the field's offset, any other field none. */
  function FieldTrace(structs: seq<Struct>, index: map<string, nat>, f: Field, begin: nat, fuel: nat, end: nat)
    : (r: Trace)
    requires Indexes(index, structs)
    decreases fuel, 0, 0
  {
    if f.isPtr then
      if begin + f.offset + f.size > end then Trace([], Some(Overrun))
      else Trace([Slot(begin + f.offset, f.size)], None)
    else if f.typeName !in index then Trace([], None)
    else if fuel == 0 then Trace([], Some(RecursionLimit))
    else FieldsTrace(structs, index, structs[index[f.typeName]].fields, begin + f.offset, fuel - 1, end)
  }

  /** The slots of one element of `ds` read from `pos`. */
  function ElementSlots(structs: seq<Struct>, index: map<string, nat>, ds: Struct, pos: nat): (r: Trace)
    requires Indexes(index, structs)
  {
    FieldsTrace(structs, index, ds.fields, pos, |structs|, pos + ds.size)
  }

  /** `n` elements of `ds` from `pos` in a file `len` bytes long
      (strippointers.py:55-63). */
  function ElementsTrace(structs: seq<Struct>, index: map<string, nat>, ds: Struct, pos: nat, n: nat, len: nat)
    : (r: Trace)
    requires Indexes(index, structs)
    decreases n
  {
    if n == 0 then Trace([], None)
    else if pos + ds.size > len then Trace([], Some(Truncated))
    else
      var first := ElementSlots(structs, index, ds, pos);
      if first.stop.Some? then first
      else
        var rest := ElementsTrace(structs, index, ds, pos + ds.size, n - 1, len);
        Trace(first.slots + rest.slots, rest.stop)
  }

  /** A block: the address in its header, then the elements of a typed block
      (strippointers.py:24-38). */
  function BlockTrace(b: Block, lay: Layout, structs: seq<Struct>, index: map<string, nat>, len: nat): (r: Trace)
    requires Indexes(index, structs)
  {
    var h := b.header;
    var head := [Slot(b.at + 8, lay.ptrSize)];
    if h.sdnaIndex == 0 then Trace(head, None)
    else if h.sdnaIndex >= |structs| then Trace(head, Some(IndexOutOfRange))
    else
      var ds := structs[h.sdnaIndex];
      if ds.size * h.count != h.size then Trace(head, Some(SizeMismatch))
      else
        var t := ElementsTrace(structs, index, ds, b.at + HeaderSize(lay), h.count, len);
        Trace(head + t.slots, t.stop)
  }

  /** The blocks from the header at `pos` on. */
  function FileTrace(file: seq<byte>, lay: Layout, structs: seq<Struct>, index: map<string, nat>, pos: nat)
    : (r: Trace)
    requires Indexes(index, structs)
    decreases Left(file, pos)
  {
    match HeaderAt(file, lay, pos)
    case Err(e) => Trace([], Some(e))
    case Ok(None) => Trace([], None)
    case Ok(Some(h)) =>
      var first := BlockTrace(Block(pos, h), lay, structs, index, |file|);
      LeftDecreases(file, lay, pos, h);
      if first.stop.Some? then first
      else
        var rest := FileTrace(file, lay, structs, index, NextAt(pos, h, lay));
        Trace(first.slots + rest.slots, rest.stop)
  }

  /** Every pointer chunk of the file, in the order the pass visits them. */
  function Slots(file: seq<byte>, lay: Layout, structs: seq<Struct>): (r: Trace)
  {
    FileTrace(file, lay, structs, IndexByName(structs), FileHeaderSize)
  }

  // ---------------------------------------------------------------------------
  // Every slot lies inside the file

  lemma WithinAppend(a: seq<Slot>, b: seq<Slot>, size: nat)
    requires Within(a, size) && Within(b, size)
    ensures Within(a + b, size)
  {
    assert forall k :: |a| <= k < |a + b| ==> (a + b)[k] == b[k - |a|];
  }

  lemma {:induction false} FieldsWithin(structs: seq<Struct>, index: map<string, nat>, fields: seq<Field>,
                                        begin: nat, fuel: nat, end: nat)
    requires Indexes(index, structs)
    ensures Within(FieldsTrace(structs, index, fields, begin, fuel, end).slots, end)
    decreases fuel, |fields|, 1
  {
    if |fields| > 0 {
      var first := FieldTrace(structs, index, fields[0], begin, fuel, end);
      FieldWithin(structs, index, fields[0], begin, fuel, end);
      if first.stop.None? {
        var rest := FieldsTrace(structs, index, fields[1..], begin, fuel, end);
        FieldsWithin(structs, index, fields[1..], begin, fuel, end);
        WithinAppend(first.slots, rest.slots, end);
      }
    }
  }

  lemma {:induction false} FieldWithin(structs: seq<Struct>, index: map<string, nat>, f: Field, begin: nat,
                                       fuel: nat, end: nat)
    requires Indexes(index, structs)
    ensures Within(FieldTrace(structs, index, f, begin, fuel, end).slots, end)
    decreases fuel, 0, 0
  {
    if !f.isPtr && f.typeName in index && fuel > 0 {
      FieldsWithin(structs, index, structs[index[f.typeName]].fields, begin + f.offset, fuel - 1, end);
    }
  }

  lemma {:induction false} ElementsWithin(structs: seq<Struct>, index: map<string, nat>, ds: Struct, pos: nat,
                                          n: nat, len: nat)
    requires Indexes(index, structs)
    ensures Within(ElementsTrace(structs, index, ds, pos, n, len).slots, len)
    decreases n
  {
    if n > 0 && pos + ds.size <= len {
      var first := ElementSlots(structs, index, ds, pos);
      FieldsWithin(structs, index, ds.fields, pos, |structs|, pos + ds.size);
      assert Within(first.slots, len);
      if first.stop.None? {
        var rest := ElementsTrace(structs, index, ds, pos + ds.size, n - 1, len);
        ElementsWithin(structs, index, ds, pos + ds.size, n - 1, len);
        WithinAppend(first.slots, rest.slots, len);
      }
    }
  }

  lemma BlockWithin(b: Block, lay: Layout, structs: seq<Struct>, index: map<string, nat>, len: nat)
    requires Indexes(index, structs) && b.at + HeaderSize(lay) <= len
    ensures Within(BlockTrace(b, lay, structs, index, len).slots, len)
  {
    var h := b.header;
    var head := [Slot(b.at + 8, lay.ptrSize)];
    assert Within(head, len);
    if 0 < h.sdnaIndex < |structs| && structs[h.sdnaIndex].size * h.count == h.size {
      var rest := ElementsTrace(structs, index, structs[h.sdnaIndex], b.at + HeaderSize(lay), h.count, len);
      ElementsWithin(structs, index, structs[h.sdnaIndex], b.at + HeaderSize(lay), h.count, len);
      WithinAppend(head, rest.slots, len);
    }
  }

  lemma {:induction false} FileWithin(file: seq<byte>, lay: Layout, structs: seq<Struct>, index: map<string, nat>,
                                      pos: nat)
    requires Indexes(index, structs)
    ensures Within(FileTrace(file, lay, structs, index, pos).slots, |file|)
    decreases Left(file, pos)
  {
    match HeaderAt(file, lay, pos)
    case Ok(Some(h)) =>
      var first := BlockTrace(Block(pos, h), lay, structs, index, |file|);
      BlockWithin(Block(pos, h), lay, structs, index, |file|);
      if first.stop.None? {
        LeftDecreases(file, lay, pos, h);
        var rest := FileTrace(file, lay, structs, index, NextAt(pos, h, lay));
        FileWithin(file, lay, structs, index, NextAt(pos, h, lay));
        WithinAppend(first.slots, rest.slots, |file|);
      }
    case _ =>
  }

  /** The pass never reaches past the end of the file: every pointer chunk
      it visits lies inside it. */
  lemma SlotsWithin(file: seq<byte>, lay: Layout, structs: seq<Struct>)
    ensures Within(Slots(file, lay, structs).slots, |file|)
  {
    FileWithin(file, lay, structs, IndexByName(structs), FileHeaderSize);
  }

  // ---------------------------------------------------------------------------
  // Gathering

  lemma {:induction false} GatherAppend(d: seq<byte>, a: seq<Slot>, b: seq<Slot>)
    ensures Gather(d, a + b) == Gather(d, a) + Gather(d, b)
    decreases |a|
  {
    if |a| == 0 {
      assert a + b == b;
    } else {
      assert (a + b)[1..] == a[1..] + b;
      GatherAppend(d, a[1..], b);
    }
  }

  // ---------------------------------------------------------------------------
  // Extraction reads the slots

  /** With no restore stream, the walk over a struct's fields in the buffer
      of the element at `pos` writes to the extract stream the bytes of their
      slots, in order, and stops where the slots do. */
  lemma {:induction false} FieldsExtract(structs: seq<Struct>, index: map<string, nat>, fields: seq<Field>,
                                         begin: nat, fuel: nat, p: nat, d: seq<byte>, pos: nat, size: nat,
                                         o: seq<byte>)
    requires Indexes(index, structs) && pos + size <= |d|
    ensures var t := FieldsTrace(structs, index, fields, pos + begin, fuel, pos + size);
      InFields(structs, index, fields, begin, fuel, p, State(d[pos..pos + size], None, Some(o)))
      == Run(State(d[pos..pos + size], None, Some(o + Gather(d, t.slots))), t.stop)
    decreases fuel, |fields|, 1
  {
    var buf := d[pos..pos + size];
    var t := FieldsTrace(structs, index, fields, pos + begin, fuel, pos + size);
    if |fields| == 0 {
      assert o + [] == o;
    } else {
      var first := FieldTrace(structs, index, fields[0], pos + begin, fuel, pos + size);
      var r1 := InField(structs, index, fields[0], begin, fuel, p, State(buf, None, Some(o)));
      assert r1 == Run(State(buf, None, Some(o + Gather(d, first.slots))), first.stop) by {
        FieldExtract(structs, index, fields[0], begin, fuel, p, d, pos, size, o);
      }
      if first.stop.None? {
        var mid := o + Gather(d, first.slots);
        var rest := FieldsTrace(structs, index, fields[1..], pos + begin, fuel, pos + size);
        assert t == Trace(first.slots + rest.slots, rest.stop);
        var r2 := InFields(structs, index, fields[1..], begin, fuel, p, State(buf, None, Some(mid)));
        assert r2 == Run(State(buf, None, Some(mid + Gather(d, rest.slots))), rest.stop) by {
          FieldsExtract(structs, index, fields[1..], begin, fuel, p, d, pos, size, mid);
        }
        assert mid + Gather(d, rest.slots) == o + Gather(d, t.slots) by {
          GatherAppend(d, first.slots, rest.slots);
          AppendAssoc(o, Gather(d, first.slots), Gather(d, rest.slots));
        }
      }
    }
  }

  lemma AppendAssoc(a: seq<byte>, b: seq<byte>, c: seq<byte>)
    ensures a + b + c == a + (b + c)
  {
  }

  lemma {:induction false} FieldExtract(structs: seq<Struct>, index: map<string, nat>, f: Field, begin: nat,
                                        fuel: nat, p: nat, d: seq<byte>, pos: nat, size: nat, o: seq<byte>)
    requires Indexes(index, structs) && pos + size <= |d|
    ensures var t := FieldTrace(structs, index, f, pos + begin, fuel, pos + size);
      InField(structs, index, f, begin, fuel, p, State(d[pos..pos + size], None, Some(o)))
      == Run(State(d[pos..pos + size], None, Some(o + Gather(d, t.slots))), t.stop)
    decreases fuel, 0, 0
  {
    if f.isPtr {
      PointerExtract(f, begin, p, d, pos, size, o);
    } else if f.typeName !in index || fuel == 0 {
      assert o + [] == o;
    } else {
      FieldsExtract(structs, index, structs[index[f.typeName]].fields, begin + f.offset, fuel - 1, p, d, pos, size, o);
    }
  }

  /** A pointer field: its slot's bytes go to the extract stream. */
  lemma {:induction false} PointerExtract(f: Field, begin: nat, p: nat, d: seq<byte>, pos: nat, size: nat, o: seq<byte>)
    requires f.isPtr && pos + size <= |d|
    ensures var t := FieldTrace([], map[], f, pos + begin, 0, pos + size);
      Visit(State(d[pos..pos + size], None, Some(o)), begin + f.offset, f.size, p)
      == Run(State(d[pos..pos + size], None, Some(o + Gather(d, t.slots))), t.stop)
  {
    var buf := d[pos..pos + size];
    var off := begin + f.offset;
    if off + f.size <= size {
      var slots := [Slot(pos + off, f.size)];
      assert Gather(d, slots) == buf[off..off + f.size] by {
        assert slots[1..] == [];
        assert Gather(d, slots) == ReadAt(d, pos + off, f.size) + [];
        SliceOfSlice(d, pos, pos + size, off, off + f.size);
      }
    } else {
      assert o + [] == o;
    }
  }

  /** One element: the slots of its buffer. */
  lemma {:induction false} ElementExtract(structs: seq<Struct>, index: map<string, nat>, ds: Struct, pos: nat,
                                          p: nat, d: seq<byte>, o: seq<byte>)
    requires Indexes(index, structs) && pos + ds.size <= |d|
    ensures var t := ElementSlots(structs, index, ds, pos);
      Element(structs, index, ds, pos, p, State(d, None, Some(o))) == Run(State(d, None, Some(o + Gather(d, t.slots))), t.stop)
  {
    var buf := d[pos..pos + ds.size];
    var t := ElementSlots(structs, index, ds, pos);
    var walked := InFields(structs, index, ds.fields, 0, |structs|, p, State(buf, None, Some(o)));
    var got := o + Gather(d, t.slots);
    assert walked == Run(State(buf, None, Some(got)), t.stop) by {
      FieldsExtract(structs, index, ds.fields, 0, |structs|, p, d, pos, ds.size, o);
    }
    calc {
      Element(structs, index, ds, pos, p, State(d, None, Some(o)));
      == { ElementWalked(structs, index, ds, pos, p, State(d, None, Some(o)), walked); }
      if t.stop.Some? then Run(State(d, None, Some(got)), t.stop) else Run(State(d, None, Some(got)), None);
    }
  }

  lemma {:induction false} ElementsExtract(structs: seq<Struct>, index: map<string, nat>, ds: Struct, pos: nat,
                                           n: nat, p: nat, d: seq<byte>, o: seq<byte>)
    requires Indexes(index, structs)
    ensures var t := ElementsTrace(structs, index, ds, pos, n, |d|);
      Elements(structs, index, ds, pos, n, p, State(d, None, Some(o))) == Run(State(d, None, Some(o + Gather(d, t.slots))), t.stop)
    decreases n, 1
  {
    var st := State(d, None, Some(o));
    if n == 0 {
      assert o + [] == o;
    } else if pos + ds.size > |d| {
      ElementsNext(structs, index, ds, pos, n, p, st);
      assert o + [] == o;
    } else {
      var first := ElementSlots(structs, index, ds, pos);
      if first.stop.Some? {
        assert ElementsTrace(structs, index, ds, pos, n, |d|) == first;
        var r1 := Element(structs, index, ds, pos, p, st);
        assert r1 == Run(State(d, None, Some(o + Gather(d, first.slots))), first.stop) by {
          ElementExtract(structs, index, ds, pos, p, d, o);
        }
        ElementsNext(structs, index, ds, pos, n, p, st);
      } else {
        ElementsOnExtract(structs, index, ds, pos, n, p, d, o);
      }
    }
  }

  /** The elements after a first one that completes. */
  lemma {:induction false} ElementsOnExtract(structs: seq<Struct>, index: map<string, nat>, ds: Struct, pos: nat,
                                             n: nat, p: nat, d: seq<byte>, o: seq<byte>)
    requires Indexes(index, structs) && n > 0 && pos + ds.size <= |d|
    requires ElementSlots(structs, index, ds, pos).stop.None?
    ensures var t := ElementsTrace(structs, index, ds, pos, n, |d|);
      Elements(structs, index, ds, pos, n, p, State(d, None, Some(o))) == Run(State(d, None, Some(o + Gather(d, t.slots))), t.stop)
    decreases n, 0
  {
    var st := State(d, None, Some(o));
    var q, m := pos + ds.size, n - 1;
    var t := ElementsTrace(structs, index, ds, pos, n, |d|);
    var first := ElementSlots(structs, index, ds, pos);
    var rest := ElementsTrace(structs, index, ds, q, m, |d|);
    var mid := o + Gather(d, first.slots);
    var next := State(d, None, Some(mid));
    assert mid + Gather(d, rest.slots) == o + Gather(d, t.slots) && t.stop == rest.stop by {
      assert t == Trace(first.slots + rest.slots, rest.stop);
      GatherAppend(d, first.slots, rest.slots);
      AppendAssoc(o, Gather(d, first.slots), Gather(d, rest.slots));
    }
    assert Elements(structs, index, ds, pos, n, p, st) == Elements(structs, index, ds, q, m, p, next) by {
      ElementExtract(structs, index, ds, pos, p, d, o);
      ElementsNext(structs, index, ds, pos, n, p, st);
    }
    ElementsExtract(structs, index, ds, q, m, p, d, mid);
  }

  /** One block: the header's address bytes, then its elements. */
  lemma {:induction false} BlockExtract(b: Block, lay: Layout, structs: seq<Struct>, index: map<string, nat>,
                                        d: seq<byte>, o: seq<byte>)
    requires Indexes(index, structs) && HeaderAt(d, lay, b.at) == Ok(Some(b.header))
    ensures var t := BlockTrace(b, lay, structs, index, |d|);
      StripBlock(b, lay, structs, index, State(d, None, Some(o))) == Run(State(d, None, Some(o + Gather(d, t.slots))), t.stop)
  {
    HeaderExtract(b, lay, d, o);
    var h := b.header;
    if h.sdnaIndex != 0 && h.sdnaIndex < |structs| && structs[h.sdnaIndex].size * h.count == h.size {
      TypedBlockExtract(b, lay, structs, index, d, o);
    }
  }

  /** A typed block: after the header's address, the slots of its elements. */
  lemma {:induction false} TypedBlockExtract(b: Block, lay: Layout, structs: seq<Struct>, index: map<string, nat>,
                                             d: seq<byte>, o: seq<byte>)
    requires Indexes(index, structs) && HeaderAt(d, lay, b.at) == Ok(Some(b.header))
    requires 0 < b.header.sdnaIndex < |structs| && structs[b.header.sdnaIndex].size * b.header.count == b.header.size
    ensures var t := BlockTrace(b, lay, structs, index, |d|);
      StripBlock(b, lay, structs, index, State(d, None, Some(o))) == Run(State(d, None, Some(o + Gather(d, t.slots))), t.stop)
  {
    var h, p := b.header, lay.ptrSize;
    var head := [Slot(b.at + 8, p)];
    var mid := o + Gather(d, head);
    var at := b.at + HeaderSize(lay);
    var ds := structs[h.sdnaIndex];
    var rest := ElementsTrace(structs, index, ds, at, h.count, |d|);
    var t := BlockTrace(b, lay, structs, index, |d|);
    assert t == Trace(head + rest.slots, rest.stop);
    assert mid + Gather(d, rest.slots) == o + Gather(d, t.slots) by {
      GatherAppend(d, head, rest.slots);
      AppendAssoc(o, Gather(d, head), Gather(d, rest.slots));
    }
    calc {
      StripBlock(b, lay, structs, index, State(d, None, Some(o)));
      == { HeaderExtract(b, lay, d, o); }
      Elements(structs, index, ds, at, h.count, p, State(d, None, Some(mid)));
      == { ElementsExtract(structs, index, ds, at, h.count, p, d, mid); }
      Run(State(d, None, Some(mid + Gather(d, rest.slots))), rest.stop);
    }
  }

  /** The header's address: its slot's bytes go to the extract stream. */
  lemma {:induction false} HeaderExtract(b: Block, lay: Layout, d: seq<byte>, o: seq<byte>)
    requires HeaderAt(d, lay, b.at) == Ok(Some(b.header))
    ensures b.at + HeaderSize(lay) <= |d|
    ensures HeaderStep(b, lay, State(d, None, Some(o)))
         == Run(State(d, None, Some(o + Gather(d, [Slot(b.at + 8, lay.ptrSize)]))), None)
  {
    var head := [Slot(b.at + 8, lay.ptrSize)];
    HeaderPointer(b.header, lay, d, b.at);
    assert head[1..] == [];
    assert Gather(d, head) == ReadAt(d, b.at + 8, lay.ptrSize) + [];
    assert Gather(d, head) == d[b.at + 8..b.at + 8 + lay.ptrSize];
    assert Gather(d, head) == Pack(b.header.oldPtr, lay.ptrSize, lay.bigEndian);
    var st := State(d, None, Some(o));
    assert RestoreAddress(b, lay, st) == Run(st, None);
    assert Emit(Some(o), Pack(b.header.oldPtr, lay.ptrSize, lay.bigEndian)) == Some(o + Gather(d, head));
  }

  lemma {:induction false} FromExtract(file: seq<byte>, lay: Layout, structs: seq<Struct>, index: map<string, nat>,
                                       pos: nat, o: seq<byte>)
    requires Indexes(index, structs)
    ensures var t := FileTrace(file, lay, structs, index, pos);
      StripFrom(file, lay, structs, index, pos, State(file, None, Some(o)))
      == Run(State(file, None, Some(o + Gather(file, t.slots))), t.stop)
    decreases Left(file, pos)
  {
    var st := State(file, None, Some(o));
    var t := FileTrace(file, lay, structs, index, pos);
    match HeaderAt(file, lay, pos)
    case Ok(Some(h)) =>
      var b := Block(pos, h);
      var first := BlockTrace(b, lay, structs, index, |file|);
      var r1 := StripBlock(b, lay, structs, index, st);
      assert r1 == Run(State(file, None, Some(o + Gather(file, first.slots))), first.stop) by {
        BlockExtract(b, lay, structs, index, file, o);
      }
      StripFromStep(file, lay, structs, index, pos, st, h);
      if first.stop.None? {
        var mid := o + Gather(file, first.slots);
        var next := NextAt(pos, h, lay);
        var rest := FileTrace(file, lay, structs, index, next);
        assert t == Trace(first.slots + rest.slots, rest.stop);
        var r2 := StripFrom(file, lay, structs, index, next, State(file, None, Some(mid)));
        assert r2 == Run(State(file, None, Some(mid + Gather(file, rest.slots))), rest.stop) by {
          LeftDecreases(file, lay, pos, h);
          FromExtract(file, lay, structs, index, next, mid);
        }
        assert mid + Gather(file, rest.slots) == o + Gather(file, t.slots) by {
          GatherAppend(file, first.slots, rest.slots);
          AppendAssoc(o, Gather(file, first.slots), Gather(file, rest.slots));
        }
      }
    case _ =>
      StripFromEnd(file, lay, structs, index, pos, st);
      assert o + [] == o;
  }

  /** Extraction on its own (strippointers.py:24-56): the file is left as it
      is, and the extract stream receives the bytes of every slot of the
      file, in slot order, after what it held; the pass stops where the slots
      end. */
  lemma Extract(file: seq<byte>, lay: Layout, structs: seq<Struct>, o: seq<byte>)
    ensures Strip(file, lay, structs, None, Some(o))
         == Run(State(file, None, Some(o + Gather(file, Slots(file, lay, structs).slots))), Slots(file, lay, structs).stop)
  {
    FromExtract(file, lay, structs, IndexByName(structs), FileHeaderSize, o);
  }
}
