/** Restoration writes only pointer bytes (strippointers.py:25-29, 47, 58-63):
    whatever the restore stream holds, the pass leaves the file's length as
    it was and every byte outside the slots of `PointerSlots` untouched. */
module PointerLocal {
  import opened Errors
  import opened Bytes
  import opened DnaField
  import opened Sdna
  import opened Header
  import opened PointerWalk
  import opened PointerSlots

  /** Position `i` lies in one of the slots. */
  predicate Covered(i: int, slots: seq<Slot>)
  {
    exists k :: 0 <= k < |slots| && slots[k].at <= i < slots[k].at + slots[k].width
  }

  /** `b` is `a`, of the same length, except perhaps at the positions
      `base + j` that the slots cover. Stated position by position from the
      end, so that the solver opens it one position at a time; `SameMeans`
      gives the quantified form. */
  predicate SameOutside(a: seq<byte>, b: seq<byte>, base: nat, slots: seq<Slot>)
  {
    |a| == |b| && SameBelow(a, b, base, slots, |a|)
  }

  predicate SameBelow(a: seq<byte>, b: seq<byte>, base: nat, slots: seq<Slot>, n: nat)
    requires n <= |a| == |b|
  {
    n == 0 || ((a[n - 1] == b[n - 1] || Covered(base + n - 1, slots)) && SameBelow(a, b, base, slots, n - 1))
  }

  lemma {:induction false} SameBelowMeans(a: seq<byte>, b: seq<byte>, base: nat, slots: seq<Slot>, n: nat)
    requires n <= |a| == |b|
    ensures SameBelow(a, b, base, slots, n) <==> forall j :: 0 <= j < n && !Covered(base + j, slots) ==> a[j] == b[j]
  {
    if n > 0 {
      SameBelowMeans(a, b, base, slots, n - 1);
    }
  }

  /** Equal outside the slots, position by position. */
  lemma SameMeans(a: seq<byte>, b: seq<byte>, base: nat, slots: seq<Slot>)
    ensures SameOutside(a, b, base, slots)
        <==> |a| == |b| && forall j :: 0 <= j < |a| && !Covered(base + j, slots) ==> a[j] == b[j]
  {
    if |a| == |b| {
      SameBelowMeans(a, b, base, slots, |a|);
    }
  }

  /** A run that changed its data only in the slots of `t`, and stopped
      wherever `t` stops. */
  predicate Keeps(data: seq<byte>, r: Run, base: nat, t: Trace)
  {
    SameOutside(data, r.st.data, base, t.slots) && (t.stop.Some? ==> r.stop.Some?)
  }

  lemma SameRefl(a: seq<byte>, base: nat, slots: seq<Slot>)
    ensures SameOutside(a, a, base, slots)
  {
    SameMeans(a, a, base, slots);
  }

  lemma CoveredAppend(i: int, s1: seq<Slot>, s2: seq<Slot>)
    ensures Covered(i, s1) || Covered(i, s2) ==> Covered(i, s1 + s2)
  {
    if Covered(i, s1) {
      var k :| 0 <= k < |s1| && s1[k].at <= i < s1[k].at + s1[k].width;
      assert (s1 + s2)[k] == s1[k];
    } else if Covered(i, s2) {
      var k :| 0 <= k < |s2| && s2[k].at <= i < s2[k].at + s2[k].width;
      assert (s1 + s2)[|s1| + k] == s2[k];
    }
  }

  /** Changes outside `s1`, then outside `s2`, are changes outside both. */
  lemma SameTrans(a: seq<byte>, b: seq<byte>, c: seq<byte>, base: nat, s1: seq<Slot>, s2: seq<Slot>)
    requires SameOutside(a, b, base, s1) && SameOutside(b, c, base, s2)
    ensures SameOutside(a, c, base, s1 + s2)
  {
    SameMeans(a, b, base, s1);
    SameMeans(b, c, base, s2);
    forall j | 0 <= j < |a| && !Covered(base + j, s1 + s2)
      ensures a[j] == c[j]
    {
      CoveredAppend(base + j, s1, s2);
    }
    SameMeans(a, c, base, s1 + s2);
  }

  /** More slots allow as much. */
  lemma SameWiden(a: seq<byte>, b: seq<byte>, base: nat, s1: seq<Slot>, s2: seq<Slot>)
    requires SameOutside(a, b, base, s1)
    ensures SameOutside(a, b, base, s1 + s2)
  {
    SameMeans(a, b, base, s1);
    forall j | 0 <= j < |a| && !Covered(base + j, s1 + s2)
      ensures a[j] == b[j]
    {
      CoveredAppend(base + j, s1, s2);
    }
    SameMeans(a, b, base, s1 + s2);
  }

  /** Writing `chunk` at `off` changes only the slot it fills. */
  lemma SpliceLocal(data: seq<byte>, off: nat, chunk: seq<byte>, base: nat)
    requires off + |chunk| <= |data|
    ensures SameOutside(data, Splice(data, off, chunk), base, [Slot(base + off, |chunk|)])
  {
    var s := [Slot(base + off, |chunk|)];
    forall j | 0 <= j < |data|
      ensures !Covered(base + j, s) ==> data[j] == Splice(data, off, chunk)[j]
    {
      if off <= j < off + |chunk| {
        assert s[0].at <= base + j < s[0].at + s[0].width;
      }
    }
    SameMeans(data, Splice(data, off, chunk), base, s);
  }

  /** A buffer written back in place: its changes, measured from `pos`, are
      the file's. */
  lemma SpliceBack(data: seq<byte>, pos: nat, buf: seq<byte>, slots: seq<Slot>)
    requires pos + |buf| <= |data| && SameOutside(data[pos..pos + |buf|], buf, pos, slots)
    ensures SameOutside(data, Splice(data, pos, buf), 0, slots)
  {
    var old_ := data[pos..pos + |buf|];
    SameMeans(old_, buf, pos, slots);
    forall j | 0 <= j < |data| && !Covered(j, slots)
      ensures data[j] == Splice(data, pos, buf)[j]
    {
      if pos <= j < pos + |buf| {
        assert old_[j - pos] == data[j];
        assert !Covered(pos + (j - pos), slots);
      }
    }
    SameMeans(data, Splice(data, pos, buf), 0, slots);
  }

  // ---------------------------------------------------------------------------
  // Level by level

  /** One pointer field: with a restore stream it is overwritten only when it
      is one pointer wide, and then exactly over its own bytes. */
  lemma VisitLocal(st: State, off: nat, width: nat, p: nat, base: nat)
    ensures SameOutside(st.data, Visit(st, off, width, p).st.data, base, [Slot(base + off, width)])
  {
    var r := Visit(st, off, width, p);
    if off + width <= |st.data| && st.input.Some? && |st.input.value| >= p && width == p {
      SpliceLocal(st.data, off, st.input.value[..p], base);
    } else {
      SameRefl(st.data, base, [Slot(base + off, width)]);
    }
  }

  /** The walk over `fields` of a struct at `begin` in a buffer that starts at
      file position `pos` changes only its slots; where the slots stop early,
      so does the walk. */
  lemma {:induction false} FieldsLocal(structs: seq<Struct>, index: map<string, nat>, fields: seq<Field>,
                                       begin: nat, fuel: nat, p: nat, st: State, pos: nat)
    requires Indexes(index, structs)
    ensures Keeps(st.data, InFields(structs, index, fields, begin, fuel, p, st), pos,
                  FieldsTrace(structs, index, fields, pos + begin, fuel, pos + |st.data|))
    decreases fuel, |fields|, 1
  {
    var t := FieldsTrace(structs, index, fields, pos + begin, fuel, pos + |st.data|);
    var r := InFields(structs, index, fields, begin, fuel, p, st);
    if |fields| == 0 {
      SameRefl(st.data, pos, t.slots);
    } else {
      var first := FieldTrace(structs, index, fields[0], pos + begin, fuel, pos + |st.data|);
      var r1 := InField(structs, index, fields[0], begin, fuel, p, st);
      assert Keeps(st.data, r1, pos, first) by {
        FieldLocal(structs, index, fields[0], begin, fuel, p, st, pos);
      }
      if r1.stop.Some? {
        assert r == r1;
        if first.stop.None? {
          var rest := FieldsTrace(structs, index, fields[1..], pos + begin, fuel, pos + |st.data|);
          assert t == Trace(first.slots + rest.slots, rest.stop);
          SameWiden(st.data, r1.st.data, pos, first.slots, rest.slots);
        }
      } else {
        var rest := FieldsTrace(structs, index, fields[1..], pos + begin, fuel, pos + |st.data|);
        assert t == Trace(first.slots + rest.slots, rest.stop);
        assert r == InFields(structs, index, fields[1..], begin, fuel, p, r1.st);
        assert Keeps(r1.st.data, r, pos, rest) by {
          FieldsLocal(structs, index, fields[1..], begin, fuel, p, r1.st, pos);
        }
        SameTrans(st.data, r1.st.data, r.st.data, pos, first.slots, rest.slots);
      }
    }
  }

  lemma {:induction false} FieldLocal(structs: seq<Struct>, index: map<string, nat>, f: Field, begin: nat,
                                      fuel: nat, p: nat, st: State, pos: nat)
    requires Indexes(index, structs)
    ensures Keeps(st.data, InField(structs, index, f, begin, fuel, p, st), pos,
                  FieldTrace(structs, index, f, pos + begin, fuel, pos + |st.data|))
    decreases fuel, 0, 0
  {
    if f.isPtr {
      if begin + f.offset + f.size > |st.data| {
        SameRefl(st.data, pos, []);
      } else {
        VisitLocal(st, begin + f.offset, f.size, p, pos);
      }
    } else if f.typeName !in index || fuel == 0 {
      SameRefl(st.data, pos, []);
    } else {
      FieldsLocal(structs, index, structs[index[f.typeName]].fields, begin + f.offset, fuel - 1, p, st, pos);
    }
  }

  /** One element: its buffer is written back only where its slots lie. */
  lemma {:induction false} ElementLocal(structs: seq<Struct>, index: map<string, nat>, ds: Struct, pos: nat,
                                        p: nat, st: State)
    requires Indexes(index, structs) && pos + ds.size <= |st.data|
    ensures Keeps(st.data, Element(structs, index, ds, pos, p, st), 0,
                  ElementSlots(structs, index, ds, pos))
  {
    var t := ElementSlots(structs, index, ds, pos);
    var buf := st.data[pos..pos + ds.size];
    var walked := InFields(structs, index, ds.fields, 0, |structs|, p, State(buf, st.input, st.output));
    assert Keeps(buf, walked, pos, t) by {
      FieldsLocal(structs, index, ds.fields, 0, |structs|, p, State(buf, st.input, st.output), pos);
    }
    ElementWalked(structs, index, ds, pos, p, st, walked);
    if walked.stop.None? && st.input.Some? {
      SpliceBack(st.data, pos, walked.st.data, t.slots);
    } else {
      SameRefl(st.data, 0, t.slots);
    }
  }

  lemma {:induction false} ElementsLocal(structs: seq<Struct>, index: map<string, nat>, ds: Struct, pos: nat,
                                         n: nat, p: nat, st: State)
    requires Indexes(index, structs)
    ensures Keeps(st.data, Elements(structs, index, ds, pos, n, p, st), 0,
                  ElementsTrace(structs, index, ds, pos, n, |st.data|))
    decreases n, 2
  {
    var t := ElementsTrace(structs, index, ds, pos, n, |st.data|);
    if n == 0 {
      SameRefl(st.data, 0, t.slots);
    } else if pos + ds.size > |st.data| {
      ElementsNext(structs, index, ds, pos, n, p, st);
      assert Elements(structs, index, ds, pos, n, p, st) == Run(st, Some(Truncated));
      SameRefl(st.data, 0, t.slots);
    } else {
      ElementsFitLocal(structs, index, ds, pos, n, p, st);
    }
  }

  /** `ElementsLocal` when the first element fits in the file. */
  lemma {:induction false} ElementsFitLocal(structs: seq<Struct>, index: map<string, nat>, ds: Struct, pos: nat,
                                            n: nat, p: nat, st: State)
    requires Indexes(index, structs) && n > 0 && pos + ds.size <= |st.data|
    ensures Keeps(st.data, Elements(structs, index, ds, pos, n, p, st), 0,
                  ElementsTrace(structs, index, ds, pos, n, |st.data|))
    decreases n, 1
  {
    var first := ElementSlots(structs, index, ds, pos);
    var r1 := Element(structs, index, ds, pos, p, st);
    assert Keeps(st.data, r1, 0, first) by {
      ElementLocal(structs, index, ds, pos, p, st);
    }
    ElementsNext(structs, index, ds, pos, n, p, st);
    var rest := ElementsTrace(structs, index, ds, pos + ds.size, n - 1, |st.data|);
    if r1.stop.Some? {
      if first.stop.None? {
        assert ElementsTrace(structs, index, ds, pos, n, |st.data|) == Trace(first.slots + rest.slots, rest.stop);
        SameWiden(st.data, r1.st.data, 0, first.slots, rest.slots);
      }
    } else {
      assert ElementsTrace(structs, index, ds, pos, n, |st.data|) == Trace(first.slots + rest.slots, rest.stop);
      ElementsOnLocal(structs, index, ds, pos, n, p, st, r1.st);
    }
  }

  /** `ElementsLocal` past an element that went through to `mid`. */
  lemma {:induction false} ElementsOnLocal(structs: seq<Struct>, index: map<string, nat>, ds: Struct, pos: nat,
                                           n: nat, p: nat, st: State, mid: State)
    requires Indexes(index, structs) && n > 0 && |mid.data| == |st.data|
    requires Keeps(st.data, Run(mid, None), 0, ElementSlots(structs, index, ds, pos))
    ensures var first := ElementSlots(structs, index, ds, pos);
      var rest := ElementsTrace(structs, index, ds, pos + ds.size, n - 1, |st.data|);
      Keeps(st.data, Elements(structs, index, ds, pos + ds.size, n - 1, p, mid), 0,
            Trace(first.slots + rest.slots, rest.stop))
    decreases n, 0
  {
    var first := ElementSlots(structs, index, ds, pos);
    var rest := ElementsTrace(structs, index, ds, pos + ds.size, n - 1, |mid.data|);
    var r := Elements(structs, index, ds, pos + ds.size, n - 1, p, mid);
    assert Keeps(mid.data, r, 0, rest) by {
      ElementsLocal(structs, index, ds, pos + ds.size, n - 1, p, mid);
    }
    SameTrans(st.data, mid.data, r.st.data, 0, first.slots, rest.slots);
  }

  /** The header's address: with a restore stream, its bytes are rewritten
      and nothing else. */
  lemma HeaderLocal(b: Block, lay: Layout, st: State)
    requires b.at + HeaderSize(lay) <= |st.data|
    ensures SameOutside(st.data, HeaderStep(b, lay, st).st.data, 0, [Slot(b.at + 8, lay.ptrSize)])
  {
    var p := lay.ptrSize;
    if st.input.Some? && |st.input.value| >= p {
      SpliceLocal(st.data, b.at + 8, st.input.value[..p], 0);
    } else {
      assert HeaderStep(b, lay, st).st.data == st.data;
      SameRefl(st.data, 0, [Slot(b.at + 8, lay.ptrSize)]);
    }
  }

  /** A block: its header's address, then its elements. */
  lemma BlockLocal(b: Block, lay: Layout, structs: seq<Struct>, index: map<string, nat>, st: State)
    requires Indexes(index, structs) && b.at + HeaderSize(lay) <= |st.data|
    ensures Keeps(st.data, StripBlock(b, lay, structs, index, st), 0,
                  BlockTrace(b, lay, structs, index, |st.data|))
  {
    var h := b.header;
    var head := [Slot(b.at + 8, lay.ptrSize)];
    var hr := HeaderStep(b, lay, st);
    HeaderLocal(b, lay, st);
    if 0 < h.sdnaIndex < |structs| && structs[h.sdnaIndex].size * h.count == h.size {
      var rest := ElementsTrace(structs, index, structs[h.sdnaIndex], b.at + HeaderSize(lay), h.count, |st.data|);
      if hr.stop.None? {
        TypedBlockLocal(b, lay, structs, index, st);
      } else {
        SameWiden(st.data, hr.st.data, 0, head, rest.slots);
      }
    }
  }

  /** A typed block whose header went through. */
  lemma TypedBlockLocal(b: Block, lay: Layout, structs: seq<Struct>, index: map<string, nat>, st: State)
    requires Indexes(index, structs) && b.at + HeaderSize(lay) <= |st.data|
    requires 0 < b.header.sdnaIndex < |structs| && structs[b.header.sdnaIndex].size * b.header.count == b.header.size
    requires HeaderStep(b, lay, st).stop.None?
    ensures Keeps(st.data, StripBlock(b, lay, structs, index, st), 0,
                  BlockTrace(b, lay, structs, index, |st.data|))
  {
    var h, p := b.header, lay.ptrSize;
    var head := [Slot(b.at + 8, p)];
    var hr := HeaderStep(b, lay, st);
    var at := b.at + HeaderSize(lay);
    var ds := structs[h.sdnaIndex];
    var rest := ElementsTrace(structs, index, ds, at, h.count, |st.data|);
    var r := Elements(structs, index, ds, at, h.count, p, hr.st);
    assert StripBlock(b, lay, structs, index, st) == r;
    assert BlockTrace(b, lay, structs, index, |st.data|) == Trace(head + rest.slots, rest.stop);
    assert SameOutside(st.data, hr.st.data, 0, head) by {
      HeaderLocal(b, lay, st);
    }
    assert Keeps(hr.st.data, r, 0, rest) by {
      ElementsLocal(structs, index, ds, at, h.count, p, hr.st);
    }
    SameTrans(st.data, hr.st.data, r.st.data, 0, head, rest.slots);
  }

  lemma {:induction false} FileLocal(file: seq<byte>, lay: Layout, structs: seq<Struct>, index: map<string, nat>,
                                     pos: nat, st: State)
    requires Indexes(index, structs) && |st.data| == |file|
    ensures SameOutside(st.data, StripFrom(file, lay, structs, index, pos, st).st.data, 0,
                        FileTrace(file, lay, structs, index, pos).slots)
    decreases Left(file, pos)
  {
    var t := FileTrace(file, lay, structs, index, pos);
    match HeaderAt(file, lay, pos)
    case Ok(Some(h)) =>
      var b := Block(pos, h);
      var first := BlockTrace(b, lay, structs, index, |file|);
      var r1 := StripBlock(b, lay, structs, index, st);
      assert Keeps(st.data, r1, 0, first) by {
        BlockLocal(b, lay, structs, index, st);
      }
      StripFromStep(file, lay, structs, index, pos, st, h);
      LeftDecreases(file, lay, pos, h);
      var next := NextAt(pos, h, lay);
      var rest := FileTrace(file, lay, structs, index, next);
      if r1.stop.Some? {
        if first.stop.None? {
          assert t == Trace(first.slots + rest.slots, rest.stop);
          SameWiden(st.data, r1.st.data, 0, first.slots, rest.slots);
        }
      } else {
        var r := StripFrom(file, lay, structs, index, next, r1.st);
        assert t == Trace(first.slots + rest.slots, rest.stop);
        assert SameOutside(r1.st.data, r.st.data, 0, rest.slots) by {
          FileLocal(file, lay, structs, index, next, r1.st);
        }
        SameTrans(st.data, r1.st.data, r.st.data, 0, first.slots, rest.slots);
      }
    case _ =>
      StripFromEnd(file, lay, structs, index, pos, st);
      SameRefl(st.data, 0, t.slots);
  }

  /** Whatever the restore stream holds, the pass keeps the file's length and
      changes no byte outside the header addresses and pointer fields it
      visits. */
  lemma RestoreLocal(file: seq<byte>, lay: Layout, structs: seq<Struct>, input: Option<seq<byte>>,
                     output: Option<seq<byte>>)
    ensures var r := Strip(file, lay, structs, input, output);
      |r.st.data| == |file|
      && forall i :: 0 <= i < |file| && !Covered(i, Slots(file, lay, structs).slots) ==> r.st.data[i] == file[i]
  {
    var r := Strip(file, lay, structs, input, output);
    FileLocal(file, lay, structs, IndexByName(structs), FileHeaderSize, State(file, input, output));
    SameMeans(file, r.st.data, 0, Slots(file, lay, structs).slots);
  }
}
