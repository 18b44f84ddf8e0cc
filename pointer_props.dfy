/** What `replace_pointers` promises (strippointers.py:24-63), proved about the
    walk of `PointerWalk`: restoring a file from exactly the stream an
    extraction of it produced gives the same file back. */
module PointerProps {
  import opened Errors
  import opened Bytes
  import opened DnaField
  import opened Sdna
  import opened Header
  import opened PointerWalk

  /** Every pointer field of every struct of the schema is PTR_SIZE wide, as
      the STRC loop builds them (see `Sdna.SchemaLayout`). */
  predicate SchemaSized(structs: seq<Struct>, ptrSize: nat)
  {
    forall i :: 0 <= i < |structs| ==> PointersSized(structs[i].fields, ptrSize)
  }

  // ---------------------------------------------------------------------------
  // Streams

  /** What follows a prefix. */
  lemma Suffix(o: seq<byte>, whole: seq<byte>)
    requires o <= whole
    ensures whole == o + whole[|o|..]
  {
  }

  lemma Cancel(o: seq<byte>, x: seq<byte>, y: seq<byte>)
    requires o + x == o + y
    ensures x == y
  {
    assert x == (o + x)[|o|..];
    assert y == (o + y)[|o|..];
  }

  /** Two writes are one write of both. */
  lemma EmitTwice(out: Option<seq<byte>>, a: seq<byte>, b: seq<byte>, c: seq<byte>)
    requires c == a + b
    ensures Emit(Emit(out, a), b) == Emit(out, c)
  {
    if out.Some? {
      assert out.value + a + b == out.value + (a + b);
    }
  }

  /** Two steps of an extraction: what the second appended after what the first
      appended is, together, what both appended. */
  lemma Chain(o: seq<byte>, x: seq<byte>, mid: seq<byte>, end: seq<byte>)
    requires o <= mid <= end && end == o + x
    ensures mid == o + mid[|o|..] && end == mid + end[|mid|..] && x == mid[|o|..] + end[|mid|..]
  {
    Suffix(o, mid);
    Suffix(mid, end);
    assert o + x == o + (mid[|o|..] + end[|mid|..]);
    Cancel(o, x, mid[|o|..] + end[|mid|..]);
  }

  /** A walk that appended nothing. */
  lemma Nothing(o: seq<byte>, x: seq<byte>, rest: seq<byte>)
    requires o + x == o
    ensures x == [] && x + rest == rest && forall out: Option<seq<byte>> :: Emit(out, x) == out
  {
    Cancel(o, x, []);
    assert x + rest == rest;
    forall out: Option<seq<byte>>
      ensures Emit(out, x) == out
    {
      if out.Some? {
        assert out.value + x == out.value;
      }
    }
  }

  // ---------------------------------------------------------------------------
  // Round trip, from one pointer chunk up to the whole file

  lemma VisitRoundTrip(d: seq<byte>, off: nat, width: nat, p: nat, o: seq<byte>, x: seq<byte>, rest: seq<byte>,
                       out: Option<seq<byte>>)
    requires width == p
    requires Visit(State(d, None, Some(o)), off, width, p).st.output == Some(o + x)
    ensures Visit(State(d, Some(x + rest), out), off, width, p)
         == Run(State(d, Some(rest), Emit(out, x)), Visit(State(d, None, Some(o)), off, width, p).stop)
  {
    if off + width <= |d| {
      Cancel(o, x, d[off..off + width]);
      SplitFront(x, rest);
      SpliceSame(d, off, x);
    } else {
      Nothing(o, x, rest);
    }
  }

  lemma {:induction false} FieldsRoundTrip(structs: seq<Struct>, index: map<string, nat>, fields: seq<Field>,
                                           begin: nat, fuel: nat, p: nat, d: seq<byte>, o: seq<byte>,
                                           x: seq<byte>, rest: seq<byte>, out: Option<seq<byte>>)
    requires Indexes(index, structs) && SchemaSized(structs, p) && PointersSized(fields, p)
    requires InFields(structs, index, fields, begin, fuel, p, State(d, None, Some(o))).st.output == Some(o + x)
    ensures InFields(structs, index, fields, begin, fuel, p, State(d, Some(x + rest), out))
         == Run(State(d, Some(rest), Emit(out, x)),
                InFields(structs, index, fields, begin, fuel, p, State(d, None, Some(o))).stop)
    decreases fuel, |fields|, 1
  {
    var e := InFields(structs, index, fields, begin, fuel, p, State(d, None, Some(o)));
    if |fields| == 0 {
      Nothing(o, x, rest);
    } else {
      var e1 := InField(structs, index, fields[0], begin, fuel, p, State(d, None, Some(o)));
      var mid := e1.st.output.value;
      if e1.stop.Some? {
        FieldRoundTrip(structs, index, fields[0], begin, fuel, p, d, o, x, rest, out);
      } else {
        Chain(o, x, mid, e.st.output.value);
        var x1, x2 := mid[|o|..], e.st.output.value[|mid|..];
        assert x1 + (x2 + rest) == x + rest;
        FieldRoundTrip(structs, index, fields[0], begin, fuel, p, d, o, x1, x2 + rest, out);
        assert PointersSized(fields[1..], p) by {
          assert forall j :: 0 <= j < |fields| - 1 ==> fields[1..][j] == fields[j + 1];
        }
        FieldsRoundTrip(structs, index, fields[1..], begin, fuel, p, d, mid, x2, rest, Emit(out, x1));
        EmitTwice(out, x1, x2, x);
      }
    }
  }

  lemma {:induction false} FieldRoundTrip(structs: seq<Struct>, index: map<string, nat>, f: Field,
                                          begin: nat, fuel: nat, p: nat, d: seq<byte>, o: seq<byte>,
                                          x: seq<byte>, rest: seq<byte>, out: Option<seq<byte>>)
    requires Indexes(index, structs) && SchemaSized(structs, p) && (f.isPtr ==> f.size == p)
    requires InField(structs, index, f, begin, fuel, p, State(d, None, Some(o))).st.output == Some(o + x)
    ensures InField(structs, index, f, begin, fuel, p, State(d, Some(x + rest), out))
         == Run(State(d, Some(rest), Emit(out, x)),
                InField(structs, index, f, begin, fuel, p, State(d, None, Some(o))).stop)
    decreases fuel, 0, 0
  {
    if f.isPtr {
      VisitRoundTrip(d, begin + f.offset, f.size, p, o, x, rest, out);
    } else if f.typeName !in index || fuel == 0 {
      Nothing(o, x, rest);
    } else {
      FieldsRoundTrip(structs, index, structs[index[f.typeName]].fields, begin + f.offset, fuel - 1, p, d, o, x,
                      rest, out);
    }
  }

  lemma ElementRoundTrip(structs: seq<Struct>, index: map<string, nat>, ds: Struct, pos: nat, p: nat,
                         d: seq<byte>, o: seq<byte>, x: seq<byte>, rest: seq<byte>, out: Option<seq<byte>>)
    requires Indexes(index, structs) && SchemaSized(structs, p) && PointersSized(ds.fields, p)
    requires Element(structs, index, ds, pos, p, State(d, None, Some(o))).st.output == Some(o + x)
    ensures Element(structs, index, ds, pos, p, State(d, Some(x + rest), out))
         == Run(State(d, Some(rest), Emit(out, x)), Element(structs, index, ds, pos, p, State(d, None, Some(o))).stop)
  {
    if pos + ds.size <= |d| {
      var buf := d[pos..pos + ds.size];
      FieldsRoundTrip(structs, index, ds.fields, 0, |structs|, p, buf, o, x, rest, out);
      SpliceSame(d, pos, buf);
    } else {
      Nothing(o, x, rest);
    }
  }

  lemma {:induction false} ElementsRoundTrip(structs: seq<Struct>, index: map<string, nat>, ds: Struct, pos: nat,
                                             n: nat, p: nat, d: seq<byte>, o: seq<byte>, x: seq<byte>,
                                             rest: seq<byte>, out: Option<seq<byte>>)
    requires Indexes(index, structs) && SchemaSized(structs, p) && PointersSized(ds.fields, p)
    requires Elements(structs, index, ds, pos, n, p, State(d, None, Some(o))).st.output == Some(o + x)
    ensures Elements(structs, index, ds, pos, n, p, State(d, Some(x + rest), out))
         == Run(State(d, Some(rest), Emit(out, x)), Elements(structs, index, ds, pos, n, p, State(d, None, Some(o))).stop)
    decreases n, 1
  {
    if n == 0 {
      Nothing(o, x, rest);
    } else {
      var extract, restore := State(d, None, Some(o)), State(d, Some(x + rest), out);
      var e1 := Element(structs, index, ds, pos, p, extract);
      if e1.stop.Some? {
        ElementsNext(structs, index, ds, pos, n, p, extract);
        ElementsNext(structs, index, ds, pos, n, p, restore);
        ElementRoundTrip(structs, index, ds, pos, p, d, o, x, rest, out);
      } else {
        ElementsOnRoundTrip(structs, index, ds, pos, n, p, d, o, x, rest, out);
      }
    }
  }

  /** `ElementsRoundTrip` past an element whose extraction went through: the
      element's round trip followed by that of the elements after it. */
  lemma {:induction false} ElementsOnRoundTrip(structs: seq<Struct>, index: map<string, nat>, ds: Struct, pos: nat,
                                               n: nat, p: nat, d: seq<byte>, o: seq<byte>, x: seq<byte>,
                                               rest: seq<byte>, out: Option<seq<byte>>)
    requires Indexes(index, structs) && SchemaSized(structs, p) && PointersSized(ds.fields, p) && n > 0
    requires Element(structs, index, ds, pos, p, State(d, None, Some(o))).stop.None?
    requires Elements(structs, index, ds, pos, n, p, State(d, None, Some(o))).st.output == Some(o + x)
    ensures Elements(structs, index, ds, pos, n, p, State(d, Some(x + rest), out))
         == Run(State(d, Some(rest), Emit(out, x)), Elements(structs, index, ds, pos, n, p, State(d, None, Some(o))).stop)
    decreases n, 0
  {
    var e := Elements(structs, index, ds, pos, n, p, State(d, None, Some(o)));
    var next := pos + ds.size;
    var x1, x2 := ElementsStepExtract(structs, index, ds, pos, n, p, d, o, x);
    var e2 := Elements(structs, index, ds, next, n - 1, p, State(d, None, Some(o + x1)));
    assert e2.st.output == Some(o + x1 + x2) && e2.stop == e.stop;
    calc {
      Elements(structs, index, ds, pos, n, p, State(d, Some(x + rest), out));
      { ElementsStepRestore(structs, index, ds, pos, n, p, d, o, x1, x2 + rest, x + rest, out); }
      Elements(structs, index, ds, next, n - 1, p, State(d, Some(x2 + rest), Emit(out, x1)));
      { ElementsRoundTrip(structs, index, ds, next, n - 1, p, d, o + x1, x2, rest, Emit(out, x1)); }
      Run(State(d, Some(rest), Emit(Emit(out, x1), x2)), e2.stop);
      { EmitTwice(out, x1, x2, x); }
      Run(State(d, Some(rest), Emit(out, x)), e.stop);
    }
  }

  /** Extraction past an element that went through: what the element
      extracted, `x1`, and what the following elements extracted after it, `x2`. */
  lemma ElementsStepExtract(structs: seq<Struct>, index: map<string, nat>, ds: Struct, pos: nat, n: nat, p: nat,
                            d: seq<byte>, o: seq<byte>, x: seq<byte>) returns (x1: seq<byte>, x2: seq<byte>)
    requires Indexes(index, structs) && n > 0
    requires Element(structs, index, ds, pos, p, State(d, None, Some(o))).stop.None?
    requires Elements(structs, index, ds, pos, n, p, State(d, None, Some(o))).st.output == Some(o + x)
    ensures Element(structs, index, ds, pos, p, State(d, None, Some(o))) == Run(State(d, None, Some(o + x1)), None)
    ensures var e := Elements(structs, index, ds, pos, n, p, State(d, None, Some(o)));
      var e2 := Elements(structs, index, ds, pos + ds.size, n - 1, p, State(d, None, Some(o + x1)));
      e2.st.output == Some(o + x1 + x2) && e2.stop == e.stop
    ensures x == x1 + x2
  {
    var extract := State(d, None, Some(o));
    ElementsNext(structs, index, ds, pos, n, p, extract);
    var mid := Element(structs, index, ds, pos, p, extract).st.output.value;
    var e := Elements(structs, index, ds, pos, n, p, extract);
    Chain(o, x, mid, e.st.output.value);
    x1, x2 := mid[|o|..], e.st.output.value[|mid|..];
  }

  /** Restoration past an element whose extraction gave `x1`: the element
      takes `x1` back, and the following elements go on from what is left. */
  lemma ElementsStepRestore(structs: seq<Struct>, index: map<string, nat>, ds: Struct, pos: nat, n: nat, p: nat,
                            d: seq<byte>, o: seq<byte>, x1: seq<byte>, y: seq<byte>, input: seq<byte>,
                            out: Option<seq<byte>>)
    requires Indexes(index, structs) && SchemaSized(structs, p) && PointersSized(ds.fields, p) && n > 0
    requires Element(structs, index, ds, pos, p, State(d, None, Some(o))) == Run(State(d, None, Some(o + x1)), None)
    requires input == x1 + y
    ensures Elements(structs, index, ds, pos, n, p, State(d, Some(input), out))
         == Elements(structs, index, ds, pos + ds.size, n - 1, p, State(d, Some(y), Emit(out, x1)))
  {
    ElementsNext(structs, index, ds, pos, n, p, State(d, Some(input), out));
    ElementRoundTrip(structs, index, ds, pos, p, d, o, x1, y, out);
  }

  /** The header's address: what extraction wrote is what the header holds, so
      restoring it writes the same bytes back. */
  lemma HeaderRoundTrip(b: Block, lay: Layout, d: seq<byte>, o: seq<byte>, x: seq<byte>, rest: seq<byte>,
                        out: Option<seq<byte>>)
    requires HeaderAt(d, lay, b.at) == Ok(Some(b.header))
    requires HeaderStep(b, lay, State(d, None, Some(o))).st.output == Some(o + x)
    ensures HeaderStep(b, lay, State(d, Some(x + rest), out)) == Run(State(d, Some(rest), Emit(out, x)), None)
  {
    var p: nat, be := lay.ptrSize, lay.bigEndian;
    HeaderPointer(b.header, lay, d, b.at);
    var chunk := d[b.at + 8..b.at + 8 + p];
    assert x == chunk by {
      assert HeaderStep(b, lay, State(d, None, Some(o))).st.output == Some(o + Pack(b.header.oldPtr, p, be));
      Cancel(o, x, chunk);
    }
    SplitFront(x, rest);
    SpliceSame(d, b.at + 8, x);
  }

  lemma SplitFront(x: seq<byte>, rest: seq<byte>)
    ensures (x + rest)[..|x|] == x && (x + rest)[|x|..] == rest
  {
  }

  /** Writing back the bytes that are there changes nothing. */
  lemma SpliceSame(d: seq<byte>, off: nat, chunk: seq<byte>)
    requires off + |chunk| <= |d| && chunk == d[off..off + |chunk|]
    ensures Splice(d, off, chunk) == d
  {
    assert d == d[..off] + d[off..off + |chunk|] + d[off + |chunk|..];
  }

  lemma BlockRoundTrip(b: Block, lay: Layout, structs: seq<Struct>, index: map<string, nat>, d: seq<byte>,
                       o: seq<byte>, x: seq<byte>, rest: seq<byte>, out: Option<seq<byte>>)
    requires Indexes(index, structs) && SchemaSized(structs, lay.ptrSize)
    requires HeaderAt(d, lay, b.at) == Ok(Some(b.header))
    requires StripBlock(b, lay, structs, index, State(d, None, Some(o))).st.output == Some(o + x)
    ensures StripBlock(b, lay, structs, index, State(d, Some(x + rest), out))
         == Run(State(d, Some(rest), Emit(out, x)), StripBlock(b, lay, structs, index, State(d, None, Some(o))).stop)
  {
    var h := b.header;
    var extract, restore := State(d, None, Some(o)), State(d, Some(x + rest), out);
    var e := StripBlock(b, lay, structs, index, extract);
    var head := HeaderStep(b, lay, extract);
    var mid := head.st.output.value;
    if h.sdnaIndex == 0 || h.sdnaIndex >= |structs| || structs[h.sdnaIndex].size * h.count != h.size {
      assert e.st == head.st;
      HeaderRoundTrip(b, lay, d, o, x, rest, out);
      assert StripBlock(b, lay, structs, index, restore) == Run(State(d, Some(rest), Emit(out, x)), e.stop);
    } else {
      var ds := structs[h.sdnaIndex];
      var at := b.at + HeaderSize(lay);
      assert e == Elements(structs, index, ds, at, h.count, lay.ptrSize, State(d, None, Some(mid)));
      Chain(o, x, mid, e.st.output.value);
      var x1, x2 := mid[|o|..], e.st.output.value[|mid|..];
      assert StripBlock(b, lay, structs, index, restore)
          == Elements(structs, index, ds, at, h.count, lay.ptrSize, State(d, Some(x2 + rest), Emit(out, x1))) by {
        assert x1 + (x2 + rest) == x + rest;
        HeaderRoundTrip(b, lay, d, o, x1, x2 + rest, out);
      }
      ElementsRoundTrip(structs, index, ds, at, h.count, lay.ptrSize, d, mid, x2, rest, Emit(out, x1));
      EmitTwice(out, x1, x2, x);
      assert StripBlock(b, lay, structs, index, restore) == Run(State(d, Some(rest), Emit(out, x)), e.stop);
    }
  }

  lemma {:induction false} FromRoundTrip(file: seq<byte>, lay: Layout, structs: seq<Struct>, index: map<string, nat>,
                                         pos: nat, o: seq<byte>, x: seq<byte>, rest: seq<byte>,
                                         out: Option<seq<byte>>)
    requires Indexes(index, structs) && SchemaSized(structs, lay.ptrSize)
    requires StripFrom(file, lay, structs, index, pos, State(file, None, Some(o))).st.output == Some(o + x)
    ensures StripFrom(file, lay, structs, index, pos, State(file, Some(x + rest), out))
         == Run(State(file, Some(rest), Emit(out, x)),
                StripFrom(file, lay, structs, index, pos, State(file, None, Some(o))).stop)
    decreases Left(file, pos), 1
  {
    var extract, restore := State(file, None, Some(o)), State(file, Some(x + rest), out);
    var e := StripFrom(file, lay, structs, index, pos, extract);
    match HeaderAt(file, lay, pos)
    case Ok(Some(h)) =>
      var b := Block(pos, h);
      var e1 := StripBlock(b, lay, structs, index, extract);
      if e1.stop.Some? {
        assert e == e1 by { StripFromStep(file, lay, structs, index, pos, extract, h); }
        BlockRoundTrip(b, lay, structs, index, file, o, x, rest, out);
        StripFromStep(file, lay, structs, index, pos, restore, h);
        assert StripFrom(file, lay, structs, index, pos, restore) == Run(State(file, Some(rest), Emit(out, x)), e.stop);
      } else {
        FromBlockRoundTrip(file, lay, structs, index, pos, h, o, x, rest, out);
      }
    case _ =>
      StripFromEnd(file, lay, structs, index, pos, extract);
      StripFromEnd(file, lay, structs, index, pos, restore);
      Nothing(o, x, rest);
  }

  /** `FromRoundTrip` past a block whose extraction went through: the block's
      round trip followed by the rest of the file's. */
  lemma {:induction false} FromBlockRoundTrip(file: seq<byte>, lay: Layout, structs: seq<Struct>,
                                              index: map<string, nat>, pos: nat, h: BlockHeader, o: seq<byte>,
                                              x: seq<byte>, rest: seq<byte>, out: Option<seq<byte>>)
    requires Indexes(index, structs) && SchemaSized(structs, lay.ptrSize)
    requires HeaderAt(file, lay, pos) == Ok(Some(h))
    requires StripBlock(Block(pos, h), lay, structs, index, State(file, None, Some(o))).stop.None?
    requires StripFrom(file, lay, structs, index, pos, State(file, None, Some(o))).st.output == Some(o + x)
    ensures StripFrom(file, lay, structs, index, pos, State(file, Some(x + rest), out))
         == Run(State(file, Some(rest), Emit(out, x)),
                StripFrom(file, lay, structs, index, pos, State(file, None, Some(o))).stop)
    decreases Left(file, pos), 0
  {
    var x1, x2 := FromStepExtract(file, lay, structs, index, pos, h, o, x);
    var next := NextAt(pos, h, lay);
    var stop := StripFrom(file, lay, structs, index, pos, State(file, None, Some(o))).stop;
    LeftDecreases(file, lay, pos, h);
    assert StripFrom(file, lay, structs, index, pos, State(file, Some(x + rest), out))
        == StripFrom(file, lay, structs, index, next, State(file, Some(x2 + rest), Emit(out, x1))) by {
      FromStepRestore(file, lay, structs, index, pos, h, o, x1, x2 + rest, x + rest, out);
    }
    assert StripFrom(file, lay, structs, index, next, State(file, Some(x2 + rest), Emit(out, x1)))
        == Run(State(file, Some(rest), Emit(Emit(out, x1), x2)), stop) by {
      FromRoundTrip(file, lay, structs, index, next, o + x1, x2, rest, Emit(out, x1));
    }
    EmitTwice(out, x1, x2, x);
  }

  /** Extraction past a block that went through: what the block extracted,
      `x1`, and what the rest of the file extracted after it, `x2`. */
  lemma FromStepExtract(file: seq<byte>, lay: Layout, structs: seq<Struct>, index: map<string, nat>, pos: nat,
                        h: BlockHeader, o: seq<byte>, x: seq<byte>) returns (x1: seq<byte>, x2: seq<byte>)
    requires Indexes(index, structs)
    requires HeaderAt(file, lay, pos) == Ok(Some(h))
    requires StripBlock(Block(pos, h), lay, structs, index, State(file, None, Some(o))).stop.None?
    requires StripFrom(file, lay, structs, index, pos, State(file, None, Some(o))).st.output == Some(o + x)
    ensures StripBlock(Block(pos, h), lay, structs, index, State(file, None, Some(o)))
         == Run(State(file, None, Some(o + x1)), None)
    ensures var e := StripFrom(file, lay, structs, index, pos, State(file, None, Some(o)));
      var e2 := StripFrom(file, lay, structs, index, NextAt(pos, h, lay), State(file, None, Some(o + x1)));
      e2.st.output == Some(o + x1 + x2) && e2.stop == e.stop
    ensures x == x1 + x2
  {
    var extract := State(file, None, Some(o));
    StripFromStep(file, lay, structs, index, pos, extract, h);
    var mid := StripBlock(Block(pos, h), lay, structs, index, extract).st.output.value;
    var e := StripFrom(file, lay, structs, index, pos, extract);
    Chain(o, x, mid, e.st.output.value);
    x1, x2 := mid[|o|..], e.st.output.value[|mid|..];
  }

  /** Restoration past a block whose extraction gave `x1`: the block takes
      `x1` back, and the rest of the file goes on from what is left. */
  lemma FromStepRestore(file: seq<byte>, lay: Layout, structs: seq<Struct>, index: map<string, nat>, pos: nat,
                        h: BlockHeader, o: seq<byte>, x1: seq<byte>, y: seq<byte>, input: seq<byte>,
                        out: Option<seq<byte>>)
    requires Indexes(index, structs) && SchemaSized(structs, lay.ptrSize)
    requires HeaderAt(file, lay, pos) == Ok(Some(h))
    requires StripBlock(Block(pos, h), lay, structs, index, State(file, None, Some(o)))
          == Run(State(file, None, Some(o + x1)), None)
    requires input == x1 + y
    ensures StripFrom(file, lay, structs, index, pos, State(file, Some(input), out))
         == StripFrom(file, lay, structs, index, NextAt(pos, h, lay), State(file, Some(y), Emit(out, x1)))
  {
    StripFromStep(file, lay, structs, index, pos, State(file, Some(input), out), h);
    BlockRoundTrip(Block(pos, h), lay, structs, index, file, o, x1, y, out);
  }

  /** Extract, then restore from exactly what was extracted: the file comes out
      byte for byte as it was, the restore stream gives up exactly those bytes
      and no more, an extract stream given at the same time receives the same
      bytes again (the old values, strippointers.py:44-47), and the pass ends
      the way the extraction did. */
  lemma RoundTrip(file: seq<byte>, lay: Layout, structs: seq<Struct>, x: seq<byte>, rest: seq<byte>,
                  out: Option<seq<byte>>)
    requires SchemaSized(structs, lay.ptrSize)
    requires Strip(file, lay, structs, None, Some([])).st.output == Some(x)
    ensures Strip(file, lay, structs, Some(x + rest), out)
         == Run(State(file, Some(rest), Emit(out, x)), Strip(file, lay, structs, None, Some([])).stop)
  {
    assert [] + x == x;
    FromRoundTrip(file, lay, structs, IndexByName(structs), FileHeaderSize, [], x, rest, out);
  }

  /** With an extract stream and at least one block, the pass as written fails
      before it writes a byte, where the intended pass writes at least the
      first header's address; with neither stream the two agree. */
  lemma StripAsWrittenFails(file: seq<byte>, lay: Layout, structs: seq<Struct>, o: seq<byte>)
    requires HeaderAt(file, lay, FileHeaderSize).Ok? && HeaderAt(file, lay, FileHeaderSize).value.Some?
    ensures StripAsWritten(file, lay, structs, None, Some(o)) == Run(State(file, None, Some(o)), Some(MissingHelper))
    ensures var r := Strip(file, lay, structs, None, Some(o));
      r.st.output.Some? && |r.st.output.value| >= |o| + lay.ptrSize
    ensures StripAsWritten(file, lay, structs, None, None) == Strip(file, lay, structs, None, None)
  {
    var h := HeaderAt(file, lay, FileHeaderSize).value.value;
    var index := IndexByName(structs);
    var st := State(file, None, Some(o));
    var b := Block(FileHeaderSize, h);
    StripFromStep(file, lay, structs, index, FileHeaderSize, st, h);
    var hr := HeaderStep(b, lay, st);
    assert hr.st.output == Some(o + Pack(h.oldPtr, lay.ptrSize, lay.bigEndian));
    var r1 := StripBlock(b, lay, structs, index, st);
    assert Appends(hr.st.output, r1.st.output);
  }
}
