/** The pass of strippointers.py:24-63 as a flat program: visit the pointer
    slots of `PointerSlots` one after the other. Level by level, the nested
    walk of `PointerWalk` (element buffers written back in place, header
    addresses rewritten) is shown to be exactly this program whenever the
    program runs to the end, whatever the restore stream holds. */
module PointerExec {
  import opened Errors
  import opened Bytes
  import opened DnaField
  import opened Sdna
  import opened Header
  import opened PointerWalk
  import opened PointerSlots
  import opened PointerLocal
  import opened PointerProps
  import opened PointerCount

  /** Two chunks that share no byte. */
  predicate Apart(s: Slot, t: Slot)
  {
    s.at + s.width <= t.at || t.at + t.width <= s.at
  }

  /** No two slots share a byte. */
  predicate Disjoint(slots: seq<Slot>)
  {
    forall i, j :: 0 <= i < j < |slots| ==> Apart(slots[i], slots[j])
  }

  /** `Disjoint`, slot by slot: the first is apart from all later ones, and
      so on down the list. */
  predicate Separate(slots: seq<Slot>)
    decreases |slots|
  {
    |slots| == 0 || ((forall m :: 0 < m < |slots| ==> Apart(slots[0], slots[m])) && Separate(slots[1..]))
  }

  lemma {:induction false} DisjointSeparate(slots: seq<Slot>)
    requires Disjoint(slots)
    ensures Separate(slots)
    decreases |slots|
  {
    if |slots| > 0 {
      var rest := slots[1..];
      assert Disjoint(rest) by {
        assert forall m :: 0 <= m < |rest| ==> rest[m] == slots[m + 1];
      }
      DisjointSeparate(rest);
    }
  }

  /** Visit the slots in order; the first stop ends the program. */
  function Exec(slots: seq<Slot>, p: nat, st: State): (r: Run)
    ensures |r.st.data| == |st.data| && Appends(st.output, r.st.output)
    ensures st.input.None? ==> r.st.data == st.data && r.st.input.None?
    decreases |slots|
  {
    if |slots| == 0 then Run(st, None)
    else
      var r := Visit(st, slots[0].at, slots[0].width, p);
      if r.stop.Some? then r else Exec(slots[1..], p, r.st)
  }

  // ---------------------------------------------------------------------------
  // The flat program

  /** Running two lists of slots is running the first, then the second. */
  lemma {:induction false} ExecAppend(a: seq<Slot>, b: seq<Slot>, p: nat, st: State)
    ensures Exec(a + b, p, st) == (var r := Exec(a, p, st); if r.stop.Some? then r else Exec(b, p, r.st))
    decreases |a|
  {
    if |a| == 0 {
      assert a + b == b;
    } else {
      assert (a + b)[0] == a[0];
      assert (a + b)[1..] == a[1..] + b;
      var v := Visit(st, a[0].at, a[0].width, p);
      if v.stop.None? {
        ExecAppend(a[1..], b, p, v.st);
      }
    }
  }

  /** The program changes no byte outside its slots. */
  lemma {:induction false} ExecLocal(slots: seq<Slot>, p: nat, st: State)
    ensures SameOutside(st.data, Exec(slots, p, st).st.data, 0, slots)
    decreases |slots|
  {
    if |slots| == 0 {
      SameRefl(st.data, 0, slots);
    } else {
      var v := Visit(st, slots[0].at, slots[0].width, p);
      VisitLocal(st, slots[0].at, slots[0].width, p, 0);
      assert [slots[0]] + slots[1..] == slots;
      if v.stop.Some? {
        SameWiden(st.data, v.st.data, 0, [slots[0]], slots[1..]);
      } else {
        ExecLocal(slots[1..], p, v.st);
        SameTrans(st.data, v.st.data, Exec(slots[1..], p, v.st).st.data, 0, [slots[0]], slots[1..]);
      }
    }
  }

  /** Two files equal outside the slots `s` hold the same bytes under a slot
      that shares no byte with them. */
  lemma ReadApart(a: seq<byte>, b: seq<byte>, s: seq<Slot>, slot: Slot)
    requires SameOutside(a, b, 0, s) && slot.at + slot.width <= |a|
    requires forall k :: 0 <= k < |s| ==> Apart(s[k], slot)
    ensures ReadAt(a, slot.at, slot.width) == ReadAt(b, slot.at, slot.width)
  {
    SameMeans(a, b, 0, s);
    forall i | slot.at <= i < slot.at + slot.width
      ensures a[i] == b[i]
    {
      forall k | 0 <= k < |s|
        ensures !(s[k].at <= i < s[k].at + s[k].width)
      {
        assert Apart(s[k], slot);
      }
    }
    assert a[slot.at..slot.at + slot.width] == b[slot.at..slot.at + slot.width];
  }

  /** ... and under slots `r` that share no byte with them. */
  lemma {:induction false} GatherApart(a: seq<byte>, b: seq<byte>, s: seq<Slot>, r: seq<Slot>)
    requires SameOutside(a, b, 0, s) && Within(r, |a|)
    requires forall k, m :: 0 <= k < |s| && 0 <= m < |r| ==> Apart(s[k], r[m])
    ensures Gather(a, r) == Gather(b, r)
    decreases |r|
  {
    if |r| > 0 {
      ReadApart(a, b, s, r[0]);
      var rest := r[1..];
      assert forall m :: 0 <= m < |rest| ==> rest[m] == r[m + 1];
      GatherApart(a, b, s, rest);
    }
  }

  /** ... in particular when only one slot changed. */
  lemma GatherApartOne(a: seq<byte>, b: seq<byte>, s0: Slot, r: seq<Slot>)
    requires SameOutside(a, b, 0, [s0]) && Within(r, |a|)
    requires forall m :: 0 <= m < |r| ==> Apart(s0, r[m])
    ensures Gather(a, r) == Gather(b, r)
  {
    GatherApart(a, b, [s0], r);
  }

  /** How many bytes the slots cover together. */
  function Width(slots: seq<Slot>): nat
  {
    if |slots| == 0 then 0 else slots[0].width + Width(slots[1..])
  }

  /** Slots a pointer wide cover a pointer each. */
  lemma {:induction false} WidthSized(slots: seq<Slot>, p: nat)
    requires Sized(slots, p)
    ensures Width(slots) == p * |slots|
    decreases |slots|
  {
    if |slots| > 0 {
      var rest := slots[1..];
      assert Sized(rest, p) by {
        assert forall m :: 0 <= m < |rest| ==> rest[m] == slots[m + 1];
      }
      WidthSized(rest, p);
      MulNext(p, |rest|);
    }
  }

  /** A restore over disjoint slots, each a pointer wide, with enough bytes in
      the stream: it runs to the end, takes one pointer per slot off the
      front of the stream, puts those bytes in the slots in order, and sends
      the bytes the slots held before to the extract stream. */
  lemma ExecRestore(slots: seq<Slot>, p: nat, d: seq<byte>, s: seq<byte>, out: Option<seq<byte>>)
    requires Within(slots, |d|) && Sized(slots, p) && Disjoint(slots) && |s| >= p * |slots|
    ensures var r := Exec(slots, p, State(d, Some(s), out));
      && r.stop.None?
      && r.st.input == Some(s[p * |slots|..])
      && r.st.output == Emit(out, Gather(d, slots))
      && Gather(r.st.data, slots) == s[..p * |slots|]
  {
    WidthSized(slots, p);
    DisjointSeparate(slots);
    ExecFill(slots, p, d, s, out);
  }

  /** `ExecRestore`, counting the bytes taken by the slots' widths. */
  lemma {:induction false} ExecFill(slots: seq<Slot>, p: nat, d: seq<byte>, s: seq<byte>, out: Option<seq<byte>>)
    requires Within(slots, |d|) && Sized(slots, p) && Separate(slots) && |s| >= Width(slots)
    ensures var r := Exec(slots, p, State(d, Some(s), out));
      && r.stop.None?
      && r.st.input == Some(s[Width(slots)..])
      && r.st.output == Emit(out, Gather(d, slots))
      && Gather(r.st.data, slots) == s[..Width(slots)]
    decreases |slots|
  {
    if |slots| == 0 {
      assert Emit(out, []) == out by {
        if out.Some? {
          assert out.value + [] == out.value;
        }
      }
    } else {
      var at, rest := slots[0].at, slots[1..];
      TailFacts(slots, p, |d|);
      var st1 := State(Splice(d, at, s[..p]), Some(s[p..]), Emit(out, d[at..at + p]));
      assert Width(slots) == p + Width(rest);
      var r := Exec(rest, p, st1);
      assert Exec(slots, p, State(d, Some(s), out)) == r by {
        ExecFirst(slots, p, d, s, out);
      }
      assert State(st1.data, Some(s[p..]), st1.output) == st1;
      ExecFill(rest, p, st1.data, s[p..], st1.output);
      assert ReadAt(r.st.data, at, p) == ReadAt(st1.data, at, p) by {
        ExecLocal(rest, p, st1);
        ReadApart(st1.data, r.st.data, rest, slots[0]);
      }
      FillStep(slots, p, d, s, out, r.st);
    }
  }

  /** What is known after one more slot in front of a filled program: the
      first slot took the stream's first pointer and sent its old bytes out
      first, the others took the rest. */
  predicate FillFacts(slots: seq<Slot>, p: nat, d: seq<byte>, s: seq<byte>, out: Option<seq<byte>>, e: State)
  {
    && |slots| > 0 && slots[0].width == p && slots[0].at + p <= |d|
    && Width(slots) == p + Width(slots[1..]) <= |s| && Within(slots[1..], |d|)
    && (forall m :: 0 <= m < |slots[1..]| ==> Apart(slots[0], slots[1..][m]))
    && ReadAt(e.data, slots[0].at, p) == ReadAt(Splice(d, slots[0].at, s[..p]), slots[0].at, p)
    && e.input == Some(s[p..][Width(slots[1..])..])
    && e.output == Emit(Emit(out, d[slots[0].at..slots[0].at + p]), Gather(Splice(d, slots[0].at, s[..p]), slots[1..]))
    && Gather(e.data, slots[1..]) == s[p..][..Width(slots[1..])]
  }

  /** One more slot in front of a filled program: it has taken the stream's
      first pointer, and its old bytes went out first. */
  lemma FillStep(slots: seq<Slot>, p: nat, d: seq<byte>, s: seq<byte>, out: Option<seq<byte>>, e: State)
    requires FillFacts(slots, p, d, s, out, e)
    ensures e.input == Some(s[Width(slots)..])
    ensures e.output == Emit(out, Gather(d, slots))
    ensures Gather(e.data, slots) == s[..Width(slots)]
  {
    FillInput(slots, p, d, s, out, e);
    FillOutput(slots, p, d, s, out, e);
    FillGather(slots, p, d, s, out, e);
  }

  lemma FillInput(slots: seq<Slot>, p: nat, d: seq<byte>, s: seq<byte>, out: Option<seq<byte>>, e: State)
    requires FillFacts(slots, p, d, s, out, e)
    ensures e.input == Some(s[Width(slots)..])
  {
    DropSome(s, p, Width(slots[1..]), e.input);
  }

  lemma FillOutput(slots: seq<Slot>, p: nat, d: seq<byte>, s: seq<byte>, out: Option<seq<byte>>, e: State)
    requires FillFacts(slots, p, d, s, out, e)
    ensures e.output == Emit(out, Gather(d, slots))
  {
    RestoreOut(slots, p, d, s, out);
  }

  lemma FillGather(slots: seq<Slot>, p: nat, d: seq<byte>, s: seq<byte>, out: Option<seq<byte>>, e: State)
    requires FillFacts(slots, p, d, s, out, e)
    ensures Gather(e.data, slots) == s[..Width(slots)]
  {
    SpliceRead(d, slots[0].at, s[..p]);
    RestoreIn(slots, p, s, e.data);
  }

  /** A chunk written in reads back. */
  lemma SpliceRead(x: seq<byte>, off: nat, c: seq<byte>)
    requires off + |c| <= |x|
    ensures Splice(x, off, c)[off..off + |c|] == c
  {
    assert (x[..off] + c + x[off + |c|..])[off..off + |c|] == c;
  }

  /** The first slot of a restore, when the stream holds a pointer for it. */
  lemma ExecFirst(slots: seq<Slot>, p: nat, d: seq<byte>, s: seq<byte>, out: Option<seq<byte>>)
    requires |slots| > 0 && slots[0].width == p && slots[0].at + p <= |d| && |s| >= p
    ensures Exec(slots, p, State(d, Some(s), out))
         == Exec(slots[1..], p, State(Splice(d, slots[0].at, s[..p]), Some(s[p..]),
                                      Emit(out, d[slots[0].at..slots[0].at + p])))
  {
    var v := Visit(State(d, Some(s), out), slots[0].at, slots[0].width, p);
    assert v == Run(State(Splice(d, slots[0].at, s[..p]), Some(s[p..]), Emit(out, d[slots[0].at..slots[0].at + p])), None);
  }

  /** What goes out: the first slot's old bytes, then the others', which the
      first write did not touch. */
  lemma RestoreOut(slots: seq<Slot>, p: nat, d: seq<byte>, s: seq<byte>, out: Option<seq<byte>>)
    requires |slots| > 0 && slots[0].width == p && slots[0].at + p <= |d| && |s| >= p
    requires Within(slots[1..], |d|)
    requires forall m :: 0 <= m < |slots[1..]| ==> Apart(slots[0], slots[1..][m])
    ensures Emit(Emit(out, d[slots[0].at..slots[0].at + p]), Gather(Splice(d, slots[0].at, s[..p]), slots[1..]))
         == Emit(out, Gather(d, slots))
  {
    var chunk := d[slots[0].at..slots[0].at + p];
    SpliceApart(d, slots[0], s[..p], slots[1..]);
    GatherFront(d, slots);
    EmitTwice(out, chunk, Gather(d, slots[1..]), Gather(d, slots));
  }

  /** Writing into one slot leaves the join of the slots apart from it alone. */
  lemma SpliceApart(d: seq<byte>, s0: Slot, chunk: seq<byte>, r: seq<Slot>)
    requires |chunk| == s0.width && s0.at + s0.width <= |d| && Within(r, |d|)
    requires forall m :: 0 <= m < |r| ==> Apart(s0, r[m])
    ensures Gather(Splice(d, s0.at, chunk), r) == Gather(d, r)
  {
    SpliceLocal(d, s0.at, chunk, 0);
    assert Slot(0 + s0.at, |chunk|) == s0;
    GatherApartOne(d, Splice(d, s0.at, chunk), s0, r);
  }

  /** The first slot's bytes, then the others'. */
  lemma GatherFront(d: seq<byte>, slots: seq<Slot>)
    requires |slots| > 0 && slots[0].at + slots[0].width <= |d|
    ensures Gather(d, slots) == d[slots[0].at..slots[0].at + slots[0].width] + Gather(d, slots[1..])
  {
  }

  /** What comes in: the stream's first pointer in the first slot, which the
      later writes did not touch, then the others. */
  lemma RestoreIn(slots: seq<Slot>, p: nat, s: seq<byte>, e: seq<byte>)
    requires |slots| > 0 && slots[0].width == p && Width(slots) == p + Width(slots[1..]) <= |s|
    requires ReadAt(e, slots[0].at, p) == s[..p]
    requires Gather(e, slots[1..]) == s[p..][..Width(slots[1..])]
    ensures Gather(e, slots) == s[..Width(slots)]
  {
    assert Gather(e, slots) == ReadAt(e, slots[0].at, p) + Gather(e, slots[1..]);
    TakeTwice(s, p, Width(slots[1..]));
  }

  /** Taking `a` bytes, then `b` more, is taking `a + b`. */
  lemma TakeTwice(s: seq<byte>, a: nat, b: nat)
    requires a + b <= |s|
    ensures s[..a] + s[a..][..b] == s[..a + b]
  {
  }

  /** Dropping `a` bytes, then `b` more, is dropping `a + b`. */
  lemma DropSome(s: seq<byte>, a: nat, b: nat, x: Option<seq<byte>>)
    requires a + b <= |s| && x == Some(s[a..][b..])
    ensures x == Some(s[a + b..])
  {
    assert s[a..][b..] == s[a + b..];
  }

  /** What holds of slots holds of all but the first, which is apart from them. */
  lemma TailFacts(slots: seq<Slot>, p: nat, size: nat)
    requires |slots| > 0 && Within(slots, size) && Sized(slots, p) && Separate(slots)
    ensures slots[0].width == p && slots[0].at + p <= size
    ensures Within(slots[1..], size) && Sized(slots[1..], p) && Separate(slots[1..])
    ensures forall m :: 0 <= m < |slots[1..]| ==> Apart(slots[0], slots[1..][m]) && Apart(slots[1..][m], slots[0])
  {
    var rest := slots[1..];
    assert forall m :: 0 <= m < |rest| ==> rest[m] == slots[m + 1];
  }

  /** Files of one length that gather the same bytes under slots inside
      them agree at every position the slots cover. */
  lemma GatherSame(a: seq<byte>, b: seq<byte>, slots: seq<Slot>)
    requires |a| == |b| && Within(slots, |a|) && Gather(a, slots) == Gather(b, slots)
    ensures forall i :: 0 <= i < |a| && Covered(i, slots) ==> a[i] == b[i]
  {
    forall i | 0 <= i < |a| && Covered(i, slots)
      ensures a[i] == b[i]
    {
      GatherSameAt(a, b, slots, i);
    }
  }

  lemma {:induction false} GatherSameAt(a: seq<byte>, b: seq<byte>, slots: seq<Slot>, i: nat)
    requires |a| == |b| && Within(slots, |a|) && Gather(a, slots) == Gather(b, slots)
    requires i < |a| && Covered(i, slots)
    ensures a[i] == b[i]
    decreases |slots|
  {
    GatherSplit(a, b, slots);
    if !(slots[0].at <= i < slots[0].at + slots[0].width) {
      CoveredTail(i, slots);
      GatherSameAt(a, b, slots[1..], i);
    }
  }

  /** Equal joins split into equal first chunks and equal joins of the rest. */
  lemma GatherSplit(a: seq<byte>, b: seq<byte>, slots: seq<Slot>)
    requires |a| == |b| && |slots| > 0 && Within(slots, |a|) && Gather(a, slots) == Gather(b, slots)
    ensures forall i :: slots[0].at <= i < slots[0].at + slots[0].width ==> a[i] == b[i]
    ensures Gather(a, slots[1..]) == Gather(b, slots[1..]) && Within(slots[1..], |a|)
  {
    var at, w := slots[0].at, slots[0].width;
    GatherHead(a, slots);
    GatherHead(b, slots);
    forall i | at <= i < at + w
      ensures a[i] == b[i]
    {
      SliceIndex(a, b, at, w, i);
    }
    TailWithin(slots, |a|);
  }

  lemma TailWithin(slots: seq<Slot>, size: nat)
    requires |slots| > 0 && Within(slots, size)
    ensures Within(slots[1..], size)
  {
    assert forall m :: 0 <= m < |slots| - 1 ==> slots[1..][m] == slots[m + 1];
  }

  lemma SliceIndex(a: seq<byte>, b: seq<byte>, at: nat, w: nat, i: nat)
    requires at <= i < at + w <= |a| && at + w <= |b| && a[at..at + w] == b[at..at + w]
    ensures a[i] == b[i]
  {
    assert a[i] == a[at..at + w][i - at];
  }

  /** The join's first `width` bytes are the first slot's, the rest the
      other slots' join. */
  lemma GatherHead(d: seq<byte>, slots: seq<Slot>)
    requires |slots| > 0 && slots[0].at + slots[0].width <= |d|
    ensures |Gather(d, slots)| >= slots[0].width
    ensures Gather(d, slots)[..slots[0].width] == d[slots[0].at..slots[0].at + slots[0].width]
    ensures Gather(d, slots)[slots[0].width..] == Gather(d, slots[1..])
  {
    var x, y := d[slots[0].at..slots[0].at + slots[0].width], Gather(d, slots[1..]);
    assert Gather(d, slots) == x + y;
    assert (x + y)[..|x|] == x && (x + y)[|x|..] == y;
  }

  /** A position the first slot does not cover is covered by the others, if at all. */
  lemma CoveredTail(i: int, slots: seq<Slot>)
    requires |slots| > 0 && Covered(i, slots) && !(slots[0].at <= i < slots[0].at + slots[0].width)
    ensures Covered(i, slots[1..])
  {
    var k :| 0 <= k < |slots| && slots[k].at <= i < slots[k].at + slots[k].width;
    assert slots[1..][k - 1] == slots[k];
  }

  // ---------------------------------------------------------------------------
  // Splices

  lemma SpliceAt(x: seq<byte>, off: nat, c: seq<byte>, i: nat)
    requires off + |c| <= |x| && i < |x|
    ensures Splice(x, off, c)[i] == if i < off then x[i] else if i < off + |c| then c[i - off] else x[i]
  {
  }

  /** A chunk written into an element's buffer is the chunk written into the
      file at the buffer's place, and the file so written is the file with
      the buffer written back. */
  lemma SpliceInside(d: seq<byte>, pos: nat, size: nat, off: nat, c: seq<byte>)
    requires pos + size <= |d| && off + |c| <= size
    ensures Splice(d[pos..pos + size], off, c) == Splice(d, pos + off, c)[pos..pos + size]
    ensures Splice(d, pos + off, c) == Splice(d, pos, Splice(d, pos + off, c)[pos..pos + size])
  {
    var buf := d[pos..pos + size];
    var e := Splice(d, pos + off, c);
    forall i | 0 <= i < size
      ensures Splice(buf, off, c)[i] == e[pos + i]
    {
      SpliceAt(buf, off, c, i);
      SpliceAt(d, pos + off, c, pos + i);
    }
    forall i | 0 <= i < |d|
      ensures e[i] == Splice(d, pos, e[pos..pos + size])[i]
    {
      SpliceAt(d, pos + off, c, i);
      SpliceAt(d, pos, e[pos..pos + size], i);
    }
  }

  /** Writing a buffer back twice leaves the second. */
  lemma SpliceTwice(d: seq<byte>, pos: nat, b1: seq<byte>, b2: seq<byte>)
    requires pos + |b1| <= |d| && |b1| == |b2|
    ensures Splice(Splice(d, pos, b1), pos, b2) == Splice(d, pos, b2)
  {
    forall i | 0 <= i < |d|
      ensures Splice(Splice(d, pos, b1), pos, b2)[i] == Splice(d, pos, b2)[i]
    {
      SpliceAt(d, pos, b1, i);
      SpliceAt(Splice(d, pos, b1), pos, b2, i);
      SpliceAt(d, pos, b2, i);
    }
  }

  // ---------------------------------------------------------------------------
  // The walk is the flat program

  /** A pointer field visited in the buffer of the element at `pos` is the
      same field visited in the file at `pos + off`, the buffer being the
      file's bytes there, written back. */
  lemma VisitInBuffer(d: seq<byte>, pos: nat, size: nat, off: nat, w: nat, p: nat, input: Option<seq<byte>>,
                      output: Option<seq<byte>>)
    requires pos + size <= |d| && off + w <= size
    ensures var v := Visit(State(d, input, output), pos + off, w, p);
      && Visit(State(d[pos..pos + size], input, output), off, w, p)
         == Run(State(v.st.data[pos..pos + size], v.st.input, v.st.output), v.stop)
      && v.st.data == Splice(d, pos, v.st.data[pos..pos + size])
  {
    SliceOfSlice(d, pos, pos + size, off, off + w);
    if input.Some? && |input.value| >= p && w == p {
      SpliceInside(d, pos, size, off, input.value[..p]);
    } else {
      SpliceSame(d, pos, d[pos..pos + size]);
    }
  }

  /** The fields of a struct at `begin` in the buffer of the element at `pos`:
      walking them in the buffer is running their slots on the file, the
      buffer then holding the file's bytes there. */
  lemma {:induction false} FieldsSeq(structs: seq<Struct>, index: map<string, nat>, fields: seq<Field>,
                                     begin: nat, fuel: nat, p: nat, d: seq<byte>, pos: nat, size: nat,
                                     input: Option<seq<byte>>, output: Option<seq<byte>>)
    requires Indexes(index, structs) && pos + size <= |d|
    requires FieldsTrace(structs, index, fields, pos + begin, fuel, pos + size).stop.None?
    ensures var e := Exec(FieldsTrace(structs, index, fields, pos + begin, fuel, pos + size).slots, p,
                          State(d, input, output));
      && InFields(structs, index, fields, begin, fuel, p, State(d[pos..pos + size], input, output))
         == Run(State(e.st.data[pos..pos + size], e.st.input, e.st.output), e.stop)
      && e.st.data == Splice(d, pos, e.st.data[pos..pos + size])
    decreases fuel, |fields|, 1
  {
    if |fields| == 0 {
      SpliceSame(d, pos, d[pos..pos + size]);
    } else {
      var first := FieldTrace(structs, index, fields[0], pos + begin, fuel, pos + size);
      var rest := FieldsTrace(structs, index, fields[1..], pos + begin, fuel, pos + size);
      assert first.stop.None?;
      FieldSeq(structs, index, fields[0], begin, fuel, p, d, pos, size, input, output);
      ExecAppend(first.slots, rest.slots, p, State(d, input, output));
      var e1 := Exec(first.slots, p, State(d, input, output));
      if e1.stop.None? {
        var d1 := e1.st.data;
        FieldsSeq(structs, index, fields[1..], begin, fuel, p, d1, pos, size, e1.st.input, e1.st.output);
        var e2 := Exec(rest.slots, p, e1.st);
        SpliceTwice(d, pos, d1[pos..pos + size], e2.st.data[pos..pos + size]);
      }
    }
  }

  lemma {:induction false} FieldSeq(structs: seq<Struct>, index: map<string, nat>, f: Field, begin: nat,
                                    fuel: nat, p: nat, d: seq<byte>, pos: nat, size: nat,
                                    input: Option<seq<byte>>, output: Option<seq<byte>>)
    requires Indexes(index, structs) && pos + size <= |d|
    requires FieldTrace(structs, index, f, pos + begin, fuel, pos + size).stop.None?
    ensures var e := Exec(FieldTrace(structs, index, f, pos + begin, fuel, pos + size).slots, p,
                          State(d, input, output));
      && InField(structs, index, f, begin, fuel, p, State(d[pos..pos + size], input, output))
         == Run(State(e.st.data[pos..pos + size], e.st.input, e.st.output), e.stop)
      && e.st.data == Splice(d, pos, e.st.data[pos..pos + size])
    decreases fuel, 0, 0
  {
    if f.isPtr {
      FieldPtrSeq(structs, index, f, begin, fuel, p, d, pos, size, input, output);
    } else if f.typeName !in index {
      FieldSkipSeq(structs, index, f, begin, fuel, p, d, pos, size, input, output);
    } else {
      var fields := structs[index[f.typeName]].fields;
      FieldUnfold(structs, index, f, begin, fuel, p, pos, size, State(d[pos..pos + size], input, output));
      FieldsSeq(structs, index, fields, begin + f.offset, fuel - 1, p, d, pos, size, input, output);
    }
  }

  /** A pointer field is one slot, visited in the buffer or in the file alike. */
  lemma FieldPtrSeq(structs: seq<Struct>, index: map<string, nat>, f: Field, begin: nat,
                    fuel: nat, p: nat, d: seq<byte>, pos: nat, size: nat,
                    input: Option<seq<byte>>, output: Option<seq<byte>>)
    requires Indexes(index, structs) && pos + size <= |d| && f.isPtr
    requires FieldTrace(structs, index, f, pos + begin, fuel, pos + size).stop.None?
    ensures var e := Exec(FieldTrace(structs, index, f, pos + begin, fuel, pos + size).slots, p,
                          State(d, input, output));
      && InField(structs, index, f, begin, fuel, p, State(d[pos..pos + size], input, output))
         == Run(State(e.st.data[pos..pos + size], e.st.input, e.st.output), e.stop)
      && e.st.data == Splice(d, pos, e.st.data[pos..pos + size])
  {
    var at := pos + begin + f.offset;
    assert FieldTrace(structs, index, f, pos + begin, fuel, pos + size).slots == [Slot(at, f.size)];
    ExecOne(State(d, input, output), at, f.size, p);
    VisitInBuffer(d, pos, size, begin + f.offset, f.size, p, input, output);
  }

  /** A field of a type the index does not know has no slot and is skipped. */
  lemma FieldSkipSeq(structs: seq<Struct>, index: map<string, nat>, f: Field, begin: nat,
                     fuel: nat, p: nat, d: seq<byte>, pos: nat, size: nat,
                     input: Option<seq<byte>>, output: Option<seq<byte>>)
    requires Indexes(index, structs) && pos + size <= |d| && !f.isPtr && f.typeName !in index
    ensures var e := Exec(FieldTrace(structs, index, f, pos + begin, fuel, pos + size).slots, p,
                          State(d, input, output));
      && InField(structs, index, f, begin, fuel, p, State(d[pos..pos + size], input, output))
         == Run(State(e.st.data[pos..pos + size], e.st.input, e.st.output), e.stop)
      && e.st.data == Splice(d, pos, e.st.data[pos..pos + size])
  {
    assert FieldTrace(structs, index, f, pos + begin, fuel, pos + size).slots == [];
    assert Exec([], p, State(d, input, output)) == Run(State(d, input, output), None);
    SpliceSame(d, pos, d[pos..pos + size]);
  }

  /** A nested struct field is its fields, one level deeper. */
  lemma FieldUnfold(structs: seq<Struct>, index: map<string, nat>, f: Field, begin: nat,
                    fuel: nat, p: nat, pos: nat, size: nat, st: State)
    requires Indexes(index, structs) && !f.isPtr && f.typeName in index && fuel > 0
    ensures FieldTrace(structs, index, f, pos + begin, fuel, pos + size)
         == FieldsTrace(structs, index, structs[index[f.typeName]].fields, pos + (begin + f.offset), fuel - 1, pos + size)
    ensures InField(structs, index, f, begin, fuel, p, st)
         == InFields(structs, index, structs[index[f.typeName]].fields, begin + f.offset, fuel - 1, p, st)
  {
  }

  /** One element, when its slots run to the end. */
  lemma ElementSeq(structs: seq<Struct>, index: map<string, nat>, ds: Struct, pos: nat, p: nat, st: State)
    requires Indexes(index, structs) && pos + ds.size <= |st.data|
    requires ElementSlots(structs, index, ds, pos).stop.None?
    requires Exec(ElementSlots(structs, index, ds, pos).slots, p, st).stop.None?
    ensures Element(structs, index, ds, pos, p, st) == Exec(ElementSlots(structs, index, ds, pos).slots, p, st)
  {
    FieldsSeq(structs, index, ds.fields, 0, |structs|, p, st.data, pos, ds.size, st.input, st.output);
    var r := InFields(structs, index, ds.fields, 0, |structs|, p,
                      State(st.data[pos..pos + ds.size], st.input, st.output));
    ElementWalked(structs, index, ds, pos, p, st, r);
  }

  /** `n` elements, when their slots run to the end. */
  lemma {:induction false} ElementsSeq(structs: seq<Struct>, index: map<string, nat>, ds: Struct, pos: nat,
                                       n: nat, p: nat, st: State)
    requires Indexes(index, structs)
    requires ElementsTrace(structs, index, ds, pos, n, |st.data|).stop.None?
    requires Exec(ElementsTrace(structs, index, ds, pos, n, |st.data|).slots, p, st).stop.None?
    ensures Elements(structs, index, ds, pos, n, p, st)
         == Exec(ElementsTrace(structs, index, ds, pos, n, |st.data|).slots, p, st)
    decreases n
  {
    if n > 0 {
      var all := ElementsTrace(structs, index, ds, pos, n, |st.data|);
      var first := ElementSlots(structs, index, ds, pos);
      var rest := ElementsTrace(structs, index, ds, pos + ds.size, n - 1, |st.data|);
      assert pos + ds.size <= |st.data| && first.stop.None? && all.slots == first.slots + rest.slots;
      var e1 := Exec(first.slots, p, st);
      assert e1.stop.None? && Exec(all.slots, p, st) == Exec(rest.slots, p, e1.st) by {
        ExecAppend(first.slots, rest.slots, p, st);
      }
      assert Element(structs, index, ds, pos, p, st) == e1 by {
        ElementSeq(structs, index, ds, pos, p, st);
      }
      assert Elements(structs, index, ds, pos, n, p, st) == Elements(structs, index, ds, pos + ds.size, n - 1, p, e1.st) by {
        ElementsNext(structs, index, ds, pos, n, p, st);
      }
      assert |e1.st.data| == |st.data|;
      assert ElementsTrace(structs, index, ds, pos + ds.size, n - 1, |e1.st.data|) == rest;
      ElementsSeq(structs, index, ds, pos + ds.size, n - 1, p, e1.st);
    }
  }

  /** A block header's address, when its slot is run to the end. */
  lemma HeaderSeq(b: Block, lay: Layout, st: State)
    requires HeaderAt(st.data, lay, b.at) == Ok(Some(b.header))
    requires Exec([Slot(b.at + 8, lay.ptrSize)], lay.ptrSize, st).stop.None?
    ensures HeaderStep(b, lay, st) == Exec([Slot(b.at + 8, lay.ptrSize)], lay.ptrSize, st)
  {
    ExecOne(st, b.at + 8, lay.ptrSize, lay.ptrSize);
    HeaderVisit(b, lay, st);
  }

  /** The header step is a visit of the address, unless the stream runs short. */
  lemma HeaderVisit(b: Block, lay: Layout, st: State)
    requires HeaderAt(st.data, lay, b.at) == Ok(Some(b.header))
    requires Visit(st, b.at + 8, lay.ptrSize, lay.ptrSize).stop.None?
    ensures HeaderStep(b, lay, st) == Visit(st, b.at + 8, lay.ptrSize, lay.ptrSize)
  {
    var p, at := lay.ptrSize, b.at + 8;
    HeaderPointer(b.header, lay, st.data, b.at);
    var chunk := st.data[at..at + p];
    var v := Visit(st, at, p, p);
    if st.input.Some? {
      var rest := st.input.value;
      assert |rest| >= p;
      assert v == Run(State(Splice(st.data, at, rest[..p]), Some(rest[p..]), Emit(st.output, chunk)), None);
      assert RestoreAddress(b, lay, st) == Run(st.(data := Splice(st.data, at, rest[..p]), input := Some(rest[p..])), None);
    } else {
      assert v == Run(st.(output := Emit(st.output, chunk)), None);
    }
  }

  /** One slot is one visit. */
  lemma ExecOne(st: State, at: nat, w: nat, p: nat)
    ensures Exec([Slot(at, w)], p, st) == Visit(st, at, w, p)
  {
    var v := Visit(st, at, w, p);
    assert [Slot(at, w)][1..] == [];
    assert Exec([Slot(at, w)], p, st) == if v.stop.Some? then v else Exec([], p, v.st);
  }

  /** A block, when its slots run to the end. */
  lemma BlockSeq(b: Block, lay: Layout, structs: seq<Struct>, index: map<string, nat>, st: State)
    requires Indexes(index, structs) && HeaderAt(st.data, lay, b.at) == Ok(Some(b.header))
    requires BlockTrace(b, lay, structs, index, |st.data|).stop.None?
    requires Exec(BlockTrace(b, lay, structs, index, |st.data|).slots, lay.ptrSize, st).stop.None?
    ensures StripBlock(b, lay, structs, index, st)
         == Exec(BlockTrace(b, lay, structs, index, |st.data|).slots, lay.ptrSize, st)
  {
    var h, p := b.header, lay.ptrSize;
    var head := [Slot(b.at + 8, p)];
    if h.sdnaIndex == 0 {
      HeaderSeq(b, lay, st);
    } else {
      var ds, pos := structs[h.sdnaIndex], b.at + HeaderSize(lay);
      var t := ElementsTrace(structs, index, ds, pos, h.count, |st.data|);
      assert h.sdnaIndex < |structs| && ds.size * h.count == h.size;
      assert BlockTrace(b, lay, structs, index, |st.data|) == Trace(head + t.slots, t.stop);
      var e1 := Exec(head, p, st);
      assert e1.stop.None? && Exec(head + t.slots, p, st) == Exec(t.slots, p, e1.st) by {
        ExecAppend(head, t.slots, p, st);
      }
      assert HeaderStep(b, lay, st) == e1 by {
        HeaderSeq(b, lay, st);
      }
      assert StripBlock(b, lay, structs, index, st) == Elements(structs, index, ds, pos, h.count, p, e1.st);
      assert |e1.st.data| == |st.data|;
      assert ElementsTrace(structs, index, ds, pos, h.count, |e1.st.data|) == t;
      ElementsSeq(structs, index, ds, pos, h.count, p, e1.st);
    }
  }
}
