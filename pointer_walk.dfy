/** What `StripBlendFile.replace_pointers` (strippointers.py:14-63) does to a
    .blend file and to its two side streams. One forward pass over the blocks
    visits every "pointer chunk": the old address in each block header, then,
    in each element of a typed block, every pointer field of the element's
    struct in declaration order, descending depth-first into fields whose type
    is itself a struct. At each chunk the current bytes go to the extract
    stream, when there is one, and the next PTR_SIZE bytes of the restore
    stream, when there is one, replace them. */
module PointerWalk {
  import opened Errors
  import opened Bytes
  import opened DnaField
  import opened Sdna
  import opened Header

  // ---------------------------------------------------------------------------
  // idx_by_name

  /** `idx_by_name` (strippointers.py:20-22): each struct name with the index of
      the last struct carrying it. */
  function IndexByName(structs: seq<Struct>): (r: map<string, nat>)
    ensures Indexes(r, structs)
  {
    if |structs| == 0 then map[]
    else IndexByName(structs[..|structs| - 1])[structs[|structs| - 1].name := |structs| - 1]
  }

  /** A name is in the map exactly when some struct carries it. */
  lemma {:induction false} IndexByNameKeys(structs: seq<Struct>, name: string)
    ensures name in IndexByName(structs) <==> exists i :: 0 <= i < |structs| && structs[i].name == name
  {
    if |structs| > 0 {
      var n := |structs| - 1;
      var before := structs[..n];
      IndexByNameKeys(before, name);
      assert forall i :: 0 <= i < n ==> before[i] == structs[i];
      if name in IndexByName(before) {
        var i :| 0 <= i < n && before[i].name == name;
        assert structs[i].name == name;
      }
    }
  }

  /** Each name maps to the last struct carrying it. */
  lemma {:induction false} IndexByNameLast(structs: seq<Struct>, name: string)
    requires name in IndexByName(structs)
    ensures structs[IndexByName(structs)[name]].name == name
    ensures forall j :: IndexByName(structs)[name] < j < |structs| ==> structs[j].name != name
  {
    var n := |structs| - 1;
    var before := structs[..n];
    if name != structs[n].name {
      IndexByNameLast(before, name);
      var k := IndexByName(before)[name];
      assert IndexByName(structs)[name] == k;
      assert before[k] == structs[k];
      forall j | k < j < |structs|
        ensures structs[j].name != name
      {
        if j < n {
          assert before[j] == structs[j];
        }
      }
    }
  }

  /** Every index of the map points into the struct list. */
  predicate Indexes(index: map<string, nat>, structs: seq<Struct>)
  {
    forall name :: name in index ==> index[name] < |structs|
  }

  // ---------------------------------------------------------------------------
  // One pointer chunk

  /** The bytes being patched (the whole file, or the buffer of one element),
      what is left to read of the restore stream, and what has been written to
      the extract stream; None for a stream that was not given. */
  datatype State = State(data: seq<byte>, input: Option<seq<byte>>, output: Option<seq<byte>>)

  /** Where a walk left the state and, if it stopped early, why. */
  datatype Run = Run(st: State, stop: Option<Error>)

  /** `extract_to.write(b)`, when there is an extract stream. */
  function Emit(output: Option<seq<byte>>, b: seq<byte>): Option<seq<byte>>
  {
    match output
    case None => None
    case Some(written) => Some(written + b)
  }

  /** The extract stream is only ever appended to: it is there afterwards
      exactly when it was there before, and what it held is still in front. */
  predicate Appends(before: Option<seq<byte>>, after: Option<seq<byte>>)
  {
    before.None? == after.None? && (before.Some? ==> before.value <= after.value)
  }

  /** `data[off:off + len(chunk)] = chunk` for a chunk that fits. */
  function Splice(data: seq<byte>, off: nat, chunk: seq<byte>): (r: seq<byte>)
    requires off + |chunk| <= |data|
    ensures |r| == |data|
  {
    data[..off] + chunk + data[off + |chunk|..]
  }

  /** A pointer field of `width` bytes at `off` in the element buffer
      (strippointers.py:43-48): its bytes go out first, then PTR_SIZE bytes of
      the restore stream take their place. The model stops where the source
      goes on with a misshapen element:
      - a field reaching past the buffer: its slice is extracted short or
        empty, and with a restore stream the slice assignment lengthens the
        bytearray, so the write-back runs into the bytes after the element;
      - a short restore read: the assignment shortens the bytearray, so the
        write-back leaves the rest of the element as it was and the cursor
        short of the element's end;
      - a field not PTR_SIZE wide under restore: the assignment changes the
        bytearray's length by the difference, with the same effects. */
  function Visit(st: State, off: nat, width: nat, ptrSize: nat): (r: Run)
    ensures |r.st.data| == |st.data|
    ensures Appends(st.output, r.st.output)
    ensures st.input.None? ==> r.st.data == st.data && r.st.input.None?
  {
    if off + width > |st.data| then Run(st, Some(Overrun))
    else
      var out := Emit(st.output, st.data[off..off + width]);
      match st.input
      case None => Run(st.(output := out), None)
      case Some(rest) =>
        if |rest| < ptrSize then Run(State(st.data, Some([]), out), Some(StreamExhausted))
        else if width != ptrSize then Run(State(st.data, Some(rest[ptrSize..]), out), Some(WidthMismatch))
        else Run(State(Splice(st.data, off, rest[..ptrSize]), Some(rest[ptrSize..]), out), None)
  }

  // ---------------------------------------------------------------------------
  // replace_in_struct

  /** `replace_in_struct` over `fields` of a struct placed at `begin` in the
      buffer (strippointers.py:41-52): the fields in declaration order, the
      first stop ending the walk. */
  function InFields(structs: seq<Struct>, index: map<string, nat>, fields: seq<Field>, begin: nat, fuel: nat,
                    ptrSize: nat, st: State): (r: Run)
    requires Indexes(index, structs)
    ensures |r.st.data| == |st.data|
    ensures Appends(st.output, r.st.output)
    ensures st.input.None? ==> r.st.data == st.data && r.st.input.None?
    decreases fuel, |fields|, 1
  {
    if |fields| == 0 then Run(st, None)
    else
      var first := InField(structs, index, fields[0], begin, fuel, ptrSize, st);
      if first.stop.Some? then first
      else InFields(structs, index, fields[1..], begin, fuel, ptrSize, first.st)
  }

  /** One field of `replace_in_struct`: a pointer field is visited; a field
      whose type names a struct is walked at `begin + offset`, `fuel` bounding
      the depth of that recursion; any other field is passed over. */
  function InField(structs: seq<Struct>, index: map<string, nat>, f: Field, begin: nat, fuel: nat,
                   ptrSize: nat, st: State): (r: Run)
    requires Indexes(index, structs)
    ensures |r.st.data| == |st.data|
    ensures Appends(st.output, r.st.output)
    ensures st.input.None? ==> r.st.data == st.data && r.st.input.None?
    decreases fuel, 0, 0
  {
    if f.isPtr then Visit(st, begin + f.offset, f.size, ptrSize)
    else if f.typeName !in index then Run(st, None)
    else if fuel == 0 then Run(st, Some(RecursionLimit))
    else InFields(structs, index, structs[index[f.typeName]].fields, begin + f.offset, fuel - 1, ptrSize, st)
  }

  /** One element of a typed block (strippointers.py:56-63): `ds.size` bytes
      from `pos` are read into a buffer, walked from offset 0 with a recursion
      depth of one per struct, and written back in place when there is a
      restore stream. A stop discards the buffer. An element cut short by the
      end of the file stops with Truncated. The source goes on there: without
      a restore stream it extracts short or empty chunks of the immutable bytes
      it read; with one, `seek(-ds.size, 1)` lands before the element and the
      write-back overwrites bytes that precede it. */
  function Element(structs: seq<Struct>, index: map<string, nat>, ds: Struct, pos: nat, ptrSize: nat,
                   st: State): (r: Run)
    requires Indexes(index, structs)
    ensures |r.st.data| == |st.data|
    ensures Appends(st.output, r.st.output)
    ensures st.input.None? ==> r.st.data == st.data && r.st.input.None?
  {
    if pos + ds.size > |st.data| then Run(st, Some(Truncated))
    else
      var buf := st.data[pos..pos + ds.size];
      var r := InFields(structs, index, ds.fields, 0, |structs|, ptrSize, State(buf, st.input, st.output));
      if r.stop.Some? then Run(State(st.data, r.st.input, r.st.output), r.stop)
      else
        var data := if st.input.Some? then Splice(st.data, pos, r.st.data) else st.data;
        Run(State(data, r.st.input, r.st.output), None)
  }

  /** `Element` once the walk over its buffer is known. */
  lemma ElementWalked(structs: seq<Struct>, index: map<string, nat>, ds: Struct, pos: nat, ptrSize: nat,
                      st: State, r: Run)
    requires Indexes(index, structs) && pos + ds.size <= |st.data|
    requires r == InFields(structs, index, ds.fields, 0, |structs|, ptrSize,
                           State(st.data[pos..pos + ds.size], st.input, st.output))
    ensures Element(structs, index, ds, pos, ptrSize, st)
         == if r.stop.Some? then Run(State(st.data, r.st.input, r.st.output), r.stop)
            else Run(State(if st.input.Some? then Splice(st.data, pos, r.st.data) else st.data,
                           r.st.input, r.st.output), None)
  {
  }

  /** The elements of a typed block (strippointers.py:55-63): `n` elements of
      `ds.size` bytes each, from `pos`. */
  function Elements(structs: seq<Struct>, index: map<string, nat>, ds: Struct, pos: nat, n: nat, ptrSize: nat,
                    st: State): (r: Run)
    requires Indexes(index, structs)
    ensures |r.st.data| == |st.data|
    ensures Appends(st.output, r.st.output)
    ensures st.input.None? ==> r.st.data == st.data && r.st.input.None?
    decreases n
  {
    if n == 0 then Run(st, None)
    else
      var r := Element(structs, index, ds, pos, ptrSize, st);
      if r.stop.Some? then r
      else Elements(structs, index, ds, pos + ds.size, n - 1, ptrSize, r.st)
  }

  /** The first of `n` elements, then the rest. */
  lemma ElementsNext(structs: seq<Struct>, index: map<string, nat>, ds: Struct, pos: nat, n: nat, ptrSize: nat,
                     st: State)
    requires Indexes(index, structs) && n > 0
    ensures var r := Element(structs, index, ds, pos, ptrSize, st);
      Elements(structs, index, ds, pos, n, ptrSize, st)
      == if r.stop.Some? then r else Elements(structs, index, ds, pos + ds.size, n - 1, ptrSize, r.st)
  {
  }

  // ---------------------------------------------------------------------------
  // The blocks

  /** The restore half of a block header's address (strippointers.py:25-29):
      with a restore stream the header is written again with the next
      PTR_SIZE bytes of it as its address (a short read fails to unpack). */
  function RestoreAddress(b: Block, lay: Layout, st: State): (r: Run)
    requires b.at + HeaderSize(lay) <= |st.data|
    ensures |r.st.data| == |st.data| && r.st.output == st.output
    ensures st.input.None? ==> r == Run(st, None)
  {
    var p := lay.ptrSize;
    match st.input
    case None => Run(st, None)
    case Some(rest) =>
      if |rest| < p then Run(st.(input := Some([])), Some(StreamExhausted))
      else Run(st.(data := Splice(st.data, b.at + 8, rest[..p]), input := Some(rest[p..])), None)
  }

  /** The block header's address (strippointers.py:25-31): restored first,
      then the old address goes to the extract stream. */
  function HeaderStep(b: Block, lay: Layout, st: State): (r: Run)
    requires b.at + HeaderSize(lay) <= |st.data|
    ensures |r.st.data| == |st.data|
    ensures Appends(st.output, r.st.output)
    ensures st.input.None? ==> r.st.data == st.data && r.st.input.None?
  {
    var restored := RestoreAddress(b, lay, st);
    if restored.stop.Some? then restored
    else Run(restored.st.(output := Emit(st.output, Pack(b.header.oldPtr, lay.ptrSize, lay.bigEndian))), None)
  }

  /** One block of the loop (strippointers.py:24-63): its header address, then,
      for a typed block, its elements; an untyped block (SDNA index 0) is
      skipped. A typed block must name a struct of the schema and be exactly
      `count` of them long. */
  function StripBlock(b: Block, lay: Layout, structs: seq<Struct>, index: map<string, nat>, st: State): (r: Run)
    requires b.at + HeaderSize(lay) <= |st.data| && Indexes(index, structs)
    ensures |r.st.data| == |st.data|
    ensures Appends(st.output, r.st.output)
    ensures st.input.None? ==> r.st.data == st.data && r.st.input.None?
  {
    var h := b.header;
    var head := HeaderStep(b, lay, st);
    if head.stop.Some? || h.sdnaIndex == 0 then head
    else if h.sdnaIndex >= |structs| then Run(head.st, Some(IndexOutOfRange))
    else
      var ds := structs[h.sdnaIndex];
      if ds.size * h.count != h.size then Run(head.st, Some(SizeMismatch))
      else Elements(structs, index, ds, b.at + HeaderSize(lay), h.count, lay.ptrSize, head.st)
  }

  /** The loop from the block header at `pos` of `file`, the file's bytes now
      being `st.data` (strippointers.py:24): each header `_all_block_headers`
      yields is handled as it comes; the loop ends with the generator, cleanly
      at ENDB or with the error of a header cut short. */
  function StripFrom(file: seq<byte>, lay: Layout, structs: seq<Struct>, index: map<string, nat>, pos: nat, st: State)
    : (r: Run)
    requires |st.data| == |file| && Indexes(index, structs)
    ensures |r.st.data| == |file|
    ensures Appends(st.output, r.st.output)
    ensures st.input.None? ==> r.st.data == st.data && r.st.input.None?
    decreases Left(file, pos)
  {
    match HeaderAt(file, lay, pos)
    case Err(e) => Run(st, Some(e))
    case Ok(None) => Run(st, None)
    case Ok(Some(h)) =>
      var r := StripBlock(Block(pos, h), lay, structs, index, st);
      LeftDecreases(file, lay, pos, h);
      if r.stop.Some? then r else StripFrom(file, lay, structs, index, NextAt(pos, h, lay), r.st)
  }

  /** `replace_pointers(dna_structs, restore_from, extract_to)` on a file with
      the bytes `file`, `input` being what the restore stream holds and
      `output` what the extract stream already holds. */
  function Strip(file: seq<byte>, lay: Layout, structs: seq<Struct>, input: Option<seq<byte>>,
                 output: Option<seq<byte>>): (r: Run)
    ensures |r.st.data| == |file|
    ensures input.None? ==> r.st.data == file && r.st.input.None?
    ensures Appends(output, r.st.output)
  {
    StripFrom(file, lay, structs, IndexByName(structs), FileHeaderSize, State(file, input, output))
  }

  /** `replace_pointers` as written: strippointers.py:26-27 and 31 call
      `self.unpack` and `self.pack`, which `BlendFile` does not define (it
      has `_unpack` only), so with either stream given the pass raises
      AttributeError at the first block header, before reading or writing
      anything. With neither stream it walks the file like `Strip`. */
  function StripAsWritten(file: seq<byte>, lay: Layout, structs: seq<Struct>, input: Option<seq<byte>>,
                          output: Option<seq<byte>>): (r: Run)
    ensures r.st.data == file
  {
    if (input.Some? || output.Some?) && HeaderAt(file, lay, FileHeaderSize).Ok? && HeaderAt(file, lay, FileHeaderSize).value.Some?
    then Run(State(file, input, output), Some(MissingHelper))
    else Strip(file, lay, structs, input, output)
  }

  // ---------------------------------------------------------------------------
  // The loop, one block at a time

  /** At a block header, the loop handles that block and goes on after it. */
  lemma StripFromStep(file: seq<byte>, lay: Layout, structs: seq<Struct>, index: map<string, nat>, pos: nat,
                      st: State, h: BlockHeader)
    requires |st.data| == |file| && Indexes(index, structs)
    requires HeaderAt(file, lay, pos) == Ok(Some(h))
    ensures pos + HeaderSize(lay) <= |st.data|
    ensures StripFrom(file, lay, structs, index, pos, st) ==
      var r := StripBlock(Block(pos, h), lay, structs, index, st);
      if r.stop.Some? then r else StripFrom(file, lay, structs, index, NextAt(pos, h, lay), r.st)
  {
  }

  /** At ENDB the loop ends cleanly; at a short header it ends with that error. */
  lemma StripFromEnd(file: seq<byte>, lay: Layout, structs: seq<Struct>, index: map<string, nat>, pos: nat,
                     st: State)
    requires |st.data| == |file| && Indexes(index, structs)
    requires HeaderAt(file, lay, pos).Err? || HeaderAt(file, lay, pos) == Ok(None)
    ensures StripFrom(file, lay, structs, index, pos, st) ==
      Run(st, if HeaderAt(file, lay, pos).Err? then Some(HeaderAt(file, lay, pos).error) else None)
  {
  }

  /** The bytes from `pos` on are those of `file`. */
  ghost predicate SameFrom(data: seq<byte>, file: seq<byte>, pos: nat)
  {
    |data| == |file| && forall i :: pos <= i < |data| ==> data[i] == file[i]
  }

  /** A header reads the same in two files that agree from its position on. */
  lemma HeaderAtSame(data: seq<byte>, file: seq<byte>, lay: Layout, pos: nat)
    requires SameFrom(data, file, pos)
    ensures HeaderAt(data, lay, pos) == HeaderAt(file, lay, pos)
  {
    if pos + HeaderSize(lay) <= |file| {
      assert data[pos..pos + HeaderSize(lay)] == file[pos..pos + HeaderSize(lay)];
    }
  }
}
