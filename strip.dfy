/** `StripBlendFile` (strippointers.py:10-63): a `BlendFile` with one more
    method, `replace_pointers`, which walks the blocks once more and, for every
    pointer chunk, copies it to an extract stream, overwrites it from a restore
    stream, or both. The file's bytes are the `contents` of the `BlendFile`;
    the element being patched is a buffer of its own, written back in place. */
module Strip {
  import opened Errors
  import opened Bytes
  import opened DnaField
  import opened Sdna
  import opened Header
  import opened Blend
  import opened PointerWalk

  /** The restore stream, read from the front. */
  class Source {
    /** What is left to read. */
    var rest: seq<byte>

    constructor (bytes: seq<byte>)
      ensures rest == bytes
    {
      rest := bytes;
    }

    /** `read(n)`: the next n bytes, or all that are left when fewer remain. */
    method Read(n: nat) returns (b: seq<byte>)
      modifies this
      ensures b == old(rest)[..Min(n, |old(rest)|)] && rest == old(rest)[|b|..]
    {
      b := rest[..Min(n, |rest|)];
      rest := rest[|b|..];
    }
  }

  /** The extract stream, written at the end. */
  class Sink {
    /** What has been written so far. */
    var written: seq<byte>

    constructor ()
      ensures written == []
    {
      written := [];
    }

    /** `write(b)`. */
    method Write(b: seq<byte>)
      modifies this
      ensures written == old(written) + b
    {
      written := written + b;
    }
  }

  /** The restore stream as the specification sees it: None when there is none. */
  function InputOf(src: Source?): Option<seq<byte>>
    reads src
  {
    if src == null then None else Some(src.rest)
  }

  /** The extract stream as the specification sees it: None when there is none. */
  function OutputOf(sink: Sink?): Option<seq<byte>>
    reads sink
  {
    if sink == null then None else Some(sink.written)
  }

  /** The loop that fills `idx_by_name`; a later struct of the same name
      overwrites the entry of an earlier one. */
  method BuildIndexByName(structs: seq<Struct>) returns (index: map<string, nat>)
    ensures index == IndexByName(structs)
  {
    index := map[];
    for i := 0 to |structs|
      invariant index == IndexByName(structs[..i])
    {
      assert structs[..i + 1][..i] == structs[..i];
      index := index[structs[i].name := i];
    }
    assert structs[..|structs|] == structs;
  }

  /** `replace_in_struct(ds, data, begin)`: the fields of `ds` in declaration
      order, with `fuel` levels of recursion left. */
  method ReplaceInStruct(structs: seq<Struct>, index: map<string, nat>, ds: Struct, data: array<byte>, begin: nat,
                         fuel: nat, ptrSize: nat, restoreFrom: Source?, extractTo: Sink?)
    returns (stop: Option<Error>)
    requires Indexes(index, structs)
    modifies data, restoreFrom, extractTo
    ensures Run(State(data[..], InputOf(restoreFrom), OutputOf(extractTo)), stop)
         == InFields(structs, index, ds.fields, begin, fuel, ptrSize,
                     State(old(data[..]), old(InputOf(restoreFrom)), old(OutputOf(extractTo))))
    decreases fuel, 1
  {
    var fields := ds.fields;
    ghost var goal := InFields(structs, index, fields, begin, fuel, ptrSize,
                               State(data[..], InputOf(restoreFrom), OutputOf(extractTo)));
    var j := 0;
    assert fields[j..] == fields;
    while j < |fields|
      invariant j <= |fields|
      invariant InFields(structs, index, fields[j..], begin, fuel, ptrSize,
                         State(data[..], InputOf(restoreFrom), OutputOf(extractTo))) == goal
    {
      assert fields[j..][0] == fields[j] && fields[j..][1..] == fields[j + 1..];
      stop := ReplaceInField(structs, index, fields[j], data, begin, fuel, ptrSize, restoreFrom, extractTo);
      if stop.Some? {
        return;
      }
      j := j + 1;
    }
    stop := None;
  }

  /** The body of the loop of `replace_in_struct`, for the field `f`. */
  method ReplaceInField(structs: seq<Struct>, index: map<string, nat>, f: Field, data: array<byte>, begin: nat,
                        fuel: nat, ptrSize: nat, restoreFrom: Source?, extractTo: Sink?)
    returns (stop: Option<Error>)
    requires Indexes(index, structs)
    modifies data, restoreFrom, extractTo
    ensures Run(State(data[..], InputOf(restoreFrom), OutputOf(extractTo)), stop)
         == InField(structs, index, f, begin, fuel, ptrSize,
                    State(old(data[..]), old(InputOf(restoreFrom)), old(OutputOf(extractTo))))
    decreases fuel, 0
  {
    if f.isPtr {
      stop := ReplacePointer(data, begin + f.offset, f.size, ptrSize, restoreFrom, extractTo);
      return;
    }
    if f.typeName !in index {
      return None;
    }
    if fuel == 0 {
      return Some(RecursionLimit);
    }
    var fieldStruct := structs[index[f.typeName]];
    stop := ReplaceInStruct(structs, index, fieldStruct, data, begin + f.offset, fuel - 1, ptrSize,
                            restoreFrom, extractTo);
  }

  /** One pointer field of `width` bytes at `at`: copied out, then overwritten
      from the restore stream. */
  method ReplacePointer(data: array<byte>, at: nat, width: nat, ptrSize: nat, restoreFrom: Source?, extractTo: Sink?)
    returns (stop: Option<Error>)
    modifies data, restoreFrom, extractTo
    ensures Run(State(data[..], InputOf(restoreFrom), OutputOf(extractTo)), stop)
         == Visit(State(old(data[..]), old(InputOf(restoreFrom)), old(OutputOf(extractTo))), at, width, ptrSize)
  {
    if at + width > data.Length {
      return Some(Overrun);
    }
    if extractTo != null {
      extractTo.Write(data[at..at + width]);
    }
    if restoreFrom != null {
      var chunk := restoreFrom.Read(ptrSize);
      if |chunk| < ptrSize {
        return Some(StreamExhausted);
      }
      if width != ptrSize {
        return Some(WidthMismatch);
      }
      ghost var before := data[..];
      forall k | 0 <= k < ptrSize {
        data[at + k] := chunk[k];
      }
      assert data[..] == Splice(before, at, chunk);
    }
    stop := None;
  }

  // ---------------------------------------------------------------------------
  // replace_pointers

  /** Writing back the header with a new address puts the address's bytes in
      place and leaves every other byte of the file as it was. */
  lemma HeaderSplice(data: seq<byte>, at: nat, h: BlockHeader, chunk: seq<byte>, lay: Layout)
    requires HeaderAt(data, lay, at) == Ok(Some(h)) && |chunk| == lay.ptrSize
    ensures var hs := HeaderSize(lay);
      |EncodeHeader(h.(oldPtr := Unpack(chunk, lay.bigEndian)), lay)| == hs
      && data[..at] + EncodeHeader(h.(oldPtr := Unpack(chunk, lay.bigEndian)), lay) + data[at + hs..]
         == Splice(data, at + 8, chunk)
  {
    var hs, p := HeaderSize(lay), lay.ptrSize;
    var b := data[at..at + hs];
    assert h == DecodeHeader(b, lay).value;
    EncodeWithPointer(b, chunk, lay);
    var e := EncodeHeader(h.(oldPtr := Unpack(chunk, lay.bigEndian)), lay);
    assert e == data[at..at + 8] + chunk + data[at + 8 + p..at + hs] by {
      assert b[..8] == data[at..at + 8];
      assert b[8 + p..] == data[at + 8 + p..at + hs];
    }
    assert data[..at + 8] == data[..at] + data[at..at + 8];
    assert data[at + 8 + p..] == data[at + 8 + p..at + hs] + data[at + hs..];
  }

  /** The block header's address (strippointers.py:25-31), the header having
      just been read from `at`. */
  method ReplaceHeaderPointer(f: BlendFile, ghost at: nat, hd: BlockHeader, restoreFrom: Source?, extractTo: Sink?)
    returns (stop: Option<Error>)
    requires HeaderAt(f.contents, f.lay, at) == Ok(Some(hd)) && f.pos == at + HeaderSize(f.lay)
    modifies f, restoreFrom, extractTo
    ensures f.pos == old(f.pos) && SameFrom(f.contents, old(f.contents), f.pos)
    ensures Run(State(f.contents, InputOf(restoreFrom), OutputOf(extractTo)), stop)
         == HeaderStep(Block(at, hd), f.lay, State(old(f.contents), old(InputOf(restoreFrom)), old(OutputOf(extractTo))))
  {
    stop := RestoreHeaderPointer(f, at, hd, restoreFrom, OutputOf(extractTo));
    if stop.Some? {
      return;
    }
    if extractTo != null {
      extractTo.Write(Pack(hd.oldPtr, f.lay.ptrSize, f.lay.bigEndian));
    }
  }

  /** The restore half of `ReplaceHeaderPointer` (strippointers.py:25-29). */
  method RestoreHeaderPointer(f: BlendFile, ghost at: nat, hd: BlockHeader, restoreFrom: Source?,
                              ghost output: Option<seq<byte>>)
    returns (stop: Option<Error>)
    requires HeaderAt(f.contents, f.lay, at) == Ok(Some(hd)) && f.pos == at + HeaderSize(f.lay)
    modifies f, restoreFrom
    ensures f.pos == old(f.pos) && SameFrom(f.contents, old(f.contents), f.pos)
    ensures Run(State(f.contents, InputOf(restoreFrom), output), stop)
         == RestoreAddress(Block(at, hd), f.lay, State(old(f.contents), old(InputOf(restoreFrom)), output))
  {
    var p, be := f.lay.ptrSize, f.lay.bigEndian;
    stop := None;
    if restoreFrom != null {
      var chunk := restoreFrom.Read(p);
      if |chunk| < p {
        return Some(StreamExhausted);
      }
      HeaderSplice(f.contents, at, hd, chunk, f.lay);
      ghost var data := f.contents;
      f.WriteBack(EncodeHeader(hd.(oldPtr := Unpack(chunk, be)), f.lay));
      assert f.contents == Splice(data, at + 8, chunk);
      SpliceSameFrom(data, at + 8, chunk, f.pos);
    }
  }

  /** A splice below `q` leaves the bytes from `q` on as they were. */
  lemma SpliceSameFrom(data: seq<byte>, off: nat, chunk: seq<byte>, q: nat)
    requires off + |chunk| <= q <= |data|
    ensures SameFrom(Splice(data, off, chunk), data, q)
  {
  }

  /** Writing `chunk` back just below the cursor at `off + |chunk|` is a splice
      at `off`, and leaves the bytes from the cursor on as they were. */
  lemma WrittenBack(data: seq<byte>, off: nat, chunk: seq<byte>, written: seq<byte>)
    requires off + |chunk| <= |data|
    requires written == data[..off] + chunk + data[off + |chunk|..]
    ensures written == Splice(data, off, chunk) && SameFrom(written, data, off + |chunk|)
  {
  }

  /** A fresh array holding `data`. */
  method NewBuffer(data: seq<byte>) returns (buf: array<byte>)
    ensures fresh(buf) && buf[..] == data
  {
    buf := new byte[|data|](k requires 0 <= k < |data| => data[k]);
  }

  /** One element of a typed block at the cursor (strippointers.py:56-63). */
  method ReplaceElement(f: BlendFile, structs: seq<Struct>, index: map<string, nat>, ds: Struct,
                        restoreFrom: Source?, extractTo: Sink?)
    returns (stop: Option<Error>)
    requires Indexes(index, structs) && f.pos <= |f.contents|
    modifies f, restoreFrom, extractTo
    ensures Run(State(f.contents, InputOf(restoreFrom), OutputOf(extractTo)), stop)
         == Element(structs, index, ds, old(f.pos), f.lay.ptrSize,
                    State(old(f.contents), old(InputOf(restoreFrom)), old(OutputOf(extractTo))))
    ensures stop.None? ==> f.pos == old(f.pos) + ds.size && SameFrom(f.contents, old(f.contents), f.pos)
  {
    ghost var st := State(f.contents, InputOf(restoreFrom), OutputOf(extractTo));
    ghost var pos := f.pos;
    var data := f.Read(ds.size);
    if |data| < ds.size {
      assert Element(structs, index, ds, pos, f.lay.ptrSize, st) == Run(st, Some(Truncated));
      return Some(Truncated);
    }
    var buf := NewBuffer(data);
    stop := PatchElement(f, structs, index, ds, buf, restoreFrom, extractTo);
  }

  /** The element just read into `buf`: its walk and, with a restore stream,
      its write-back over the bytes it was read from. */
  method PatchElement(f: BlendFile, structs: seq<Struct>, index: map<string, nat>, ds: Struct, buf: array<byte>,
                      restoreFrom: Source?, extractTo: Sink?)
    returns (stop: Option<Error>)
    requires Indexes(index, structs) && buf.Length == ds.size <= f.pos <= |f.contents|
    requires buf[..] == f.contents[f.pos - ds.size..f.pos]
    modifies f, buf, restoreFrom, extractTo
    ensures Run(State(f.contents, InputOf(restoreFrom), OutputOf(extractTo)), stop)
         == Element(structs, index, ds, old(f.pos) - ds.size, f.lay.ptrSize,
                    State(old(f.contents), old(InputOf(restoreFrom)), old(OutputOf(extractTo))))
    ensures f.pos == old(f.pos) && SameFrom(f.contents, old(f.contents), f.pos)
  {
    ghost var st := State(f.contents, InputOf(restoreFrom), OutputOf(extractTo));
    ghost var pos := f.pos - ds.size;
    stop := ReplaceInStruct(structs, index, ds, buf, 0, |structs|, f.lay.ptrSize, restoreFrom, extractTo);
    ghost var walked := Run(State(buf[..], InputOf(restoreFrom), OutputOf(extractTo)), stop);
    ElementWalked(structs, index, ds, pos, f.lay.ptrSize, st, walked);
    if stop.Some? {
      return;
    }
    if restoreFrom != null {
      f.WriteBack(buf[..]);
      WrittenBack(st.data, pos, walked.st.data, f.contents);
    }
  }

  /** The loop over the `n` elements of a typed block, from the cursor
      (strippointers.py:55-63). */
  method ReplaceElements(f: BlendFile, structs: seq<Struct>, index: map<string, nat>, ds: Struct, n: nat,
                         restoreFrom: Source?, extractTo: Sink?)
    returns (stop: Option<Error>)
    requires Indexes(index, structs) && f.pos <= |f.contents|
    modifies f, restoreFrom, extractTo
    ensures Run(State(f.contents, InputOf(restoreFrom), OutputOf(extractTo)), stop)
         == Elements(structs, index, ds, old(f.pos), n, f.lay.ptrSize,
                     State(old(f.contents), old(InputOf(restoreFrom)), old(OutputOf(extractTo))))
    ensures stop.None? ==> f.pos == old(f.pos) + n * ds.size && SameFrom(f.contents, old(f.contents), f.pos)
  {
    ghost var goal := Elements(structs, index, ds, f.pos, n, f.lay.ptrSize,
                               State(f.contents, InputOf(restoreFrom), OutputOf(extractTo)));
    var i := 0;
    while i < n
      invariant i <= n && f.pos == old(f.pos) + i * ds.size && f.pos <= |f.contents|
      invariant SameFrom(f.contents, old(f.contents), f.pos)
      invariant Elements(structs, index, ds, f.pos, n - i, f.lay.ptrSize,
                         State(f.contents, InputOf(restoreFrom), OutputOf(extractTo))) == goal
    {
      ghost var st := State(f.contents, InputOf(restoreFrom), OutputOf(extractTo));
      ghost var pos, k := f.pos, n - i;
      ElementsNext(structs, index, ds, pos, k, f.lay.ptrSize, st);
      stop := ReplaceElement(f, structs, index, ds, restoreFrom, extractTo);
      if stop.Some? {
        return;
      }
      ghost var next := State(f.contents, InputOf(restoreFrom), OutputOf(extractTo));
      assert Elements(structs, index, ds, pos + ds.size, k - 1, f.lay.ptrSize, next) == goal;
      assert (i + 1) * ds.size == i * ds.size + ds.size;
      i := i + 1;
    }
    stop := None;
  }

  /** One block of the loop of `replace_pointers` (strippointers.py:24-63),
      its header having just been read from `at`. */
  method ReplaceBlock(f: BlendFile, structs: seq<Struct>, index: map<string, nat>, ghost at: nat, hd: BlockHeader,
                      restoreFrom: Source?, extractTo: Sink?)
    returns (stop: Option<Error>)
    requires Indexes(index, structs)
    requires HeaderAt(f.contents, f.lay, at) == Ok(Some(hd)) && f.pos == at + HeaderSize(f.lay)
    modifies f, restoreFrom, extractTo
    ensures Run(State(f.contents, InputOf(restoreFrom), OutputOf(extractTo)), stop)
         == StripBlock(Block(at, hd), f.lay, structs, index,
                       State(old(f.contents), old(InputOf(restoreFrom)), old(OutputOf(extractTo))))
    ensures stop.None? ==> f.pos == NextAt(at, hd, f.lay) && SameFrom(f.contents, old(f.contents), f.pos)
  {
    stop := ReplaceHeaderPointer(f, at, hd, restoreFrom, extractTo);
    if stop.Some? {
      return;
    }
    if hd.sdnaIndex == 0 {
      f.Skip(hd.size);
      return;
    }
    if hd.sdnaIndex >= |structs| {
      return Some(IndexOutOfRange);
    }
    var ds := structs[hd.sdnaIndex];
    if ds.size * hd.count != hd.size {
      return Some(SizeMismatch);
    }
    stop := ReplaceElements(f, structs, index, ds, hd.count, restoreFrom, extractTo);
  }

  /** `replace_pointers(dna_structs, restore_from, extract_to)`. */
  method ReplacePointers(f: BlendFile, structs: seq<Struct>, restoreFrom: Source?, extractTo: Sink?)
    returns (stop: Option<Error>)
    modifies f, restoreFrom, extractTo
    ensures Run(State(f.contents, InputOf(restoreFrom), OutputOf(extractTo)), stop)
         == Strip(old(f.contents), f.lay, structs, old(InputOf(restoreFrom)), old(OutputOf(extractTo)))
  {
    var index := BuildIndexByName(structs);
    ghost var file := f.contents;
    ghost var goal := Strip(file, f.lay, structs, InputOf(restoreFrom), OutputOf(extractTo));
    f.pos := FileHeaderSize;
    while true
      invariant SameFrom(f.contents, file, f.pos)
      invariant StripFrom(file, f.lay, structs, index, f.pos,
                          State(f.contents, InputOf(restoreFrom), OutputOf(extractTo))) == goal
      decreases Left(file, f.pos)
    {
      ghost var at := f.pos;
      ghost var st := State(f.contents, InputOf(restoreFrom), OutputOf(extractTo));
      HeaderAtSame(f.contents, file, f.lay, at);
      var h := f.NextHeader();
      if h.Err? || h.value.None? {
        StripFromEnd(file, f.lay, structs, index, at, st);
        return if h.Err? then Some(h.error) else None;
      }
      var hd := h.value.value;
      LeftDecreases(file, f.lay, at, hd);
      StripFromStep(file, f.lay, structs, index, at, st, hd);
      stop := ReplaceBlock(f, structs, index, at, hd, restoreFrom, extractTo);
      if stop.Some? {
        return;
      }
    }
  }
}
