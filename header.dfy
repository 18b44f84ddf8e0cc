/** The two kinds of header a .blend file holds: the 12-byte file header
    (blendinfo.py:47-56), which fixes the pointer width and the byte order, and
    the block header (blendinfo.py:73-75) in front of every block: a 4-byte
    code, the payload size, the block's old memory address, the SDNA index of
    its struct and the number of structs it holds (format `4sI` + pointer + `II`). */
module Header {
  import opened Errors
  import opened Bytes

  /** "BLENDER" */
  const Magic: seq<byte> := [66, 76, 69, 78, 68, 69, 82]
  /** "ENDB", the code of the block that ends the file. */
  const EndCode: seq<byte> := [69, 78, 68, 66]
  /** "DNA1", the code of the block that holds the schema. */
  const DnaCode: seq<byte> := [68, 78, 65, 49]
  /** The file header's length: block headers start right after it. */
  const FileHeaderSize: nat := 12

  /** `file.read(n)` at `pos`: the n bytes there, fewer at the end of the file,
      none past it. */
  function ReadAt(file: seq<byte>, pos: nat, n: nat): (r: seq<byte>)
    ensures pos + n <= |file| ==> r == file[pos..pos + n]
    ensures |r| <= n
  {
    if pos >= |file| then [] else if pos + n <= |file| then file[pos..pos + n] else file[pos..]
  }

  /** `BlendFile.__init__` as written. `header[7] == b'_'` and `header[8] == b'V'`
      compare an int with a bytes object, which Python 3 never finds equal: the
      pointer width is always 8 and the byte order always little-endian. A
      header of 7 or 8 bytes passes the magic test and then fails to index. */
  function FileLayoutAsWritten(header: seq<byte>): (r: Result<Layout>)
  {
    if |header| < 7 || header[..7] != Magic then Err(BadMagic)
    else if |header| < 9 then Err(IndexOutOfRange)
    else Ok(Layout(8, false))
  }

  /** The layout the file header declares: `_` (95) after the magic means 4-byte
      pointers, anything else 8-byte ones; `V` (86) next means big-endian. */
  function FileLayout(header: seq<byte>): (r: Result<Layout>)
  {
    if |header| < 7 || header[..7] != Magic then Err(BadMagic)
    else if |header| < 9 then Err(IndexOutOfRange)
    else Ok(Layout(if header[7] == 95 then 4 else 8, header[8] == 86))
  }

  /** As written, every file that opens is read as 64-bit little-endian. */
  lemma FileLayoutAsWrittenIsFixed(header: seq<byte>)
    requires FileLayoutAsWritten(header).Ok?
    ensures FileLayoutAsWritten(header).value == Layout(8, false)
  {
  }

  /** The header opens exactly when it starts with "BLENDER" and has the two
      layout bytes; the pointer width is 4 exactly when byte 7 is `_`, and the
      file is big-endian exactly when byte 8 is `V`. Both readings accept and
      refuse the same headers. */
  lemma FileLayoutMeaning(header: seq<byte>)
    ensures FileLayout(header).Ok? <==> |header| >= 9 && header[..7] == Magic
    ensures FileLayout(header).Ok? ==>
      && (FileLayout(header).value.ptrSize == 4 <==> header[7] == 95)
      && (FileLayout(header).value.bigEndian <==> header[8] == 86)
    ensures FileLayout(header).Ok? == FileLayoutAsWritten(header).Ok?
  {
  }

  /** "BLENDER_V100", the header of a 32-bit big-endian file: as written it is read
      with 8-byte little-endian integers, as declared with 4-byte big-endian ones. */
  lemma BigEndian32Header()
    ensures var header: seq<byte> := [66, 76, 69, 78, 68, 69, 82, 95, 86, 49, 48, 48];
      && FileLayoutAsWritten(header) == Ok(Layout(8, false))
      && FileLayout(header) == Ok(Layout(4, true))
  {
    var header: seq<byte> := [66, 76, 69, 78, 68, 69, 82, 95, 86, 49, 48, 48];
    assert header[..7] == Magic;
  }

  /** A block header. `sdnaIndex` selects the struct of the schema that the
      block's payload holds `count` of; 0 marks untyped data. */
  datatype BlockHeader = BlockHeader(code: seq<byte>, size: nat, oldPtr: nat, sdnaIndex: nat, count: nat)

  /** `HEADER_SIZE`: four 4-byte fields and one pointer. */
  function HeaderSize(lay: Layout): nat { 16 + lay.ptrSize }

  /** `struct.unpack("4sI" + PTR + "II", ...)`: it needs exactly HEADER_SIZE bytes. */
  function DecodeHeader(b: seq<byte>, lay: Layout): (r: Result<BlockHeader>)
    ensures r.Ok? <==> |b| == HeaderSize(lay)
    ensures r.Ok? ==> |r.value.code| == 4
  {
    if |b| != HeaderSize(lay) then Err(Truncated)
    else
      var p, be := lay.ptrSize, lay.bigEndian;
      Ok(BlockHeader(b[..4], Unpack(b[4..8], be), Unpack(b[8..8 + p], be), Unpack(b[8 + p..12 + p], be),
                     Unpack(b[12 + p..16 + p], be)))
  }

  /** `struct.pack("4sI" + PTR + "II", ...)`. */
  function EncodeHeader(h: BlockHeader, lay: Layout): (r: seq<byte>)
    ensures |r| == |h.code| + HeaderSize(lay) - 4
  {
    var p, be := lay.ptrSize, lay.bigEndian;
    h.code + Pack(h.size, 4, be) + Pack(h.oldPtr, p, be) + Pack(h.sdnaIndex, 4, be) + Pack(h.count, 4, be)
  }

  /** A header whose every field fits its width. */
  predicate Encodable(h: BlockHeader, lay: Layout)
  {
    && |h.code| == 4 && h.size < Pow256(4) && h.oldPtr < Pow256(lay.ptrSize)
    && h.sdnaIndex < Pow256(4) && h.count < Pow256(4)
  }

  /** Packing a header and unpacking it again gives the header back. */
  lemma DecodeOfEncode(h: BlockHeader, lay: Layout)
    requires Encodable(h, lay)
    ensures DecodeHeader(EncodeHeader(h, lay), lay) == Ok(h)
  {
    var p, be := lay.ptrSize, lay.bigEndian;
    var b := EncodeHeader(h, lay);
    assert b[..4] == h.code;
    assert b[4..8] == Pack(h.size, 4, be);
    assert b[8..8 + p] == Pack(h.oldPtr, p, be);
    assert b[8 + p..12 + p] == Pack(h.sdnaIndex, 4, be);
    assert b[12 + p..16 + p] == Pack(h.count, 4, be);
    UnpackOfPack(h.size, 4, be);
    UnpackOfPack(h.oldPtr, p, be);
    UnpackOfPack(h.sdnaIndex, 4, be);
    UnpackOfPack(h.count, 4, be);
  }

  lemma Regroup(a1: seq<byte>, a2: seq<byte>, c: seq<byte>, d1: seq<byte>, d2: seq<byte>)
    ensures (a1 + a2) + c + (d1 + d2) == a1 + a2 + c + d1 + d2
  {
    assert (a1 + a2 + c) + (d1 + d2) == (a1 + a2 + c + d1) + d2;
  }

  /** Unpacking header bytes with the pointer replaced by the value of `chunk`
      and packing them again changes exactly the pointer's bytes, to `chunk`:
      this is the rewritten header of strippointers.py:26-29. */
  lemma EncodeWithPointer(b: seq<byte>, chunk: seq<byte>, lay: Layout)
    requires |b| == HeaderSize(lay) && |chunk| == lay.ptrSize
    ensures var h := DecodeHeader(b, lay).value;
      EncodeHeader(h.(oldPtr := Unpack(chunk, lay.bigEndian)), lay) == b[..8] + chunk + b[8 + lay.ptrSize..]
  {
    var p, be := lay.ptrSize, lay.bigEndian;
    var h := DecodeHeader(b, lay).value;
    assert b[..8] == b[..4] + b[4..8];
    assert b[8 + p..] == b[8 + p..12 + p] + b[12 + p..16 + p];
    Regroup(b[..4], b[4..8], chunk, b[8 + p..12 + p], b[12 + p..16 + p]);
    assert h.code == b[..4];
    PackOfUnpack(b[4..8], be);
    PackOfUnpack(chunk, be);
    PackOfUnpack(b[8 + p..12 + p], be);
    PackOfUnpack(b[12 + p..16 + p], be);
  }

  /** Re-packing the address just read gives its bytes back: what
      strippointers.py:31 writes to the extract stream. */
  lemma PointerBytes(b: seq<byte>, lay: Layout)
    requires |b| == HeaderSize(lay)
    ensures Pack(DecodeHeader(b, lay).value.oldPtr, lay.ptrSize, lay.bigEndian) == b[8..8 + lay.ptrSize]
  {
    PackOfUnpack(b[8..8 + lay.ptrSize], lay.bigEndian);
  }

  /** The address of a header read from `file` at `pos` packs back to the
      pointer bytes of that header in the file. */
  lemma HeaderPointer(h: BlockHeader, lay: Layout, file: seq<byte>, pos: nat)
    requires HeaderAt(file, lay, pos) == Ok(Some(h))
    ensures pos + 8 + lay.ptrSize <= |file|
    ensures Pack(h.oldPtr, lay.ptrSize, lay.bigEndian) == file[pos + 8..pos + 8 + lay.ptrSize]
  {
    var hb := file[pos..pos + HeaderSize(lay)];
    assert h == DecodeHeader(hb, lay).value;
    PointerBytes(hb, lay);
    SliceOfSlice(file, pos, pos + HeaderSize(lay), 8, 8 + lay.ptrSize);
  }

  /** One step of `_all_block_headers` at `pos`: the header there, None at ENDB,
      Truncated when fewer than HEADER_SIZE bytes are left. */
  function HeaderAt(file: seq<byte>, lay: Layout, pos: nat): (r: Result<Option<BlockHeader>>)
    ensures r.Ok? <==> pos + HeaderSize(lay) <= |file|
    ensures r.Ok? && r.value.Some? ==> r.value.value.code != EndCode && |r.value.value.code| == 4
  {
    if pos + HeaderSize(lay) > |file| then Err(Truncated)
    else
      var h := DecodeHeader(file[pos..pos + HeaderSize(lay)], lay).value;
      if h.code == EndCode then Ok(None) else Ok(Some(h))
  }

  /** Where the header after the block at `pos` starts. */
  function NextAt(pos: nat, h: BlockHeader, lay: Layout): (r: nat)
    ensures r >= pos + HeaderSize(lay)
  {
    pos + HeaderSize(lay) + h.size
  }

  /** A measure that every block of the file makes smaller. */
  function Left(file: seq<byte>, pos: nat): nat
  {
    if pos <= |file| then |file| - pos + 1 else 0
  }

  lemma LeftDecreases(file: seq<byte>, lay: Layout, pos: nat, h: BlockHeader)
    requires pos + HeaderSize(lay) <= |file|
    ensures Left(file, NextAt(pos, h, lay)) < Left(file, pos)
  {
  }

  /** A block as the generator yields it, with the position of its header. */
  datatype Block = Block(at: nat, header: BlockHeader)

  /** The blocks the generator yields from `pos`, in file order, and how it
      ended: None at ENDB, the error otherwise. */
  datatype BlockList = BlockList(blocks: seq<Block>, stop: Option<Error>)

  function BlocksFrom(file: seq<byte>, lay: Layout, pos: nat): BlockList
    decreases Left(file, pos)
  {
    match HeaderAt(file, lay, pos)
    case Err(e) => BlockList([], Some(e))
    case Ok(None) => BlockList([], None)
    case Ok(Some(h)) =>
      LeftDecreases(file, lay, pos, h);
      var rest := BlocksFrom(file, lay, NextAt(pos, h, lay));
      BlockList([Block(pos, h)] + rest.blocks, rest.stop)
  }

  /** `_all_block_headers`: from the end of the file header. */
  function Blocks(file: seq<byte>, lay: Layout): BlockList
  {
    BlocksFrom(file, lay, FileHeaderSize)
  }

  /** The headers come in file order, each right after the payload of the one
      before, each a whole HEADER_SIZE bytes inside the file, and none is ENDB. */
  lemma {:induction false} BlocksInOrder(file: seq<byte>, lay: Layout, pos: nat)
    ensures var bs := BlocksFrom(file, lay, pos).blocks;
      && (|bs| > 0 ==> bs[0].at == pos)
      && (forall i :: 0 < i < |bs| ==> bs[i].at == NextAt(bs[i - 1].at, bs[i - 1].header, lay))
      && (forall i :: 0 <= i < |bs| ==> bs[i].at + HeaderSize(lay) <= |file| && bs[i].header.code != EndCode)
    decreases Left(file, pos)
  {
    var r := HeaderAt(file, lay, pos);
    if r.Ok? && r.value.Some? {
      var h := r.value.value;
      LeftDecreases(file, lay, pos, h);
      var next := NextAt(pos, h, lay);
      BlocksInOrder(file, lay, next);
      var rest := BlocksFrom(file, lay, next).blocks;
      var bs := [Block(pos, h)] + rest;
      assert BlocksFrom(file, lay, pos).blocks == bs;
      assert forall i :: 0 < i < |bs| ==> bs[i] == rest[i - 1];
    }
  }

  /** Where the header after the last of `blocks` is expected: `pos` when there are none. */
  function After(blocks: seq<Block>, pos: nat, lay: Layout): nat
  {
    if |blocks| == 0 then pos else NextAt(blocks[|blocks| - 1].at, blocks[|blocks| - 1].header, lay)
  }

  /** The generator stops at ENDB without yielding it: it ends cleanly exactly
      when an ENDB header follows the last block it yields, and otherwise it
      ends because the header there is cut short. */
  lemma {:induction false} BlocksEndAtEndb(file: seq<byte>, lay: Layout, pos: nat)
    ensures var l := BlocksFrom(file, lay, pos);
      && (l.stop.None? <==> HeaderAt(file, lay, After(l.blocks, pos, lay)) == Ok(None))
      && (l.stop.Some? ==> HeaderAt(file, lay, After(l.blocks, pos, lay)) == Err(Truncated) && l.stop == Some(Truncated))
    decreases Left(file, pos)
  {
    var r := HeaderAt(file, lay, pos);
    if r.Ok? && r.value.Some? {
      var h := r.value.value;
      LeftDecreases(file, lay, pos, h);
      var next := NextAt(pos, h, lay);
      BlocksEndAtEndb(file, lay, next);
      var rest := BlocksFrom(file, lay, next);
      assert BlocksFrom(file, lay, pos) == BlockList([Block(pos, h)] + rest.blocks, rest.stop);
      assert After([Block(pos, h)] + rest.blocks, pos, lay) == After(rest.blocks, next, lay);
    } else if r.Err? {
      assert r == Err(Truncated);
    }
  }
}
