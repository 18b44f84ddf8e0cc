/** `BlendFile` (blendinfo.py:46-170): an open .blend file read through a
    cursor. Opening it reads the file header; `scan_dna` walks the blocks to
    find the schema, and `count_id_content` walks them again to count the
    blocks that hold ID datablocks. */
module Blend {
  import opened Errors
  import opened Bytes
  import opened DnaField
  import opened Sdna
  import opened Header

  function Min(a: nat, b: nat): nat { if a <= b then a else b }

  /** Where the cursor is after `file.read(n)` from `pos`: it does not move past
      the end of the file. */
  function AfterRead(file: seq<byte>, pos: nat, n: nat): nat
  {
    if pos >= |file| then pos else Min(pos + n, |file|)
  }

  // ---------------------------------------------------------------------------
  // scan_dna

  /** `scan_dna` from the block header at `pos`, `found` being the schema of the
      last DNA1 block so far: every DNA1 payload is parsed (and a parse error
      ends the scan), every other block is skipped; at ENDB the last schema
      parsed is the result. */
  function ScanFrom(file: seq<byte>, lay: Layout, pos: nat, found: Option<seq<Struct>>): Result<seq<Struct>>
    decreases Left(file, pos), 1
  {
    match HeaderAt(file, lay, pos)
    case Err(e) => Err(e)
    case Ok(None) => if found.None? then Err(NoDna) else Ok(found.value)
    case Ok(Some(h)) =>
      LeftDecreases(file, lay, pos, h);
      if h.code == DnaCode then ScanDna1(file, lay, pos, h)
      else ScanFrom(file, lay, NextAt(pos, h, lay), found)
  }

  /** The scan at a DNA1 block whose header `h` is at `pos`: its payload is
      parsed and becomes the schema found so far. */
  function ScanDna1(file: seq<byte>, lay: Layout, pos: nat, h: BlockHeader): Result<seq<Struct>>
    requires pos + HeaderSize(lay) <= |file|
    decreases Left(file, pos), 0
  {
    LeftDecreases(file, lay, pos, h);
    var types :- Schema(ReadAt(file, pos + HeaderSize(lay), h.size), lay);
    ScanFrom(file, lay, NextAt(pos, h, lay), Some(types))
  }

  function FoundDna(file: seq<byte>, lay: Layout): Result<seq<Struct>>
  {
    ScanFrom(file, lay, FileHeaderSize, None)
  }

  /** The payload of a block as `file.read(size)` gives it. */
  function Payload(file: seq<byte>, b: Block, lay: Layout): seq<byte>
  {
    ReadAt(file, b.at + HeaderSize(lay), b.header.size)
  }

  /** The last DNA1 block of a list, if any. */
  function LastDna(bs: seq<Block>): Option<Block>
  {
    if |bs| == 0 then None
    else if bs[|bs| - 1].header.code == DnaCode then Some(bs[|bs| - 1])
    else LastDna(bs[..|bs| - 1])
  }

  /** The last DNA1 block of `[b] + bs`. */
  lemma {:induction false} LastDnaCons(b: Block, bs: seq<Block>)
    ensures LastDna([b] + bs) == if LastDna(bs).Some? then LastDna(bs) else if b.header.code == DnaCode then Some(b) else None
    decreases |bs|
  {
    var all := [b] + bs;
    if |bs| > 0 {
      assert all[..|all| - 1] == [b] + bs[..|bs| - 1];
      LastDnaCons(b, bs[..|bs| - 1]);
    } else {
      assert all[..|all| - 1] == [];
    }
  }

  /** Scanning from `pos` succeeds only when the block list from `pos` ends at
      ENDB, and its result is the schema of the last DNA1 block of that list;
      with no DNA1 block the schema found before `pos` is kept. */
  lemma {:induction false} ScanFromMeaning(file: seq<byte>, lay: Layout, pos: nat, found: Option<seq<Struct>>)
    requires ScanFrom(file, lay, pos, found).Ok?
    ensures var l := BlocksFrom(file, lay, pos);
      && l.stop.None?
      && match LastDna(l.blocks)
         case Some(b) => Schema(Payload(file, b, lay), lay) == ScanFrom(file, lay, pos, found)
         case None => found == Some(ScanFrom(file, lay, pos, found).value)
    decreases Left(file, pos)
  {
    if HeaderAt(file, lay, pos).value.Some? {
      var h := HeaderAt(file, lay, pos).value.value;
      LeftDecreases(file, lay, pos, h);
      var next := NextAt(pos, h, lay);
      var rest := BlocksFrom(file, lay, next);
      assert BlocksFrom(file, lay, pos).blocks == [Block(pos, h)] + rest.blocks;
      LastDnaCons(Block(pos, h), rest.blocks);
      if h.code == DnaCode {
        assert ScanFrom(file, lay, pos, found) == ScanDna1(file, lay, pos, h);
        var types := Schema(ReadAt(file, pos + HeaderSize(lay), h.size), lay).value;
        ScanFromMeaning(file, lay, next, Some(types));
      } else {
        ScanFromMeaning(file, lay, next, found);
      }
    }
  }

  /** `scan_dna` returns the schema of the last DNA1 block before ENDB. */
  lemma ScanDnaIsLastSchema(file: seq<byte>, lay: Layout)
    requires FoundDna(file, lay).Ok?
    ensures Blocks(file, lay).stop.None?
    ensures LastDna(Blocks(file, lay).blocks).Some?
    ensures Schema(Payload(file, LastDna(Blocks(file, lay).blocks).value, lay), lay) == FoundDna(file, lay)
  {
    ScanFromMeaning(file, lay, FileHeaderSize, None);
  }

  /** With no DNA1 block before ENDB, `scan_dna` fails with "No DNA1 block found". */
  lemma {:induction false} ScanWithoutDna(file: seq<byte>, lay: Layout, pos: nat)
    requires BlocksFrom(file, lay, pos).stop.None?
    requires forall i :: 0 <= i < |BlocksFrom(file, lay, pos).blocks| ==> BlocksFrom(file, lay, pos).blocks[i].header.code != DnaCode
    ensures ScanFrom(file, lay, pos, None) == Err(NoDna)
    decreases Left(file, pos)
  {
    if HeaderAt(file, lay, pos).value.Some? {
      var h := HeaderAt(file, lay, pos).value.value;
      LeftDecreases(file, lay, pos, h);
      var next := NextAt(pos, h, lay);
      var rest := BlocksFrom(file, lay, next).blocks;
      assert BlocksFrom(file, lay, pos).blocks == [Block(pos, h)] + rest;
      assert BlocksFrom(file, lay, pos).blocks[0].header == h;
      forall i | 0 <= i < |rest|
        ensures rest[i].header.code != DnaCode
      {
        assert rest[i] == BlocksFrom(file, lay, pos).blocks[i + 1];
      }
      ScanWithoutDna(file, lay, next);
    }
  }

  lemma ScanStep(file: seq<byte>, lay: Layout, pos: nat, found: Option<seq<Struct>>, h: BlockHeader)
    requires HeaderAt(file, lay, pos) == Ok(Some(h))
    ensures pos + HeaderSize(lay) <= |file|
    ensures ScanFrom(file, lay, pos, found) ==
      if h.code == DnaCode then ScanDna1(file, lay, pos, h) else ScanFrom(file, lay, NextAt(pos, h, lay), found)
  {
  }

  lemma ScanEnd(file: seq<byte>, lay: Layout, pos: nat, found: Option<seq<Struct>>)
    requires HeaderAt(file, lay, pos) == Ok(None)
    ensures ScanFrom(file, lay, pos, found) == if found.None? then Err(NoDna) else Ok(found.value)
  {
  }

  /** Scanning from any two positions past the point where a whole header fits
      gives the same error. */
  lemma ScanPastEnd(file: seq<byte>, lay: Layout, p: nat, q: nat, found: Option<seq<Struct>>)
    requires p + HeaderSize(lay) > |file| && q + HeaderSize(lay) > |file|
    ensures ScanFrom(file, lay, p, found) == ScanFrom(file, lay, q, found) == Err(Truncated)
  {
  }

  // ---------------------------------------------------------------------------
  // count_id_content

  /** The six counters, in the order of the tuple the source returns. */
  datatype Counts = Counts(idBlocks: nat, blocks: nat, idObjects: nat, objects: nat, idBytes: nat, bytes: nat)

  const NoCounts := Counts(0, 0, 0, 0, 0, 0)

  function Plus(a: Counts, b: Counts): Counts
  {
    Counts(a.idBlocks + b.idBlocks, a.blocks + b.blocks, a.idObjects + b.idObjects, a.objects + b.objects,
           a.idBytes + b.idBytes, a.bytes + b.bytes)
  }

  /** A block holds ID datablocks when its SDNA index is not 0, selects a struct
      of the schema, and that struct starts with an `id` field. */
  predicate IsIdBlock(h: BlockHeader, structs: seq<Struct>)
  {
    h.sdnaIndex != 0 && h.sdnaIndex < |structs| && structs[h.sdnaIndex].IsId()
  }

  /** One iteration of `count_id_content`. An SDNA index past the schema is
      skipped with a warning. */
  function CountBlock(c: Counts, h: BlockHeader, structs: seq<Struct>): Counts
  {
    var c := c.(blocks := c.blocks + 1, objects := c.objects + h.count, bytes := c.bytes + h.size);
    if !IsIdBlock(h, structs) then c
    else c.(idBlocks := c.idBlocks + 1, idObjects := c.idObjects + h.count,
            idBytes := c.idBytes + Times(h.count, structs[h.sdnaIndex].size))
  }

  /** The iteration as written: its guard `idx > len(dna_structs)` lets an index
      equal to the schema's length through to `dna_structs[idx]`, an IndexError. */
  function CountBlockAsWritten(c: Counts, h: BlockHeader, structs: seq<Struct>): Result<Counts>
  {
    var c := c.(blocks := c.blocks + 1, objects := c.objects + h.count, bytes := c.bytes + h.size);
    if h.sdnaIndex == 0 || h.sdnaIndex > |structs| then Ok(c)
    else if h.sdnaIndex == |structs| then Err(IndexOutOfRange)
    else if !structs[h.sdnaIndex].IsId() then Ok(c)
    else Ok(c.(idBlocks := c.idBlocks + 1, idObjects := c.idObjects + h.count,
               idBytes := c.idBytes + Times(h.count, structs[h.sdnaIndex].size)))
  }

  /** `count_id_content` from the block header at `pos`, with counters `c` so far. */
  function TallyFrom(file: seq<byte>, lay: Layout, structs: seq<Struct>, pos: nat, c: Counts): Result<Counts>
    decreases Left(file, pos)
  {
    match HeaderAt(file, lay, pos)
    case Err(e) => Err(e)
    case Ok(None) => Ok(c)
    case Ok(Some(h)) =>
      LeftDecreases(file, lay, pos, h);
      TallyFrom(file, lay, structs, NextAt(pos, h, lay), CountBlock(c, h, structs))
  }

  lemma TallyStep(file: seq<byte>, lay: Layout, structs: seq<Struct>, pos: nat, c: Counts, h: BlockHeader)
    requires HeaderAt(file, lay, pos) == Ok(Some(h))
    ensures TallyFrom(file, lay, structs, pos, c) == TallyFrom(file, lay, structs, NextAt(pos, h, lay), CountBlock(c, h, structs))
  {
  }

  function TallyFromAsWritten(file: seq<byte>, lay: Layout, structs: seq<Struct>, pos: nat, c: Counts): Result<Counts>
    decreases Left(file, pos)
  {
    match HeaderAt(file, lay, pos)
    case Err(e) => Err(e)
    case Ok(None) => Ok(c)
    case Ok(Some(h)) =>
      LeftDecreases(file, lay, pos, h);
      var c' :- CountBlockAsWritten(c, h, structs);
      TallyFromAsWritten(file, lay, structs, NextAt(pos, h, lay), c')
  }

  function IdContent(file: seq<byte>, lay: Layout, structs: seq<Struct>): Result<Counts>
  {
    TallyFrom(file, lay, structs, FileHeaderSize, NoCounts)
  }

  /** What one block adds to the counters: to every total, and to the ID
      counters when it holds ID datablocks, `count` structs of the struct's size each. */
  function One(h: BlockHeader, structs: seq<Struct>): Counts
  {
    if IsIdBlock(h, structs) then Counts(1, 1, h.count, h.count, h.count * structs[h.sdnaIndex].size, h.size)
    else Counts(0, 1, 0, h.count, 0, h.size)
  }

  /** The counters over a list of blocks: the sum of what each block adds. */
  function Totals(bs: seq<Block>, structs: seq<Struct>): Counts
  {
    if |bs| == 0 then NoCounts else Plus(One(bs[0].header, structs), Totals(bs[1..], structs))
  }

  /** One iteration of the loop adds exactly what the block contributes. */
  lemma CountBlockIsPlus(c: Counts, h: BlockHeader, structs: seq<Struct>)
    ensures CountBlock(c, h, structs) == Plus(c, One(h, structs))
  {
    if IsIdBlock(h, structs) {
      TimesIsProduct(h.count, structs[h.sdnaIndex].size);
    }
  }

  lemma PlusAssociative(a: Counts, b: Counts, c: Counts)
    ensures Plus(Plus(a, b), c) == Plus(a, Plus(b, c))
  {
  }

  lemma {:induction false} TallyFromIsTotals(file: seq<byte>, lay: Layout, structs: seq<Struct>, pos: nat, c: Counts)
    ensures var l := BlocksFrom(file, lay, pos);
      TallyFrom(file, lay, structs, pos, c) == if l.stop.Some? then Err(l.stop.value) else Ok(Plus(c, Totals(l.blocks, structs)))
    decreases Left(file, pos)
  {
    var r := HeaderAt(file, lay, pos);
    if r.Ok? && r.value.Some? {
      var h := r.value.value;
      LeftDecreases(file, lay, pos, h);
      var next := NextAt(pos, h, lay);
      var c' := CountBlock(c, h, structs);
      TallyStep(file, lay, structs, pos, c, h);
      TallyFromIsTotals(file, lay, structs, next, c');
      var rest := BlocksFrom(file, lay, next);
      var all := [Block(pos, h)] + rest.blocks;
      assert BlocksFrom(file, lay, pos) == BlockList(all, rest.stop);
      assert all[1..] == rest.blocks;
      assert Totals(all, structs) == Plus(One(h, structs), Totals(rest.blocks, structs));
      CountBlockIsPlus(c, h, structs);
      PlusAssociative(c, One(h, structs), Totals(rest.blocks, structs));
    } else if r.Ok? {
      assert BlocksFrom(file, lay, pos) == BlockList([], None);
      assert Plus(c, NoCounts) == c;
    } else {
      assert BlocksFrom(file, lay, pos) == BlockList([], Some(r.error));
    }
  }

  /** `count_id_content` counts every block before ENDB in its totals and only
      the ID blocks in its ID counters, so the ID counters never exceed the totals. */
  lemma {:induction false} TotalsBounds(bs: seq<Block>, structs: seq<Struct>)
    ensures var t := Totals(bs, structs);
      t.blocks == |bs| && t.idBlocks <= t.blocks && t.idObjects <= t.objects
  {
    if |bs| > 0 {
      TotalsBounds(bs[1..], structs);
    }
  }

  lemma CountIdContentMeaning(file: seq<byte>, lay: Layout, structs: seq<Struct>)
    requires IdContent(file, lay, structs).Ok?
    ensures var l := Blocks(file, lay);
      var c := IdContent(file, lay, structs).value;
      && l.stop.None? && c == Totals(l.blocks, structs)
      && c.blocks == |l.blocks| && c.idBlocks <= c.blocks && c.idObjects <= c.objects
  {
    TallyFromIsTotals(file, lay, structs, FileHeaderSize, NoCounts);
    TotalsBounds(Blocks(file, lay).blocks, structs);
    assert Plus(NoCounts, Totals(Blocks(file, lay).blocks, structs)) == Totals(Blocks(file, lay).blocks, structs);
  }

  /** The corrected guard never indexes past the schema: counting fails only
      where the block list itself does. */
  lemma {:induction false} TallyNeverOutOfRange(file: seq<byte>, lay: Layout, structs: seq<Struct>, pos: nat, c: Counts)
    ensures TallyFrom(file, lay, structs, pos, c).Err? ==> TallyFrom(file, lay, structs, pos, c) == Err(Truncated)
    decreases Left(file, pos)
  {
    var r := HeaderAt(file, lay, pos);
    if r.Ok? && r.value.Some? {
      var h := r.value.value;
      LeftDecreases(file, lay, pos, h);
      TallyNeverOutOfRange(file, lay, structs, NextAt(pos, h, lay), CountBlock(c, h, structs));
    }
  }

  /** As written, a first block whose SDNA index equals the number of structs
      stops the count with an IndexError, where the corrected guard skips it. */
  lemma GuardLetsLengthThrough(file: seq<byte>, lay: Layout, structs: seq<Struct>)
    requires HeaderAt(file, lay, FileHeaderSize).Ok? && HeaderAt(file, lay, FileHeaderSize).value.Some?
    requires HeaderAt(file, lay, FileHeaderSize).value.value.sdnaIndex == |structs| > 0
    ensures TallyFromAsWritten(file, lay, structs, FileHeaderSize, NoCounts) == Err(IndexOutOfRange)
    ensures var h := HeaderAt(file, lay, FileHeaderSize).value.value;
      CountBlock(NoCounts, h, structs) == Counts(0, 1, 0, h.count, 0, h.size)
  {
  }

  /** Where the as-written guard lets nothing through, the two counts agree. */
  lemma {:induction false} TallyAsWrittenAgrees(file: seq<byte>, lay: Layout, structs: seq<Struct>, pos: nat, c: Counts)
    requires forall i :: 0 <= i < |BlocksFrom(file, lay, pos).blocks| ==>
      BlocksFrom(file, lay, pos).blocks[i].header.sdnaIndex != |structs|
    ensures TallyFromAsWritten(file, lay, structs, pos, c) == TallyFrom(file, lay, structs, pos, c)
    decreases Left(file, pos)
  {
    var r := HeaderAt(file, lay, pos);
    if r.Ok? && r.value.Some? {
      var h := r.value.value;
      LeftDecreases(file, lay, pos, h);
      var next := NextAt(pos, h, lay);
      var rest := BlocksFrom(file, lay, next).blocks;
      assert BlocksFrom(file, lay, pos).blocks == [Block(pos, h)] + rest;
      assert BlocksFrom(file, lay, pos).blocks[0].header == h;
      forall i | 0 <= i < |rest|
        ensures rest[i].header.sdnaIndex != |structs|
      {
        assert rest[i] == BlocksFrom(file, lay, pos).blocks[i + 1];
      }
      TallyAsWrittenAgrees(file, lay, structs, next, CountBlock(c, h, structs));
    }
  }

  // ---------------------------------------------------------------------------
  // The file object

  class BlendFile {
    /** The bytes of the file. Only the pointer patcher writes them, and it
        never changes their number. */
    var contents: seq<byte>
    /** The file cursor. It may lie past the end after a relative seek. */
    var pos: nat
    /** PTR_SIZE and EF, fixed by the file header. */
    const lay: Layout

    /** The first twelve bytes, or fewer in a shorter file. */
    static function FirstBytes(contents: seq<byte>): seq<byte>
    {
      ReadAt(contents, 0, FileHeaderSize)
    }

    /** The object `BlendFile.__init__` leaves once the header has been read. */
    constructor (contents: seq<byte>, lay: Layout)
      requires FileLayout(FirstBytes(contents)) == Ok(lay)
      ensures this.contents == contents && this.lay == lay && pos == |FirstBytes(contents)|
    {
      this.contents := contents;
      this.lay := lay;
      this.pos := |FirstBytes(contents)|;
    }

    /** `BlendFile(file)`: reads the 12-byte header and refuses a file that does
        not start with "BLENDER". */
    static method Open(contents: seq<byte>) returns (r: Result<BlendFile>)
      ensures r.Err? <==> FileLayout(FirstBytes(contents)).Err?
      ensures r.Err? ==> r.error == FileLayout(FirstBytes(contents)).error
      ensures r.Ok? ==> && fresh(r.value) && r.value.contents == contents
                        && r.value.lay == FileLayout(FirstBytes(contents)).value
                        && r.value.pos == |FirstBytes(contents)|
    {
      var header := FirstBytes(contents);
      if |header| < 7 || header[..7] != Magic {
        return Err(BadMagic);
      }
      if |header| < 9 {
        return Err(IndexOutOfRange);
      }
      var ptrSize: PtrSize := if header[7] == 95 then 4 else 8;
      var bigEndian := header[8] == 86;
      var f := new BlendFile(contents, Layout(ptrSize, bigEndian));
      r := Ok(f);
    }

    /** `self.file.read(n)`. */
    method Read(n: nat) returns (b: seq<byte>)
      modifies this
      ensures contents == old(contents)
      ensures b == ReadAt(contents, old(pos), n) && pos == AfterRead(contents, old(pos), n)
    {
      b := ReadAt(contents, pos, n);
      pos := AfterRead(contents, pos, n);
    }

    /** `self.file.seek(n, 1)`. */
    method Skip(n: nat)
      modifies this
      ensures contents == old(contents) && pos == old(pos) + n
    {
      pos := pos + n;
    }

    /** `self.file.seek(-len(b), 1)` followed by `self.file.write(b)`: the bytes
        just read are overwritten, and the cursor ends where it was. */
    method WriteBack(b: seq<byte>)
      requires |b| <= pos <= |contents|
      modifies this
      ensures pos == old(pos)
      ensures contents == old(contents[..pos - |b|]) + b + old(contents[pos..])
    {
      contents := contents[..pos - |b|] + b + contents[pos..];
    }

    /** One step of the `_all_block_headers` generator: reads HEADER_SIZE bytes
        and unpacks them; None at ENDB. */
    method NextHeader() returns (r: Result<Option<BlockHeader>>)
      modifies this
      ensures contents == old(contents)
      ensures r == HeaderAt(contents, lay, old(pos))
      ensures r.Ok? ==> pos == old(pos) + HeaderSize(lay)
    {
      var b := Read(HeaderSize(lay));
      var h := DecodeHeader(b, lay);
      if h.Err? {
        return Err(h.error);
      }
      if h.value.code == EndCode {
        return Ok(None);
      }
      r := Ok(Some(h.value));
    }

    /** The DNA1 branch of `scan_dna`'s loop, after the header `hd` read at
        `at`: the payload is read and parsed. The scan goes on from the cursor
        it leaves with the schema it returns. */
    method ReadDna1(ghost at: nat, hd: BlockHeader) returns (r: Result<seq<Struct>>)
      requires at + HeaderSize(lay) <= |contents| && pos == at + HeaderSize(lay)
      modifies this
      ensures contents == old(contents)
      ensures Left(contents, pos) < Left(contents, at)
      ensures r.Err? ==> ScanDna1(contents, lay, at, hd) == Err(r.error)
      ensures r.Ok? ==> ScanDna1(contents, lay, at, hd) == ScanFrom(contents, lay, pos, Some(r.value))
    {
      LeftDecreases(contents, lay, at, hd);
      var data := Read(hd.size);
      r := ParseDna1(data, lay);
      if r.Ok? && pos != NextAt(at, hd, lay) {
        ScanPastEnd(contents, lay, pos, NextAt(at, hd, lay), Some(r.value));
      }
    }

    /** `scan_dna`. */
    method ScanDna() returns (r: Result<seq<Struct>>)
      modifies this
      ensures contents == old(contents)
      ensures r == FoundDna(contents, lay)
    {
      ghost var file := contents;
      ghost var goal := FoundDna(file, lay);
      pos := FileHeaderSize;
      var types: Option<seq<Struct>> := None;
      while true
        invariant contents == file
        invariant ScanFrom(file, lay, pos, types) == goal
        decreases Left(file, pos)
      {
        ghost var at := pos;
        var h := NextHeader();
        if h.Err? {
          return Err(h.error);
        }
        if h.value.None? {
          ScanEnd(file, lay, at, types);
          break;
        }
        var hd := h.value.value;
        LeftDecreases(file, lay, at, hd);
        ScanStep(file, lay, at, types, hd);
        if hd.code == DnaCode {
          var parsed := ReadDna1(at, hd);
          if parsed.Err? {
            return Err(parsed.error);
          }
          types := Some(parsed.value);
        } else {
          Skip(hd.size);
          assert pos == NextAt(at, hd, lay);
        }
      }
      if types.None? {
        return Err(NoDna);
      }
      r := Ok(types.value);
    }

    /** `count_id_content`, with the guard that skips every SDNA index past the schema. */
    method CountIdContent(structs: seq<Struct>) returns (r: Result<Counts>)
      modifies this
      ensures contents == old(contents)
      ensures r == IdContent(contents, lay, structs)
    {
      ghost var file := contents;
      ghost var goal := IdContent(file, lay, structs);
      pos := FileHeaderSize;
      var c := NoCounts;
      while true
        invariant contents == file
        invariant TallyFrom(file, lay, structs, pos, c) == goal
        decreases Left(file, pos)
      {
        ghost var at := pos;
        var h := NextHeader();
        if h.Err? {
          return Err(h.error);
        }
        if h.value.None? {
          break;
        }
        var hd := h.value.value;
        LeftDecreases(file, lay, at, hd);
        TallyStep(file, lay, structs, at, c, hd);
        ghost var next := CountBlock(c, hd, structs);
        Skip(hd.size);
        assert pos == NextAt(at, hd, lay);
        c := c.(blocks := c.blocks + 1, objects := c.objects + hd.count, bytes := c.bytes + hd.size);
        if hd.sdnaIndex == 0 {
          assert c == next;
          continue;
        }
        if hd.sdnaIndex >= |structs| {
          assert c == next;
          continue;
        }
        var s := structs[hd.sdnaIndex];
        if !s.IsId() {
          assert c == next;
          continue;
        }
        TimesIsProduct(hd.count, s.size);
        c := c.(idBlocks := c.idBlocks + 1, idObjects := c.idObjects + hd.count,
                idBytes := c.idBytes + hd.count * s.size);
        assert c == next;
      }
      r := Ok(c);
    }
  }
}
