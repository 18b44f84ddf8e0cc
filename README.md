# blendinfo in Dafny

This project models the core of `blendinfo`, a reader and patcher for Blender `.blend` files.

A `.blend` file is a 12-byte file header followed by a sequence of blocks. Each block carries:

- a header: a 4-byte code, the payload size, the block's old memory address, an SDNA index and a struct count;
- its payload.

The last block is `ENDB`. One block, `DNA1`, holds the "SDNA": the schema of every struct the other blocks are made of.

The model covers:

- **Field declarations** (`DNAField.__init__`, module `DnaField`). A raw declaration such as `*next`, `mat[4][4]` or `*ptrs[2]` is read into its dimensions, its byte size and its pointer flag.
  - The imperative loop is `NewField`. It is proved equal to the recursive specification `FieldOf`.
  - Lemmas state the meaning of `FieldOf`:
    - dimensions are listed left to right;
    - the size is the type length times their product;
    - a name starting with `*` has exactly the pointer width, whatever its dimensions.
- **The SDNA decoder** (`_parse_dna1`, module `Sdna`). It reads four tables:
  - NAME and TYPE: a count, then NUL-terminated ASCII strings, then alignment to 4;
  - TLEN: one u16 length per type;
  - STRC: per struct, a `(type, count)` pair and then the field entries.

  Each loop of the source is a method, proved equal to a recursive function. Lemmas state what the functions mean:
  - the string tables hold exactly their declared count;
  - field offsets are contiguous from 0;
  - pointer fields have the pointer width;
  - a struct's name and size come from the type table;
  - `is_id` holds exactly when the first field entry names the declaration `id`.
- **The file and its block stream** (`BlendFile`, modules `Header` and `Blend`).
  - The file header fixes the pointer width and byte order.
  - `_all_block_headers` becomes the pure stream `BlocksFrom`: blocks in file order, each `16 + PTR_SIZE` bytes of header, ending at the first `ENDB`.
  - `scan_dna` and `count_id_content` are methods of the `BlendFile` class, which holds the bytes and a cursor. Each is proved equal to a function over the block stream.
  - Lemmas state that `scan_dna` returns the schema of the last `DNA1` block, or fails without one.
  - Lemmas state that `count_id_content` returns the sums over the blocks, with the ID counters bounded by the totals.
- **Pointer stripping** (`StripBlendFile.replace_pointers`, modules `PointerWalk`, `PointerSlots`, `PointerCount`, `PointerLocal`, `PointerProps` and `Strip`).
  - One forward pass visits every pointer chunk:
    - the address in each block header;
    - then, in every element of a typed block, each pointer field in declaration order, descending into embedded struct fields.
  - At each chunk the pass copies the bytes to an extract stream, or overwrites them from a restore stream, or both: extraction reads the original bytes first.
  - `Strip` is the class `BlendFile` with its cursor, the restore `Source`, the extract `Sink` and an `array` buffer per element that is patched in place and written back. Each of its methods is proved equal to a function of `PointerWalk`.
  - Over those functions the model proves:
    - in extract-only mode, the extract stream is the file's bytes gathered at a list of slots, the pointer chunks in visiting order (`PointerSlots.Extract`);
    - in extract-only mode, the number of values extracted (`PointerCount.ExtractCount`);
    - restoring changes no byte outside those slots and never changes the file's length; extract-only mode never writes;
    - with a restore stream, whether or not there is also an extract stream, over slots that share no byte (`PointerRestore.Restore`):
      - the pass takes one pointer per slot off the front of the stream and leaves those pointers in the slots, in visiting order;
      - it sends what the slots held to the extract stream;
      - the blocks and slots of the file stay where they were;
    - restoring from exactly what an extraction produced gives back the file unchanged and consumes exactly that stream;
    - stripping with any replacement pointers and then restoring from what was extracted gives back the original file (`PointerRestore.StripThenRestore`).
  - For the restore results the pass is restated as a flat program over the slots (module `PointerExec`): the pointer chunks are visited in order, each one extracted and then overwritten from the restore stream. `PointerRestore` proves the pass equal to that program.

The pointer width and byte order are an explicit `Layout` for everything downstream of the file header. The as-written header rule is stated separately (see Findings). Strings are `seq<char>` decoded from bytes; bytes are a `byte` newtype. The file is a `seq<byte>` in the `BlendFile` object, and the streams are byte sequences.

## Model

| member | source | states |
|---|---|---|
| Bytes.UnpackOfPack | blendinfo.py:64-65 | decoding the n-byte encoding of a value that fits in n bytes gives the value back, in either byte order |
| Bytes.PackOfUnpack | blendinfo.py:64-65 | encoding a decoded byte string in the same width and byte order gives the same bytes |
| Bytes.UnpackBound | blendinfo.py:64-65 | an n-byte unsigned value is below 256^n |
| Bytes.Pack | blendinfo.py:64-65 | `struct.pack` of an n-byte integer gives exactly n bytes |
| DnaField.IndexOf | blendinfo.py:18-19 | a found index holds the character, and no index means the character does not occur |
| DnaField.NewField | blendinfo.py:11-28 | the while loop over trailing `]` returns exactly `FieldOf`: the declaration's dims, size and pointer flag, or BadDeclaration where `index` or `int` raise |
| DnaField.CutBracket | blendinfo.py:18-23 | one loop pass shortens the name |
| DnaField.CutBracketFound | blendinfo.py:18-23 | with `[` first at `open`, `]` first at `close` and decimal digits between, one pass yields that number and the name with `[..]` cut out |
| DnaField.StripDimsStep | blendinfo.py:17-23 | a name ending in `]` yields the dimension cut off first, then the dims of the rest |
| DnaField.StripDimsMore | blendinfo.py:17-23 | the loop invariant: dims read so far, followed by the dims of what is left |
| DnaField.NoOpenBracket | blendinfo.py:17-18 | a name ending in `]` without `[` is rejected (ValueError from `index`) |
| DnaField.NoNumber | blendinfo.py:17-20 | a bracket pair that does not hold decimal digits is rejected (ValueError from `int`) |
| DnaField.NoMoreBrackets | blendinfo.py:17 | once the name no longer ends in `]`, the dims read so far and that name are the result |
| DnaField.ParseDecimalOfDecimal | blendinfo.py:20 | `int` reads back the decimal digits of any natural number |
| DnaField.CutOneBracket | blendinfo.py:18-23 | for `core[n]tail` with no bracket in `core`, one pass yields n and `core + tail` |
| DnaField.StripOneBracket | blendinfo.py:17-23 | `core[n]tail` yields n followed by the dims of `core + tail` |
| DnaField.StripDimsPlain | blendinfo.py:17 | a name without brackets has no dims and stays as it is |
| DnaField.StripDimsOfBrackets | blendinfo.py:17-23 | `core[d0][d1]...` yields exactly the dims d0, d1, ... left to right, and the core name |
| DnaField.ScaledIsProduct | blendinfo.py:15-22 | the size accumulated by `size *= dim` is the type length times the product of the dims |
| DnaField.ScaledAppend | blendinfo.py:21-22 | appending a dimension multiplies the size by it |
| DnaField.FieldOfStripped | blendinfo.py:15-28 | the field keeps name, offset and type, takes the dims read off, and is a pointer of pointer width iff the stripped name starts with `*`, else type length times the dims |
| DnaField.FieldFromMeaning | blendinfo.py:15-28 | every field produced has the dims of its declaration, the pointer flag of its stripped name, and size ptr_size for a pointer, else type length times product of dims |
| DnaField.PointerDeclaration | blendinfo.py:24-26 | `*core` with any dims is a pointer of exactly ptr_size bytes, whatever the type length and dims |
| DnaField.ValueDeclaration | blendinfo.py:15-28 | a non-pointer declaration `core[d0]..` has dims d0.. and size type length times their product; without brackets the size is the type length |
| Sdna.Align4 | blendinfo.py:128 | the rounded offset is a multiple of 4, at least the offset and less than 4 past it |
| Sdna.Word | blendinfo.py:145 | an unsigned word is read iff its bytes are all there, and it fits its width |
| Sdna.WordOfPack | blendinfo.py:145 | a word stored with `Pack` reads back as the value |
| Sdna.Pair | blendinfo.py:156 | a `HH` pair is read iff four bytes are there |
| Sdna.FindNul | blendinfo.py:123 | a found position is at or after the start and holds NUL |
| Sdna.FindNulFirst | blendinfo.py:123 | no NUL lies between the start and the position found |
| Sdna.AsciiText | blendinfo.py:124 | decoded text has one character per byte |
| Sdna.AsciiTextChars | blendinfo.py:124 | each decoded character is its byte, and every byte is below 128 |
| Sdna.CStrings | blendinfo.py:122-126 | `num` strings read give exactly `num` names; the end lies at least one byte per string (its NUL) further on and, when num > 0, inside the data |
| Sdna.CStringsStep | blendinfo.py:122-126 | one loop iteration: NUL search, ASCII decode, then the remaining strings |
| Sdna.CStringsMeaning | blendinfo.py:122-126 | n decoded strings lie in the bytes one after the other, each NUL-terminated, and reading ends after the last NUL |
| Sdna.CStringsOfTable | blendinfo.py:122-126 | conversely, bytes laid out as such a table decode to exactly those strings |
| Sdna.ReadCStrings | blendinfo.py:122-126 | the NAME/TYPE loop returns exactly `CStrings` |
| Sdna.StringTableMeaning | blendinfo.py:119-128 | a decoded NAME or TYPE table holds exactly as many strings as its count word, laid out from offset 8, and the next section starts at the 4-aligned end |
| Sdna.StringTableOf | blendinfo.py:119-128 | a count word followed by a laid-out table decodes to exactly that table |
| Sdna.ReadStringTable | blendinfo.py:119-128 | the method returns exactly `StringTable` |
| Sdna.WithLengths | blendinfo.py:144-147 | the TLEN pass keeps one entry per type, and reads 2 bytes per type |
| Sdna.WithLengthsAt | blendinfo.py:144-147 | type i keeps its name and gets the i-th u16 of TLEN as its length |
| Sdna.ReadLengths | blendinfo.py:144-147 | the TLEN loop, overwriting `types[i]` in place, returns exactly `WithLengths` |
| Sdna.ReadLengthTable | blendinfo.py:141-149 | the method returns exactly `LengthTable` |
| Sdna.DeclarationsDeclared | blendinfo.py:163-164 | every entry of the name table is read off as a declaration |
| Sdna.ReadField | blendinfo.py:162-167 | one field entry: names before types looked up, IndexOutOfRange past either table, the field at the running offset |
| Sdna.Fields | blendinfo.py:161-167 | `nfields` entries give exactly `nfields` fields, 4 bytes each |
| Sdna.FieldsStep | blendinfo.py:161-167 | one field iteration appends the field and moves the running offset by its size |
| Sdna.ReadFields | blendinfo.py:161-167 | the field loop returns exactly `Fields` |
| Sdna.FieldsLayout | blendinfo.py:159-167 | the fields of a struct are contiguous from offset 0, pointers have the pointer width, and each field's type length comes from the type table |
| Sdna.StructAtMeaning | blendinfo.py:156-168 | a struct's name and size are those of `types[typeidx]` (not a sum of its fields), it has `nfields` fields, and the next struct starts after its entries |
| Sdna.StructIsId | blendinfo.py:40 | `is_id` holds iff the struct has a field and its first entry's name index picks the declaration `id` |
| Sdna.ReadStruct | blendinfo.py:156-168 | one struct iteration returns exactly `StructAt` |
| Sdna.StructsStep | blendinfo.py:155-169 | one struct iteration appends the struct and goes on after its entries |
| Sdna.Structs | blendinfo.py:155-169 | `num` struct entries give exactly `num` structs |
| Sdna.ReadStructs | blendinfo.py:155-169 | the STRC loop returns exactly `Structs` |
| Sdna.StructsLayout | blendinfo.py:155-169 | every struct decoded has contiguous fields from 0 and pointer-width pointers |
| Sdna.StructTableLayout | blendinfo.py:151-170 | the same for the STRC table |
| Sdna.ReadStructTable | blendinfo.py:151-170 | the method returns exactly `StructTable` |
| Sdna.SchemaLayout | blendinfo.py:113-170 | every struct of a decoded schema has contiguous fields from 0 and pointer-width pointers |
| Sdna.ParseDna1 | blendinfo.py:113-170 | `_parse_dna1` returns exactly `Schema`: the four sections in order, each tag skipped unread |
| Header.ReadAt | blendinfo.py:73 | a read returns the bytes there when they are all there, and never more than asked |
| Header.FileLayoutAsWrittenIsFixed | blendinfo.py:50-56 | as written, every header that opens gives 8-byte little-endian pointers |
| Header.FileLayoutMeaning | blendinfo.py:50-56 | the corrected header rule accepts exactly the headers that start with BLENDER and have at least 9 bytes; `_` means 4-byte pointers and `V` means big-endian; it accepts the same headers as the as-written rule |
| Header.BigEndian32Header | blendinfo.py:52-53 | for `BLENDER_V100` the as-written rule gives 8/little-endian, and the corrected one gives 4/big-endian |
| Header.DecodeHeader | blendinfo.py:74-75 | `4sI` + PTR + `II` decodes iff exactly HEADER_SIZE bytes are given, with a 4-byte code |
| Header.DecodeOfEncode | strippointers.py:27 | decoding a packed header gives the header back |
| Header.EncodeHeader | strippointers.py:27 | `pack("4sI" + PTR + "II", ...)` of a 4-byte code gives HEADER_SIZE bytes |
| Header.EncodeWithPointer | strippointers.py:26-29 | re-packing a header with a new address changes only the PTR_SIZE bytes at offset 8 |
| Header.PointerBytes | strippointers.py:31 | packing the decoded address gives back the address bytes of the header |
| Header.HeaderPointer | strippointers.py:31 | the same for a header read at a position of the file |
| Header.HeaderAt | blendinfo.py:73-77 | a header is read iff HEADER_SIZE bytes are there; a yielded header is never ENDB |
| Header.NextAt | blendinfo.py:87 | the next header lies at least HEADER_SIZE past this one |
| Header.BlocksInOrder | blendinfo.py:70-78 | headers are yielded in file order, each right after the previous payload, each complete and none of them ENDB |
| Header.BlocksEndAtEndb | blendinfo.py:72-77 | the stream ends cleanly iff an ENDB header follows the last block, and otherwise with Truncated |
| Blend.BlendFile.Open | blendinfo.py:47-56 | opening fails iff the corrected header rule fails, with its error; otherwise the object holds the file, its layout and a cursor after the header |
| Blend.BlendFile.constructor | blendinfo.py:47-56 | the object holds the contents, the layout and the cursor after the header |
| Blend.BlendFile.Read | blendinfo.py:84 | `read(n)` returns the bytes at the cursor and advances it, never past the end |
| Blend.BlendFile.Skip | blendinfo.py:87 | `seek(n, 1)` moves the cursor by n |
| Blend.BlendFile.WriteBack | strippointers.py:62-63 | `seek(-len(b), 1)` and `write(b)` replace the bytes just before the cursor and leave it in place |
| Blend.BlendFile.NextHeader | blendinfo.py:73-77 | one generator step returns the header at the cursor (None at ENDB) and moves past it |
| Blend.BlendFile.ReadDna1 | blendinfo.py:83-85 | reading and parsing a DNA1 payload continues the scan as `ScanDna1` does |
| Blend.BlendFile.ScanDna | blendinfo.py:80-90 | the method returns exactly `FoundDna` and leaves the bytes alone |
| Blend.ScanStep | blendinfo.py:82-87 | a DNA1 block is parsed, any other is skipped |
| Blend.ScanEnd | blendinfo.py:88-90 | at ENDB the last schema found is returned, and without one NoDna |
| Blend.ScanPastEnd | blendinfo.py:73-75 | a header cut short ends the scan with Truncated |
| Blend.ScanFromMeaning | blendinfo.py:80-90 | a successful scan saw a complete stream and returns the schema of the last DNA1 block |
| Blend.ScanDnaIsLastSchema | blendinfo.py:80-90 | `scan_dna` succeeds only on a complete stream with a DNA1 block, and returns the schema of the last one |
| Blend.ScanWithoutDna | blendinfo.py:88-89 | a complete stream without DNA1 fails with NoDna |
| Blend.TallyStep | blendinfo.py:94-109 | one loop iteration adds the block to the counters |
| Blend.CountBlockIsPlus | blendinfo.py:95-109 | a block always adds 1, count and size to the totals, and adds to the ID counters only if its index is not 0, names a struct and that struct is ID |
| Blend.TallyFromIsTotals | blendinfo.py:94-111 | the loop's result is the sum of the blocks' contributions, or the stream's error |
| Blend.TotalsBounds | blendinfo.py:96-109 | the totals count every block, and the ID counters never exceed them |
| Blend.CountIdContentMeaning | blendinfo.py:92-111 | `count_id_content` counts every block of a complete stream, with ndatablocks <= total and nobjs <= total |
| Blend.BlendFile.CountIdContent | blendinfo.py:92-111 | the method returns exactly `IdContent` and leaves the bytes alone |
| Blend.TallyNeverOutOfRange | blendinfo.py:101-104 | with the corrected guard the count fails only on a truncated stream |
| Blend.GuardLetsLengthThrough | blendinfo.py:101-104 | a block with index == len(structs) makes the as-written count fail with IndexOutOfRange, while the corrected count skips it |
| Blend.TallyAsWrittenAgrees | blendinfo.py:101-104 | without a block of index len(structs), the as-written and corrected counts agree |
| PointerWalk.IndexByName | strippointers.py:20-22 | every index of the map points into the struct list |
| PointerWalk.IndexByNameKeys | strippointers.py:20-22 | a name is a key iff some struct carries it |
| PointerWalk.IndexByNameLast | strippointers.py:20-22 | a name maps to the last struct carrying it |
| PointerWalk.Splice | strippointers.py:47 | a slice assignment of a same-length chunk keeps the buffer length |
| PointerWalk.Visit | strippointers.py:43-48 | one pointer chunk keeps the buffer's length, only appends to the extract stream, and leaves the buffer and the missing restore stream alone in extract-only mode |
| PointerWalk.InFields | strippointers.py:41-52 | the same three facts for the walk over a struct's fields |
| PointerWalk.InField | strippointers.py:42-52 | the same three facts for one field |
| PointerWalk.Element | strippointers.py:56-63 | the same three facts for one element read, walked and written back |
| PointerWalk.ElementWalked | strippointers.py:56-63 | an element's walk runs on its own bytes and, with a restore stream, is spliced back where they were read |
| PointerWalk.Elements | strippointers.py:55-63 | the same three facts for the elements of a block |
| PointerWalk.ElementsNext | strippointers.py:55 | the elements are walked first to last, the first stop ending the loop |
| PointerWalk.RestoreAddress | strippointers.py:25-29 | restoring a header address keeps the file's length and the extract stream, and does nothing without a restore stream |
| PointerWalk.HeaderStep | strippointers.py:25-31 | the header address step keeps the length, only appends, and writes nothing in extract-only mode |
| PointerWalk.StripBlock | strippointers.py:24-63 | the same three facts for one block |
| PointerWalk.StripFrom | strippointers.py:24 | the same three facts for the rest of the blocks |
| PointerWalk.StripFromStep | strippointers.py:24 | at a block header, the loop handles that block and goes on after it |
| PointerWalk.StripFromEnd | strippointers.py:24 | the loop ends at ENDB, or with the error of a header cut short |
| PointerWalk.Strip | strippointers.py:14-63 | `replace_pointers` never changes the file's length, never writes the file in extract-only mode, and only appends to the extract stream |
| PointerWalk.StripAsWritten | strippointers.py:26-31 | as written, the pass never writes the file |
| PointerSlots.GatherAppend | strippointers.py:31 | gathering two slot lists one after the other is gathering their concatenation |
| PointerSlots.FieldsWithin | strippointers.py:41-52 | every pointer chunk of a struct's walk lies inside its element |
| PointerSlots.FieldWithin | strippointers.py:42-52 | the same for one field, sub-structs and arrays unfolded |
| PointerSlots.ElementsWithin | strippointers.py:55-63 | every pointer chunk of the elements of a block lies inside the file |
| PointerSlots.BlockWithin | strippointers.py:24-63 | every pointer chunk of a block, its header's address included, lies inside the file, when the block's header does |
| PointerSlots.FileWithin | strippointers.py:24-63 | every pointer chunk of the blocks from a position lies inside the file |
| PointerSlots.SlotsWithin | strippointers.py:24-63 | every pointer chunk of the file lies inside the file |
| PointerSlots.PointerExtract | strippointers.py:44-45 | a pointer field writes its own bytes to the extract stream |
| PointerSlots.FieldExtract | strippointers.py:42-52 | a field's walk extracts the bytes at its slots |
| PointerSlots.FieldsExtract | strippointers.py:41-52 | a struct's walk extracts the bytes at its slots, in declaration order, depth-first |
| PointerSlots.ElementExtract | strippointers.py:56-60 | one element extracts the bytes at its slots |
| PointerSlots.ElementsExtract | strippointers.py:55-63 | a block's elements extract their slots in order 0..cnt-1 |
| PointerSlots.ElementsOnExtract | strippointers.py:55-63 | after a complete first element, the others follow it |
| PointerSlots.HeaderExtract | strippointers.py:30-31 | the header step extracts the PTR_SIZE address bytes at offset 8 of the header |
| PointerSlots.TypedBlockExtract | strippointers.py:24-63 | a typed block extracts its header address, then its elements' slots |
| PointerSlots.BlockExtract | strippointers.py:24-63 | any block extracts its header address, and for a typed block then its elements' slots |
| PointerSlots.FromExtract | strippointers.py:24-63 | the blocks from a position extract the bytes at their slots, in file order |
| PointerSlots.Extract | strippointers.py:14-63 | extract-only mode appends to the stream exactly the file's bytes at the pointer chunks, in visiting order, and stops where the walk stops |
| PointerCount.GatherLength | strippointers.py:31 | gathering slots of width p yields p bytes per slot |
| PointerCount.FieldsSized | strippointers.py:41-52 | every slot of a struct's walk is PTR_SIZE wide |
| PointerCount.FieldSized | strippointers.py:42-52 | the same for one field, sub-structs and arrays unfolded |
| PointerCount.ElementsSized | strippointers.py:55-63 | the same for a block's elements |
| PointerCount.BlockSized | strippointers.py:24-63 | the same for one block |
| PointerCount.FileSized | strippointers.py:24-63 | the same for the blocks from a position |
| PointerCount.FieldsCounted | strippointers.py:41-52 | a completed struct walk has as many slots as the recursive pointer count of its fields |
| PointerCount.FieldCounted | strippointers.py:42-52 | the same for one field: 1 for a pointer, the struct's count for an embedded struct, else 0 |
| PointerCount.ElementsCounted | strippointers.py:55-63 | a completed block walk has cnt times the struct's pointer count slots |
| PointerCount.BlockCounted | strippointers.py:24-63 | one block contributes 1 + cnt times the pointer count of its struct when typed, else 1 |
| PointerCount.FileCounted | strippointers.py:24-63 | a completed walk has as many slots as the blocks' values, over a complete stream |
| PointerCount.ExtractCount | strippointers.py:24-56 | the extract stream receives PTR_SIZE bytes for each block and, per typed block, for cnt times its struct's pointer count |
| PointerLocal.SameMeans | strippointers.py:47 | two byte strings agree outside the slots iff they have the same length and agree at every uncovered position |
| PointerLocal.SameTrans | strippointers.py:47 | agreement outside slots composes over consecutive walks |
| PointerLocal.SpliceLocal | strippointers.py:47 | a slice assignment changes nothing outside its own slot |
| PointerLocal.SpliceBack | strippointers.py:61-63 | writing an element back changes the file only where the element's walk changed it |
| PointerLocal.VisitLocal | strippointers.py:43-48 | a pointer chunk changes nothing outside its slot |
| PointerLocal.FieldsLocal | strippointers.py:41-52 | a struct's walk changes nothing outside its slots, and stops only where its trace stops |
| PointerLocal.FieldLocal | strippointers.py:42-52 | the same for one field, sub-structs and arrays unfolded |
| PointerLocal.ElementLocal | strippointers.py:56-63 | the same for one element |
| PointerLocal.ElementsLocal | strippointers.py:55-63 | the same for a block's elements |
| PointerLocal.ElementsFitLocal | strippointers.py:55-63 | the same when the first element fits in the file |
| PointerLocal.ElementsOnLocal | strippointers.py:55-63 | the same for the elements after the first |
| PointerLocal.HeaderLocal | strippointers.py:25-29 | restoring a header changes only its PTR_SIZE address bytes at offset 8 |
| PointerLocal.BlockLocal | strippointers.py:24-63 | a block changes nothing outside its slots |
| PointerLocal.TypedBlockLocal | strippointers.py:24-63 | the same for a typed block |
| PointerLocal.FileLocal | strippointers.py:24-63 | the blocks from a position change nothing outside their slots |
| PointerLocal.RestoreLocal | strippointers.py:14-63 | `replace_pointers` keeps the file's length and changes no byte outside the header addresses and pointer fields it visits |
| PointerExec.Exec | strippointers.py:24-63 | the flat program over the slots keeps the file's length, only appends to the extract stream, and writes nothing in extract-only mode |
| PointerExec.ExecAppend | strippointers.py:24 | running two slot lists one after the other is running their concatenation, the first stop ending it |
| PointerExec.ExecLocal | strippointers.py:47 | the program changes no byte outside its slots |
| PointerExec.ExecRestore | strippointers.py:43-48 | over slots inside the file, PTR_SIZE wide and sharing no byte, with at least PTR_SIZE bytes of restore stream per slot: the program runs to the end, takes exactly PTR_SIZE bytes per slot off the stream, extracts the slots' old bytes in order, and leaves the stream's bytes in the slots in order |
| PointerExec.FieldsSeq | strippointers.py:41-52 | walking a struct's fields in the element buffer is running their slots on the file, when the program does not stop; only the element's bytes change |
| PointerExec.FieldSeq | strippointers.py:42-52 | the same for one field, sub-structs and arrays unfolded |
| PointerExec.ElementSeq | strippointers.py:56-63 | one element read, walked and written back is running its slots on the file, when the program does not stop |
| PointerExec.ElementsSeq | strippointers.py:55-63 | the elements of a block, read one after the other, are running their slots in order, when the program does not stop |
| PointerExec.HeaderSeq | strippointers.py:25-31 | the header step is the program's visit of the PTR_SIZE address bytes at offset 8 of the header, when it does not stop |
| PointerExec.BlockSeq | strippointers.py:24-63 | one block of the loop, header and elements, is running the block's slots, when the program does not stop |
| PointerRestore.FromSeq | strippointers.py:24-63 | the block loop from a header on is the flat program over the slots from there, when the bytes from there on are the file's and neither stops |
| PointerRestore.FileShape | strippointers.py:24-31 | the slots from a block header on start with the header's address and lie past the header otherwise |
| PointerRestore.FileTraceSame | strippointers.py:24-38 | a file changed only inside its slots has the same slot trace: its blocks and slots lie where they were, though the header address bytes may differ |
| PointerRestore.Restore | strippointers.py:14-63 | for a file whose slots the walk lists without error, every pointer field PTR_SIZE wide, slots sharing no byte, and a restore stream holding at least a pointer per slot: the pass runs to the end, leaves the stream's first pointers in the slots in visiting order, consumes exactly those, extracts the slots' old bytes (in either mode), and keeps the file's blocks and slots |
| PointerRestore.StripThenRestore | strippointers.py:14-63 | under the same conditions, stripping with any replacement pointers and an extract stream, then restoring the stripped file from what was extracted, gives the original file back and uses the stream up |
| PointerProps.VisitRoundTrip | strippointers.py:43-48 | restoring a chunk from what its extraction wrote writes back the same bytes and consumes exactly them |
| PointerProps.FieldsRoundTrip | strippointers.py:41-52 | restoring a struct's walk from what its extraction wrote leaves the bytes unchanged, consumes exactly that and stops where extraction stopped |
| PointerProps.FieldRoundTrip | strippointers.py:42-52 | the same for one field, sub-structs and arrays unfolded |
| PointerProps.ElementRoundTrip | strippointers.py:56-63 | the same for one element |
| PointerProps.ElementsRoundTrip | strippointers.py:55-63 | the same for a block's elements |
| PointerProps.ElementsOnRoundTrip | strippointers.py:55-63 | the same after a complete first element |
| PointerProps.HeaderRoundTrip | strippointers.py:25-31 | restoring a header address from its own extracted bytes leaves the header as it was |
| PointerProps.BlockRoundTrip | strippointers.py:24-63 | the same for one block |
| PointerProps.FromRoundTrip | strippointers.py:24-63 | the same for the blocks from a position |
| PointerProps.FromBlockRoundTrip | strippointers.py:24-63 | the same past a block whose extraction completed |
| PointerProps.RoundTrip | strippointers.py:14-63 | restoring from exactly what an extraction produced leaves the file byte-for-byte unchanged, consumes exactly that stream, copies it to the extract stream, and stops where extraction stopped |
| PointerProps.StripAsWrittenFails | strippointers.py:26-31 | as written, a pass with an extract stream raises at the first header and extracts nothing, where the corrected pass extracts at least one address; without streams both agree |
| Strip.Source.Read | strippointers.py:26 | `read(n)` takes up to n bytes from the front of the restore stream |
| Strip.Sink.Write | strippointers.py:31 | `write(b)` appends b to the extract stream |
| Strip.Source.constructor | strippointers.py:17 | the restore stream starts with its whole contents unread |
| Strip.Sink.constructor | strippointers.py:18 | the extract stream starts empty |
| Strip.BuildIndexByName | strippointers.py:20-22 | the dict-building loop returns exactly `IndexByName` |
| Strip.ReplacePointer | strippointers.py:43-48 | patching one pointer field in the buffer is exactly `Visit` |
| Strip.NewBuffer | strippointers.py:59 | `bytearray(data)` is a fresh mutable buffer holding the element's bytes |
| Strip.ReplaceInField | strippointers.py:42-52 | one field of `replace_in_struct` is exactly `InField` |
| Strip.ReplaceInStruct | strippointers.py:41-52 | the recursive `replace_in_struct` on the buffer is exactly `InFields` |
| Strip.HeaderSplice | strippointers.py:26-29 | re-writing a header with a new address is a splice of that address at offset 8 |
| Strip.RestoreHeaderPointer | strippointers.py:25-29 | the header rewrite is exactly `RestoreAddress`, and the cursor and the bytes after it stay put |
| Strip.ReplaceHeaderPointer | strippointers.py:25-31 | the header step is exactly `HeaderStep` |
| Strip.ReplaceElement | strippointers.py:56-63 | one element read, patched and written back is exactly `Element`, and the cursor moves past it |
| Strip.PatchElement | strippointers.py:57-63 | walking the buffer and writing it back is exactly `Element` for the bytes just read |
| Strip.ReplaceElements | strippointers.py:55-63 | the element loop is exactly `Elements`, and the cursor ends cnt * size further |
| Strip.ReplaceBlock | strippointers.py:24-63 | one iteration of the block loop is exactly `StripBlock`, and the cursor ends at the next header |
| Strip.ReplacePointers | strippointers.py:14-63 | `replace_pointers` leaves the file and the streams exactly as `Strip` says |

## Left out

- Real I/O: the file is a byte sequence held by `BlendFile`, the streams are byte sequences, and `seek`/`read`/`write` act on those.
- The command line, `parse_args`, the `__main__` blocks and every `__str__`: they only print.
- The warning `print` in `count_id_content`: it is modelled as the skip it precedes.
- Python's exceptions: they are Result errors (`Errors.Error`), one per exception kind. `struct.error` on a short read is `Truncated`.
- Refused states: where the source goes on with a misshapen element, the model stops with an error instead.
  - `Overrun`, a pointer field reaching past its element. Without a restore stream the source extracts a short or empty slice of the immutable bytes it read. With one, the slice assignment lengthens the bytearray, and the write-back runs into the bytes after the element.
  - `StreamExhausted`, a short read of the restore stream. In an element, the slice assignment shortens the bytearray: the write-back leaves the rest of the element as it was and stops the cursor short of the element's end. At a block header, `unpack` of the short read raises `struct.error`.
  - `WidthMismatch`, a pointer field whose declared size is not PTR_SIZE, under restore. The slice assignment changes the bytearray's length by the difference, with the same effects as above.
  - `Truncated`, an element read cut short by the end of the file. Without a restore stream the source extracts short or empty chunks and goes on. With one, `seek(-ds.size, 1)` lands before the element, and the write-back overwrites the bytes that precede it.
- Recursion depth: `replace_in_struct` on a struct that embeds itself recurses until Python's RecursionError. The model walks with fuel `|structs|` and ends with `RecursionLimit` when it runs out.
  - For an acyclic schema the fuel is enough.
  - A schema whose embedding chain is longer than the number of structs cannot exist without a cycle.
- DnaField.NewField, DnaField.CutBracket: a dimension is read only from non-empty ASCII decimal digits. Python's `int` also accepts surrounding whitespace, a sign, underscores and non-ASCII digits, so declarations such as `a[ 2]` or `a[-1]` give BadDeclaration here but are read by the source.
- PointerRestore.Restore and PointerRestore.StripThenRestore require every pointer field to be PTR_SIZE wide, the walk to list the slots without error, and the slots to share no byte. Files outside the first two conditions stop with an error in the model (see Refused states). On the third: the source does not check it, and a malformed schema can declare overlapping pointer fields. A later write then overwrites part of an earlier one, so the slots need not end up holding the stream. For such files the model proves only what `PointerLocal.RestoreLocal` states, and `PointerProps.RoundTrip` when the stream is exactly what an extraction produced.
- Pointer arrays and arrays of embedded structs follow the source as it is:
  - `*ptrs[n]` is one PTR_SIZE chunk (its size is the pointer width);
  - only the first element of an array of embedded structs is walked.
- The four section tags of the SDNA block are skipped without being compared, as in the source.
- Integer widths: counters and sizes are unbounded, as Python's integers are. Header fields are decoded from 4-byte words, so they fit when they are packed again.

## Findings

| source | as written | input that shows it | evidently intended | confidence | as-written member | corrected member |
|---|---|---|---|---|---|---|
| blendinfo.py:52-53 | `header[7] == b'_'` and `header[8] == b'V'` compare an int with a bytes object, which is never equal in Python 3 | the header `BLENDER_V100` of a 32-bit big-endian file is read as 64-bit little-endian | `_` selects 4-byte pointers and `V` selects big-endian | high, not executed | Header.FileLayoutAsWrittenIsFixed | Header.FileLayoutMeaning |
| blendinfo.py:101-104 | the guard `idx > len(dna_structs)` lets `idx == len(dna_structs)` through to `dna_structs[idx]` | a block whose SDNA index equals the number of structs raises IndexError | skip with `idx >= len(dna_structs)` | high, not executed | Blend.GuardLetsLengthThrough | Blend.TallyNeverOutOfRange |
| strippointers.py:26-31 | `self.unpack` and `self.pack` are not defined on `BlendFile`, which has `_unpack` only | any file with one block, run with an extract or restore stream, raises AttributeError at its first header | decode and encode a PTR_SIZE unsigned integer in the file's byte order | high, not executed | PointerProps.StripAsWrittenFails | PointerProps.RoundTrip |
