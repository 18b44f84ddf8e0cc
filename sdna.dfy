/** The schema a .blend file carries in its DNA1 block (the "SDNA"), and how
    `BlendFile._parse_dna1` (blendinfo.py:113-170) reads it: a table of field
    declarations (NAME), a table of type names (TYPE) with their byte lengths
    (TLEN), and the structs (STRC), each a type index and a list of
    (type index, name index) pairs. The four tags are skipped, never compared. */
module Sdna {
  import opened Errors
  import opened Bytes
  import opened DnaField

  /** `TypeInf`: a type's name and its length in bytes. */
  datatype TypeInfo = TypeInfo(name: string, len: nat)

  /** A struct of the schema, as `DNAStruct` (blendinfo.py:35-40) holds it. Its
      size is the length the type table gives, not a sum of its fields. */
  datatype Struct = Struct(name: string, size: nat, fields: seq<Field>) {
    /** A struct describes an ID datablock when its first field is named `id`. */
    predicate IsId() { |fields| > 0 && fields[0].origName == "id" }
  }

  /** The section offsets round up to the next multiple of 4. */
  function Align4(n: nat): (r: nat)
    ensures r % 4 == 0 && n <= r < n + 4
  {
    (n + 3) / 4 * 4
  }

  /** An n-byte unsigned integer at `pos`; Truncated when the bytes are not all there. */
  function Word(b: seq<byte>, pos: nat, n: nat, bigEndian: bool): (r: Result<nat>)
    ensures r.Ok? <==> pos + n <= |b|
    ensures r.Ok? ==> r.value < Pow256(n)
  {
    if pos + n <= |b| then
      UnpackBound(b[pos..pos + n], bigEndian);
      Ok(Unpack(b[pos..pos + n], bigEndian))
    else Err(Truncated)
  }

  /** A value packed at `pos` reads back as itself. */
  lemma WordOfPack(b: seq<byte>, pos: nat, v: nat, n: nat, bigEndian: bool)
    requires v < Pow256(n) && pos + n <= |b| && b[pos..pos + n] == Pack(v, n, bigEndian)
    ensures Word(b, pos, n, bigEndian) == Ok(v)
  {
    UnpackOfPack(v, n, bigEndian);
  }

  /** Two 2-byte unsigned integers at `pos` (format `HH`). */
  function Pair(b: seq<byte>, pos: nat, bigEndian: bool): (r: Result<(nat, nat)>)
    ensures r.Ok? <==> pos + 4 <= |b|
  {
    if pos + 4 <= |b| then Ok((Unpack(b[pos..pos + 2], bigEndian), Unpack(b[pos + 2..pos + 4], bigEndian)))
    else Err(Truncated)
  }

  /** The position of the first NUL byte at or after `from`, if there is one. */
  function FindNul(b: seq<byte>, from: nat): (r: Option<nat>)
    ensures r.Some? ==> from <= r.value < |b| && b[r.value] == 0
    decreases |b| - from
  {
    if from >= |b| then None
    else if b[from] == 0 then Some(from)
    else FindNul(b, from + 1)
  }

  /** `bytes.decode('ascii')`: one character per byte, provided every byte is below 128. */
  function AsciiText(bs: seq<byte>): (r: Option<string>)
    ensures r.Some? ==> |r.value| == |bs|
  {
    if |bs| == 0 then Some("")
    else if bs[0] >= 128 then None
    else match AsciiText(bs[1..])
      case None => None
      case Some(t) => Some([bs[0] as int as char] + t)
  }

  /** n NUL-terminated ASCII strings read one after the other from `pos`, and
      the position just past the last terminator. */
  function CStrings(b: seq<byte>, pos: nat, n: nat): (r: Result<(seq<string>, nat)>)
    ensures r.Ok? ==> |r.value.0| == n && pos + n <= r.value.1
    ensures r.Ok? && n > 0 ==> r.value.1 <= |b|
    decreases n, 1
  {
    if n == 0 then Ok(([], pos)) else CStringsFrom(b, pos, n)
  }

  /** One string at `pos`, up to its NUL, then the n - 1 others. */
  function CStringsFrom(b: seq<byte>, pos: nat, n: nat): (r: Result<(seq<string>, nat)>)
    requires n > 0
    ensures r.Ok? ==> |r.value.0| == n && pos + n <= r.value.1 <= |b|
    decreases n, 0
  {
    match FindNul(b, pos)
    case None => Err(MissingNul)
    case Some(z) =>
      match AsciiText(b[pos..z])
      case None => Err(NotAscii)
      case Some(s) => PrependAt([s], CStrings(b, z + 1, n - 1))
  }

  /** One turn of the NAME loop: n > 0 strings are the first one, up to its
      NUL, then n - 1 more after it. */
  lemma CStringsStep(b: seq<byte>, pos: nat, n: nat)
    requires n > 0
    ensures CStrings(b, pos, n) ==
      match FindNul(b, pos)
      case None => Err(MissingNul)
      case Some(z) =>
        match AsciiText(b[pos..z])
        case None => Err(NotAscii)
        case Some(s) => PrependAt([s], CStrings(b, z + 1, n - 1))
  {
    assert CStrings(b, pos, n) == CStringsFrom(b, pos, n);
  }

  /** The TLEN loop: each type in turn takes its length from the next 2 bytes. */
  function WithLengths(types: seq<TypeInfo>, b: seq<byte>, pos: nat, bigEndian: bool): (r: Result<seq<TypeInfo>>)
    ensures r.Ok? ==> |r.value| == |types|
    ensures r.Ok? && |types| > 0 ==> pos + 2 * |types| <= |b|
    decreases |types|
  {
    if |types| == 0 then Ok([])
    else
      var len :- Word(b, pos, 2, bigEndian);
      Prepend([TypeInfo(types[0].name, len)], WithLengths(types[1..], b, pos + 2, bigEndian))
  }

  /** The i-th type keeps its name and takes the i-th 2-byte length of the TLEN section. */
  lemma {:induction false} WithLengthsAt(types: seq<TypeInfo>, b: seq<byte>, pos: nat, bigEndian: bool, i: nat)
    requires WithLengths(types, b, pos, bigEndian).Ok? && i < |types|
    ensures pos + 2 * i + 2 <= |b|
    ensures WithLengths(types, b, pos, bigEndian).value[i] == TypeInfo(types[i].name, Word(b, pos + 2 * i, 2, bigEndian).value)
    decreases |types|
  {
    var rest := WithLengths(types[1..], b, pos + 2, bigEndian);
    assert rest.Ok?;
    if i > 0 {
      WithLengthsAt(types[1..], b, pos + 2, bigEndian, i - 1);
      assert WithLengths(types, b, pos, bigEndian).value[i] == rest.value[i - 1];
    }
  }

  /** The type table as the TYPE loop leaves it: every length still 0. */
  function Unsized(typeNames: seq<string>): (r: seq<TypeInfo>)
    ensures |r| == |typeNames|
  {
    seq(|typeNames|, i requires 0 <= i < |typeNames| => TypeInfo(typeNames[i], 0))
  }

  /** A declaration of the name table, with what StripDims makes of it. */
  datatype Declaration = Declaration(name: string, parsed: Result<(seq<nat>, string)>)

  /** Every declaration of the name table with its brackets read off. The
      loop reads a declaration afresh for each field that uses it; reading
      each entry of the table once gives the same fields. */
  function Declarations(names: seq<string>): (r: seq<Declaration>)
    ensures |r| == |names|
  {
    if |names| == 0 then [] else [Declaration(names[0], StripDims(names[0]))] + Declarations(names[1..])
  }

  lemma {:induction false} DeclarationsAt(names: seq<string>, i: nat)
    requires i < |names|
    ensures Declarations(names)[i] == Declaration(names[i], StripDims(names[i]))
  {
    if i > 0 {
      DeclarationsAt(names[1..], i - 1);
    }
  }

  /** `decls` reads every declaration of `names`, in order. The readers below
      carry it as a ghost parameter: the loops read names, the specification
      reads declarations. */
  predicate Declared(decls: seq<Declaration>, names: seq<string>)
  {
    && |decls| == |names|
    && forall i {:trigger names[i]} :: 0 <= i < |names| ==> decls[i] == Declaration(names[i], StripDims(names[i]))
  }

  lemma DeclarationsDeclared(names: seq<string>)
    ensures Declared(Declarations(names), names)
  {
    forall i | 0 <= i < |names| {
      DeclarationsAt(names, i);
    }
  }

  /** One field entry at `pos`: a (type index, name index) pair, the name
      looked up before the type, and the field they declare at `fieldOfs`. */
  function FieldAt(b: seq<byte>, pos: nat, decls: seq<Declaration>, types: seq<TypeInfo>, lay: Layout, fieldOfs: nat)
    : Result<Field>
  {
    var entry :- Pair(b, pos, lay.bigEndian);
    if entry.1 >= |decls| || entry.0 >= |types| then Err(IndexOutOfRange)
    else
      var d, t := decls[entry.1], types[entry.0];
      FieldFrom(d.parsed, d.name, fieldOfs, t.name, t.len, lay.ptrSize)
  }

  /** The k field entries of one struct, from `pos`; each field's offset is the
      sum of the sizes before it, starting from `fieldOfs`. */
  function Fields(b: seq<byte>, pos: nat, k: nat, decls: seq<Declaration>, types: seq<TypeInfo>,
                  lay: Layout, fieldOfs: nat): (r: Result<(seq<Field>, nat)>)
    ensures r.Ok? ==> |r.value.0| == k && r.value.1 == pos + 4 * k
    decreases k
  {
    if k == 0 then Ok(([], pos))
    else
      var f :- FieldAt(b, pos, decls, types, lay, fieldOfs);
      PrependAt([f], Fields(b, pos + 4, k - 1, decls, types, lay, fieldOfs + f.size))
  }

  /** One struct of the STRC section at `pos` (blendinfo.py:156-168): its type
      index and field count, its fields, then its name and size from the type
      table; with the position where the next struct starts. */
  function StructAt(b: seq<byte>, pos: nat, decls: seq<Declaration>, types: seq<TypeInfo>, lay: Layout)
    : Result<(Struct, nat)>
  {
    var head :- Pair(b, pos, lay.bigEndian);
    var fs :- Fields(b, pos + 4, head.1, decls, types, lay, 0);
    if head.0 >= |types| then Err(IndexOutOfRange)
    else Ok((Struct(types[head.0].name, types[head.0].len, fs.0), fs.1))
  }

  /** A struct's name and size are those of the type its header names, it has
      as many fields as the header says, and the next struct follows its last
      field entry. */
  lemma StructAtMeaning(b: seq<byte>, pos: nat, decls: seq<Declaration>, types: seq<TypeInfo>, lay: Layout)
    requires StructAt(b, pos, decls, types, lay).Ok?
    ensures Pair(b, pos, lay.bigEndian).Ok?
    ensures var head := Pair(b, pos, lay.bigEndian).value;
      var (s, next) := StructAt(b, pos, decls, types, lay).value;
      && head.0 < |types| && s.name == types[head.0].name && s.size == types[head.0].len
      && |s.fields| == head.1 && next == pos + 4 + 4 * head.1
  {
  }

  /** `is_id` of a decoded struct: it has a field, and the name index of its
      first field entry picks the declaration `id`. */
  lemma StructIsId(b: seq<byte>, pos: nat, decls: seq<Declaration>, types: seq<TypeInfo>, lay: Layout)
    requires StructAt(b, pos, decls, types, lay).Ok?
    ensures Pair(b, pos, lay.bigEndian).Ok?
    ensures var s := StructAt(b, pos, decls, types, lay).value.0;
      s.IsId() <==> && Pair(b, pos, lay.bigEndian).value.1 > 0
                    && Pair(b, pos + 4, lay.bigEndian).Ok?
                    && Pair(b, pos + 4, lay.bigEndian).value.1 < |decls|
                    && decls[Pair(b, pos + 4, lay.bigEndian).value.1].name == "id"
  {
    var head := Pair(b, pos, lay.bigEndian).value;
    if head.1 > 0 {
      var first := FieldAt(b, pos + 4, decls, types, lay, 0);
      assert first.Ok?;
      var entry := Pair(b, pos + 4, lay.bigEndian).value;
      var d, t := decls[entry.1], types[entry.0];
      FieldFromMeaning(d.parsed, d.name, 0, t.name, t.len, lay.ptrSize);
      assert StructAt(b, pos, decls, types, lay).value.0.fields[0] == first.value;
    }
  }

  /** The STRC loop: n structs one after the other from `pos`. */
  function Structs(b: seq<byte>, pos: nat, n: nat, decls: seq<Declaration>, types: seq<TypeInfo>,
                   lay: Layout): (r: Result<seq<Struct>>)
    ensures r.Ok? ==> |r.value| == n
    decreases n
  {
    if n == 0 then Ok([])
    else
      var s :- StructAt(b, pos, decls, types, lay);
      Prepend([s.0], Structs(b, s.1, n - 1, decls, types, lay))
  }

  /** The NAME section (its tag at offset 4) or the TYPE section (its tag at
      `at`): a count, that many strings, and where the next section starts. */
  function StringTable(payload: seq<byte>, lay: Layout, at: nat): Result<(seq<string>, nat)>
  {
    var count :- Word(payload, at + 4, 4, lay.bigEndian);
    var strs :- CStrings(payload, at + 8, count);
    Ok((strs.0, at + 8 + Align4(strs.1 - (at + 8))))
  }

  /** The TLEN section at `at`: the type table with its lengths filled in, and
      where the STRC section starts. */
  function LengthTable(payload: seq<byte>, lay: Layout, typeNames: seq<string>, at: nat)
    : Result<(seq<TypeInfo>, nat)>
  {
    if at + 4 > |payload| then Err(Truncated)
    else
      var types :- WithLengths(Unsized(typeNames), payload, at + 4, lay.bigEndian);
      Ok((types, at + 4 + Align4(2 * |types|)))
  }

  /** The STRC section at `at`. */
  function StructTable(payload: seq<byte>, lay: Layout, names: seq<string>, types: seq<TypeInfo>, at: nat)
    : Result<seq<Struct>>
  {
    var count :- Word(payload, at + 4, 4, lay.bigEndian);
    Structs(payload, at + 8, count, Declarations(names), types, lay)
  }

  /** The whole DNA1 payload: 4 bytes skipped, then the NAME, TYPE, TLEN and STRC
      sections; each of the first three is padded to a multiple of 4 bytes,
      counted from the end of its own tag and count. */
  function Schema(payload: seq<byte>, lay: Layout): Result<seq<Struct>>
  {
    var names :- StringTable(payload, lay, 4);
    var typeNames :- StringTable(payload, lay, names.1);
    var types :- LengthTable(payload, lay, typeNames.0, typeNames.1);
    StructTable(payload, lay, names.0, types.0, types.1)
  }

  /** The fields lie back to back from `start`: each begins where the one
      before it ends. */
  predicate Contiguous(fields: seq<Field>, start: nat)
  {
    && (|fields| > 0 ==> fields[0].offset == start)
    && forall j :: 0 < j < |fields| ==> fields[j].offset == fields[j - 1].offset + fields[j - 1].size
  }

  /** Every pointer field is exactly one pointer wide. */
  predicate PointersSized(fields: seq<Field>, ptrSize: nat)
  {
    forall j :: 0 <= j < |fields| && fields[j].isPtr ==> fields[j].size == ptrSize
  }

  /** Every field takes its type from the type table. */
  predicate Typed(fields: seq<Field>, types: seq<TypeInfo>)
  {
    forall j :: 0 <= j < |fields| ==> TypeInfo(fields[j].typeName, fields[j].typeLen) in types
  }

  lemma {:induction false} FieldsLayout(b: seq<byte>, pos: nat, k: nat, decls: seq<Declaration>, types: seq<TypeInfo>,
                                        lay: Layout, fieldOfs: nat)
    requires Fields(b, pos, k, decls, types, lay, fieldOfs).Ok?
    ensures var fs := Fields(b, pos, k, decls, types, lay, fieldOfs).value.0;
      Contiguous(fs, fieldOfs) && PointersSized(fs, lay.ptrSize) && Typed(fs, types)
    decreases k
  {
    if k > 0 {
      var entry := Pair(b, pos, lay.bigEndian).value;
      var d, t := decls[entry.1], types[entry.0];
      var f := FieldAt(b, pos, decls, types, lay, fieldOfs).value;
      FieldFromMeaning(d.parsed, d.name, fieldOfs, t.name, t.len, lay.ptrSize);
      var rest := Fields(b, pos + 4, k - 1, decls, types, lay, fieldOfs + f.size);
      FieldsLayout(b, pos + 4, k - 1, decls, types, lay, fieldOfs + f.size);
      var fs := [f] + rest.value.0;
      assert Fields(b, pos, k, decls, types, lay, fieldOfs).value.0 == fs;
      assert forall j :: 1 <= j < |fs| ==> fs[j] == rest.value.0[j - 1];
    }
  }

  /** A struct as the STRC loop builds it: contiguous fields from offset 0,
      pointer fields one pointer wide, its own and its fields' types from the
      type table. */
  predicate WellLaid(s: Struct, types: seq<TypeInfo>, ptrSize: nat)
  {
    && Contiguous(s.fields, 0) && PointersSized(s.fields, ptrSize) && Typed(s.fields, types)
    && TypeInfo(s.name, s.size) in types
  }

  lemma {:induction false} StructsLayout(b: seq<byte>, pos: nat, n: nat, decls: seq<Declaration>, types: seq<TypeInfo>,
                                         lay: Layout)
    requires Structs(b, pos, n, decls, types, lay).Ok?
    ensures forall s :: s in Structs(b, pos, n, decls, types, lay).value ==> WellLaid(s, types, lay.ptrSize)
    decreases n
  {
    if n > 0 {
      var head := Pair(b, pos, lay.bigEndian).value;
      var fs := Fields(b, pos + 4, head.1, decls, types, lay, 0).value;
      FieldsLayout(b, pos + 4, head.1, decls, types, lay, 0);
      var first := Struct(types[head.0].name, types[head.0].len, fs.0);
      assert WellLaid(first, types, lay.ptrSize);
      var rest := Structs(b, fs.1, n - 1, decls, types, lay);
      StructsLayout(b, fs.1, n - 1, decls, types, lay);
      var all := [first] + rest.value;
      assert Structs(b, pos, n, decls, types, lay).value == all;
      forall s | s in all
        ensures WellLaid(s, types, lay.ptrSize)
      {
        if s != first {
          assert s in rest.value;
        }
      }
    }
  }

  /** Every struct of a decoded schema lays its fields out back to back from
      offset 0, and sizes each of its pointer fields by the file's pointer width. */
  lemma SchemaLayout(payload: seq<byte>, lay: Layout)
    requires Schema(payload, lay).Ok?
    ensures forall s :: s in Schema(payload, lay).value ==>
      Contiguous(s.fields, 0) && PointersSized(s.fields, lay.ptrSize)
  {
    var names := StringTable(payload, lay, 4).value;
    var typeNames := StringTable(payload, lay, names.1).value;
    var types := LengthTable(payload, lay, typeNames.0, typeNames.1).value;
    StructTableLayout(payload, lay, names.0, types.0, types.1);
  }

  lemma StructTableLayout(payload: seq<byte>, lay: Layout, names: seq<string>, types: seq<TypeInfo>, at: nat)
    requires StructTable(payload, lay, names, types, at).Ok?
    ensures forall s :: s in StructTable(payload, lay, names, types, at).value ==> WellLaid(s, types, lay.ptrSize)
  {
    var count := Word(payload, at + 4, 4, lay.bigEndian).value;
    StructsLayout(payload, at + 8, count, Declarations(names), types, lay);
  }

  // ---------------------------------------------------------------------------
  // What the tables hold.

  /** A name the tables can carry: ASCII, without NUL. */
  predicate CName(s: string)
  {
    forall i :: 0 <= i < |s| ==> 0 < s[i] as int < 128
  }

  /** The bytes of a string, one per character (the low byte of its code). */
  function Encoded(s: string): (r: seq<byte>)
    ensures |r| == |s|
  {
    seq(|s|, i requires 0 <= i < |s| => (s[i] as int % 256) as byte)
  }

  /** FindNul stops at the first NUL. */
  lemma {:induction false} FindNulAt(b: seq<byte>, from: nat, z: nat)
    requires from <= z < |b| && b[z] == 0
    requires forall i :: from <= i < z ==> b[i] != 0
    ensures FindNul(b, from) == Some(z)
    decreases z - from
  {
    if from < z {
      FindNulAt(b, from + 1, z);
    }
  }

  /** Decoding the bytes of an ASCII name gives the name back. */
  lemma {:induction false} AsciiTextOfEncoded(s: string)
    requires CName(s)
    ensures AsciiText(Encoded(s)) == Some(s)
  {
    if |s| > 0 {
      var e := Encoded(s);
      assert e[1..] == Encoded(s[1..]);
      assert CName(s[1..]) by {
        assert forall i :: 0 <= i < |s[1..]| ==> s[1..][i] == s[i + 1];
      }
      AsciiTextOfEncoded(s[1..]);
      assert [s[0]] + s[1..] == s;
    }
  }

  /** One name followed by NUL at `pos` is read back by the NAME loop's body. */
  lemma ReadOneCString(b: seq<byte>, pos: nat, s: string)
    requires CName(s) && pos + |s| < |b|
    requires b[pos..pos + |s|] == Encoded(s) && b[pos + |s|] == 0
    ensures FindNul(b, pos) == Some(pos + |s|) && AsciiText(b[pos..pos + |s|]) == Some(s)
  {
    forall i | pos <= i < pos + |s|
      ensures b[i] != 0
    {
      assert b[i] == b[pos..pos + |s|][i - pos];
    }
    FindNulAt(b, pos, pos + |s|);
    AsciiTextOfEncoded(s);
  }

  /** The bytes from `pos` hold the names `strs`, each followed by NUL. */
  predicate TableAt(b: seq<byte>, pos: nat, strs: seq<string>)
    decreases |strs|, 1
  {
    |strs| == 0 || NameAt(b, pos, strs)
  }

  /** The first of `strs` at `pos`, its NUL, then the others. */
  predicate NameAt(b: seq<byte>, pos: nat, strs: seq<string>)
    requires |strs| > 0
    decreases |strs|, 0
  {
    var s, z := strs[0], pos + |strs[0]|;
    && CName(s) && z < |b| && b[pos..z] == Encoded(s) && b[z] == 0
    && TableAt(b, z + 1, strs[1..])
  }

  /** Where a table of `strs` written at `pos` ends: past each name and its NUL. */
  function TableEnd(pos: nat, strs: seq<string>): (r: nat)
    ensures r >= pos + |strs|
    decreases |strs|
  {
    if |strs| == 0 then pos else TableEnd(pos + |strs[0]| + 1, strs[1..])
  }

  lemma {:induction false} TableEndShift(pos: nat, strs: seq<string>)
    ensures TableEnd(pos, strs) == pos + TableEnd(0, strs)
    decreases |strs|
  {
    if |strs| > 0 {
      TableEndShift(pos + |strs[0]| + 1, strs[1..]);
      TableEndShift(|strs[0]| + 1, strs[1..]);
    }
  }

  /** Reading n strings from bytes that hold n names gives the names back,
      and the position just past the last terminator. */
  lemma {:induction false} CStringsOfTable(b: seq<byte>, pos: nat, strs: seq<string>)
    requires TableAt(b, pos, strs)
    ensures CStrings(b, pos, |strs|) == Ok((strs, TableEnd(pos, strs)))
    decreases |strs|
  {
    if |strs| > 0 {
      var z := pos + |strs[0]|;
      assert NameAt(b, pos, strs);
      ReadOneCString(b, pos, strs[0]);
      CStringsStep(b, pos, |strs|);
      CStringsOfTable(b, z + 1, strs[1..]);
      assert [strs[0]] + strs[1..] == strs;
    }
  }

  /** The bytes before the first NUL are not NUL. */
  lemma {:induction false} FindNulFirst(b: seq<byte>, from: nat)
    requires FindNul(b, from).Some?
    ensures forall i :: from <= i < FindNul(b, from).value ==> b[i] != 0
    decreases |b| - from
  {
    if b[from] != 0 {
      FindNulFirst(b, from + 1);
    }
  }

  /** Decoded text has one character per byte, of the byte's value, and every
      byte is below 128. */
  lemma {:induction false} AsciiTextChars(bs: seq<byte>)
    requires AsciiText(bs).Some?
    ensures forall i :: 0 <= i < |bs| ==> AsciiText(bs).value[i] as int == bs[i] as int < 128
  {
    if |bs| > 0 {
      AsciiTextChars(bs[1..]);
      var t := AsciiText(bs[1..]).value;
      assert AsciiText(bs).value == [bs[0] as int as char] + t;
      assert forall i :: 1 <= i < |bs| ==> bs[i] == bs[1..][i - 1];
    }
  }

  /** The string the NAME loop reads at `pos`: a name, and the bytes are its encoding. */
  lemma CStringIsName(b: seq<byte>, pos: nat)
    requires FindNul(b, pos).Some? && AsciiText(b[pos..FindNul(b, pos).value]).Some?
    ensures var z := FindNul(b, pos).value;
      var s := AsciiText(b[pos..z]).value;
      CName(s) && b[pos..z] == Encoded(s)
  {
    var z := FindNul(b, pos).value;
    var bs := b[pos..z];
    var s := AsciiText(bs).value;
    FindNulFirst(b, pos);
    AsciiTextChars(bs);
    assert forall i :: 0 <= i < |bs| ==> bs[i] == b[pos + i];
    assert bs == Encoded(s);
  }

  /** What CStrings reads, the bytes hold, and it stops at the end of the table:
      with CStringsOfTable, `TableAt` exactly describes the string tables the
      loop accepts. */
  lemma {:induction false} CStringsMeaning(b: seq<byte>, pos: nat, n: nat)
    requires CStrings(b, pos, n).Ok?
    ensures var r := CStrings(b, pos, n).value;
      TableAt(b, pos, r.0) && r.1 == TableEnd(pos, r.0)
    decreases n
  {
    if n > 0 {
      CStringsStep(b, pos, n);
      var z := FindNul(b, pos).value;
      var s := AsciiText(b[pos..z]).value;
      var rest := CStrings(b, z + 1, n - 1);
      assert rest.Ok? && CStrings(b, pos, n).value == ([s] + rest.value.0, rest.value.1);
      CStringsMeaning(b, z + 1, n - 1);
      NameInFront(b, pos, rest.value.0);
      TableEndCons(pos, s, rest.value.0);
    }
  }

  /** A table with one more name in front ends where the others' table ends. */
  lemma TableEndCons(pos: nat, s: string, strs: seq<string>)
    ensures TableEnd(pos, [s] + strs) == TableEnd(pos + |s| + 1, strs)
  {
    assert ([s] + strs)[0] == s && ([s] + strs)[1..] == strs;
  }

  /** The string CStrings reads at `pos`, in front of a table that follows its NUL. */
  lemma NameInFront(b: seq<byte>, pos: nat, strs: seq<string>)
    requires FindNul(b, pos).Some? && AsciiText(b[pos..FindNul(b, pos).value]).Some?
    requires TableAt(b, FindNul(b, pos).value + 1, strs)
    ensures TableAt(b, pos, [AsciiText(b[pos..FindNul(b, pos).value]).value] + strs)
  {
    CStringIsName(b, pos);
    TableCons(b, pos, AsciiText(b[pos..FindNul(b, pos).value]).value, strs);
  }

  /** One more name in front of a table. */
  lemma TableCons(b: seq<byte>, pos: nat, s: string, strs: seq<string>)
    requires CName(s) && pos + |s| < |b| && b[pos..pos + |s|] == Encoded(s) && b[pos + |s|] == 0
    requires TableAt(b, pos + |s| + 1, strs)
    ensures TableAt(b, pos, [s] + strs)
  {
    assert ([s] + strs)[1..] == strs;
    assert NameAt(b, pos, [s] + strs);
  }

  /** A NAME or TYPE section that reads holds exactly as many names as its
      count says, each NUL-terminated, and the next section starts at the first
      multiple of 4 after the table, counted from the start of the table. */
  lemma StringTableMeaning(payload: seq<byte>, lay: Layout, at: nat)
    requires StringTable(payload, lay, at).Ok?
    ensures var t := StringTable(payload, lay, at).value;
      && Word(payload, at + 4, 4, lay.bigEndian) == Ok(|t.0|)
      && TableAt(payload, at + 8, t.0)
      && t.1 == at + 8 + Align4(TableEnd(0, t.0))
  {
    var count := Word(payload, at + 4, 4, lay.bigEndian).value;
    CStringsMeaning(payload, at + 8, count);
    var t := CStrings(payload, at + 8, count).value;
    TableEndShift(at + 8, t.0);
  }

  /** A string table read from its parts. */
  lemma StringTableFrom(payload: seq<byte>, lay: Layout, at: nat, strs: seq<string>, end: nat)
    requires Word(payload, at + 4, 4, lay.bigEndian) == Ok(|strs|)
    requires CStrings(payload, at + 8, |strs|) == Ok((strs, end))
    ensures StringTable(payload, lay, at) == Ok((strs, at + 8 + Align4(end - (at + 8))))
  {
  }

  /** A NAME or TYPE section whose count is n and whose bytes hold n names reads
      back as exactly those names, and the next section starts at the first
      multiple of 4 after the table, counted from the start of the table. */
  lemma StringTableOf(payload: seq<byte>, lay: Layout, at: nat, strs: seq<string>)
    requires Word(payload, at + 4, 4, lay.bigEndian) == Ok(|strs|)
    requires TableAt(payload, at + 8, strs)
    ensures StringTable(payload, lay, at) == Ok((strs, at + 8 + Align4(TableEnd(0, strs))))
  {
    var end := TableEnd(at + 8, strs);
    assert CStrings(payload, at + 8, |strs|) == Ok((strs, end)) by {
      CStringsOfTable(payload, at + 8, strs);
    }
    assert end - (at + 8) == TableEnd(0, strs) by {
      TableEndShift(at + 8, strs);
    }
    StringTableFrom(payload, lay, at, strs, end);
  }

  // ---------------------------------------------------------------------------
  // The reader, loop by loop.

  /** The NAME and TYPE loops: n strings, each found by its NUL terminator. */
  method ReadCStrings(b: seq<byte>, pos: nat, n: nat) returns (r: Result<(seq<string>, nat)>)
    ensures r == CStrings(b, pos, n)
  {
    var strings: seq<string> := [];
    var ofs: nat := pos;
    var i := 0;
    assert PrependAt(strings, CStrings(b, ofs, n)) == CStrings(b, pos, n) by {
      if CStrings(b, pos, n).Ok? {
        assert [] + CStrings(b, pos, n).value.0 == CStrings(b, pos, n).value.0;
      }
    }
    while i < n
      invariant i <= n
      invariant CStrings(b, pos, n) == PrependAt(strings, CStrings(b, ofs, n - i))
    {
      CStringsStep(b, ofs, n - i);
      var nul := FindNul(b, ofs);
      if nul.None? {
        return Err(MissingNul);
      }
      var s := AsciiText(b[ofs..nul.value]);
      if s.None? {
        return Err(NotAscii);
      }
      PrependAtAppend(strings, s.value, CStrings(b, nul.value + 1, n - i - 1));
      strings := strings + [s.value];
      ofs := nul.value + 1;
      i := i + 1;
    }
    assert strings + [] == strings;
    r := Ok((strings, ofs));
  }

  /** The TLEN loop: overwrites the length of each type in place. */
  method ReadLengths(b: seq<byte>, pos: nat, types0: seq<TypeInfo>, bigEndian: bool) returns (r: Result<seq<TypeInfo>>)
    ensures r == WithLengths(types0, b, pos, bigEndian)
  {
    var types := types0;
    var ofs := pos;
    var i := 0;
    assert Prepend(types[..0], WithLengths(types0, b, pos, bigEndian)) == WithLengths(types0, b, pos, bigEndian) by {
      if WithLengths(types0, b, pos, bigEndian).Ok? {
        assert types[..0] + WithLengths(types0, b, pos, bigEndian).value == WithLengths(types0, b, pos, bigEndian).value;
      }
    }
    while i < |types|
      invariant |types| == |types0| && i <= |types| && ofs == pos + 2 * i
      invariant types[i..] == types0[i..]
      invariant WithLengths(types0, b, pos, bigEndian) == Prepend(types[..i], WithLengths(types0[i..], b, ofs, bigEndian))
    {
      var len := Word(b, ofs, 2, bigEndian);
      if len.Err? {
        return Err(Truncated);
      }
      assert types0[i..][1..] == types0[i + 1..];
      var t := TypeInfo(types[i].name, len.value);
      var done := types[..i];
      PrependAppend(done, t, WithLengths(types0[i + 1..], b, ofs + 2, bigEndian));
      types := types[i := t];
      assert types[..i + 1] == done + [t];
      ofs := ofs + 2;
      i := i + 1;
    }
    assert types[..i] == types;
    assert types + [] == types;
    r := Ok(types);
  }

  /** The body of the inner loop of the STRC section: one field entry, built by `NewField`. */
  method ReadField(b: seq<byte>, pos: nat, names: seq<string>, ghost decls: seq<Declaration>, types: seq<TypeInfo>,
                   lay: Layout, fieldOfs: nat)
    returns (r: Result<Field>)
    requires Declared(decls, names)
    ensures r == FieldAt(b, pos, decls, types, lay, fieldOfs)
  {
    var entry := Pair(b, pos, lay.bigEndian);
    if entry.Err? {
      return Err(Truncated);
    }
    var (typeIdx, nameIdx) := entry.value;
    if nameIdx >= |names| {
      return Err(IndexOutOfRange);
    }
    var fieldName := names[nameIdx];
    if typeIdx >= |types| {
      return Err(IndexOutOfRange);
    }
    r := NewField(fieldName, fieldOfs, types[typeIdx].name, types[typeIdx].len, lay.ptrSize);
  }

  lemma FieldsStep(done: seq<Field>, b: seq<byte>, pos: nat, k: nat, decls: seq<Declaration>, types: seq<TypeInfo>,
                   lay: Layout, fieldOfs: nat, f: Field)
    requires k > 0 && FieldAt(b, pos, decls, types, lay, fieldOfs) == Ok(f)
    ensures PrependAt(done, Fields(b, pos, k, decls, types, lay, fieldOfs))
         == PrependAt(done + [f], Fields(b, pos + 4, k - 1, decls, types, lay, fieldOfs + f.size))
  {
    PrependAtAppend(done, f, Fields(b, pos + 4, k - 1, decls, types, lay, fieldOfs + f.size));
  }

  /** The inner loop of the STRC section: the k fields of one struct, each at
      the running offset. */
  method ReadFields(b: seq<byte>, pos: nat, k: nat, names: seq<string>, ghost decls: seq<Declaration>,
                    types: seq<TypeInfo>, lay: Layout)
    returns (r: Result<(seq<Field>, nat)>)
    requires Declared(decls, names)
    ensures r == Fields(b, pos, k, decls, types, lay, 0)
  {
    var fields: seq<Field> := [];
    var ofs := pos;
    var fieldOfs: nat := 0;
    var j := 0;
    var left := k;
    assert PrependAt(fields, Fields(b, ofs, k, decls, types, lay, 0)) == Fields(b, pos, k, decls, types, lay, 0) by {
      if Fields(b, pos, k, decls, types, lay, 0).Ok? {
        assert [] + Fields(b, pos, k, decls, types, lay, 0).value.0 == Fields(b, pos, k, decls, types, lay, 0).value.0;
      }
    }
    while j < k
      invariant j <= k && left == k - j && ofs == pos + 4 * j
      invariant Fields(b, pos, k, decls, types, lay, 0) == PrependAt(fields, Fields(b, ofs, left, decls, types, lay, fieldOfs))
    {
      var f := ReadField(b, ofs, names, decls, types, lay, fieldOfs);
      if f.Err? {
        return Err(f.error);
      }
      FieldsStep(fields, b, ofs, left, decls, types, lay, fieldOfs, f.value);
      fields := fields + [f.value];
      ofs := ofs + 4;
      fieldOfs := fieldOfs + f.value.size;
      j := j + 1;
      left := left - 1;
    }
    assert fields + [] == fields;
    r := Ok((fields, ofs));
  }

  /** One struct of the STRC section: its header, its fields, its type. */
  method ReadStruct(b: seq<byte>, pos: nat, names: seq<string>, ghost decls: seq<Declaration>,
                    types: seq<TypeInfo>, lay: Layout)
    returns (r: Result<(Struct, nat)>)
    requires Declared(decls, names)
    ensures r == StructAt(b, pos, decls, types, lay)
  {
    var head := Pair(b, pos, lay.bigEndian);
    if head.Err? {
      return Err(Truncated);
    }
    var (typeIdx, nfields) := head.value;
    var fields := ReadFields(b, pos + 4, nfields, names, decls, types, lay);
    if fields.Err? {
      return Err(fields.error);
    }
    if typeIdx >= |types| {
      return Err(IndexOutOfRange);
    }
    r := Ok((Struct(types[typeIdx].name, types[typeIdx].len, fields.value.0), fields.value.1));
  }

  lemma StructsStep(done: seq<Struct>, b: seq<byte>, pos: nat, n: nat, decls: seq<Declaration>, types: seq<TypeInfo>,
                    lay: Layout, s: Struct, end: nat)
    requires n > 0 && StructAt(b, pos, decls, types, lay) == Ok((s, end))
    ensures Prepend(done, Structs(b, pos, n, decls, types, lay))
         == Prepend(done + [s], Structs(b, end, n - 1, decls, types, lay))
  {
    PrependAppend(done, s, Structs(b, end, n - 1, decls, types, lay));
  }

  /** The outer loop of the STRC section: n structs, each named and sized by
      the type table. */
  method ReadStructs(b: seq<byte>, pos: nat, n: nat, names: seq<string>, ghost decls: seq<Declaration>,
                     types: seq<TypeInfo>, lay: Layout)
    returns (r: Result<seq<Struct>>)
    requires Declared(decls, names)
    ensures r == Structs(b, pos, n, decls, types, lay)
  {
    var structs: seq<Struct> := [];
    var ofs := pos;
    var i := 0;
    var left := n;
    assert Prepend(structs, Structs(b, ofs, n, decls, types, lay)) == Structs(b, pos, n, decls, types, lay) by {
      if Structs(b, pos, n, decls, types, lay).Ok? {
        assert [] + Structs(b, pos, n, decls, types, lay).value == Structs(b, pos, n, decls, types, lay).value;
      }
    }
    while i < n
      invariant i <= n && left == n - i
      invariant Structs(b, pos, n, decls, types, lay) == Prepend(structs, Structs(b, ofs, left, decls, types, lay))
    {
      var s := ReadStruct(b, ofs, names, decls, types, lay);
      if s.Err? {
        return Err(s.error);
      }
      StructsStep(structs, b, ofs, left, decls, types, lay, s.value.0, s.value.1);
      structs := structs + [s.value.0];
      ofs := s.value.1;
      i := i + 1;
      left := left - 1;
    }
    assert structs + [] == structs;
    r := Ok(structs);
  }

  /** The NAME and TYPE sections of `_parse_dna1`: the tag and count at `at`,
      then the strings. */
  method ReadStringTable(payload: seq<byte>, lay: Layout, at: nat) returns (r: Result<(seq<string>, nat)>)
    ensures r == StringTable(payload, lay, at)
  {
    if at + 8 > |payload| {
      return Err(Truncated);
    }
    var num := Unpack(payload[at + 4..at + 8], lay.bigEndian);
    var strs := ReadCStrings(payload, at + 8, num);
    if strs.Err? {
      return Err(strs.error);
    }
    r := Ok((strs.value.0, at + 8 + Align4(strs.value.1 - (at + 8))));
  }

  /** The TLEN section of `_parse_dna1`. */
  method ReadLengthTable(payload: seq<byte>, lay: Layout, typeNames: seq<string>, at: nat)
    returns (r: Result<(seq<TypeInfo>, nat)>)
    ensures r == LengthTable(payload, lay, typeNames, at)
  {
    if at + 4 > |payload| {
      return Err(Truncated);
    }
    var types := ReadLengths(payload, at + 4, Unsized(typeNames), lay.bigEndian);
    if types.Err? {
      return Err(types.error);
    }
    r := Ok((types.value, at + 4 + Align4(2 * |types.value|)));
  }

  /** The STRC section of `_parse_dna1`. */
  method ReadStructTable(payload: seq<byte>, lay: Layout, names: seq<string>, types: seq<TypeInfo>, at: nat)
    returns (r: Result<seq<Struct>>)
    ensures r == StructTable(payload, lay, names, types, at)
  {
    if at + 8 > |payload| {
      return Err(Truncated);
    }
    var num := Unpack(payload[at + 4..at + 8], lay.bigEndian);
    DeclarationsDeclared(names);
    r := ReadStructs(payload, at + 8, num, names, Declarations(names), types, lay);
  }

  /** `BlendFile._parse_dna1`: the schema of a DNA1 block's payload, section by section. */
  method ParseDna1(payload: seq<byte>, lay: Layout) returns (r: Result<seq<Struct>>)
    ensures r == Schema(payload, lay)
  {
    var names := ReadStringTable(payload, lay, 4);
    if names.Err? {
      return Err(names.error);
    }
    var typeNames := ReadStringTable(payload, lay, names.value.1);
    if typeNames.Err? {
      return Err(typeNames.error);
    }
    var types := ReadLengthTable(payload, lay, typeNames.value.0, typeNames.value.1);
    if types.Err? {
      return Err(types.error);
    }
    r := ReadStructTable(payload, lay, names.value.0, types.value.0, types.value.1);
  }
}
