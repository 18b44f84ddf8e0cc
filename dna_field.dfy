/** One field declaration of the embedded schema (SDNA), as `DNAField` reads it
    (blendinfo.py:10-28): a raw name from the name table such as `*next`,
    `mat[4][4]` or `*ptrs[2]`, a base type (name, byte length) and the pointer
    width give the field's array dimensions, its byte size and whether it is a
    pointer. */
module DnaField {
  import opened Errors

  /** A field of a struct: the declaration as written, its byte offset within the
      struct, its base type, and what the declaration makes of them. */
  datatype Field = Field(
    origName: string,
    offset: nat,
    typeName: string,
    typeLen: nat,
    size: nat,
    dims: seq<nat>,
    isPtr: bool)

  /** `str.index`: the first position of c in s, or None where Python raises ValueError. */
  function IndexOf(s: string, c: char): (r: Option<nat>)
    ensures r.Some? ==> r.value < |s| && s[r.value] == c
    ensures r.None? ==> c !in s
  {
    if |s| == 0 then None
    else if s[0] == c then Some(0)
    else match IndexOf(s[1..], c)
      case None => None
      case Some(i) => Some(i + 1)
  }

  predicate IsDigit(c: char) { '0' <= c <= '9' }

  /** Every character of s is a decimal digit. */
  predicate AllDigits(s: string)
  {
    |s| == 0 || (IsDigit(s[|s| - 1]) && AllDigits(s[..|s| - 1]))
  }

  /** The value of a string of decimal digits, most significant first. */
  function DigitsValue(s: string): nat
    requires AllDigits(s)
  {
    if |s| == 0 then 0
    else DigitsValue(s[..|s| - 1]) * 10 + (s[|s| - 1] as int - '0' as int)
  }

  /** `int()` on the text between two brackets. Only a non-empty run of ASCII
      digits is read; anything else is the ValueError `int()` raises. */
  function ParseDecimal(s: string): Option<nat>
  {
    if |s| > 0 && AllDigits(s) then Some(DigitsValue(s)) else None
  }

  /** `str(n)` for a natural number n: its decimal digits, without leading zeros. */
  function Decimal(n: nat): (r: string)
    ensures |r| > 0 && AllDigits(r)
  {
    if n < 10 then [('0' as int + n) as char]
    else Decimal(n / 10) + [('0' as int + n % 10) as char]
  }

  /** a * b as repeated addition. The sizes below are products of values read
      from the file; written this way the solver sees only linear arithmetic
      when it unfolds them, and `TimesIsProduct` ties it to `*`. */
  function Times(a: nat, b: nat): nat
  {
    if b == 0 then 0 else Times(a, b - 1) + a
  }

  lemma {:induction false} TimesIsProduct(a: nat, b: nat)
    ensures Times(a, b) == a * b
  {
    if b > 0 {
      TimesIsProduct(a, b - 1);
    }
  }

  /** Product of the dimensions, multiplied in the order the loop multiplies them. */
  function Product(dims: seq<nat>): nat
  {
    if |dims| == 0 then 1 else Times(Product(dims[..|dims| - 1]), dims[|dims| - 1])
  }

  /** The running size of the loop: the type length multiplied by each dimension in turn. */
  function Scaled(typeLen: nat, dims: seq<nat>): nat
  {
    if |dims| == 0 then typeLen else Times(Scaled(typeLen, dims[..|dims| - 1]), dims[|dims| - 1])
  }

  lemma ScaledAppend(typeLen: nat, dims: seq<nat>, d: nat)
    ensures Scaled(typeLen, dims + [d]) == Scaled(typeLen, dims) * d
  {
    assert (dims + [d])[..|dims|] == dims;
    TimesIsProduct(Scaled(typeLen, dims), d);
  }

  /** The running size is the type length times the product of all dimensions. */
  lemma {:induction false} ScaledIsProduct(typeLen: nat, dims: seq<nat>)
    ensures Scaled(typeLen, dims) == typeLen * Product(dims)
  {
    if |dims| > 0 {
      var init, d := dims[..|dims| - 1], dims[|dims| - 1];
      var a, p := Scaled(typeLen, init), Product(init);
      assert Scaled(typeLen, dims) == Times(a, d);
      assert Product(dims) == Times(p, d);
      ScaledIsProduct(typeLen, init);
      TimesIsProduct(a, d);
      TimesIsProduct(p, d);
      MulAssociative(typeLen, p, d);
    }
  }

  lemma MulAssociative(x: nat, y: nat, z: nat)
    ensures (x * y) * z == x * (y * z)
  {
  }

  /** Prefixes `pre` to the dimensions of a successful StripDims. */
  function WithDims(pre: seq<nat>, r: Result<(seq<nat>, string)>): Result<(seq<nat>, string)>
  {
    match r
    case Err(e) => Err(e)
    case Ok((ds, core)) => Ok((pre + ds, core))
  }

  lemma WithDimsAppend(pre: seq<nat>, d: nat, r: Result<(seq<nat>, string)>)
    ensures WithDims(pre, WithDims([d], r)) == WithDims(pre + [d], r)
  {
    if r.Ok? {
      assert pre + ([d] + r.value.0) == (pre + [d]) + r.value.0;
    }
  }

  /** The bracket loop of blendinfo.py:17-23 as a recursion: while the name ends
      with `]`, the text between its first `[` and its first `]` is read as a
      number and that bracket pair is cut out. The result lists the numbers in
      the order they were read and the name that is left. */
  function StripDims(name: string): Result<(seq<nat>, string)>
    decreases |name|
  {
    if |name| == 0 || name[|name| - 1] != ']' then Ok(([], name))
    else match CutBracket(name)
      case Err(e) => Err(e)
      case Ok((d, rest)) => WithDims([d], StripDims(rest))
  }

  /** One pass of the bracket loop: the number between the first `[` and the
      first `]`, and the name with that pair cut out. A missing `[` or `]` and
      text that is not a number are errors. */
  function CutBracket(name: string): (r: Result<(nat, string)>)
    ensures r.Ok? ==> |r.value.1| < |name|
  {
    match IndexOf(name, '[')
    case None => Err(BadDeclaration)
    case Some(open) =>
      match IndexOf(name, ']')
      case None => Err(BadDeclaration)
      case Some(close) =>
        var digits := if open < close then name[open + 1..close] else "";
        match ParseDecimal(digits)
        case None => Err(BadDeclaration)
        case Some(d) => Ok((d, name[..open] + name[close + 1..]))
  }

  lemma StripDimsStep(name: string, d: nat, rest: string)
    requires |name| > 0 && name[|name| - 1] == ']'
    requires CutBracket(name) == Ok((d, rest))
    ensures StripDims(name) == WithDims([d], StripDims(rest))
  {
  }

  /** `CutBracket` once both brackets and the number between them are found. */
  lemma CutBracketFound(name: string, open: nat, close: nat, d: nat)
    requires IndexOf(name, '[') == Some(open) && IndexOf(name, ']') == Some(close)
    requires ParseDecimal(if open < close then name[open + 1..close] else "") == Some(d)
    ensures CutBracket(name) == Ok((d, name[..open] + name[close + 1..]))
  {
  }

  /** One more pass of the bracket loop keeps `StripDims(name)` in reach. */
  lemma StripDimsMore(name: string, rest: string, dims: seq<nat>, d: nat, next: string)
    requires |rest| > 0 && rest[|rest| - 1] == ']' && CutBracket(rest) == Ok((d, next))
    requires StripDims(name) == WithDims(dims, StripDims(rest))
    ensures StripDims(name) == WithDims(dims + [d], StripDims(next))
  {
    StripDimsStep(rest, d, next);
    WithDimsAppend(dims, d, StripDims(next));
  }

  /** The field `DNAField(name, offset, (typeName, typeLen), ptrSize)` builds:
      the size is the type's length times every dimension, unless the name left
      once the brackets are gone starts with `*`, in which case the field is a
      pointer and its size is the pointer width. */
  function FieldOf(name: string, offset: nat, typeName: string, typeLen: nat, ptrSize: nat): Result<Field>
  {
    FieldFrom(StripDims(name), name, offset, typeName, typeLen, ptrSize)
  }

  /** FieldOf once the brackets have been read: `decl` is what StripDims makes of `name`. */
  function FieldFrom(decl: Result<(seq<nat>, string)>, name: string, offset: nat, typeName: string, typeLen: nat,
                     ptrSize: nat): Result<Field>
  {
    match decl
    case Err(e) => Err(e)
    case Ok((dims, core)) =>
      var isPtr := |core| > 0 && core[0] == '*';
      Ok(Field(name, offset, typeName, typeLen, if isPtr then ptrSize else Scaled(typeLen, dims), dims, isPtr))
  }

  lemma FieldOfStripped(name: string, offset: nat, typeName: string, typeLen: nat, ptrSize: nat,
                        dims: seq<nat>, core: string)
    requires StripDims(name) == Ok((dims, core))
    ensures var isPtr := |core| > 0 && core[0] == '*';
      FieldOf(name, offset, typeName, typeLen, ptrSize)
      == Ok(Field(name, offset, typeName, typeLen, if isPtr then ptrSize else Scaled(typeLen, dims), dims, isPtr))
  {
  }

  /** What a successfully built field is: the declaration with its brackets read
      off, a pointer exactly when what is left starts with `*`, sized by the
      pointer width if so and by the type's length times every dimension if not. */
  lemma FieldFromMeaning(decl: Result<(seq<nat>, string)>, name: string, offset: nat, typeName: string, typeLen: nat,
                         ptrSize: nat)
    requires FieldFrom(decl, name, offset, typeName, typeLen, ptrSize).Ok?
    ensures var f := FieldFrom(decl, name, offset, typeName, typeLen, ptrSize).value;
      && decl.Ok? && decl.value.0 == f.dims
      && f.isPtr == (|decl.value.1| > 0 && decl.value.1[0] == '*')
      && f.size == (if f.isPtr then ptrSize else typeLen * Product(f.dims))
      && f.origName == name && f.offset == offset && f.typeName == typeName && f.typeLen == typeLen
  {
    ScaledIsProduct(typeLen, decl.value.0);
  }

  /** `DNAField.__init__`: the loop that strips the brackets one pair at a time,
      appending each dimension and multiplying it into the size, then the
      pointer override. */
  method NewField(name: string, offset: nat, typeName: string, typeLen: nat, ptrSize: nat)
    returns (r: Result<Field>)
    ensures r == FieldOf(name, offset, typeName, typeLen, ptrSize)
  {
    var size := typeLen;
    var dims: seq<nat> := [];
    var rest := name;
    WithNoDims(StripDims(name));
    while |rest| > 0 && rest[|rest| - 1] == ']'
      invariant StripDims(name) == WithDims(dims, StripDims(rest))
      invariant size == Scaled(typeLen, dims)
      decreases |rest|
    {
      var open := IndexOf(rest, '[');
      if open.None? {
        NoOpenBracket(rest);
        return Err(BadDeclaration);
      }
      // `rest` ends with ']', so `index(']')` always finds one.
      var close := IndexOf(rest, ']');
      assert close.Some? by {
        assert rest[|rest| - 1] in rest;
      }
      var digits := if open.value < close.value then rest[open.value + 1..close.value] else "";
      var dim := ParseDecimal(digits);
      if dim.None? {
        NoNumber(rest, open.value, close.value);
        return Err(BadDeclaration);
      }
      var next := rest[..open.value] + rest[close.value + 1..];
      CutBracketFound(rest, open.value, close.value, dim.value);
      StripDimsMore(name, rest, dims, dim.value, next);
      ScaledAppend(typeLen, dims, dim.value);
      dims := dims + [dim.value];
      size := size * dim.value;
      rest := next;
    }
    NoMoreBrackets(name, dims, rest);
    var isPtr := |rest| > 0 && rest[0] == '*';
    if isPtr {
      size := ptrSize;
    }
    FieldOfStripped(name, offset, typeName, typeLen, ptrSize, dims, rest);
    r := Ok(Field(name, offset, typeName, typeLen, size, dims, isPtr));
  }

  lemma WithNoDims(r: Result<(seq<nat>, string)>)
    ensures WithDims([], r) == r
  {
    if r.Ok? {
      assert [] + r.value.0 == r.value.0;
    }
  }

  /** A name that ends with `]` but has no `[` is refused. */
  lemma NoOpenBracket(name: string)
    requires |name| > 0 && name[|name| - 1] == ']' && IndexOf(name, '[').None?
    ensures StripDims(name) == Err(BadDeclaration)
  {
  }

  /** So is one whose first brackets do not enclose a decimal number. */
  lemma NoNumber(name: string, open: nat, close: nat)
    requires |name| > 0 && name[|name| - 1] == ']'
    requires IndexOf(name, '[') == Some(open) && IndexOf(name, ']') == Some(close)
    requires ParseDecimal(if open < close then name[open + 1..close] else "").None?
    ensures StripDims(name) == Err(BadDeclaration)
  {
    assert CutBracket(name) == Err(BadDeclaration);
  }

  /** Once the name no longer ends with `]`, the dimensions read so far are all of them. */
  lemma NoMoreBrackets(name: string, dims: seq<nat>, rest: string)
    requires !(|rest| > 0 && rest[|rest| - 1] == ']')
    requires StripDims(name) == WithDims(dims, StripDims(rest))
    ensures StripDims(name) == Ok((dims, rest))
  {
    assert StripDims(rest) == Ok(([], rest));
    assert dims + [] == dims;
  }

  // ---------------------------------------------------------------------------
  // Declarations written from their parts, and what the parser makes of them.

  predicate NoBrackets(s: string) { forall i :: 0 <= i < |s| ==> s[i] != '[' && s[i] != ']' }

  /** The bracket suffix `[d0][d1]...` of a declaration with dimensions `dims`. */
  function Brackets(dims: seq<nat>): string
  {
    if |dims| == 0 then "" else "[" + Decimal(dims[0]) + "]" + Brackets(dims[1..])
  }

  lemma {:induction false} DigitsValueOfDecimal(n: nat)
    ensures DigitsValue(Decimal(n)) == n
  {
    if n >= 10 {
      var s := Decimal(n);
      assert s[..|s| - 1] == Decimal(n / 10);
      DigitsValueOfDecimal(n / 10);
    }
  }

  /** `int(str(n)) == n`. */
  lemma ParseDecimalOfDecimal(n: nat)
    ensures ParseDecimal(Decimal(n)) == Some(n)
  {
    DigitsValueOfDecimal(n);
  }

  lemma {:induction false} IndexOfIs(s: string, c: char, k: nat)
    requires k < |s| && s[k] == c
    requires forall i :: 0 <= i < k ==> s[i] != c
    ensures IndexOf(s, c) == Some(k)
  {
    if k > 0 {
      assert s[0] != c;
      IndexOfIs(s[1..], c, k - 1);
    }
  }

  lemma {:induction false} BracketsShape(dims: seq<nat>)
    ensures |dims| > 0 ==> |Brackets(dims)| > 0 && Brackets(dims)[|Brackets(dims)| - 1] == ']'
    ensures |dims| == 0 ==> Brackets(dims) == ""
  {
    if |dims| > 0 {
      BracketsShape(dims[1..]);
    }
  }

  lemma {:induction false} AllDigitsAt(s: string, k: nat)
    requires AllDigits(s) && k < |s|
    ensures IsDigit(s[k])
  {
    if k < |s| - 1 {
      AllDigitsAt(s[..|s| - 1], k);
    }
  }

  /** In `core[digits]tail`, the first `[` is the one after `core`. */
  lemma FirstOpen(core: string, d: string, tail: string)
    requires NoBrackets(core)
    ensures IndexOf(core + "[" + d + "]" + tail, '[') == Some(|core|)
  {
    var name := core + "[" + d + "]" + tail;
    forall i | 0 <= i < |core|
      ensures name[i] != '['
    {
      assert name[i] == core[i];
    }
    IndexOfIs(name, '[', |core|);
  }

  /** ... and the first `]` is the one after the digits. */
  lemma FirstClose(core: string, d: string, tail: string)
    requires NoBrackets(core) && AllDigits(d)
    ensures IndexOf(core + "[" + d + "]" + tail, ']') == Some(|core| + 1 + |d|)
  {
    var pre := core + "[" + d;
    var name := pre + "]" + tail;
    forall i | 0 <= i < |pre|
      ensures pre[i] != ']'
    {
      if i < |core| {
        assert pre[i] == core[i];
      } else if i > |core| {
        assert pre[i] == d[i - |core| - 1];
        AllDigitsAt(d, i - |core| - 1);
      }
    }
    forall i | 0 <= i < |pre|
      ensures name[i] != ']'
    {
      assert name[i] == pre[i];
    }
    IndexOfIs(name, ']', |pre|);
  }

  /** One pass over `core[n]tail` reads n and leaves `core tail`. */
  lemma CutOneBracket(core: string, n: nat, tail: string)
    requires NoBrackets(core)
    ensures CutBracket(core + "[" + Decimal(n) + "]" + tail) == Ok((n, core + tail))
  {
    var d := Decimal(n);
    var name := core + "[" + d + "]" + tail;
    FirstOpen(core, d, tail);
    FirstClose(core, d, tail);
    CutOut(core, d, tail);
    ParseDecimalOfDecimal(n);
    CutBracketFound(name, |core|, |core| + 1 + |d|, n);
  }

  /** In `core[d]tail`, the text between the brackets is `d`, and cutting `[d]`
      out leaves `core tail`. */
  lemma CutOut(core: string, d: string, tail: string)
    ensures var name := core + "[" + d + "]" + tail;
      && name[|core| + 1..|core| + 1 + |d|] == d
      && name[..|core|] + name[|core| + 1 + |d| + 1..] == core + tail
  {
    var name := core + "[" + d + "]" + tail;
    assert name[|core| + 1..|core| + 1 + |d|] == d;
    assert name[..|core|] == core;
    assert name[|core| + 1 + |d| + 1..] == tail;
  }

  /** Reading off the first bracket pair of `core[n]tail` gives n and leaves `core tail`. */
  lemma StripOneBracket(core: string, n: nat, tail: string)
    requires NoBrackets(core)
    requires |tail| == 0 || tail[|tail| - 1] == ']'
    ensures StripDims(core + "[" + Decimal(n) + "]" + tail) == WithDims([n], StripDims(core + tail))
  {
    var name := core + "[" + Decimal(n) + "]" + tail;
    assert name[|name| - 1] == ']';
    CutOneBracket(core, n, tail);
    StripDimsStep(name, n, core + tail);
  }

  /** A name without brackets is its own base name, with no dimensions. */
  lemma StripDimsPlain(core: string)
    requires NoBrackets(core)
    ensures StripDims(core) == Ok(([], core))
  {
    if |core| > 0 {
      assert core[|core| - 1] != ']';
    }
  }

  lemma BracketsFirst(core: string, dims: seq<nat>)
    requires |dims| > 0
    ensures core + Brackets(dims) == core + "[" + Decimal(dims[0]) + "]" + Brackets(dims[1..])
  {
    var d, tail := Decimal(dims[0]), Brackets(dims[1..]);
    assert Brackets(dims) == "[" + d + "]" + tail;
    Regroup(core, "[", d, "]", tail);
  }

  lemma Regroup(a: string, b: string, c: string, d: string, e: string)
    ensures a + (b + c + d + e) == a + b + c + d + e
  {
    assert a + (b + c + d + e) == (a + (b + c + d)) + e;
    assert a + (b + c + d) == a + b + c + d;
  }

  /** Reading the declaration `core[d0][d1]...` gives back exactly the
      dimensions d0, d1, ... in order, and the base name `core`. */
  lemma {:induction false} StripDimsOfBrackets(core: string, dims: seq<nat>)
    requires NoBrackets(core)
    ensures StripDims(core + Brackets(dims)) == Ok((dims, core))
  {
    if |dims| == 0 {
      assert core + Brackets(dims) == core;
      StripDimsPlain(core);
    } else {
      StripDimsOfBrackets(core, dims[1..]);
      StripDimsOfMoreBrackets(core, dims);
    }
  }

  /** The step of `StripDimsOfBrackets`: one more bracket pair in front. */
  lemma StripDimsOfMoreBrackets(core: string, dims: seq<nat>)
    requires NoBrackets(core) && |dims| > 0
    requires StripDims(core + Brackets(dims[1..])) == Ok((dims[1..], core))
    ensures StripDims(core + Brackets(dims)) == Ok((dims, core))
  {
    var tail := Brackets(dims[1..]);
    BracketsShape(dims[1..]);
    BracketsFirst(core, dims);
    StripOneBracket(core, dims[0], tail);
    FirstAndRest(dims);
  }

  lemma FirstAndRest(dims: seq<nat>)
    requires |dims| > 0
    ensures [dims[0]] + dims[1..] == dims
  {
  }

  /** A declaration `*name[d0]...` is a pointer whatever its type and dimensions:
      its size is exactly the pointer width, and its dimensions are still recorded. */
  lemma PointerDeclaration(core: string, dims: seq<nat>, offset: nat, typeName: string, typeLen: nat, ptrSize: nat)
    requires NoBrackets(core) && |core| > 0 && core[0] == '*'
    ensures FieldOf(core + Brackets(dims), offset, typeName, typeLen, ptrSize)
         == Ok(Field(core + Brackets(dims), offset, typeName, typeLen, ptrSize, dims, true))
  {
    StripDimsOfBrackets(core, dims);
  }

  /** A declaration `name[d0]...` without `*` is not a pointer, and its size is
      the type's length times the product of its dimensions (the type's length
      alone when there are no brackets). */
  lemma ValueDeclaration(core: string, dims: seq<nat>, offset: nat, typeName: string, typeLen: nat, ptrSize: nat)
    requires NoBrackets(core) && (|core| == 0 || core[0] != '*')
    ensures FieldOf(core + Brackets(dims), offset, typeName, typeLen, ptrSize)
         == Ok(Field(core + Brackets(dims), offset, typeName, typeLen, typeLen * Product(dims), dims, false))
  {
    StripDimsOfBrackets(core, dims);
    ScaledIsProduct(typeLen, dims);
  }
}
