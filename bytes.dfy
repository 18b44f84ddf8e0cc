/** Bytes and the fixed-width unsigned integers the file stores, in either byte
    order. This takes the place of Python's `struct` module for the formats the
    reader uses: `H` (2 bytes), `I` (4 bytes) and `Q` (8 bytes), each under the
    `<` (little-endian) or `>` (big-endian) prefix, which adds no padding. */
module Bytes {

  newtype byte = b: int | 0 <= b < 256

  /** The width of a pointer in the file: 4 or 8 bytes. */
  type PtrSize = n: nat | n == 4 || n == 8 witness 8

  /** How a file lays out its integers: the pointer width and the byte order,
      fixed for the whole file once its header has been read. */
  datatype Layout = Layout(ptrSize: PtrSize, bigEndian: bool)

  /** 256 to the power n: one more than the largest value n bytes can hold. */
  function Pow256(n: nat): (r: nat)
    ensures r > 0
  {
    if n == 0 then 1 else 256 * Pow256(n - 1)
  }

  /** The value of a little-endian unsigned integer: the first byte is the least significant. */
  function LittleEndian(s: seq<byte>): nat
  {
    if |s| == 0 then 0 else s[0] as nat + 256 * LittleEndian(s[1..])
  }

  /** The value of a big-endian unsigned integer: the last byte is the least significant. */
  function BigEndian(s: seq<byte>): nat
  {
    if |s| == 0 then 0 else 256 * BigEndian(s[..|s| - 1]) + s[|s| - 1] as nat
  }

  /** The n low-order bytes of v, least significant first. */
  function ToLittleEndian(v: nat, n: nat): (r: seq<byte>)
    ensures |r| == n
  {
    if n == 0 then [] else [(v % 256) as byte] + ToLittleEndian(v / 256, n - 1)
  }

  /** The n low-order bytes of v, most significant first. */
  function ToBigEndian(v: nat, n: nat): (r: seq<byte>)
    ensures |r| == n
  {
    if n == 0 then [] else ToBigEndian(v / 256, n - 1) + [(v % 256) as byte]
  }

  /** `struct.unpack` of one unsigned integer as wide as `s`, in the given byte order. */
  function Unpack(s: seq<byte>, bigEndian: bool): nat
  {
    if bigEndian then BigEndian(s) else LittleEndian(s)
  }

  /** `struct.pack` of one unsigned integer into n bytes, in the given byte order. */
  function Pack(v: nat, n: nat, bigEndian: bool): (r: seq<byte>)
    ensures |r| == n
  {
    if bigEndian then ToBigEndian(v, n) else ToLittleEndian(v, n)
  }

  lemma {:induction false} LittleEndianBound(s: seq<byte>)
    ensures LittleEndian(s) < Pow256(|s|)
  {
    if |s| > 0 {
      LittleEndianBound(s[1..]);
    }
  }

  lemma {:induction false} BigEndianBound(s: seq<byte>)
    ensures BigEndian(s) < Pow256(|s|)
  {
    if |s| > 0 {
      BigEndianBound(s[..|s| - 1]);
    }
  }

  /** Encoding a value that fits and decoding it gives the value back. */
  lemma {:induction false} LittleEndianOfEncoding(v: nat, n: nat)
    requires v < Pow256(n)
    ensures LittleEndian(ToLittleEndian(v, n)) == v
  {
    if n > 0 {
      var r := ToLittleEndian(v, n);
      assert r[1..] == ToLittleEndian(v / 256, n - 1);
      LittleEndianOfEncoding(v / 256, n - 1);
    }
  }

  lemma {:induction false} BigEndianOfEncoding(v: nat, n: nat)
    requires v < Pow256(n)
    ensures BigEndian(ToBigEndian(v, n)) == v
  {
    if n > 0 {
      var r := ToBigEndian(v, n);
      assert r[..n - 1] == ToBigEndian(v / 256, n - 1);
      BigEndianOfEncoding(v / 256, n - 1);
    }
  }

  /** Decoding bytes and encoding the value in as many bytes gives the bytes back. */
  lemma {:induction false} EncodingOfLittleEndian(s: seq<byte>)
    ensures ToLittleEndian(LittleEndian(s), |s|) == s
  {
    if |s| > 0 {
      var v := LittleEndian(s);
      assert v % 256 == s[0] as nat;
      assert v / 256 == LittleEndian(s[1..]);
      EncodingOfLittleEndian(s[1..]);
      assert s == [s[0]] + s[1..];
    }
  }

  lemma {:induction false} EncodingOfBigEndian(s: seq<byte>)
    ensures ToBigEndian(BigEndian(s), |s|) == s
  {
    if |s| > 0 {
      var v := BigEndian(s);
      var init := s[..|s| - 1];
      assert v % 256 == s[|s| - 1] as nat;
      assert v / 256 == BigEndian(init);
      EncodingOfBigEndian(init);
      assert s == init + [s[|s| - 1]];
    }
  }

  /** `unpack(pack(v))` is v for every v that fits in n bytes, in either byte order. */
  lemma UnpackOfPack(v: nat, n: nat, bigEndian: bool)
    requires v < Pow256(n)
    ensures Unpack(Pack(v, n, bigEndian), bigEndian) == v
  {
    if bigEndian { BigEndianOfEncoding(v, n); } else { LittleEndianOfEncoding(v, n); }
  }

  /** `pack(unpack(s))` is s, in either byte order: a value read from the file and
      written back unchanged leaves the file's bytes unchanged. */
  lemma PackOfUnpack(s: seq<byte>, bigEndian: bool)
    ensures Pack(Unpack(s, bigEndian), |s|, bigEndian) == s
  {
    if bigEndian { EncodingOfBigEndian(s); } else { EncodingOfLittleEndian(s); }
  }

  /** Every decoded value fits in the bytes it came from. */
  lemma UnpackBound(s: seq<byte>, bigEndian: bool)
    ensures Unpack(s, bigEndian) < Pow256(|s|)
  {
    if bigEndian { BigEndianBound(s); } else { LittleEndianBound(s); }
  }

  /** A slice of a slice is a slice of the whole. */
  lemma SliceOfSlice(d: seq<byte>, i: nat, j: nat, k: nat, l: nat)
    requires i <= j <= |d| && k <= l <= j - i
    ensures d[i..j][k..l] == d[i + k..i + l]
  {
    assert forall m :: 0 <= m < l - k ==> d[i..j][k..l][m] == d[i + k..i + l][m];
  }
}
