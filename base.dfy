/** Value types shared by the models of the host web app and of the port-expander driver:
    the JavaScript typed-array element types, an optional value, and the outcome of code
    that may throw. */
module Base {

  /** An element of a Uint8Array. */
  type byte = x: int | 0 <= x < 0x100

  /** An element of a Uint16Array, or what DataView.getUint16 returns. */
  type uint16 = x: int | 0 <= x < 0x1_0000

  /** What DataView.getUint32 returns. */
  type uint32 = x: int | 0 <= x < 0x1_0000_0000

  datatype Option<T> = None | Some(value: T)

  /** A JavaScript computation that either returns a value or throws an error with a message. */
  datatype Result<T> = Ok(value: T) | Thrown(error: string)

  /** The error JavaScript throws when a DataView or typed-array view does not fit its buffer. */
  const RANGE_ERROR: string := "RangeError"

  /** DataView.getUint16(offset, littleEndian) over the bytes of a buffer. */
  function GetUint16(b: seq<byte>, offset: nat, littleEndian: bool): (v: uint16)
    requires offset + 2 <= |b|
    ensures v % 0x100 == (if littleEndian then b[offset] else b[offset + 1])
    ensures v / 0x100 == (if littleEndian then b[offset + 1] else b[offset])
  {
    if littleEndian then b[offset + 1] as int * 0x100 + b[offset] as int
    else b[offset] as int * 0x100 + b[offset + 1] as int
  }

  /** DataView.getUint32(offset, littleEndian) over the bytes of a buffer. */
  function GetUint32(b: seq<byte>, offset: nat, littleEndian: bool): (v: uint32)
    requires offset + 4 <= |b|
    ensures BigEndianBytes(v) == if littleEndian then Reverse4(b[offset..offset + 4]) else b[offset..offset + 4]
  {
    var w := b[offset..offset + 4];
    var q := if littleEndian then Reverse4(w) else w;
    BigEndianBytesOfValue(q);
    BigEndianValue(q)
  }

  /** The four bytes of a 32-bit value, most significant first. */
  function BigEndianBytes(v: uint32): (q: seq<byte>)
    ensures |q| == 4
  {
    [v / 0x100_0000, (v / 0x1_0000) % 0x100, (v / 0x100) % 0x100, v % 0x100]
  }

  function Reverse4(q: seq<byte>): (r: seq<byte>)
    requires |q| == 4
    ensures |r| == 4 && forall i :: 0 <= i < 4 ==> r[i] == q[3 - i]
  {
    [q[3], q[2], q[1], q[0]]
  }

  /** The number four bytes spell, most significant first. */
  function BigEndianValue(q: seq<byte>): uint32
    requires |q| == 4
  {
    q[0] as int * 0x100_0000 + q[1] as int * 0x1_0000 + q[2] as int * 0x100 + q[3] as int
  }

  /** Reading four bytes as a big-endian number and writing the number back gives the same bytes. */
  lemma BigEndianBytesOfValue(q: seq<byte>)
    requires |q| == 4
    ensures BigEndianBytes(BigEndianValue(q)) == q
  {
    var v := BigEndianValue(q);
    assert v / 0x100_0000 == q[0];
    assert v / 0x1_0000 == q[0] as int * 0x100 + q[1] as int;
    assert v / 0x100 == q[0] as int * 0x1_0000 + q[1] as int * 0x100 + q[2] as int;
  }

  /** Writing a number as four bytes and reading them back gives the same number. */
  lemma BigEndianValueOfBytes(v: uint32)
    ensures BigEndianValue(BigEndianBytes(v)) == v
  {
    var q := BigEndianBytes(v);
    assert v == (v / 0x100) * 0x100 + q[3];
    assert v / 0x100 == (v / 0x1_0000) * 0x100 + q[2];
    assert v / 0x1_0000 == q[0] as int * 0x100 + q[1];
  }

  /** Distinct 32-bit values have distinct big-endian byte strings. */
  lemma BigEndianBytesInjective(v: uint32, w: uint32)
    requires BigEndianBytes(v) == BigEndianBytes(w)
    ensures v == w
  {
    BigEndianValueOfBytes(v);
    BigEndianValueOfBytes(w);
  }

  /** The bytes behind a Uint16Array on a little-endian host: each word, low byte first. */
  function WordBytes(words: seq<uint16>): (b: seq<byte>)
    ensures |b| == 2 * |words|
    ensures forall i :: 0 <= i < |words| ==> b[2 * i] == words[i] % 0x100 && b[2 * i + 1] == words[i] / 0x100
  {
    seq(2 * |words|, k requires 0 <= k < 2 * |words| =>
      if k % 2 == 0 then words[k / 2] % 0x100 else words[k / 2] / 0x100)
  }

  /** new Uint16Array(buffer) over a buffer of even length, on a little-endian host. */
  function Words(b: seq<byte>): (w: seq<uint16>)
    requires |b| % 2 == 0
    ensures |w| == |b| / 2
    ensures forall i :: 0 <= i < |w| ==> w[i] == GetUint16(b, 2 * i, true)
  {
    seq(|b| / 2, i requires 0 <= i < |b| / 2 => GetUint16(b, 2 * i, true))
  }

  /** A word view and its bytes describe the same buffer. */
  lemma WordsRoundTrip(b: seq<byte>)
    requires |b| % 2 == 0
    ensures WordBytes(Words(b)) == b
  {
    var w := Words(b);
    var c := WordBytes(w);
    forall i | 0 <= i < |w| ensures c[2 * i] == b[2 * i] && c[2 * i + 1] == b[2 * i + 1] {
      assert w[i] == GetUint16(b, 2 * i, true);
    }
    forall k | 0 <= k < |b| ensures c[k] == b[k] {
      Halves(k);
    }
  }

  /** Every index is twice its half, or one more. */
  lemma Halves(k: nat)
    ensures k == 2 * (k / 2) || k == 2 * (k / 2) + 1
  {
  }

  /** Taking the first n words takes the first 2n bytes. */
  lemma WordBytesPrefix(words: seq<uint16>, n: nat)
    requires n <= |words|
    ensures WordBytes(words[..n]) == WordBytes(words)[..2 * n]
  {
    var a, c := WordBytes(words[..n]), WordBytes(words);
    forall k | 0 <= k < 2 * n ensures a[k] == c[k] {
      assert words[..n][k / 2] == words[k / 2];
    }
  }
}
