/** The wire format shared by the server and its workers: every message is an
    8-byte big-endian length followed by that many payload bytes, and a payload
    is a run of 4-byte cells, one per model element. */
module Wire {

  /** One octet on the wire. */
  type byte = b: int | 0 <= b < 256

  /** Size of the length header: one `uint64_t`. */
  const HEADER_LEN: nat := 8
  /** Size of one model element on the wire: one `float`. */
  const ELEM_LEN: nat := 4
  /** Number of distinct values of a 4-byte cell. */
  const CELL_RANGE: nat := 0x1_0000_0000
  /** Smallest and one-past-largest element a 4-byte cell represents. */
  const ELEM_MIN: int := -0x8000_0000
  const ELEM_MAX: int := 0x8000_0000

  /** 256 to the power k: the number of values k bytes can hold. */
  function Pow256(k: nat): (p: nat)
    ensures p > 0
  {
    if k == 0 then 1 else 256 * Pow256(k - 1)
  }

  lemma Pow256Cell()
    ensures Pow256(ELEM_LEN) == CELL_RANGE
  {
    assert Pow256(0) == 1;
    assert Pow256(1) == 256;
    assert Pow256(2) == 0x1_0000;
    assert Pow256(3) == 0x100_0000;
  }

  /** Eight bytes hold any length below 2^64. */
  lemma Pow256Header()
    ensures Pow256(HEADER_LEN) == 0x1_0000_0000_0000_0000
  {
    Pow256Cell();
    assert Pow256(5) == 0x100_0000_0000;
    assert Pow256(6) == 0x1_0000_0000_0000;
    assert Pow256(7) == 0x100_0000_0000_0000;
  }

  /** The number a byte string denotes, most significant byte first (`be64toh`
      for eight bytes). */
  function BeDecode(s: seq<byte>): (n: nat)
    ensures n < Pow256(|s|)
  {
    if s == [] then 0
    else
      var hi := BeDecode(s[..|s| - 1]);
      assert 256 * hi <= 256 * (Pow256(|s| - 1) - 1);
      256 * hi + s[|s| - 1]
  }

  /** The k-byte big-endian representation of n (`htobe64` for eight bytes). */
  function BeEncode(n: nat, k: nat): (s: seq<byte>)
    requires n < Pow256(k)
    ensures |s| == k
  {
    if k == 0 then []
    else
      DivBound(n, Pow256(k - 1));
      BeEncode(n / 256, k - 1) + [n % 256]
  }

  lemma DivBound(n: nat, p: nat)
    requires n < 256 * p
    ensures n / 256 < p
  {
  }

  /** Decoding an encoded number gives the number back. */
  lemma {:induction false} DecodeEncode(n: nat, k: nat)
    requires n < Pow256(k)
    ensures BeDecode(BeEncode(n, k)) == n
  {
    if k > 0 {
      var s := BeEncode(n, k);
      DivBound(n, Pow256(k - 1));
      assert s[..k - 1] == BeEncode(n / 256, k - 1);
      DecodeEncode(n / 256, k - 1);
    }
  }

  /** Encoding a decoded byte string at its own width gives the bytes back. */
  lemma {:induction false} EncodeDecode(s: seq<byte>)
    ensures BeEncode(BeDecode(s), |s|) == s
  {
    if s != [] {
      var init, last := s[..|s| - 1], s[|s| - 1];
      var n := BeDecode(s);
      assert n == 256 * BeDecode(init) + last;
      assert n / 256 == BeDecode(init) && n % 256 == last;
      EncodeDecode(init);
      assert s == init + [last];
    }
  }

  /** The 8-byte length header announcing a payload of `len` bytes. */
  function Header(len: nat): (h: seq<byte>)
    requires len < Pow256(HEADER_LEN)
    ensures |h| == HEADER_LEN && BeDecode(h) == len
  {
    DecodeEncode(len, HEADER_LEN);
    BeEncode(len, HEADER_LEN)
  }

  /** Any 8 bytes are the header of the length they denote. */
  lemma HeaderOfDecoded(h: seq<byte>)
    requires |h| == HEADER_LEN
    ensures Header(BeDecode(h)) == h
  {
    EncodeDecode(h);
  }

  /** One framed message: the length header, then the payload itself. */
  function Frame(payload: seq<byte>): (f: seq<byte>)
    requires |payload| < Pow256(HEADER_LEN)
    ensures |f| == HEADER_LEN + |payload|
    ensures BeDecode(f[..HEADER_LEN]) == |payload| && f[HEADER_LEN..] == payload
  {
    var f := Header(|payload|) + payload;
    assert f[..HEADER_LEN] == Header(|payload|);
    f
  }

  /** The 4-byte cell of one model element, two's complement, most significant
      byte first; elements outside the 32-bit range wrap around. */
  function EncodeElem(x: int): (b: seq<byte>)
    ensures |b| == ELEM_LEN
  {
    Pow256Cell();
    BeEncode(x % CELL_RANGE, ELEM_LEN)
  }

  /** The model element a 4-byte cell holds. */
  function DecodeElem(b: seq<byte>): (x: int)
    requires |b| == ELEM_LEN
    ensures ELEM_MIN <= x < ELEM_MAX
  {
    Pow256Cell();
    var u := BeDecode(b);
    if u < ELEM_MAX then u else u - CELL_RANGE
  }

  /** Every element in the 32-bit range survives a trip through its cell. */
  lemma DecodeEncodeElem(x: int)
    requires ELEM_MIN <= x < ELEM_MAX
    ensures DecodeElem(EncodeElem(x)) == x
  {
    Pow256Cell();
    DecodeEncode(x % CELL_RANGE, ELEM_LEN);
  }

  /** Every cell is the encoding of the element it holds. */
  lemma EncodeDecodeElem(b: seq<byte>)
    requires |b| == ELEM_LEN
    ensures EncodeElem(DecodeElem(b)) == b
  {
    Pow256Cell();
    EncodeDecode(b);
    var u := BeDecode(b);
    assert DecodeElem(b) % CELL_RANGE == u;
  }

  /** The payload bytes of a model: its cells, in order (the `memcpy` of the
      float vector). */
  function EncodeModel(m: seq<int>): (bytes: seq<byte>)
    ensures |bytes| == ELEM_LEN * |m|
  {
    if m == [] then [] else EncodeModel(m[..|m| - 1]) + EncodeElem(m[|m| - 1])
  }

  /** The model elements a payload holds: one per 4-byte cell. */
  function DecodeModel(bytes: seq<byte>): (m: seq<int>)
    requires |bytes| % ELEM_LEN == 0
    ensures |m| == |bytes| / ELEM_LEN
  {
    seq(|bytes| / ELEM_LEN, i requires 0 <= i < |bytes| / ELEM_LEN =>
      DecodeElem(bytes[ELEM_LEN * i .. ELEM_LEN * i + ELEM_LEN]))
  }

  /** The cell of element i of a model sits at bytes 4i to 4i+4 of its payload. */
  lemma {:induction false} EncodeModelCell(m: seq<int>, i: nat)
    requires i < |m|
    ensures ELEM_LEN * i + ELEM_LEN <= |EncodeModel(m)|
    ensures EncodeModel(m)[ELEM_LEN * i .. ELEM_LEN * i + ELEM_LEN] == EncodeElem(m[i])
  {
    var init := m[..|m| - 1];
    if i < |m| - 1 {
      EncodeModelCell(init, i);
      assert EncodeModel(m)[..|EncodeModel(init)|] == EncodeModel(init);
    }
  }

  /** A model whose elements fit in 32 bits is read back intact from its payload. */
  lemma {:induction false} DecodeEncodeModel(m: seq<int>)
    requires forall i :: 0 <= i < |m| ==> ELEM_MIN <= m[i] < ELEM_MAX
    ensures DecodeModel(EncodeModel(m)) == m
  {
    var bytes := EncodeModel(m);
    assert |bytes| / ELEM_LEN == |m|;
    var d := DecodeModel(bytes);
    forall i | 0 <= i < |m|
      ensures d[i] == m[i]
    {
      EncodeModelCell(m, i);
      assert d[i] == DecodeElem(bytes[ELEM_LEN * i .. ELEM_LEN * i + ELEM_LEN]);
      DecodeEncodeElem(m[i]);
    }
  }

  /** Every payload made of whole cells is the payload of the model it
      decodes to. */
  lemma {:induction false} EncodeDecodeModel(b: seq<byte>)
    requires |b| % ELEM_LEN == 0
    ensures EncodeModel(DecodeModel(b)) == b
    decreases |b|
  {
    var m := DecodeModel(b);
    if b != [] {
      var k := |b| - ELEM_LEN;
      var init, last := b[..k], b[k..];
      var mi := DecodeModel(init);
      forall i | 0 <= i < |mi|
        ensures mi[i] == m[i]
      {
        assert init[ELEM_LEN * i .. ELEM_LEN * i + ELEM_LEN] == b[ELEM_LEN * i .. ELEM_LEN * i + ELEM_LEN];
      }
      assert m[..|m| - 1] == mi;
      var j := |m| - 1;
      assert ELEM_LEN * j == k && ELEM_LEN * j + ELEM_LEN == |b|;
      assert m[j] == DecodeElem(b[ELEM_LEN * j .. ELEM_LEN * j + ELEM_LEN]);
      assert b[ELEM_LEN * j .. ELEM_LEN * j + ELEM_LEN] == last;
      EncodeDecodeModel(init);
      EncodeDecodeElem(last);
      assert b == init + last;
    }
  }
}
