/** Octets, 16-bit words and the two payload encodings the wire uses:
    big-endian words and LSB-first packed bits. Also the zero-filled
    fixed-size scratch buffers both engines keep. */
module Bytes {

  type byte = x: int | 0 <= x < 0x100
  type u16 = x: int | 0 <= x < 0x1_0000

  /** High and low octet of a word, and the word made of two octets. */
  function Hi(v: u16): byte { v / 0x100 }
  function Lo(v: u16): byte { v % 0x100 }
  function Word(hi: byte, lo: byte): u16 { hi * 0x100 + lo }

  lemma WordOfHalves(v: u16)
    ensures Word(Hi(v), Lo(v)) == v
  {}

  /** Two octets that are the halves of v join back into v. */
  lemma HalvesJoin(hi: byte, lo: byte, v: u16)
    requires hi == Hi(v) && lo == Lo(v)
    ensures Word(hi, lo) == v
  {
    WordOfHalves(v);
  }

  lemma HalvesOfWord(hi: byte, lo: byte)
    ensures Hi(Word(hi, lo)) == hi && Lo(Word(hi, lo)) == lo
  {}

  /** Where a big-endian encoding sits at offset `at` of a buffer, value i
      occupies the octets at at+2i (high) and at+2i+1 (low). */
  lemma BigEndianAt(buf: seq<byte>, at: nat, values: seq<u16>, i: nat)
    requires at + 2 * |values| <= |buf| && buf[at .. at + 2 * |values|] == BigEndian(values)
    requires i < |values|
    ensures buf[at + 2 * i] == Hi(values[i]) && buf[at + 2 * i + 1] == Lo(values[i])
  {
    var enc := BigEndian(values);
    assert buf[at + 2 * i] == enc[2 * i];
    assert buf[at + 2 * i + 1] == enc[2 * i + 1];
  }

  /** Words serialised high octet first, in order. */
  function BigEndian(values: seq<u16>): (r: seq<byte>)
    ensures |r| == 2 * |values|
    ensures forall i :: 0 <= i < |values| ==> r[2 * i] == Hi(values[i]) && r[2 * i + 1] == Lo(values[i])
  {
    if |values| == 0 then []
    else [Hi(values[0]), Lo(values[0])] + BigEndian(values[1..])
  }

  /** Reading the words back from their big-endian octets. */
  function Words(bytes: seq<byte>): (r: seq<u16>)
    requires |bytes| % 2 == 0
    ensures |r| == |bytes| / 2
  {
    if |bytes| == 0 then []
    else [Word(bytes[0], bytes[1])] + Words(bytes[2..])
  }

  lemma {:induction false} WordsOfBigEndian(values: seq<u16>)
    ensures Words(BigEndian(values)) == values
  {
    if |values| > 0 {
      var r := BigEndian(values);
      assert r[2..] == BigEndian(values[1..]);
      WordsOfBigEndian(values[1..]);
      WordOfHalves(values[0]);
    }
  }

  function Pow2(n: nat): (r: nat)
    ensures r >= 1
  {
    if n == 0 then 1 else 2 * Pow2(n - 1)
  }

  /** Bit p of v, least significant first: (v >> p) & 1. */
  predicate Bit(v: nat, p: nat)
  {
    if p == 0 then v % 2 == 1 else Bit(v / 2, p - 1)
  }

  /** The number whose bit p is bits[p]; LSB first. */
  function PackBits(bits: seq<bool>): (r: nat)
    ensures r < Pow2(|bits|)
  {
    if |bits| == 0 then 0
    else (if bits[0] then 1 else 0) + 2 * PackBits(bits[1..])
  }

  lemma {:induction false} NoBitOfZero(p: nat)
    ensures !Bit(0, p)
  {
    if p > 0 {
      NoBitOfZero(p - 1);
    }
  }

  /** Bit p of a packed group is exactly the p-th flag, and clear past the end. */
  lemma {:induction false} BitOfPackBits(bits: seq<bool>, p: nat)
    ensures Bit(PackBits(bits), p) == (p < |bits| && bits[p])
  {
    if |bits| == 0 {
      NoBitOfZero(p);
    } else {
      var v := PackBits(bits);
      var rest := PackBits(bits[1..]);
      assert v == (if bits[0] then 1 else 0) + 2 * rest;
      if p > 0 {
        assert v / 2 == rest;
        BitOfPackBits(bits[1..], p - 1);
      }
    }
  }

  lemma {:induction false} Pow2AtMost(n: nat, m: nat)
    requires n <= m
    ensures Pow2(n) <= Pow2(m)
  {
    if n < m {
      Pow2AtMost(n, m - 1);
    }
  }

  /** Up to eight flags packed LSB-first into one octet. */
  function PackByte(bits: seq<bool>): (r: byte)
    requires |bits| <= 8
    ensures forall p: nat :: Bit(r, p) <==> p < |bits| && bits[p]
  {
    Pow2AtMost(|bits|, 8);
    assert Pow2(8) == 256;
    var v := PackBits(bits);
    forall p: nat ensures Bit(v, p) <==> p < |bits| && bits[p] {
      BitOfPackBits(bits, p);
    }
    v
  }

  /** A bit of an octet at position 8 or beyond is always clear. */
  lemma {:induction false} HighBitsClear(v: byte, p: nat)
    requires p >= 8
    ensures !Bit(v, p)
  {
    var w: nat := v;
    var k: nat := 0;
    while k < 8
      invariant k <= 8
      invariant w < Pow2(8 - k)
      invariant Bit(w, p - k) == Bit(v, p)
    {
      assert Pow2(8 - k) == 2 * Pow2(8 - k - 1);
      w, k := w / 2, k + 1;
    }
    assert w == 0;
    NoBitOfZero(p - 8);
  }

  /** A scratch buffer of n zero octets, as after a memset. */
  function Zeros(n: nat): (r: seq<byte>)
    ensures |r| == n && forall i :: 0 <= i < n ==> r[i] == 0
  {
    seq(n, _ => 0)
  }

  /** Buffer read: octet i, or 0 past the end. */
  function Get(buf: seq<byte>, i: int): byte
  {
    if 0 <= i < |buf| then buf[i] else 0
  }

  /** Buffer store: octet i replaced, no effect past the end. */
  function Put(buf: seq<byte>, i: int, b: byte): (r: seq<byte>)
    ensures |r| == |buf|
    ensures forall k :: 0 <= k < |buf| ==> r[k] == (if k == i then b else buf[k])
  {
    if 0 <= i < |buf| then buf[i := b] else buf
  }

  /** `(addr << 8) | b` on a 16-bit word: the older octet moves up, the
      octet above it drops out. */
  function ShiftIn(addr: u16, b: byte): (r: u16)
    ensures addr < 0x100 ==> r == Word(addr, b)
  {
    (addr * 0x100 + b) % 0x1_0000
  }
}
