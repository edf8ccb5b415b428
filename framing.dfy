/**
  Bytes and the native `size_t` framing used by the cache files: a length is
  written as the 8 bytes of a 64-bit unsigned integer, least significant byte
  first (the byte order of the x86-64 machines the cache runs on), and a
  field is such a length followed by that many raw bytes.
*/
module Framing {
  newtype byte = x: int | 0 <= x < 256

  type Bytes = seq<byte>

  /** 2^64: every `size_t` is below it. */
  const SIZE_LIMIT: nat := 0x1_0000_0000_0000_0000

  /** sizeof(size_t) */
  const SIZE_T_BYTES: nat := 8

  function Pow256(k: nat): nat {
    if k == 0 then 1 else 256 * Pow256(k - 1)
  }

  lemma Pow256Of8()
    ensures Pow256(SIZE_T_BYTES) == SIZE_LIMIT
  {
    assert Pow256(2) == 65536;
    assert Pow256(4) == 65536 * 65536;
    assert Pow256(6) == 65536 * 65536 * 65536;
  }

  /** The value of a little-endian byte string. */
  function ValueOf(bs: Bytes): nat {
    if bs == [] then 0 else bs[0] as nat + 256 * ValueOf(bs[1..])
  }

  /** The `width` low-order bytes of `n`, least significant first. */
  function BytesOf(n: nat, width: nat): (bs: Bytes)
    ensures |bs| == width
  {
    if width == 0 then [] else [(n % 256) as byte] + BytesOf(n / 256, width - 1)
  }

  lemma {:induction false} ValueOfBytesOf(n: nat, width: nat)
    requires n < Pow256(width)
    ensures ValueOf(BytesOf(n, width)) == n
  {
    if width > 0 {
      ValueOfBytesOf(n / 256, width - 1);
      assert BytesOf(n, width)[1..] == BytesOf(n / 256, width - 1);
    }
  }

  lemma {:induction false} BytesOfValueOf(bs: Bytes)
    ensures ValueOf(bs) < Pow256(|bs|)
    ensures BytesOf(ValueOf(bs), |bs|) == bs
  {
    if bs != [] {
      BytesOfValueOf(bs[1..]);
      var v := ValueOf(bs);
      assert v % 256 == bs[0] as nat && v / 256 == ValueOf(bs[1..]);
    }
  }

  /** The in-memory bytes of a `size_t` assigned `n`, which keeps `n` modulo 2^64. */
  function SizeT(n: nat): (bs: Bytes)
    ensures |bs| == SIZE_T_BYTES
  {
    BytesOf(n, SIZE_T_BYTES)
  }

  /** Reading back the bytes of a `size_t` gives its value. */
  lemma SizeTRoundTrip(n: nat)
    requires n < SIZE_LIMIT
    ensures ValueOf(SizeT(n)) == n
  {
    Pow256Of8();
    ValueOfBytesOf(n, SIZE_T_BYTES);
  }

  /** Eight bytes always hold some `size_t`, and writing it back gives the same bytes. */
  lemma SizeTOfValueOf(bs: Bytes)
    requires |bs| == SIZE_T_BYTES
    ensures ValueOf(bs) < SIZE_LIMIT && SizeT(ValueOf(bs)) == bs
  {
    Pow256Of8();
    BytesOfValueOf(bs);
  }

  /** `n` zero bytes, as a value-initialised buffer of that size holds. */
  function Zeros(n: nat): (bs: Bytes)
    ensures |bs| == n
  {
    if n == 0 then [] else [0] + Zeros(n - 1)
  }

  lemma {:induction false} ValueOfZeros(n: nat)
    ensures ValueOf(Zeros(n)) == 0
  {
    if n > 0 {
      assert Zeros(n)[1..] == Zeros(n - 1);
      ValueOfZeros(n - 1);
    }
  }

  predicate Framable(b: Bytes) {
    |b| < SIZE_LIMIT
  }

  /** A field: the `size_t` length of `b`, then `b`. */
  function Field(b: Bytes): (f: Bytes)
    ensures |f| == SIZE_T_BYTES + |b|
  {
    SizeT(|b|) + b
  }

  predicate AllFramable(bs: seq<Bytes>) {
    forall i :: 0 <= i < |bs| ==> Framable(bs[i])
  }

  /** The fields of `bs`, one after the other, in order. */
  function Fields(bs: seq<Bytes>): Bytes {
    if bs == [] then [] else Field(bs[0]) + Fields(bs[1..])
  }

  lemma AllFramableCons(bs: seq<Bytes>)
    requires bs != []
    ensures AllFramable(bs) <==> Framable(bs[0]) && AllFramable(bs[1..])
  {
    if Framable(bs[0]) && AllFramable(bs[1..]) {
      forall i | 0 <= i < |bs| ensures Framable(bs[i]) {
        if i > 0 { assert bs[i] == bs[1..][i - 1]; }
      }
    }
  }

  lemma {:induction false} FieldsSnoc(bs: seq<Bytes>, b: Bytes)
    ensures Fields(bs + [b]) == Fields(bs) + Field(b)
  {
    if bs == [] {
      assert bs + [b] == [b];
    } else {
      assert (bs + [b])[1..] == bs[1..] + [b];
      FieldsSnoc(bs[1..], b);
    }
  }

  /** Every part is small enough for an allocation of its length to succeed. */
  predicate AllFit(bs: seq<Bytes>, maxAlloc: nat) {
    forall i :: 0 <= i < |bs| ==> |bs[i]| <= maxAlloc
  }

  lemma AllFitCons(bs: seq<Bytes>, maxAlloc: nat)
    requires bs != []
    ensures AllFit(bs, maxAlloc) <==> |bs[0]| <= maxAlloc && AllFit(bs[1..], maxAlloc)
  {
    if |bs[0]| <= maxAlloc && AllFit(bs[1..], maxAlloc) {
      forall i | 0 <= i < |bs| ensures |bs[i]| <= maxAlloc {
        if i > 0 { assert bs[i] == bs[1..][i - 1]; }
      }
    }
  }

  predicate IsPrefix(p: Bytes, s: Bytes) {
    |p| <= |s| && s[..|p|] == p
  }

  lemma AppendAssoc(a: Bytes, b: Bytes, c: Bytes)
    ensures (a + b) + c == a + (b + c)
  {
  }

  lemma PrefixOfAppend(p: Bytes, s: Bytes, rest: Bytes)
    requires s == p + rest
    ensures IsPrefix(p, s)
  {
    assert s[..|p|] == p;
  }
}
