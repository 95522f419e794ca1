/**
 * The blob format of the ancestors and descendants columns: what
 * binary.Write(buf, binary.LittleEndian, xs) writes for a []int64 xs. Each
 * element is one 8-byte word in two's complement, least significant byte
 * first; words follow one another with no header or length prefix.
 */
module Blob {
  import opened Wrappers
  import opened Words

  const WordSize: nat := 8
  const TwoTo64: int := 0x1_0000_0000_0000_0000

  function Pow256(n: nat): (p: nat)
    ensures p > 0
  {
    if n == 0 then 1 else 256 * Pow256(n - 1)
  }

  /** The n least significant base-256 digits of u, least significant first. */
  function LittleEndian(u: nat, n: nat): (bs: seq<uint8>)
    ensures |bs| == n
  {
    if n == 0 then [] else [u % 256] + LittleEndian(u / 256, n - 1)
  }

  /** The number whose base-256 digits, least significant first, are bs. */
  function FromLittleEndian(bs: seq<uint8>): (u: nat)
    ensures u < Pow256(|bs|)
  {
    if bs == [] then 0 else bs[0] + 256 * FromLittleEndian(bs[1..])
  }

  lemma {:induction false} FromToLittleEndian(u: nat, n: nat)
    requires u < Pow256(n)
    ensures FromLittleEndian(LittleEndian(u, n)) == u
  {
    if n > 0 {
      var bs := LittleEndian(u, n);
      assert bs[1..] == LittleEndian(u / 256, n - 1);
      FromToLittleEndian(u / 256, n - 1);
    }
  }

  lemma {:induction false} ToFromLittleEndian(bs: seq<uint8>)
    ensures LittleEndian(FromLittleEndian(bs), |bs|) == bs
  {
    if bs != [] {
      var u := FromLittleEndian(bs);
      var k := FromLittleEndian(bs[1..]);
      assert u == bs[0] + 256 * k;
      assert u % 256 == bs[0] && u / 256 == k;
      ToFromLittleEndian(bs[1..]);
    }
  }

  /** The two's complement bits of x read as an unsigned number. */
  function Unsigned(x: int64): (u: nat)
    ensures u < TwoTo64
  {
    if x < 0 then x + TwoTo64 else x
  }

  /** One int64 as 8 bytes, least significant first. */
  function EncodeWord(x: int64): (bs: seq<uint8>)
    ensures |bs| == WordSize
  {
    LittleEndian(Unsigned(x), WordSize)
  }

  /** Reading 8 bytes back as an int64: a set top bit makes the value negative. */
  function DecodeWord(bs: seq<uint8>): int64
    requires |bs| == WordSize
  {
    assert Pow256(8) == TwoTo64;
    var u := FromLittleEndian(bs);
    if u >= TwoTo64 / 2 then u - TwoTo64 else u
  }

  lemma WordRoundTrip(x: int64)
    ensures DecodeWord(EncodeWord(x)) == x
  {
    assert Pow256(8) == TwoTo64;
    FromToLittleEndian(Unsigned(x), WordSize);
  }

  lemma WordRoundTripBytes(bs: seq<uint8>)
    requires |bs| == WordSize
    ensures EncodeWord(DecodeWord(bs)) == bs
  {
    assert Pow256(8) == TwoTo64;
    ToFromLittleEndian(bs);
  }

  /** Non-negative values keep their plain digits; negative ones wrap round 2^64. */
  lemma EncodeWordValue(x: int64)
    ensures FromLittleEndian(EncodeWord(x)) == if x < 0 then x + TwoTo64 else x
  {
    assert Pow256(8) == TwoTo64;
    FromToLittleEndian(Unsigned(x), WordSize);
  }

  /** The whole list: the words one after another. */
  function Encode(xs: seq<int64>): (bs: seq<uint8>)
    ensures |bs| == WordSize * |xs|
  {
    if xs == [] then [] else Encode(xs[..|xs| - 1]) + EncodeWord(xs[|xs| - 1])
  }

  /** Element i occupies bytes 8i up to 8i + 7. */
  lemma {:induction false} EncodeAt(xs: seq<int64>, i: nat)
    requires i < |xs|
    ensures Encode(xs)[WordSize * i .. WordSize * i + WordSize] == EncodeWord(xs[i])
  {
    var init := xs[..|xs| - 1];
    if i < |xs| - 1 {
      EncodeAt(init, i);
      assert init[i] == xs[i];
      assert Encode(xs)[..WordSize * |init|] == Encode(init);
    }
  }

  lemma EncodeAppend(xs: seq<int64>, ys: seq<int64>)
    ensures Encode(xs + ys) == Encode(xs) + Encode(ys)
    decreases |ys|
  {
    if ys != [] {
      var zs := xs + ys;
      assert zs[..|zs| - 1] == xs + ys[..|ys| - 1];
      EncodeAppend(xs, ys[..|ys| - 1]);
    } else {
      assert xs + ys == xs;
    }
  }

  /** Reading a blob back in 8-byte strides; a length that is not a multiple of 8 is not a blob. */
  function Decode(bs: seq<uint8>): (r: Option<seq<int64>>)
    ensures r.Some? <==> |bs| % WordSize == 0
    ensures r.Some? ==> WordSize * |r.value| == |bs|
    decreases |bs|
  {
    if |bs| % WordSize != 0 then None
    else if bs == [] then Some([])
    else
      var n := |bs| - WordSize;
      var init := Decode(bs[..n]);
      Some(init.value + [DecodeWord(bs[n..])])
  }

  /** Decoding an encoded list gives the list back. */
  lemma {:induction false} DecodeEncode(xs: seq<int64>)
    ensures Decode(Encode(xs)) == Some(xs)
  {
    if xs != [] {
      var init := xs[..|xs| - 1];
      var bs := Encode(xs);
      var n := |bs| - WordSize;
      assert bs[..n] == Encode(init);
      assert bs[n..] == EncodeWord(xs[|xs| - 1]);
      DecodeEncode(init);
      WordRoundTrip(xs[|xs| - 1]);
      assert xs == init + [xs[|xs| - 1]];
    }
  }

  /** Every blob that decodes is the encoding of what it decodes to. */
  lemma {:induction false} EncodeDecode(bs: seq<uint8>)
    requires |bs| % WordSize == 0
    ensures Encode(Decode(bs).value) == bs
    decreases |bs|
  {
    if bs != [] {
      var n := |bs| - WordSize;
      var init := Decode(bs[..n]).value;
      EncodeDecode(bs[..n]);
      WordRoundTripBytes(bs[n..]);
      var xs := Decode(bs).value;
      assert xs[..|xs| - 1] == init;
      assert bs == bs[..n] + bs[n..];
    }
  }

  /** The empty list is the empty blob. */
  lemma EncodeEmpty()
    ensures Encode([]) == []
    ensures Decode([]) == Some([])
  {
  }

  /** A small case: [1, -1] is 01 00 .. 00 followed by eight ff bytes. */
  lemma EncodeExample()
    ensures Encode([1, -1]) == [1, 0, 0, 0, 0, 0, 0, 0, 255, 255, 255, 255, 255, 255, 255, 255]
  {
    var xs: seq<int64> := [1, -1];
    assert xs[..1] == [1];
    assert [1][..0] == [];
    EncodeWordOne();
    EncodeWordMinusOne();
  }

  lemma EncodeWordOne()
    ensures EncodeWord(1) == [1, 0, 0, 0, 0, 0, 0, 0]
  {
    assert LittleEndian(0, 7) == [0, 0, 0, 0, 0, 0, 0];
  }

  /** -1 is 2^64 - 1: every byte is ff. */
  lemma EncodeWordMinusOne()
    ensures EncodeWord(-1) == [255, 255, 255, 255, 255, 255, 255, 255]
  {
    assert Unsigned(-1) == 0xffff_ffff_ffff_ffff;
    assert LittleEndian(0xff, 1) == [255];
    assert LittleEndian(0xffff, 2) == [255, 255];
    assert LittleEndian(0xff_ffff, 3) == [255, 255, 255];
    assert LittleEndian(0xffff_ffff, 4) == [255, 255, 255, 255];
    assert LittleEndian(0xff_ffff_ffff, 5) == [255, 255, 255, 255, 255];
    assert LittleEndian(0xffff_ffff_ffff, 6) == [255, 255, 255, 255, 255, 255];
    assert LittleEndian(0xff_ffff_ffff_ffff, 7) == [255, 255, 255, 255, 255, 255, 255];
  }
}
