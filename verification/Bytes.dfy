// Bytes, 32-bit words and writing a run of bytes into the middle of an image.

module Bytes {
  type Byte = x: int | 0 <= x < 256
  type Word = x: int | 0 <= x < 0x1_0000_0000
  type Bytes = seq<Byte>

  /** The four bytes of a word as a little-endian host stores them. */
  function EncodeWord(w: Word): (s: Bytes)
    ensures |s| == 4
  {
    [w % 256, w / 256 % 256, w / 65536 % 256, w / 16777216]
  }

  function DecodeWord(s: Bytes): Word
    requires |s| == 4
  {
    s[0] as int + 256 * (s[1] as int) + 65536 * (s[2] as int) + 16777216 * (s[3] as int)
  }

  lemma WordRoundTrip(w: Word)
    ensures DecodeWord(EncodeWord(w)) == w
  {
    assert w / 65536 == w / 256 / 256 && w / 16777216 == w / 256 / 256 / 256;
  }

  /** `img` with the bytes from offset `o` replaced by `b`. */
  function Splice(img: Bytes, o: nat, b: Bytes): (r: Bytes)
    requires o + |b| <= |img|
    ensures |r| == |img|
  {
    img[..o] + b + img[o + |b|..]
  }

  /** The bytes of `img` from offset `o` are `b`. */
  ghost predicate Reads(img: Bytes, o: nat, b: Bytes) {
    o + |b| <= |img| && img[o..o + |b|] == b
  }

  lemma SpliceReads(img: Bytes, o: nat, b: Bytes)
    requires o + |b| <= |img|
    ensures Reads(Splice(img, o, b), o, b)
  {
  }

  /** A splice leaves every stretch that it does not overlap as it was. */
  lemma SpliceFrame(img: Bytes, o: nat, b: Bytes, x: nat, was: Bytes)
    requires o + |b| <= |img| && Reads(img, x, was)
    requires x + |was| <= o || o + |b| <= x
    ensures Reads(Splice(img, o, b), x, was)
  {
    var r := Splice(img, o, b);
    assert forall i :: x <= i < x + |was| ==> r[i] == img[i];
  }

  /** A splice inside a stretch is the splice of that stretch. */
  lemma SpliceWithin(img: Bytes, o: nat, b: Bytes, x: nat, was: Bytes)
    requires Reads(img, x, was) && x <= o && o + |b| <= x + |was|
    ensures Reads(Splice(img, o, b), x, Splice(was, o - x, b))
  {
    var r, n := Splice(img, o, b), Splice(was, o - x, b);
    forall i | 0 <= i < |n|
      ensures r[x + i] == n[i]
    {
      assert img[x..x + |was|][i] == img[x + i];
    }
  }

  /** One write of two adjoining runs is the two writes one after the other. */
  lemma SpliceConcat(img: Bytes, o: nat, a: Bytes, b: Bytes)
    requires o + |a| + |b| <= |img|
    ensures Splice(img, o, a + b) == Splice(Splice(img, o, a), o + |a|, b)
  {
  }

  lemma ReadsSplit(img: Bytes, o: nat, b: Bytes, n: nat)
    requires Reads(img, o, b) && n <= |b|
    ensures Reads(img, o, b[..n]) && Reads(img, o + n, b[n..])
  {
    var all := img[o..o + |b|];
    assert img[o..o + n] == all[..n] && img[o + n..o + |b|] == all[n..];
  }

  lemma ReadsPart(img: Bytes, o: nat, b: Bytes, i: nat, n: nat)
    requires Reads(img, o, b) && i + n <= |b|
    ensures img[o + i..o + i + n] == b[i..i + n]
  {
    ReadsSplit(img, o, b, i);
    ReadsSplit(img, o + i, b[i..], n);
  }

  lemma ReadsExtend(img: Bytes, more: Bytes, o: nat, b: Bytes)
    requires Reads(img, o, b)
    ensures Reads(img + more, o, b)
  {
  }

  /** Each entry of `m` lies in the image, `shift` bytes after its key. */
  ghost predicate Holds(img: Bytes, shift: nat, m: map<nat, Bytes>) {
    forall p :: p in m ==> Reads(img, p + shift, m[p])
  }

  lemma HoldsFrame(img: Bytes, shift: nat, m: map<nat, Bytes>, o: nat, b: Bytes)
    requires o + |b| <= |img| && Holds(img, shift, m)
    requires forall p :: p in m ==> p + shift + |m[p]| <= o || o + |b| <= p + shift
    ensures Holds(Splice(img, o, b), shift, m)
  {
    forall p | p in m
      ensures Reads(Splice(img, o, b), p + shift, m[p])
    {
      SpliceFrame(img, o, b, p + shift, m[p]);
    }
  }

  lemma HoldsExtend(img: Bytes, more: Bytes, shift: nat, m: map<nat, Bytes>)
    requires Holds(img, shift, m)
    ensures Holds(img + more, shift, m)
  {
    forall p | p in m
      ensures Reads(img + more, p + shift, m[p])
    {
      ReadsExtend(img, more, p + shift, m[p]);
    }
  }

  lemma ReadsTail(img: Bytes, more: Bytes, n: nat)
    requires n <= |more|
    ensures Reads(img + more, |img| + n, more[n..])
  {
  }
}
