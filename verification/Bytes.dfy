/** Byte buffers and memcpy. */
module Bytes {
  type Byte = b: int | 0 <= b < 256

  /** `dst` with `src` copied over it from index `at` on. */
  function Blit<T>(dst: seq<T>, at: int, src: seq<T>): (r: seq<T>)
    requires 0 <= at && at + |src| <= |dst|
    ensures |r| == |dst|
    ensures forall i {:trigger r[i]} :: 0 <= i < |dst| ==>
      r[i] == if at <= i < at + |src| then src[i - at] else dst[i]
  {
    dst[..at] + src + dst[at + |src|..]
  }

  lemma BlitTwice<T>(dst: seq<T>, at: int, a: seq<T>, b: seq<T>)
    requires 0 <= at && at + |a| + |b| <= |dst|
    ensures Blit(Blit(dst, at, a), at + |a|, b) == Blit(dst, at, a + b)
  {
  }

  method Memcpy<T>(dst: array<T>, at: int, src: seq<T>)
    requires 0 <= at && at + |src| <= dst.Length
    modifies dst
    ensures dst[..] == Blit(old(dst[..]), at, src)
  {
    forall i | 0 <= i < |src| {
      dst[at + i] := src[i];
    }
  }
}
