/** The DMA descriptor table of the MMC controller: Libraries/driverlib/fh_mmc.c
    builds it, drivers/drv_mmc.c guards it and clears it. */
module Mmc {
  import opened Common

  /** One 16-byte descriptor: the flags of word 0, the 13-bit size of word 1, the
      buffer address and the address of the next descriptor. */
  datatype Desc = Desc(own: bool, chained: bool, first: bool, last: bool, size: int, buffer: int, next: int)

  /** Size of block `i` of a transfer of `size` bytes. */
  function SizeAt(size: int, i: nat): int {
    Min(0x1f00, size - 0x1f00 * i)
  }

  /** `n` is the number of blocks of a transfer of `size` bytes. */
  predicate IsCount(size: int, n: nat) {
    n > 0 && 0x1f00 * (n - 1) < size <= 0x1f00 * n
  }

  /** Descriptor `i` of the table at `base`, over what was there before. */
  function Entry(was: Desc, base: int, buf: int, size: int, n: nat, i: nat): Desc {
    Desc(true, true, was.first || i == 0, was.last || i == n - 1, SizeAt(size, i), buf + 0x1f00 * i,
         if i == n - 1 then 0 else base + (i + 1) * 16)
  }

  function Table(was: seq<Desc>, base: int, buf: int, size: int, n: nat): (t: seq<Desc>)
    requires n <= |was|
    ensures |t| == |was|
    ensures forall i {:trigger t[i]} :: 0 <= i < |t| ==>
      t[i] == if i < n then Entry(was[i], base, buf, size, n, i) else was[i]
  {
    seq(|was|, i requires 0 <= i < |was| => if i < n then Entry(was[i], base, buf, size, n, i) else was[i])
  }

  function Run(from: int, n: int): seq<int>
    requires n >= 0
  {
    seq(n, k => from + k)
  }

  /** The controller's own reading of a table: the byte addresses it accesses from
      entry `i` on, or nothing if within `fuel` entries the chain has not ended or
      has left the entries it owns. */
  function Walk(t: seq<Desc>, base: int, i: int, fuel: nat): Option<seq<int>>
    decreases fuel
  {
    if fuel == 0 || !(0 <= i < |t|) || !t[i].own || t[i].size < 0 then None
    else if t[i].last then Some(Run(t[i].buffer, t[i].size))
    else if !t[i].chained then None
    else
      match Walk(t, base, (t[i].next - base) / 16, fuel - 1)
      case None => None
      case Some(rest) => Some(Run(t[i].buffer, t[i].size) + rest)
  }

  lemma {:induction false} WalkFrom(was: seq<Desc>, base: int, buf: int, size: int, n: nat, i: nat, fuel: nat)
    requires IsCount(size, n) && i < n <= |was| && n - i <= fuel
    requires forall k :: i <= k < n - 1 ==> !was[k].last
    ensures Walk(Table(was, base, buf, size, n), base, i, fuel)
            == Some(Run(buf + 0x1f00 * i, size - 0x1f00 * i))
    decreases n - i
  {
    var t := Table(was, base, buf, size, n);
    assert t[i] == Entry(was[i], base, buf, size, n, i);
    if i < n - 1 {
      WalkFrom(was, base, buf, size, n, i + 1, fuel - 1);
      assert (t[i].next - base) / 16 == i + 1;
      assert Run(buf + 0x1f00 * i, size - 0x1f00 * i)
          == Run(buf + 0x1f00 * i, 0x1f00) + Run(buf + 0x1f00 * (i + 1), size - 0x1f00 * (i + 1));
    }
  }

  /** A stale end flag cuts the transfer short. */
  lemma {:induction false} WalkCutShort(was: seq<Desc>, base: int, buf: int, size: int, n: nat, i: nat, k: nat, fuel: nat)
    requires IsCount(size, n) && i <= k < n - 1 && n <= |was| && was[k].last
    ensures Walk(Table(was, base, buf, size, n), base, i, fuel).Some? ==>
              |Walk(Table(was, base, buf, size, n), base, i, fuel).value| < size - 0x1f00 * i
    decreases k - i
  {
    var t := Table(was, base, buf, size, n);
    assert t[i] == Entry(was[i], base, buf, size, n, i);
    if fuel > 0 && !t[i].last {
      WalkCutShort(was, base, buf, size, n, i + 1, k, fuel - 1);
      assert (t[i].next - base) / 16 == i + 1;
    }
  }

  /** The controller accesses exactly the bytes of the buffer, in order and once
      each, if and only if no end flag was left in the table before the last
      entry used. */
  lemma WalkExact(was: seq<Desc>, base: int, buf: int, size: int, n: nat)
    requires IsCount(size, n) && n <= |was|
    ensures Walk(Table(was, base, buf, size, n), base, 0, |was|) == Some(Run(buf, size))
            <==> forall k :: 0 <= k < n - 1 ==> !was[k].last
  {
    if k :| 0 <= k < n - 1 && was[k].last {
      WalkCutShort(was, base, buf, size, n, 0, k, |was|);
    } else {
      WalkFrom(was, base, buf, size, n, 0, |was|);
    }
  }

  /** MMC_InitDescriptors */
  method InitDescriptors(desc: array<Desc>, base: int, buf: int, size: int) returns (count: nat)
    requires 0 < size <= 0x1f00 * desc.Length
    modifies desc
    ensures IsCount(size, count) && count <= desc.Length
    ensures desc[..] == Table(old(desc[..]), base, buf, size, count)
  {
    var len, rest := 0, size;
    count := 0;
    while rest > 0
      invariant count <= desc.Length && rest == size - len && rest >= 0
      invariant len == Min(0x1f00 * count, size)
      invariant rest == 0 ==> IsCount(size, count)
      invariant forall i {:trigger desc[i]} :: 0 <= i < count ==>
        desc[i] == Desc(true, true, old(desc[i].first), old(desc[i].last),
                        SizeAt(size, i), buf + 0x1f00 * i, base + (i + 1) * 16)
      invariant forall i :: count <= i < desc.Length ==> desc[i] == old(desc[i])
      decreases rest
    {
      desc[count] := desc[count].(own := true, chained := true);
      desc[count] := desc[count].(size := Min(0x1f00, rest) % 0x2000);
      desc[count] := desc[count].(buffer := buf + len);
      desc[count] := desc[count].(next := base + (count + 1) * 16);
      rest := rest - desc[count].size;
      len := len + desc[count].size;
      count := count + 1;
    }
    desc[0] := desc[0].(first := true);
    desc[count - 1] := desc[count - 1].(last := true);
    desc[count - 1] := desc[count - 1].(next := 0);
  }

  predicate Blank(t: seq<Desc>) {
    forall i {:trigger t[i]} :: 0 <= i < |t| ==> t[i] == Desc(false, false, false, false, 0, 0, 0)
  }

  /** The DMA part of fh_mmc_perpare_data, on the table as probing or the previous
      request left it. */
  method PrepareData(desc: array<Desc>, base: int, buf: int, size: int, internalBuf: int) returns (ok: bool)
    requires size > 0 && Blank(desc[..])
    modifies desc
    ensures ok <==> size <= 0x1f00 * desc.Length && size <= internalBuf
    ensures !ok ==> Blank(desc[..])
    ensures ok ==> Walk(desc[..], base, 0, desc.Length) == Some(Run(buf, size))
    ensures ok ==> exists n: nat :: IsCount(size, n) && n <= desc.Length && Marked(desc[..], n)
  {
    if size > 0x1f00 * desc.Length {
      return false;
    }
    if size > internalBuf {
      return false;
    }
    ghost var was := desc[..];
    var n := InitDescriptors(desc, base, buf, size);
    WalkExact(was, base, buf, size, n);
    assert Marked(desc[..], n);
    ok := true;
  }

  /** Of `n` entries in use just the first and the last carry their flags. */
  predicate Marked(t: seq<Desc>, n: nat) {
    forall i {:trigger t[i]} :: 0 <= i < |t| ==>
      && (t[i].own <==> i < n)
      && (t[i].first <==> i == 0)
      && (t[i].last <==> i == n - 1)
  }

  /** The memset of fh_mmc_complete_request. */
  method CompleteRequest(desc: array<Desc>)
    modifies desc
    ensures Blank(desc[..])
  {
    forall i | 0 <= i < desc.Length {
      desc[i] := Desc(false, false, false, false, 0, 0, 0);
    }
  }
}
