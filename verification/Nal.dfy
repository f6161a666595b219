/** Splitting an encoder frame at its H.264 start codes (Annex B byte stream),
    from applications/audio_video_demo/video_main.c. */
module Nal {
  import opened Common
  import opened Bytes

  predicate CodeAt(s: seq<Byte>, p: nat) {
    p + 4 <= |s| && s[p] == 0 && s[p + 1] == 0 && s[p + 2] == 0 && s[p + 3] == 1
  }

  /** The first start code at `from` or later. */
  function NextCode(s: seq<Byte>, from: nat): (r: Option<nat>)
    ensures r.Some? ==> from <= r.value <= |s| - 4
    decreases |s| - from
  {
    if from + 4 > |s| then None
    else if CodeAt(s, from) then Some(from)
    else NextCode(s, from + 1)
  }

  lemma {:induction false} NextCodeIsFirst(s: seq<Byte>, from: nat, p: nat)
    requires from <= p
    ensures match NextCode(s, from)
            case None => !CodeAt(s, p)
            case Some(q) => CodeAt(s, q) && (p < q ==> !CodeAt(s, p))
    decreases |s| - from
  {
    if from + 4 <= |s| && !CodeAt(s, from) && (from < p || NextCode(s, from).Some?) {
      NextCodeIsFirst(s, from + 1, if from < p then p else p + 1);
    }
  }

  lemma {:induction false} FirstIsNextCode(s: seq<Byte>, from: nat, q: nat)
    requires from <= q && CodeAt(s, q)
    requires forall p :: from <= p < q ==> !CodeAt(s, p)
    ensures NextCode(s, from) == Some(q)
    decreases q - from
  {
    if from < q {
      FirstIsNextCode(s, from + 1, q);
    }
  }

  /** What is sent of a frame from offset `pos` on: it is cut before every start
      code found, and each search skips the four bytes at the cut. */
  function Pieces(s: seq<Byte>, pos: nat): seq<seq<Byte>>
    requires pos <= |s|
    decreases |s| - pos
  {
    match NextCode(s, pos + 4)
    case None => [s[pos..]]
    case Some(n) => [s[pos..n]] + Pieces(s, n)
  }

  function Concat(pieces: seq<seq<Byte>>): seq<Byte> {
    if pieces == [] then [] else pieces[0] + Concat(pieces[1..])
  }

  /** A piece begins at offset `p` of the whole. */
  predicate Begins(pieces: seq<seq<Byte>>, p: int)
    decreases |pieces|
  {
    pieces != [] && (p == 0 || (p >= |pieces[0]| && Begins(pieces[1..], p - |pieces[0]|)))
  }

  /** Nothing of the frame is lost, repeated or reordered. */
  lemma {:induction false} PiecesJoin(s: seq<Byte>, pos: nat)
    requires pos <= |s|
    ensures Concat(Pieces(s, pos)) == s[pos..]
    decreases |s| - pos
  {
    match NextCode(s, pos + 4)
    case None =>
      assert Concat([s[pos..]]) == s[pos..] + Concat([]);
    case Some(n) =>
      PiecesJoin(s, n);
      assert Pieces(s, pos)[1..] == Pieces(s, n);
      assert s[pos..n] + s[n..] == s[pos..];
  }

  /** Start codes do not overlap. */
  lemma CodesApart(s: seq<Byte>, p: nat, q: nat)
    requires CodeAt(s, p) && CodeAt(s, q) && p < q
    ensures p + 4 <= q
  {
  }

  /** The cuts are at the beginning and at exactly the start codes four bytes or
      more from there. */
  lemma {:induction false} CutsAtCodes(s: seq<Byte>, pos: nat, p: nat)
    requires pos <= p && pos <= |s|
    ensures Begins(Pieces(s, pos), p - pos) <==> p == pos || (p >= pos + 4 && CodeAt(s, p))
    decreases |s| - pos
  {
    if p >= pos + 4 {
      NextCodeIsFirst(s, pos + 4, p);
    }
    match NextCode(s, pos + 4)
    case None =>
      assert p != pos ==> !Begins([s[pos..]], p - pos);
    case Some(n) =>
      NextCodeIsFirst(s, pos + 4, n);
      assert Pieces(s, pos)[1..] == Pieces(s, n);
      if p >= n {
        CutsAtCodes(s, n, p);
        if CodeAt(s, p) && p > n {
          CodesApart(s, n, p);
        }
      }
  }

  /** The cuts are exactly the start codes if and only if the frame begins with one. */
  lemma CutsAreCodesExact(s: seq<Byte>)
    ensures (forall p: nat :: Begins(Pieces(s, 0), p) <==> CodeAt(s, p)) <==> CodeAt(s, 0)
  {
    forall p: nat
      ensures Begins(Pieces(s, 0), p) <==> p == 0 || (p >= 4 && CodeAt(s, p))
    {
      CutsAtCodes(s, 0, p);
    }
    if CodeAt(s, 0) {
      forall p: nat | 0 < p < 4
        ensures !CodeAt(s, p)
      {
        if CodeAt(s, p) {
          CodesApart(s, 0, p);
        }
      }
    }
  }

  /** A unit of the byte stream: a start code, and no other in it. */
  predicate IsUnit(u: seq<Byte>) {
    CodeAt(u, 0) && NextCode(u, 4).None?
  }

  lemma CodeShift(before: seq<Byte>, u: seq<Byte>, after: seq<Byte>, p: nat)
    requires p + 4 <= |u|
    ensures CodeAt(before + u + after, |before| + p) <==> CodeAt(u, p)
  {
    var s := before + u + after;
    assert forall k :: 0 <= k < |u| ==> s[|before| + k] == u[k];
  }

  /** After a unit comes the next start code of the frame, or none: none arises
      inside the unit or across its end. */
  lemma Seam(before: seq<Byte>, u: seq<Byte>, after: seq<Byte>)
    requires IsUnit(u) && (after == [] || CodeAt(after, 0))
    ensures NextCode(before + u + after, |before| + 4) ==
            if after == [] then None else Some(|before| + |u|)
  {
    var s, end := before + u + after, |before| + |u|;
    if after != [] {
      assert before + u + after + [] == s;
      CodeShift(before + u, after, [], 0);
    }
    forall p: nat | |before| + 4 <= p && (after == [] || p < end)
      ensures !CodeAt(s, p)
    {
      if CodeAt(s, p) {
        if after != [] {
          CodesApart(s, p, end);
        }
        CodeShift(before, u, after, p - |before|);
        NextCodeIsFirst(u, 4, p - |before|);
        assert false;
      }
    }
    if after != [] {
      FirstIsNextCode(s, |before| + 4, end);
    } else if NextCode(s, |before| + 4).Some? {
      NextCodeIsFirst(s, |before| + 4, NextCode(s, |before| + 4).value);
      assert false;
    }
  }

  lemma {:induction false} UnitsComeBackFrom(before: seq<Byte>, units: seq<seq<Byte>>)
    requires units != [] && forall i :: 0 <= i < |units| ==> IsUnit(units[i])
    ensures Pieces(before + Concat(units), |before|) == units
    decreases |units|
  {
    var u, rest := units[0], units[1..];
    var after := Concat(rest);
    var s := before + u + after;
    assert before + Concat(units) == s;
    if rest == [] {
      Seam(before, u, []);
      assert s[|before|..] == u;
    } else {
      assert after == rest[0] + Concat(rest[1..]);
      assert CodeAt(rest[0], 0);
      Seam(before, u, after);
      UnitsComeBackFrom(before + u, rest);
      assert s[|before|..|before| + |u|] == u;
    }
  }

  /** Splitting undoes the packing of units into a frame. */
  lemma UnitsComeBack(units: seq<seq<Byte>>)
    requires units != [] && forall i :: 0 <= i < |units| ==> IsUnit(units[i])
    ensures Pieces(Concat(units), 0) == units
  {
    UnitsComeBackFrom([], units);
    assert [] + Concat(units) == Concat(units);
  }

  /** find_start_code; the length may be negative. */
  method FindStartCode(data: array<Byte>, pos: nat, len: int) returns (found: Option<nat>)
    requires len >= 0 ==> pos + len <= data.Length
    ensures len >= 0 ==> found == NextCode(data[..pos + len], pos)
    ensures len < 0 ==> found == None
  {
    var p, end := pos, pos + len;
    while p != end
      invariant len >= 0 ==> p <= end && NextCode(data[..end], pos) == NextCode(data[..end], p)
      invariant len < 0 ==> p == pos
      decreases end - p
    {
      if p + 4 > end {
        break;
      }
      if data[p] == 0 && data[p + 1] == 0 && data[p + 2] == 0 && data[p + 3] == 1 {
        return Some(p);
      }
      p := p + 1;
    }
    found := None;
  }

  /** The loop of send_data_for_channel; `sent` is what it pushes. */
  method SendDataForChannel(data: array<Byte>) returns (sent: seq<seq<Byte>>)
    ensures sent == Pieces(data[..], 0)
  {
    var pos, rest := 0, data.Length;
    sent := [];
    ghost var all := data[..];
    while true
      invariant pos + rest == data.Length && pos >= 0 && rest >= 0
      invariant Pieces(all, 0) == sent + Pieces(all, pos)
      decreases rest
    {
      var next := FindStartCode(data, pos + 4, rest - 4);
      assert data[..data.Length] == all && data[pos..] == all[pos..];
      if next == None {
        sent := sent + [data[pos..]];
        break;
      }
      assert data[pos..next.value] == all[pos..next.value];
      sent := sent + [data[pos..next.value]];
      rest := rest - (next.value - pos);
      pos := next.value;
    }
  }
}
