/** Delay-loop calibration of platform/plat-v2/calibrate.c. The clock is an
    oracle: a delay of n loops crosses a tick exactly when n exceeds a limit. */
module Calibrate {
  import opened Common
  import opened Words

  function Doubled(unit: nat, k: nat): (r: nat)
    ensures r >= unit
  {
    if k == 0 then unit else 2 * Doubled(unit, k - 1)
  }

  /** The trials made before the band widens to `band`: there are 2^b rounds of width b. */
  function BeforeBand(band: nat): nat {
    if band == 0 then 0 else BeforeBand(band - 1) + Rounds(band - 1, Pow2(band - 1))
  }

  function Rounds(band: nat, n: nat): nat {
    if n == 0 then 0 else Rounds(band, n - 1) + band
  }

  lemma {:induction false} BandsGrow(band: nat, wider: nat)
    requires band <= wider
    ensures BeforeBand(band) <= BeforeBand(wider)
  {
    if band < wider {
      BandsGrow(band, wider - 1);
    }
  }

  /** The number of trials decides the band. */
  lemma BandIsUnique(trials: nat, band: nat, other: nat)
    requires BeforeBand(band) <= trials < BeforeBand(band + 1)
    requires BeforeBand(other) <= trials < BeforeBand(other + 1)
    ensures band == other
  {
    if band < other {
      BandsGrow(band + 1, other);
    } else if other < band {
      BandsGrow(other + 1, band);
    }
  }

  lemma {:induction false} RoundsGrow(band: nat, n: nat, m: nat)
    requires n < m
    ensures Rounds(band, n) + band <= Rounds(band, m)
  {
    if n < m - 1 {
      RoundsGrow(band, n, m - 1);
    }
  }

  lemma {:induction false} RoundsAre(band: nat, n: nat)
    requires band > 0
    ensures Rounds(band, n) % band == 0
  {
    if n == 0 {
      DivUnique(0, band, 0, 0);
    } else {
      RoundsAre(band, n - 1);
      var q := Rounds(band, n - 1) / band;
      assert (q + 1) * band == q * band + band;
      DivUnique(Rounds(band, n), band, q + 1, 0);
    }
  }

  /** The accelerating first stage. `limit` loops fit in the observed tick. The band it
      ends in is the one that its number of trials has reached. */
  method FirstStage(limit: nat) returns (trials: nat, band: nat)
    ensures band > 0
    ensures trials >= band || (trials == 0 && band == 1)
    ensures 4096 * trials <= limit < 4096 * (trials + band)
    ensures BeforeBand(band) <= trials < BeforeBand(band + 1) && (trials - BeforeBand(band)) % band == 0
  {
    var trialInBand := 0;
    trials, band := 0, 0;
    var sameTick := true;
    while sameTick
      invariant band == 0 ==> trials == 0 && trialInBand == 0 && sameTick
      invariant band > 0 ==> trials >= band && trialInBand < Pow2(band)
      invariant band > 0 ==> trials > band || (band == 1 && trialInBand == 0)
      invariant trials - band == 0 ==> band <= 1
      invariant band > 0 ==> trials == BeforeBand(band) + Rounds(band, trialInBand + 1)
      invariant sameTick <==> 4096 * trials <= limit
      invariant !sameTick ==> 4096 * (trials - band) <= limit
      invariant !sameTick ==> trials - band >= band || (trials == 1 && band == 1)
      decreases sameTick, limit - 4096 * trials
    {
      trialInBand := trialInBand + 1;
      if trialInBand == Pow2(band) {
        band := band + 1;
        trialInBand := 0;
        assert Rounds(band, 1) == Rounds(band, 0) + band;
      }
      trials := trials + band;
      sameTick := 4096 * trials <= limit;
    }
    trials := trials - band;
    RoundsGrow(band, trialInBand, Pow2(band));
    RoundsAre(band, trialInBand);
  }

  lemma HalvingSteps(unit: nat)
    ensures Doubled(unit, 9) == 512 * unit && Doubled(unit, 12) == 4096 * unit
  {
    assert Doubled(unit, 3) == 8 * unit by { assert Doubled(unit, 1) == 2 * unit; }
    assert Doubled(unit, 6) == 64 * unit by { assert Doubled(unit, 4) == 16 * unit; }
    assert Doubled(unit, 9) == 512 * unit by { assert Doubled(unit, 7) == 128 * unit; }
    assert Doubled(unit, 12) == 4096 * unit by { assert Doubled(unit, 10) == 1024 * unit; }
  }

  /** Start values from which every halving of `loopadd` above the chop limit is
      exact: the only exception is the last halving of the search from zero. */
  predicate Searchable(lpjBase: nat, loopaddBase: nat) {
    && loopaddBase > 0 && loopaddBase % 4096 == 0
    && (if lpjBase == 0 then loopaddBase == 4096 else loopaddBase <= 2 * lpjBase)
  }

  lemma {:induction false} DoubledTwice(unit: nat, k: nat, h: nat)
    ensures Doubled(Doubled(unit, k), h) == Doubled(unit, k + h)
  {
    if h > 0 {
      DoubledTwice(unit, k, h - 1);
    }
  }

  lemma UnitsHalve(lpjBase: nat, loopaddBase: nat)
    requires 0 < loopaddBase <= 2 * lpjBase && loopaddBase % 4096 == 0
    ensures 512 * (loopaddBase / 512) == loopaddBase && 0 < loopaddBase / 512 <= lpjBase / 256
  {
  }

  /** The smallest step of a search and the number of exact halvings down to it. */
  lemma Units(lpjBase: nat, loopaddBase: nat) returns (unit: nat, k: nat)
    requires Searchable(lpjBase, loopaddBase)
    ensures unit > 0 && Doubled(unit, k) == loopaddBase
    ensures if lpjBase == 0 then unit == 1 && loopaddBase == 4096 else k == 9 && unit <= lpjBase / 256
  {
    if lpjBase == 0 {
      unit, k := 1, 12;
    } else {
      unit, k := loopaddBase / 512, 9;
      UnitsHalve(lpjBase, loopaddBase);
    }
    HalvingSteps(unit);
  }

  /** Where the search stands: never overshot, or bracketed from above. The first
      trial decides which, if the tick ends below it. */
  predicate Narrowed(lpjBase: nat, loopaddBase: nat, limit: nat, lpj: nat, loopadd: nat, up: bool) {
    && (if up then lpj + 2 * loopadd == lpjBase + 2 * loopaddBase
        else limit < lpj + 2 * loopadd < lpjBase + 2 * loopaddBase)
    && (loopadd < loopaddBase ==>
          (up ==> lpjBase + loopaddBase <= lpj) && (limit < lpjBase + loopaddBase ==> !up))
  }

  lemma TrialNarrows(lpjBase: nat, loopaddBase: nat, limit: nat, lpj: nat, loopadd: nat, up: bool)
    requires Narrowed(lpjBase, loopaddBase, limit, lpj, loopadd, up) && 0 < loopadd && loopadd % 2 == 0
    requires if loopadd == loopaddBase then up && lpj == lpjBase else loopadd < loopaddBase
    ensures if lpj + loopadd > limit then Narrowed(lpjBase, loopaddBase, limit, lpj, loopadd / 2, false)
            else Narrowed(lpjBase, loopaddBase, limit, lpj + loopadd, loopadd / 2, up)
  {
  }

  /** The binary approximation between two passages of `recalibrate`; `up` says
      that no delay crossed a tick, `peak` is the longest delay tried, and `halvings`
      counts the halvings of `loopadd`, all of them exact unless the search is from zero. */
  method Chop(lpjBase: nat, loopaddBase: nat, limit: nat)
    returns (lpj: nat, loopadd: nat, ghost up: bool, ghost peak: nat, ghost halvings: nat)
    requires Searchable(lpjBase, loopaddBase)
    ensures lpjBase <= lpj <= Max(limit, lpjBase) && 256 * loopadd <= lpjBase
    ensures peak <= Max(limit, lpjBase) + loopaddBase
    ensures lpjBase > 0 ==> Doubled(loopadd, halvings) == loopaddBase
    ensures lpjBase == 0 ==> loopadd == 0 && lpj == Min(limit, 8191)
    ensures lpjBase > 0 ==> Narrowed(lpjBase, loopaddBase, limit, lpj, loopadd, up)
    ensures loopadd == loopaddBase <==> 256 * loopaddBase <= lpjBase
  {
    loopadd := loopaddBase;
    lpj, up, peak, halvings := lpjBase, true, 0, 0;
    var chopLimit := lpj / 256;
    ghost var unit: nat, k: nat := Units(lpjBase, loopaddBase);
    while loopadd > chopLimit
      invariant lpjBase <= lpj <= Max(limit, lpjBase) && loopadd <= loopaddBase
      invariant peak <= Max(limit, lpjBase) + loopaddBase
      invariant loopadd == 0 ==> lpjBase == 0 && lpj == Min(limit, 8191)
      invariant loopadd > 0 ==> loopadd == Doubled(unit, k)
      invariant lpjBase > 0 ==> k + halvings == 9
      invariant loopadd > 0 ==> Narrowed(lpjBase, loopaddBase, limit, lpj, loopadd, up)
      invariant if loopadd == loopaddBase then up && lpj == lpjBase else loopaddBase > chopLimit
    {
      assert k == 0 ==> loopadd == unit;
      assert lpjBase > 0 ==> k > 0;
      if loopadd % 2 == 0 {
        TrialNarrows(lpjBase, loopaddBase, limit, lpj, loopadd, up);
      }
      lpj := lpj + loopadd;
      peak := Max(peak, lpj);
      if lpj > limit {           // the delay crossed a tick
        lpj := lpj - loopadd;
        up := false;
      }
      halvings := halvings + 1;
      loopadd := loopadd / 2;
      k := if k > 0 then k - 1 else 0;
    }
    DoubledTwice(unit, k, halvings);
  }

  /** A search that never overshot restarts from a valid, wider range. */
  lemma RestartStep(lpjBase: nat, loopaddBase: nat, lpj: nat, loopadd: nat, limit: nat)
    requires Searchable(lpjBase, loopaddBase) && 0 < lpjBase <= lpj <= limit
    requires 256 * loopadd <= lpjBase && lpj + 2 * loopadd == lpjBase + 2 * loopaddBase
    requires loopadd == loopaddBase || lpjBase + loopaddBase <= lpj
    ensures Searchable(lpj, 4 * loopaddBase) && 2 * loopaddBase <= limit
    ensures lpjBase < lpj || (lpj == lpjBase && loopaddBase < lpjBase)
  {
    assert (4 * loopaddBase) % 4096 == 0 by {
      DivUnique(4 * loopaddBase, 4096, 4 * (loopaddBase / 4096), 0);
    }
  }

  lemma WithinOnePart(lpjBase: nat, lpj: nat, loopadd: nat, limit: nat)
    requires 256 * loopadd <= lpjBase && 0 < lpjBase <= lpj && limit < lpj + 2 * loopadd
    ensures 128 * (limit - lpj) < lpj
  {
  }

  /** After a first stage that saw the same tick, the search restarts exactly when
      its first step is already below the chop limit. */
  lemma FirstSearch(trials: nat, band: nat, limit: nat, lpj: nat, loopadd: nat, up: bool)
    requires trials > 0 && band > 0 && limit < 4096 * (trials + band)
    requires Narrowed(4096 * trials, 4096 * band, limit, lpj, loopadd, up)
    requires 4096 * trials <= lpj && 256 * loopadd <= 4096 * trials
    requires loopadd == 4096 * band <==> 256 * (4096 * band) <= 4096 * trials
    ensures up <==> 256 * band <= trials
    ensures up <==> lpj + 2 * loopadd == 4096 * trials + 2 * (4096 * band)
  {
  }

  /** The largest of three values that share a bound. */
  function Highest(a: nat, b: nat, c: nat, bound: nat): (r: nat)
    requires a <= bound && b <= bound && c <= bound
    ensures a <= r && b <= r && c <= r <= bound
  {
    Max(a, Max(b, c))
  }

  /** The binary approximation and its restarts. `peak` bounds every value the
      source computes; `restarts` counts the jumps back to `recalibrate`. */
  method Converge(trials: nat, band: nat, limit: nat)
    returns (lpj: nat, ghost peak: nat, ghost restarts: nat)
    requires band > 0 && (trials >= band || (trials == 0 && band == 1))
    ensures 4096 * trials <= limit ==> lpj <= limit
    ensures 4096 * trials > limit ==> lpj == 4096 * trials
    ensures trials > 0 ==> 128 * (limit - lpj) < lpj
    ensures trials == 0 ==> lpj == Min(limit, 8191)
    ensures peak <= 5 * Max(Max(limit, 4096 * trials), 4096)
    ensures limit < 4096 * (trials + band) ==> (restarts > 0 <==> 0 < trials && 256 * band <= trials)
  {
    var loopaddBase: nat := 4096 * band;
    var lpjBase: nat := 4096 * trials;
    lpj, peak, restarts := lpjBase, 0, 0;
    var again := true;
    ghost var top := Max(limit, 4096 * trials);
    ghost var most := Max(top, 4096);
    ghost var wide := 0 < trials && 256 * band <= trials;    // the first search has nothing to do
    ghost var seen := limit < 4096 * (trials + band);
    while again
      invariant Searchable(lpjBase, loopaddBase) && 4096 * trials <= lpjBase <= top
      invariant lpjBase == 0 <==> trials == 0
      invariant loopaddBase <= 2 * most && peak <= 5 * most
      invariant again && restarts == 0 ==> loopaddBase == 4096 * band && lpjBase == 4096 * trials
      invariant seen ==> if restarts > 0 then wide else again || !wide
      invariant !again ==> lpjBase <= lpj <= top
      invariant !again ==> if trials > 0 then 128 * (limit - lpj) < lpj else lpj == Min(limit, 8191)
      decreases again, top - lpjBase, lpjBase - loopaddBase
    {
      var loopadd;
      ghost var up, longest, halvings;
      lpj, loopadd, up, longest, halvings := Chop(lpjBase, loopaddBase, limit);
      peak := Highest(peak, longest, lpjBase + 2 * loopaddBase, 5 * most);
      again := lpj + 2 * loopadd == lpjBase + 2 * loopaddBase;
      if trials > 0 && restarts == 0 && seen {
        FirstSearch(trials, band, limit, lpj, loopadd, up);
        assert again <==> wide;
      }
      if again {
        RestartStep(lpjBase, loopaddBase, lpj, loopadd, top);
        lpjBase, loopaddBase := lpj, 4 * loopaddBase;
        restarts := restarts + 1;
      } else if trials > 0 {
        WithinOnePart(lpjBase, lpj, loopadd, limit);
      }
    }
  }

  /** calibrate_delay_converge: the first stage saw a tick of `firstTick` loops,
      every later tick holds `limit` loops. */
  method CalibrateDelayConverge(firstTick: nat, limit: nat) returns (lpj: nat)
    ensures lpj <= Max(firstTick, limit)
    ensures firstTick >= 4096 ==> 128 * (limit - lpj) < lpj
    ensures firstTick < 4096 ==> lpj == Min(limit, 8191)
  {
    var trials, band := FirstStage(firstTick);
    ghost var peak, restarts;
    lpj, peak, restarts := Converge(trials, band, limit);
  }
}
