/** `find_block_height`: interpolation search for the block of a timestamp, then a scan of the last blocks. */
module BlockSearch {
  import opened Wrappers

  const U32_MAX: nat := 0xFFFF_FFFF
  const U32_RANGE: nat := 0x1_0000_0000
  const U64_MAX: nat := 0xFFFF_FFFF_FFFF_FFFF

  /** Where the search starts, whatever the network. */
  const ORCHARD_ACTIVATION_MAINNET: nat := 1_687_104
  /** At most this many blocks apart, the rest is streamed. */
  const RANGE_FETCH_THRESHOLD: nat := 500

  /** A chain as the endpoint serves it: block times up to the tip; asking past the tip fails. */
  datatype Chain = Chain(tip: nat, time: nat -> nat) {
    ghost predicate Valid() {
      tip <= U32_MAX && forall h: nat :: time(h) <= U32_MAX
    }

    ghost predicate NonDecreasing() {
      forall g: nat, h: nat :: g <= h <= tip ==> time(g) <= time(h)
    }
  }

  datatype FetchError = GetBlockFailed(height: nat)

  function Clamp(x: nat, lo: nat, hi: nat): nat {
    if x < lo then lo else if x > hi then hi else x
  }

  // ----- phase 1: interpolation -----

  /** Distance from `low` to the interpolated height, as cast back to 32 bits and clamped inside the window. */
  function Offset(low: nat, high: nat, lowT: nat, highT: nat, timestamp: nat): nat
    requires low < high && lowT <= timestamp && lowT <= highT
  {
    var rangeT := if highT - lowT < 1 then 1 else highT - lowT;
    Clamp((timestamp - lowT) * (high - low) / rangeT % U32_RANGE, 1, high - low - 1)
  }

  /** The window straddles the timestamp. */
  predicate Straddles(chain: Chain, low: nat, high: nat, timestamp: nat) {
    low < high <= chain.tip && chain.time(low) < timestamp <= chain.time(high)
  }

  function Estimate(chain: Chain, low: nat, high: nat, timestamp: nat): (est: nat)
    requires Straddles(chain, low, high, timestamp) && high - low > RANGE_FETCH_THRESHOLD
    ensures low < est < high
  {
    low + Offset(low, high, chain.time(low), chain.time(high), timestamp)
  }

  function Narrow(chain: Chain, low: nat, high: nat, timestamp: nat): (window: (nat, nat))
    requires Straddles(chain, low, high, timestamp)
    ensures Straddles(chain, window.0, window.1, timestamp)
    ensures low <= window.0 && window.1 <= high && window.1 - window.0 <= RANGE_FETCH_THRESHOLD
    decreases high - low
  {
    if high - low <= RANGE_FETCH_THRESHOLD then (low, high)
    else
      var est := Estimate(chain, low, high, timestamp);
      if chain.time(est) < timestamp then Narrow(chain, est, high, timestamp)
      else Narrow(chain, low, est, timestamp)
  }

  // ----- phase 2: the streamed range -----

  /** The last block of the first run of blocks from `h` on whose time is not above the timestamp. */
  function Scan(chain: Chain, h: nat, high: nat, timestamp: nat, candidate: nat): nat
    decreases high + 1 - h
  {
    if h > high || chain.time(h) > timestamp then candidate
    else Scan(chain, h + 1, high, timestamp, h)
  }

  method FindInRange(chain: Chain, low: nat, high: nat, timestamp: nat) returns (candidate: nat)
    ensures candidate == Scan(chain, low, high, timestamp, low)
  {
    candidate := low;
    var h := low;
    while h <= high
      invariant Scan(chain, low, high, timestamp, low) == Scan(chain, h, high, timestamp, candidate)
      decreases high + 1 - h
    {
      if chain.time(h) <= timestamp {
        candidate := h;
      } else {
        break;
      }
      h := h + 1;
    }
  }

  function Search(chain: Chain, timestamp: nat): Result<nat, FetchError> {
    var low, high := ORCHARD_ACTIVATION_MAINNET, chain.tip;
    if chain.tip == 0 then Success(0)
    else if chain.tip < low then Failure(GetBlockFailed(low))
    else if timestamp <= chain.time(low) then Success(low)
    else if timestamp >= chain.time(high) then Success(high)
    else
      var (l, h) := Narrow(chain, low, high, timestamp);
      Success(Scan(chain, l, h, timestamp, l))
  }

  lemma ProductMonotone(a: nat, b: nat, c: nat, d: nat)
    requires a <= c && b <= d
    ensures a * b <= c * d
  {
    assert c * d == a * b + a * (d - b) + (c - a) * d;
  }

  /** In the loop every subtraction is non-negative, the product fits 64 bits, and the cast loses nothing. */
  lemma InterpolationIsInRange(chain: Chain, low: nat, high: nat, timestamp: nat)
    requires chain.Valid() && Straddles(chain, low, high, timestamp)
    ensures (timestamp - chain.time(low)) * (high - low) <= U64_MAX
    ensures chain.time(high) - chain.time(low) >= 1
    ensures (timestamp - chain.time(low)) * (high - low) / (chain.time(high) - chain.time(low)) <= high - low <= U32_MAX
  {
    var offsetT, rangeT, rangeH := timestamp - chain.time(low), chain.time(high) - chain.time(low), high - low;
    ProductMonotone(offsetT, rangeH, U32_MAX, U32_MAX);
    ProductMonotone(offsetT, rangeH, rangeT, rangeH);
    QuotientBound(offsetT * rangeH, rangeT, rangeH);
  }

  lemma QuotientBound(x: nat, d: nat, q: nat)
    requires d > 0 && x <= d * q
    ensures x / d <= q
  {
    var y := x / d;
    assert d * y <= x;
    if y > q {
      ProductMonotone(d, q + 1, d, y);
    }
  }

  lemma QuotientBounds(x: nat, d: nat, q: nat)
    requires d > 0 && q == x / d
    ensures q * d <= x < (q + 1) * d
  {
  }

  /** What a clamped quotient is, without division. */
  lemma ClampedQuotient(x: nat, d: nat, lo: nat, hi: nat)
    requires d > 0 && lo <= hi
    ensures var e := Clamp(x / d, lo, hi);
            && lo <= e <= hi
            && (e == lo || e * d <= x)
            && (e == hi || x < (e + 1) * d)
  {
    var q := x / d;
    QuotientBounds(x, d, q);
    if q < lo {
      ProductMonotone(q + 1, d, lo + 1, d);
    } else if q > hi {
      ProductMonotone(hi, d, q, d);
    }
  }

  lemma EstimateIsClamped(chain: Chain, low: nat, high: nat, timestamp: nat, share: nat, rangeT: nat)
    requires Straddles(chain, low, high, timestamp) && high - low > RANGE_FETCH_THRESHOLD
    requires rangeT == chain.time(high) - chain.time(low) >= 1
    requires share == (timestamp - chain.time(low)) * (high - low) && share / rangeT <= U32_MAX
    ensures Estimate(chain, low, high, timestamp) - low == Clamp(share / rangeT, 1, high - low - 1)
  {
    assert share / rangeT % U32_RANGE == share / rangeT;
  }

  /**
   * The probe is the interpolated height: the last one whose share of the window's height is not above the
   * timestamp's share of its time, kept at least one block inside the window.
   */
  lemma EstimateInterpolates(chain: Chain, low: nat, high: nat, timestamp: nat, share: nat, rangeT: nat)
    requires chain.Valid() && Straddles(chain, low, high, timestamp) && high - low > RANGE_FETCH_THRESHOLD
    requires share == (timestamp - chain.time(low)) * (high - low) && rangeT == chain.time(high) - chain.time(low)
    ensures var e := Estimate(chain, low, high, timestamp) - low;
            && 1 <= e <= high - low - 1
            && (e == 1 || e * rangeT <= share)
            && (e == high - low - 1 || share < (e + 1) * rangeT)
  {
    assert rangeT >= 1 && share / rangeT <= U32_MAX by {
      InterpolationIsInRange(chain, low, high, timestamp);
    }
    EstimateIsClamped(chain, low, high, timestamp, share, rangeT);
    ClampedQuotient(share, rangeT, 1, high - low - 1);
  }

  /** The whole search, with the window kept in variables and every 32- and 64-bit operation in range. */
  method FindBlockHeight(chain: Chain, timestamp: nat) returns (r: Result<nat, FetchError>)
    requires chain.Valid() && timestamp <= U32_MAX
    ensures r == Search(chain, timestamp)
  {
    var tip := chain.tip;
    if tip == 0 {
      return Success(0);
    }
    var low: nat, high: nat := ORCHARD_ACTIVATION_MAINNET, tip;
    if low > tip {
      return Failure(GetBlockFailed(low));  // no such block
    }
    var lowT := chain.time(low);
    if timestamp <= lowT {
      return Success(low);
    }
    var highT := chain.time(high);
    if timestamp >= highT {
      return Success(high);
    }
    while high - low > RANGE_FETCH_THRESHOLD
      invariant Straddles(chain, low, high, timestamp)
      invariant lowT == chain.time(low) && highT == chain.time(high)
      invariant Narrow(chain, ORCHARD_ACTIVATION_MAINNET, tip, timestamp) == Narrow(chain, low, high, timestamp)
      decreases high - low
    {
      InterpolationIsInRange(chain, low, high, timestamp);
      assert (timestamp - lowT) * (high - low) <= U64_MAX;
      var est := low + Offset(low, high, lowT, highT, timestamp);
      var estT := chain.time(est);
      if estT < timestamp {
        low := est;
        lowT := estT;
      } else {
        high := est;
        highT := estT;
      }
    }
    var candidate := FindInRange(chain, low, high, timestamp);
    return Success(candidate);
  }

  // ----- what the result means -----

  /** The scan of a straddling window stops at a crossing, or at the window's end on the timestamp itself. */
  lemma {:induction false} ScanFindsCrossing(chain: Chain, low: nat, h: nat, high: nat, timestamp: nat)
    requires low < h <= high + 1 && Straddles(chain, low, high, timestamp)
    requires forall g :: low <= g < h ==> chain.time(g) <= timestamp
    ensures var r := Scan(chain, h, high, timestamp, h - 1);
            && low <= r <= high
            && (forall g :: low <= g <= r ==> chain.time(g) <= timestamp)
            && (if r < high then chain.time(r + 1) > timestamp else chain.time(high) == timestamp)
    decreases high + 1 - h
  {
    if h <= high && chain.time(h) <= timestamp {
      ScanFindsCrossing(chain, low, h + 1, high, timestamp);
    }
  }

  lemma ScanOfWindow(chain: Chain, low: nat, high: nat, timestamp: nat)
    requires Straddles(chain, low, high, timestamp)
    ensures var r := Scan(chain, low, high, timestamp, low);
            && low <= r <= high && chain.time(r) <= timestamp
            && (if r < high then chain.time(r + 1) > timestamp else chain.time(high) == timestamp)
  {
    ScanFindsCrossing(chain, low, low + 1, high, timestamp);
    assert Scan(chain, low, high, timestamp, low) == Scan(chain, low + 1, high, timestamp, low);
  }

  /**
   * For arbitrary block times: the starting height when its time is not below the timestamp, the tip when its
   * time is not above it, and otherwise a block in between that is at the timestamp or just below a crossing.
   */
  lemma SearchFindsCrossing(chain: Chain, timestamp: nat)
    requires chain.tip >= ORCHARD_ACTIVATION_MAINNET
    ensures Search(chain, timestamp).Success?
    ensures var r, start := Search(chain, timestamp).value, ORCHARD_ACTIVATION_MAINNET;
            if timestamp <= chain.time(start) then r == start
            else if timestamp >= chain.time(chain.tip) then r == chain.tip
            else
              && start <= r < chain.tip
              && chain.time(r) <= timestamp
              && (chain.time(r) == timestamp || chain.time(r + 1) > timestamp)
  {
    var start := ORCHARD_ACTIVATION_MAINNET;
    if chain.time(start) < timestamp < chain.time(chain.tip) {
      var (low, high) := Narrow(chain, start, chain.tip, timestamp);
      ScanOfWindow(chain, low, high, timestamp);
    }
  }

  /** An empty chain gives 0; a tip below the starting height fails, as there is no block to start from. */
  lemma SearchBelowStart(chain: Chain, timestamp: nat)
    requires chain.tip < 1_687_104
    ensures Search(chain, timestamp) == if chain.tip == 0 then Success(0) else Failure(GetBlockFailed(1_687_104))
  {
  }

  /** Brute force: the latest block up to `h` not above the timestamp, or the starting height. */
  function Latest(chain: Chain, timestamp: nat, h: nat): nat {
    if h <= ORCHARD_ACTIVATION_MAINNET then ORCHARD_ACTIVATION_MAINNET
    else if chain.time(h) <= timestamp then h
    else Latest(chain, timestamp, h - 1)
  }

  lemma {:induction false} LatestIsLatest(chain: Chain, timestamp: nat, h: nat)
    requires h >= ORCHARD_ACTIVATION_MAINNET
    ensures var r := Latest(chain, timestamp, h);
            && ORCHARD_ACTIVATION_MAINNET <= r <= h
            && (r == ORCHARD_ACTIVATION_MAINNET || chain.time(r) <= timestamp)
            && forall g :: r < g <= h ==> chain.time(g) > timestamp
  {
    if h > ORCHARD_ACTIVATION_MAINNET && chain.time(h) > timestamp {
      LatestIsLatest(chain, timestamp, h - 1);
    }
  }

  /** For non-decreasing times no block in range has a greater time that is still not above the timestamp. */
  lemma ResultHasGreatestTime(chain: Chain, timestamp: nat, h: nat)
    requires chain.tip >= ORCHARD_ACTIVATION_MAINNET && chain.NonDecreasing()
    requires ORCHARD_ACTIVATION_MAINNET <= h <= chain.tip && chain.time(h) <= timestamp
    ensures chain.time(h) <= chain.time(Search(chain, timestamp).value) <= timestamp
  {
    SearchFindsCrossing(chain, timestamp);
    var r, start := Search(chain, timestamp).value, ORCHARD_ACTIVATION_MAINNET;
    assert chain.time(start) <= chain.time(h);
    if chain.time(start) < timestamp < chain.time(chain.tip) {
      if h > r {
        assert chain.time(r + 1) <= chain.time(h);
      } else {
        assert chain.time(h) <= chain.time(r);
      }
    } else if timestamp <= chain.time(start) {
      assert chain.time(h) <= chain.time(start);
    } else {
      assert chain.time(h) <= chain.time(chain.tip);
    }
  }

  /** The upper end of the window the scan sees; the starting height when the first test already answers. */
  function UpperProbe(chain: Chain, timestamp: nat): nat
    requires chain.tip >= ORCHARD_ACTIVATION_MAINNET
  {
    if timestamp <= chain.time(ORCHARD_ACTIVATION_MAINNET) then ORCHARD_ACTIVATION_MAINNET
    else if timestamp >= chain.time(chain.tip) then chain.tip
    else Narrow(chain, ORCHARD_ACTIVATION_MAINNET, chain.tip, timestamp).1
  }

  /**
   * When the result is the latest block not above the timestamp, for non-decreasing times: exactly unless the
   * upper probe and the block after it both have the timestamp itself. A probe at the timestamp closes the
   * window from above, so later blocks of the same time are never looked at.
   */
  lemma LatestIffProbeNotTied(chain: Chain, timestamp: nat)
    requires chain.tip >= ORCHARD_ACTIVATION_MAINNET && chain.NonDecreasing()
    ensures Search(chain, timestamp) == Success(Latest(chain, timestamp, chain.tip)) <==>
              var p := UpperProbe(chain, timestamp);
              !(p < chain.tip && chain.time(p) == timestamp == chain.time(p + 1))
  {
    SearchFindsCrossing(chain, timestamp);
    LatestIsLatest(chain, timestamp, chain.tip);
    var start, latest := ORCHARD_ACTIVATION_MAINNET, Latest(chain, timestamp, chain.tip);
    var r, p := Search(chain, timestamp).value, UpperProbe(chain, timestamp);
    if timestamp <= chain.time(start) {
      assert latest > start ==> chain.time(start) <= chain.time(start + 1) <= chain.time(latest);
    } else if timestamp < chain.time(chain.tip) {
      var (low, high) := Narrow(chain, start, chain.tip, timestamp);
      ScanOfWindow(chain, low, high, timestamp);
      if r < high {
        assert chain.time(r + 1) <= chain.time(high);
      } else {
        assert latest > high ==> chain.time(high) <= chain.time(high + 1) <= chain.time(latest);
      }
    }
  }

  /** Without two neighbours at the timestamp itself, in particular for strictly increasing times, the result is the latest block. */
  lemma UntiedTimestampFindsLatest(chain: Chain, timestamp: nat)
    requires chain.tip >= ORCHARD_ACTIVATION_MAINNET && chain.NonDecreasing()
    requires forall h :: ORCHARD_ACTIVATION_MAINNET <= h < chain.tip ==> !(chain.time(h) == timestamp && chain.time(h + 1) == timestamp)
    ensures Search(chain, timestamp) == Success(Latest(chain, timestamp, chain.tip))
  {
    LatestIffProbeNotTied(chain, timestamp);
  }

  /** Two blocks of one time: the search for that time returns the first of them, not the latest. */
  lemma TiedTimestampMissesLatest()
    ensures var chain := Chain(ORCHARD_ACTIVATION_MAINNET + 1, h => 1_654_000_000);
            && chain.Valid() && chain.NonDecreasing()
            && Search(chain, 1_654_000_000) == Success(ORCHARD_ACTIVATION_MAINNET)
            && Latest(chain, 1_654_000_000, chain.tip) == ORCHARD_ACTIVATION_MAINNET + 1
  {
  }
}
