/** The proof-of-stake kernel scan: searching an interval of timestamps, latest first, for a hash
    that meets the weighted target, behind a filter by the largest target any weight can give. */
module StakeScan {
  import opened Collections
  import opened Words

  const COIN: int := 1000000
  const ONE_DAY: int := 24 * 60 * 60
  const STAKE_MAX_AGE: int := 90 * ONE_DAY
  const STAKE_MIN_AGE: int := 8 * 60 * 60
  const STAKE_MIN_AGE_TESTNET: int := 2 * 60 * 60
  const MAX_STAKE_SEARCH_INTERVAL: int := 60

  /** What a scan is asked about: the target per coin-day, the amount staked, when it was received,
      and the minimum age of the network. */
  datatype Kernel = Kernel(hash: Uint32 -> Hash256, target: int, value: int, inputTime: Uint32, minAge: int)
  {
    predicate Valid() { minAge == STAKE_MIN_AGE || minAge == STAKE_MIN_AGE_TESTNET }

    /** The target a kernel with the given time weight must stay below or reach. */
    function TargetAt(weight: int): int { CoinDays(value, weight) * target }

    function Weight(time: Uint32): int { GetWeight(inputTime, time, minAge) }

    predicate Meets(time: Uint32) { TargetAt(Weight(time)) >= hash(time) }

    /** The filter: the target at full age, cut to 256 bits. */
    function MaxTarget(): Hash256 { GetUint256(MaxTargetExact()) }

    function MaxTargetExact(): int { Truncate(Truncate(target * value * STAKE_MAX_AGE, COIN), ONE_DAY) }
  }

  /** Big-number division, which drops the fraction whatever the sign. */
  function Truncate(a: int, b: int): int
    requires b > 0
  {
    if a >= 0 then a / b else -(-a / b)
  }

  /** What is left over is less than the divisor, and on the side away from zero. */
  lemma TowardsZero(a: int, b: int)
    requires b > 0
    ensures a >= 0 ==> 0 <= a - Truncate(a, b) * b < b
    ensures a <= 0 ==> -b < a - Truncate(a, b) * b <= 0
  {
  }

  /** The sign does not matter, nor do multiples of 2^256; a number that fits is kept. */
  lemma LowBits(n: int, m: int)
    requires n >= 0 && m >= 0
    ensures GetUint256(-n) == GetUint256(n) && GetUint256(n + m * TWO_256) == GetUint256(n)
    ensures n < TWO_256 ==> GetUint256(n) == n
  {
    var q, r := n / TWO_256, n % TWO_256;
    assert n + m * TWO_256 == (q + m) * TWO_256 + r;
  }

  /** The low 256 bits of the magnitude. */
  function GetUint256(n: int): Hash256 { (if n >= 0 then n else -n) % TWO_256 }

  function GetWeight(begin: int, end: int, minAge: int): int {
    var age := end - begin - minAge;
    if age < STAKE_MAX_AGE then age else STAKE_MAX_AGE
  }

  /** A coin has no weight up to the minimum age, one second's more for every second from there on, and no
      more after ninety days of it. */
  lemma WeightByAge(begin: int, age: nat, minAge: nat)
    ensures GetWeight(begin, begin + minAge, minAge) == 0
    ensures age < minAge ==> GetWeight(begin, begin + age, minAge) < 0
    ensures minAge <= age < minAge + STAKE_MAX_AGE ==>
      GetWeight(begin, begin + age + 1, minAge) == GetWeight(begin, begin + age, minAge) + 1
    ensures age >= minAge + STAKE_MAX_AGE ==> GetWeight(begin, begin + age, minAge) == STAKE_MAX_AGE
  {
  }

  /** Whole coins staked for whole days weigh their product. */
  lemma WholeCoinDays(coins: nat, days: nat)
    ensures CoinDays(coins * COIN, days * ONE_DAY) == coins * days
  {
    var c := COIN * ONE_DAY;
    assert (coins * COIN) * (days * ONE_DAY) == (coins * days) * c;
    TruncateTwice((coins * days) * c);
    assert (coins * days) * c / c == coins * days;
  }

  function CoinDays(value: int, weight: int): int { Truncate(Truncate(value * weight, COIN), ONE_DAY) }

  // ---- The two divisions are one ----

  lemma DivideTwice(a: nat)
    ensures a / COIN / ONE_DAY == a / (COIN * ONE_DAY)
  {
  }

  lemma TruncateTwice(a: int)
    ensures Truncate(Truncate(a, COIN), ONE_DAY) == Truncate(a, COIN * ONE_DAY)
  {
    if a >= 0 { DivideTwice(a); } else { DivideTwice(-a); }
  }

  lemma TruncateMonotone(a: int, b: int)
    requires a <= b
    ensures Truncate(a, COIN * ONE_DAY) <= Truncate(b, COIN * ONE_DAY)
  {
  }

  /** The target moves one way as the weight grows, so between two weights it is no larger than at
      one of them. */
  lemma TargetBetween(k: Kernel, low: int, weight: int, high: int)
    requires low <= weight <= high
    ensures k.TargetAt(weight) <= k.TargetAt(low) || k.TargetAt(weight) <= k.TargetAt(high)
  {
    var v, t := k.value, k.target;
    TruncateTwice(v * low); TruncateTwice(v * weight); TruncateTwice(v * high);
    if v >= 0 {
      assert v * low <= v * weight <= v * high by { MulMonotone(v, low, weight); MulMonotone(v, weight, high); }
      TruncateMonotone(v * low, v * weight); TruncateMonotone(v * weight, v * high);
    } else {
      assert v * low >= v * weight >= v * high by { MulMonotone(-v, low, weight); MulMonotone(-v, weight, high); }
      TruncateMonotone(v * weight, v * low); TruncateMonotone(v * high, v * weight);
    }
    var a, b, c := CoinDays(v, low), CoinDays(v, weight), CoinDays(v, high);
    if t >= 0 { if b <= c { MulMonotone(t, b, c); } else { MulMonotone(t, b, a); } }
    else { if c <= b { MulMonotone(-t, c, b); } else { MulMonotone(-t, a, b); } }
  }

  lemma MulMonotone(m: int, a: int, b: int)
    requires m >= 0 && a <= b
    ensures m * a <= m * b && (-m) * b <= (-m) * a
    ensures a * m <= b * m && b * (-m) <= a * (-m)
  {
  }

  // ---- The filter ----

  /** The smallest and largest weights two timestamps can have. */
  function LeastWeight(minAge: int): int { -0xFFFF_FFFF - minAge }

  /** At this weight no hash the target accepts is filtered out. */
  predicate CoveredAt(k: Kernel, weight: int) {
    k.TargetAt(weight) <= k.MaxTarget() || k.MaxTarget() == TWO_256 - 1 || k.TargetAt(weight) < 0
  }

  /** Whether the filter can be trusted for a target and an amount: it covers both extreme weights. */
  predicate Covered(k: Kernel) { CoveredAt(k, LeastWeight(k.minAge)) && CoveredAt(k, STAKE_MAX_AGE) }

  /** No kernel with this target and amount, whenever received and whatever its hash, is filtered out
      although it meets its target. */
  ghost predicate Lossless(k: Kernel) {
    forall hash: Uint32 -> Hash256, inputTime: Uint32, time: Uint32 ::
      k.(hash := hash, inputTime := inputTime).Meets(time) ==> hash(time) <= k.MaxTarget()
  }

  lemma WeightRange(k: Kernel, time: Uint32)
    requires k.Valid()
    ensures LeastWeight(k.minAge) <= k.Weight(time) <= STAKE_MAX_AGE
  {
  }

  lemma FilterKeeps(k: Kernel, time: Uint32)
    requires k.Valid() && Covered(k) && k.Meets(time)
    ensures k.hash(time) <= k.MaxTarget()
  {
    WeightRange(k, time);
    TargetBetween(k, LeastWeight(k.minAge), k.Weight(time), STAKE_MAX_AGE);
  }

  /** The filter loses nothing exactly when it covers the extreme weights. */
  lemma LosslessIff(k: Kernel)
    requires k.Valid()
    ensures Lossless(k) <==> Covered(k)
  {
    if Covered(k) {
      forall hash: Uint32 -> Hash256, inputTime: Uint32, time: Uint32
        | k.(hash := hash, inputTime := inputTime).Meets(time)
        ensures hash(time) <= k.MaxTarget()
      {
        FilterKeeps(k.(hash := hash, inputTime := inputTime), time);
      }
    }
    if Lossless(k) {
      ExtremeCovered(k, 0xFFFF_FFFF, 0);
      ExtremeCovered(k, 0, 0xFFFF_FFFF);
    }
  }

  lemma ExtremeCovered(k: Kernel, inputTime: Uint32, time: Uint32)
    requires Lossless(k)
    ensures CoveredAt(k, GetWeight(inputTime, time, k.minAge))
  {
    var target := k.TargetAt(GetWeight(inputTime, time, k.minAge));
    if target >= 0 {
      var worst: Hash256 := if target < TWO_256 then target else TWO_256 - 1;
      var hash: Uint32 -> Hash256 := (t: Uint32) => worst;
      assert k.(hash := hash, inputTime := inputTime).Meets(time);
      assert hash(time) <= k.MaxTarget();
    }
  }

  /** The ordinary case: a target and an amount that are not negative, and a largest target that
      fits 256 bits. */
  lemma FittingCovered(k: Kernel)
    requires k.Valid() && k.target >= 0 && k.value >= 0 && k.MaxTargetExact() < TWO_256
    ensures Covered(k)
  {
    NoWeightNoTarget(k);
    NestedFloors(k.target, k.value * STAKE_MAX_AGE);
    Associate(k.target, k.value, STAKE_MAX_AGE);
  }

  /** The filter is no wider than rounding makes it: less than one coin-day's target above the target at
      full age. */
  lemma FilterTight(k: Kernel)
    requires k.target >= 0 && k.value >= 0
    ensures k.TargetAt(STAKE_MAX_AGE) <= k.MaxTargetExact() <= k.TargetAt(STAKE_MAX_AGE) + k.target
  {
    var t, x, c := k.target, k.value * STAKE_MAX_AGE, COIN * ONE_DAY;
    Associate(t, k.value, STAKE_MAX_AGE);
    NestedFloors(t, x);
    TruncateTwice(x);
    TruncateTwice(t * x);
    FloorGap(t, x, c);
    hide Truncate;
  }

  /** Multiplying after rounding falls short by at most the factor. */
  lemma FloorGap(t: nat, x: nat, c: int)
    requires c > 0
    ensures t * x >= 0 && t * x / c <= x / c * t + t
  {
    var q := x / c;
    MulMonotone(t, 0, x);
    MulMonotone(t, x, (q + 1) * c);
    Associate(t, q + 1, c);
    FloorAtMost(t * (q + 1), t * x, c);
  }

  lemma FloorAtMost(m: int, y: nat, c: int)
    requires c > 0 && y <= m * c
    ensures y / c <= m
  {
    if y / c > m { MulMonotone(c, m + 1, y / c); }
  }

  lemma NoWeightNoTarget(k: Kernel)
    requires k.Valid() && k.target >= 0 && k.value >= 0
    ensures k.TargetAt(LeastWeight(k.minAge)) <= 0
  {
    var w := LeastWeight(k.minAge);
    MulMonotone(k.value, w, 0);
    TruncateTwice(k.value * w);
    MulMonotone(k.target, CoinDays(k.value, w), 0);
  }

  lemma Associate(a: int, b: int, c: int)
    ensures a * b * c == a * (b * c)
  {
  }

  /** Rounding the coin-days before multiplying by the target never exceeds rounding afterwards. */
  lemma NestedFloors(t: nat, x: nat)
    ensures t * x >= 0 && 0 <= Truncate(Truncate(x, COIN), ONE_DAY) * t <= Truncate(Truncate(t * x, COIN), ONE_DAY)
  {
    var c := COIN * ONE_DAY;
    var q := x / c;
    TruncateTwice(x);
    MulMonotone(t, 0, x);
    TruncateTwice(t * x);
    MulMonotone(t, q * c, x);
    MulMonotone(t, 0, q);
    Associate(t, q, c);
    FloorAtLeast(t * q, t * x, c);
  }

  lemma FloorAtLeast(m: nat, y: nat, c: int)
    requires c > 0 && m * c <= y
    ensures m <= y / c
  {
    if y / c < m {
      MulMonotone(c, y / c + 1, m);
    }
  }

  // ---- The scan ----

  predicate Passes(k: Kernel, time: Uint32) { k.hash(time) <= k.MaxTarget() && k.Meets(time) }

  /** The search comes as far down as `time`: the node is not seen shutting down before. */
  ghost predicate Reached(stop: Uint32 -> bool, time: Uint32, first: Uint32) {
    forall t: Uint32 :: time <= t <= first ==> !stop(t)
  }

  /** Searches the times after `second`, from `first` down; `stop` says at which of them the node is
      seen shutting down, which ends the search. */
  method ScanKernelBackward(k: Kernel, first: Uint32, second: Uint32, stop: Uint32 -> bool)
    returns (found: bool, solution: (Hash256, Uint32))
    requires k.Valid()
    ensures found ==>
      && second < solution.1 <= first && solution.0 == k.hash(solution.1) && Reached(stop, solution.1, first)
      && Passes(k, solution.1) && forall t: Uint32 :: solution.1 < t <= first ==> !Passes(k, t)
    ensures !found ==> forall t: Uint32 :: second < t <= first && Reached(stop, t, first) ==> !Passes(k, t)
    // Where the filter covers the extreme weights, the answer is about the target itself.
    ensures found ==> k.Meets(solution.1)
    ensures found && Covered(k) ==> forall t: Uint32 :: solution.1 < t <= first ==> !k.Meets(t)
    ensures !found && Covered(k) ==>
      forall t: Uint32 :: second < t <= first && Reached(stop, t, first) ==> !k.Meets(t)
  {
    solution := (0, 0);
    var maxTarget := k.MaxTarget();
    var time := first;
    while time > second && !stop(time)
      invariant time <= first
      invariant forall t: Uint32 :: time < t <= first ==> !stop(t) && !Passes(k, t)
      invariant Covered(k) ==> forall t: Uint32 :: time < t <= first ==> !k.Meets(t)
      decreases time
    {
      var hashProof := k.hash(time);
      if hashProof <= maxTarget {
        var coinDays := CoinDays(k.value, k.Weight(time));
        if coinDays * k.target >= hashProof {
          return true, (hashProof, time);
        }
      }
      if Covered(k) && k.Meets(time) { FilterKeeps(k, time); }
      time := time - 1;
    }
    found := false;
  }

  // ---- The miner's search windows ----

  /** Where a search at time `now` stops, given the previous one: a minute back at most. */
  function WindowStart(last: Uint32, now: Uint32): (r: Uint32)
    requires last < now
  {
    now - if now - last < MAX_STAKE_SEARCH_INTERVAL then now - last else MAX_STAKE_SEARCH_INTERVAL
  }

  /** A window goes back to the previous search, or a minute where that is longer ago. */
  lemma WindowLength(last: Uint32, now: Uint32)
    requires last < now
    ensures now - last <= 60 ==> WindowStart(last, now) == last
    ensures now - last > 60 ==> WindowStart(last, now) == now - 60
  {
  }

  class StakeMiner {
    var nLastCoinStakeSearchTime: Uint32
    var nLastCoinStakeSearchInterval: int

    constructor (startup: Uint32)
      ensures nLastCoinStakeSearchTime == startup && nLastCoinStakeSearchInterval == 0
    {
      nLastCoinStakeSearchTime := startup;
      nLastCoinStakeSearchInterval := 0;
    }

    /** Scans every input over the window; only a search that finds nothing moves the window on.
        `stop` says at which input and time the node is seen shutting down. */
    method ScanMap(inputs: seq<Kernel>, now: Uint32, stop: nat -> Uint32 -> bool)
      returns (lucky: Option<nat>, solution: (Hash256, Uint32))
      requires forall i :: 0 <= i < |inputs| ==> inputs[i].Valid()
      modifies this
      ensures inputs == [] || now <= old(nLastCoinStakeSearchTime) ==> lucky.None? && unchanged(this)
      ensures lucky.Some? ==>
        && unchanged(this) && nLastCoinStakeSearchTime < now && lucky.value < |inputs|
        && WindowStart(nLastCoinStakeSearchTime, now) < solution.1 <= now
        && Reached(stop(lucky.value), solution.1, now)
        && inputs[lucky.value].Meets(solution.1) && solution.0 == inputs[lucky.value].hash(solution.1)
        && (forall t: Uint32 :: solution.1 < t <= now ==> !Passes(inputs[lucky.value], t))
        && NoneReached(inputs[..lucky.value], WindowStart(nLastCoinStakeSearchTime, now), now, stop)
      ensures lucky.None? && inputs != [] && old(nLastCoinStakeSearchTime) < now ==>
        && nLastCoinStakeSearchTime == now
        && nLastCoinStakeSearchInterval == now - old(nLastCoinStakeSearchTime)
        && NoneReached(inputs, WindowStart(old(nLastCoinStakeSearchTime), now), now, stop)
    {
      solution := (0, 0);
      if inputs != [] && now > nLastCoinStakeSearchTime {
        var second := WindowStart(nLastCoinStakeSearchTime, now);
        for i := 0 to |inputs|
          invariant unchanged(this)
          invariant NoneReached(inputs[..i], second, now, stop)
        {
          var found;
          found, solution := ScanKernelBackward(inputs[i], now, second, stop(i));
          if found { return Some(i), solution; }
          assert inputs[..i + 1] == inputs[..i] + [inputs[i]];
        }
        assert inputs[..|inputs|] == inputs;
        nLastCoinStakeSearchInterval := now - nLastCoinStakeSearchTime;
        nLastCoinStakeSearchTime := now;
      }
      lucky := None;
    }
  }

  /** None of the inputs has a solution at a time of the window that its search came to. */
  ghost predicate NoneReached(inputs: seq<Kernel>, second: Uint32, now: Uint32, stop: nat -> Uint32 -> bool) {
    forall i: nat, t: Uint32 ::
      i < |inputs| && second < t <= now && Reached(stop(i), t, now) ==> !Passes(inputs[i], t)
  }

  /** The number of windows of a run of fruitless searches that hold a time. */
  function Searched(times: seq<Uint32>, t: Uint32): nat
    requires forall i, j :: 0 <= i < j < |times| ==> times[i] < times[j]
  {
    if |times| < 2 then 0
    else
      var n := |times| - 1;
      Searched(times[..n], t) + if WindowStart(times[n - 1], times[n]) < t <= times[n] then 1 else 0
  }

  /** No time is searched twice, and every time is searched once when no two searches are more than a
      minute apart. */
  lemma {:induction false} SearchedOnce(times: seq<Uint32>, t: Uint32)
    requires times != [] && forall i, j :: 0 <= i < j < |times| ==> times[i] < times[j]
    ensures Searched(times, t) <= 1
    ensures Searched(times, t) == 1 ==> times[0] < t <= times[|times| - 1]
    ensures
      && (forall i :: 1 <= i < |times| ==> times[i] - times[i - 1] <= MAX_STAKE_SEARCH_INTERVAL)
      && times[0] < t <= times[|times| - 1]
      ==> Searched(times, t) == 1
  {
    if |times| >= 2 { SearchedOnce(times[..|times| - 1], t); }
  }

  // ---- A target too large for the filter ----

  /** Three million coins at full age, under a target within the limit of the node (2^229 - 1): the
      largest target is past 2^256, so the filter wraps and rejects a hash that meets its target. */
  lemma OverflowLoses()
    ensures
      var k := Kernel((t: Uint32) => TWO_256 - 1, TWO_256 / 0x1000_0000, 3000000 * COIN, 0, STAKE_MIN_AGE);
      var time: Uint32 := STAKE_MAX_AGE + STAKE_MIN_AGE;
      k.Valid() && k.Meets(time) && !Passes(k, time)
  {
    var k := Kernel((t: Uint32) => TWO_256 - 1, TWO_256 / 0x1000_0000, 3000000 * COIN, 0, STAKE_MIN_AGE);
    assert CoinDays(k.value, STAKE_MAX_AGE) == 270000000;
    assert k.MaxTarget() < TWO_256 - 1;
  }
}
