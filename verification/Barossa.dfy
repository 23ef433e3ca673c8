/** Barossa: the target each block must meet, along a whole chain. */
module Barossa {
  import opened Common
  import opened Limbs
  import opened Bitwise
  import opened UintShift
  import opened CompactTarget

  // ---------------------------------------------------------------- constants

  const RETARGETING_FACTOR: nat := 4
  const TARGET_SPACING_SECONDS: nat := 2 * 60
  const DOUBLE_SPACING_SECONDS: nat := 2 * TARGET_SPACING_SECONDS
  const TARGET_TIMESPAN_SECONDS: nat := 2 * 7 * 24 * 60 * 60
  const MIN_TIMESPAN: nat := TARGET_TIMESPAN_SECONDS / RETARGETING_FACTOR
  const MAX_TIMESPAN: nat := TARGET_TIMESPAN_SECONDS * RETARGETING_FACTOR
  const RETARGETING_INTERVAL: nat := TARGET_TIMESPAN_SECONDS / TARGET_SPACING_SECONDS

  datatype Network = Mainnet | Testnet | Alphanet

  /** `max_difficulty` */
  function MaxTarget(network: Network): (t: nat)
    ensures 0 < t < U256
  {
    match network
    case Testnet => 0x00000377ae000000_0000000000000000_0000000000000000_0000000000000000
    case Alphanet => 0x0000000fff000000_0000000000000000_0000000000000000_0000000000000000
    case Mainnet => 0x00000000ffffffff_ffffffffffffffff_ffffffffffffffff_ffffffffffffffff
  }

  /** `max_difficulty_compact` */
  function MaxBits(network: Network): (c: nat)
    ensures c < U32
    ensures ToU256(c) == Ok(Rounded(MaxTarget(network)))
  {
    DecodedIsRounded(MaxTarget(network));
    FromU256(MaxTarget(network)).value
  }

  // ---------------------------------------------------------------- one target

  datatype Header = Header(time: nat, bits: nat)

  /** The number a compact form stands for, overflow and sign ignored. */
  function Target(bits: nat): nat
    requires bits < U32
  {
    match ToU256(bits) case Ok(v) => v case Err(v) => v
  }

  predicate IsRetargetHeight(height: nat) {
    height % RETARGETING_INTERVAL == 0
  }

  /** `retarget_timespan`: the signed difference, kept within a factor of four. */
  function RetargetTimespan(retargetTime: nat, lastTime: nat): (t: nat)
    ensures MIN_TIMESPAN <= t <= MAX_TIMESPAN
    ensures t < lastTime - retargetTime ==> t == MAX_TIMESPAN
    ensures t > lastTime - retargetTime ==> t == MIN_TIMESPAN
  {
    var timespan := lastTime - retargetTime;
    if timespan < MIN_TIMESPAN then MIN_TIMESPAN else if timespan > MAX_TIMESPAN then MAX_TIMESPAN else timespan
  }

  /** The target scaled by the timespan: `None` when the product overflows 256 bits, which panics. */
  function Scaled(target: nat, timespan: nat): (r: Option<nat>)
    ensures r.Some? ==> r.value < U256
  {
    var product := target * timespan;
    if product < U256 then Some(product / TARGET_TIMESPAN_SECONDS) else None
  }

  /** `work_required_retarget` */
  function Retarget(network: Network, lastBits: nat, retargetTime: nat, lastTime: nat): Option<nat>
    requires lastBits < U32
  {
    match Scaled(Target(lastBits), RetargetTimespan(retargetTime, lastTime))
    case None => None
    case Some(retarget) =>
      if retarget > Target(MaxBits(network)) then Some(MaxBits(network)) else FromU256(retarget)
  }

  /** The compact forms in `chain`, from the last block back, at most one interval of them. */
  function Recent(chain: seq<Header>): seq<nat> {
    seq(if |chain| < RETARGETING_INTERVAL then |chain| else RETARGETING_INTERVAL, i requires 0 <= i < |chain| =>
      chain[|chain| - 1 - i].bits)
  }

  /** Not the easiest target, or set at a retarget. */
  predicate Real(bits: seq<nat>, k: nat, height: nat, maxBits: nat)
    requires k < |bits| <= height
  {
    bits[k] != maxBits || IsRetargetHeight(height - k - 1)
  }

  /** The scan of the second loop from some block on. */
  function FirstReal(bits: seq<nat>, from: nat, height: nat, maxBits: nat): (r: nat)
    requires from <= |bits| <= height
    decreases |bits| - from
  {
    if from == |bits| then maxBits
    else if Real(bits, from, height, maxBits) then bits[from]
    else FirstReal(bits, from + 1, height, maxBits)
  }

  /** It is the least one with the property, or the easiest target when there is none. */
  lemma {:induction false} FirstRealIsLeast(bits: seq<nat>, from: nat, k: nat, height: nat, maxBits: nat)
    requires from <= k <= |bits| <= height && forall j :: from <= j < k ==> !Real(bits, j, height, maxBits)
    requires k < |bits| ==> Real(bits, k, height, maxBits)
    ensures FirstReal(bits, from, height, maxBits) == if k < |bits| then bits[k] else maxBits
    decreases k - from
  {
    if from < k {
      FirstRealIsLeast(bits, from + 1, k, height, maxBits);
    }
  }

  /** `work_required_testnet`; the limit on the time wraps around at 32 bits. */
  function TestnetBits(chain: seq<Header>, time: nat, height: nat): nat
    requires 0 < |chain| <= height
  {
    var parent := chain[|chain| - 1];
    if time > (parent.time + DOUBLE_SPACING_SECONDS) % U32 then MaxBits(Testnet)
    else FirstReal(Recent(chain), 0, height, MaxBits(Testnet))
  }

  /** `work_required` for a block of the given time after the last of `chain`. The two callers give as
      height the level of that block, or one more. */
  function WorkRequired(network: Network, chain: seq<Header>, time: nat, height: nat): Option<nat>
    requires 0 < |chain| <= height < |chain| + RETARGETING_INTERVAL
    requires forall i :: 0 <= i < |chain| ==> chain[i].bits < U32
  {
    var parent := chain[|chain| - 1];
    if IsRetargetHeight(height) then
      HeightAtLeastInterval(height);
      Retarget(network, parent.bits, chain[height - RETARGETING_INTERVAL].time, parent.time)
    else if network == Testnet then Some(TestnetBits(chain, time, height))
    else Some(parent.bits)
  }

  lemma HeightAtLeastInterval(height: nat)
    requires 0 < height && IsRetargetHeight(height)
    ensures RETARGETING_INTERVAL <= height
  {
  }

  /** The two loops of `work_required_testnet`. */
  method WorkRequiredTestnet(chain: seq<Header>, time: nat, height: nat) returns (r: nat)
    requires 0 < |chain| <= height
    ensures r == TestnetBits(chain, time, height)
  {
    var maxBits := MaxBits(Testnet);
    hide MaxBits, FirstReal;
    var parent := chain[|chain| - 1];
    var maxTimeGap := (parent.time + DOUBLE_SPACING_SECONDS) % U32;
    if time > maxTimeGap {
      return maxBits;
    }
    var bits: seq<nat> := [];
    for i := 0 to RETARGETING_INTERVAL
      invariant i <= |chain| && bits == Recent(chain)[..i]
    {
      if i == |chain| {
        break;
      }
      bits := bits + [chain[|chain| - 1 - i].bits];
    }
    assert bits == Recent(chain);
    FirstRealEnds(bits, height, maxBits);
    for index := 0 to |bits|
      invariant FirstReal(bits, 0, height, maxBits) == FirstReal(bits, index, height, maxBits)
    {
      FirstRealStep(bits, index, height, maxBits);
      if Real(bits, index, height, maxBits) {
        return bits[index];
      }
    }
    return maxBits;
  }

  lemma FirstRealStep(bits: seq<nat>, from: nat, height: nat, maxBits: nat)
    requires from < |bits| <= height
    ensures FirstReal(bits, from, height, maxBits) ==
      if Real(bits, from, height, maxBits) then bits[from]
      else FirstReal(bits, from + 1, height, maxBits)
  {
  }

  lemma FirstRealEnds(bits: seq<nat>, height: nat, maxBits: nat)
    requires |bits| <= height
    ensures FirstReal(bits, |bits|, height, maxBits) == maxBits
  {
  }

  // ---------------------------------------------------------------- every target of a chain

  /** A compact form that decodes, to at most what the network's easiest form decodes to. */
  ghost predicate InRange(network: Network, bits: nat) {
    bits < U32 && ToU256(bits).Ok? && Target(bits) <= Target(MaxBits(network))
  }

  /** The network's maximum leaves room for the largest timespan, on the test network by less than five
      parts in a million. */
  lemma MaximumLeavesRoom(network: Network)
    ensures MaxTarget(network) * MAX_TIMESPAN < U256
    ensures network == Testnet ==> MaxTarget(network) * MAX_TIMESPAN * 1_000_000 > 999_995 * U256
  {
  }

  lemma MaximumIsInRange(network: Network)
    ensures InRange(network, MaxBits(network)) && Target(MaxBits(network)) <= MaxTarget(network)
  {
    hide ToU256, Rounded;
    RoundedBelow(MaxTarget(network));
  }

  lemma WidePowers()
    ensures Pow(2, 208) == 0x10000000000000000000000000000000000000000000000000000
    ensures Pow(2, 216) == 0x1000000000000000000000000000000000000000000000000000000
    ensures Pow(2, 223) == 0x80000000000000000000000000000000000000000000000000000000
    ensures Pow(2, 224) == 0x100000000000000000000000000000000000000000000000000000000
    ensures Pow(2, 227) == 0x800000000000000000000000000000000000000000000000000000000
    ensures Pow(2, 228) == 0x1000000000000000000000000000000000000000000000000000000000
    ensures Pow(2, 233) == 0x20000000000000000000000000000000000000000000000000000000000
    ensures Pow(2, 234) == 0x40000000000000000000000000000000000000000000000000000000000
  {
    hide Pow;
    PowersOfTwo();
    SmallWidths();
    PowAdd(2, 64, 64);
    PowAdd(2, 128, 64);
    PowAdd(2, 192, 16);
    PowAdd(2, 192, 24);
    PowAdd(2, 208, 15);
    PowAdd(2, 208, 16);
    assert Pow(2, 3) == 8 && Pow(2, 4) == 16 && Pow(2, 9) == 512 && Pow(2, 10) == 1024 by { TinyPowers(); }
    PowAdd(2, 224, 3);
    PowAdd(2, 224, 4);
    PowAdd(2, 224, 9);
    PowAdd(2, 224, 10);
  }

  lemma TinyPowers()
    ensures Pow(2, 3) == 8 && Pow(2, 4) == 16 && Pow(2, 9) == 512 && Pow(2, 10) == 1024
  {
    assert Pow(2, 4) == 2 * Pow(2, 3) == 4 * Pow(2, 2) == 8 * Pow(2, 1);
    PowAdd(2, 4, 4);
    assert Pow(2, 10) == 2 * Pow(2, 9) == 4 * Pow(2, 8);
  }

  /** The easiest targets in compact form. */
  lemma EasiestForms()
    ensures MaxBits(Mainnet) == 0x1d00_ffff && MaxBits(Testnet) == 0x1e03_77ae && MaxBits(Alphanet) == 0x1d0f_ff00
  {
    hide Pow, BitLength, FromU256;
    WidePowers();
    BitLengthUnique(MaxTarget(Mainnet), 224);
    BitLengthUnique(MaxTarget(Testnet), 234);
    BitLengthUnique(MaxTarget(Alphanet), 228);
    FromParts(MaxTarget(Mainnet));
    FromParts(MaxTarget(Testnet));
    FromParts(MaxTarget(Alphanet));
  }

  /** No retarget of a target in range overflows. */
  lemma RetargetFits(network: Network, bits: nat, timespan: nat)
    requires InRange(network, bits) && timespan <= MAX_TIMESPAN
    ensures Target(bits) * timespan < U256
  {
    hide ToU256, MaxBits, MaxTarget;
    MaximumIsInRange(network);
    MaximumLeavesRoom(network);
    MulMono(Target(bits), MaxTarget(network), timespan);
    MulMono(timespan, MAX_TIMESPAN, MaxTarget(network));
  }

  lemma ScaledBounds(target: nat, timespan: nat)
    requires MIN_TIMESPAN <= timespan <= MAX_TIMESPAN && target * timespan < U256
    ensures target / 4 <= Scaled(target, timespan).value <= 4 * target
  {
    MulMono(MIN_TIMESPAN, timespan, target);
    MulMono(timespan, MAX_TIMESPAN, target);
    var v := target * timespan;
    assert target * 302400 <= v <= target * 4838400;
    ScaledQuotient(target, v);
  }

  lemma ScaledQuotient(target: nat, v: nat)
    requires target * 302400 <= v <= target * 4838400
    ensures target / 4 <= v / 1209600 <= 4 * target
  {
  }

  /** A retarget never overflows, stays in range, and moves the target by at most a factor of four and
      the rounding of the compact form. */
  lemma RetargetBounds(network: Network, lastBits: nat, retargetTime: nat, lastTime: nat)
    requires InRange(network, lastBits)
    ensures var r := Retarget(network, lastBits, retargetTime, lastTime);
      && r.Some? && InRange(network, r.value)
      && Target(r.value) <= 4 * Target(lastBits)
      && (Target(lastBits) / 4) * 0x7fff <= Target(r.value) * 0x8000
  {
    hide ToU256, MaxBits, FromU256, Rounded, RetargetTimespan, Scaled;
    var last, timespan := Target(lastBits), RetargetTimespan(retargetTime, lastTime);
    RetargetFits(network, lastBits, timespan);
    ScaledFits(last, timespan);
    ScaledBounds(last, timespan);
    MaximumIsInRange(network);
    var t := Scaled(last, timespan).value;
    if t <= Target(MaxBits(network)) {
      DecodedIsRounded(t);
      RoundingError(t);
    }
  }

  lemma ScaledFits(target: nat, timespan: nat)
    requires target * timespan < U256
    ensures Scaled(target, timespan).Some?
  {
  }

  /** The time that counts: at least half a week and at most eight. */
  ghost function Span(retargetTime: nat, lastTime: nat): nat {
    var d := lastTime - retargetTime;
    if d < 302400 then 302400 else if d > 4838400 then 4838400 else d
  }

  /** A target in proportion to the time, of two weeks. */
  ghost function InProportion(target: nat, span: nat): nat {
    target * span / 1209600
  }

  /** The new target is the old one in proportion to the time between the blocks, as the compact form
      rounds it and at most the network's easiest. */
  lemma RetargetIsProportional(network: Network, lastBits: nat, retargetTime: nat, lastTime: nat)
    requires InRange(network, lastBits)
    ensures var r := Retarget(network, lastBits, retargetTime, lastTime);
      var wanted := InProportion(Target(lastBits), Span(retargetTime, lastTime));
      && r.Some? && r.value < U32
      && (Target(MaxBits(network)) < wanted ==> r.value == MaxBits(network))
      && (wanted <= Target(MaxBits(network)) ==> wanted < U256 && r == FromU256(wanted) && Target(r.value) == Rounded(wanted))
  {
    hide ToU256, MaxBits, FromU256, Rounded;
    RetargetFits(network, lastBits, Span(retargetTime, lastTime));
    MaximumIsInRange(network);
    var wanted := InProportion(Target(lastBits), Span(retargetTime, lastTime));
    if wanted <= Target(MaxBits(network)) {
      MaximumBelow(network);
      DecodedIsRounded(wanted);
    }
  }

  lemma MaximumBelow(network: Network)
    ensures Target(MaxBits(network)) < U256
  {
    hide ToU256, Rounded, MaxBits;
    MaximumIsInRange(network);
  }

  lemma ProportionIsMonotone(target: nat, span: nat, span': nat)
    requires span <= span'
    ensures InProportion(target, span) <= InProportion(target, span') && InProportion(target, 1209600) == target
  {
    MulMono(span, span', target);
    DivMono(target * span, target * span', 1209600);
    DivUnique(target * 1209600, 1209600, target, 0);
  }

  /** More time between the blocks never makes the next target harder. */
  lemma RetargetIsMonotone(network: Network, bits: nat, from: nat, to: nat, from': nat, to': nat)
    requires InRange(network, bits) && to - from <= to' - from'
    ensures var r, r' := Retarget(network, bits, from, to), Retarget(network, bits, from', to');
      r.Some? && r'.Some? && r.value < U32 && r'.value < U32 && Target(r.value) <= Target(r'.value)
  {
    hide ToU256, MaxBits, FromU256, Rounded, Retarget, InProportion;
    RetargetIsProportional(network, bits, from, to);
    RetargetIsProportional(network, bits, from', to');
    ProportionIsMonotone(Target(bits), Span(from, to), Span(from', to'));
    MaximumBelow(network);
    var w, w' := InProportion(Target(bits), Span(from, to)), InProportion(Target(bits), Span(from', to'));
    RoundedBelow(w);
    if w' <= Target(MaxBits(network)) {
      RoundingIsMonotone(w, w');
    }
  }

  /** Two weeks between the blocks leave any target that was written from a number. */
  lemma OnScheduleKeeps(network: Network, v: nat, bits: nat, retargetTime: nat)
    requires v < U256 && FromU256(v) == Some(bits) && InRange(network, bits)
    ensures Retarget(network, bits, retargetTime, retargetTime + 1209600) == Some(bits)
  {
    hide ToU256, MaxBits, FromU256, Rounded, Retarget, InProportion;
    DecodedIsRounded(v);
    RetargetIsProportional(network, bits, retargetTime, retargetTime + 1209600);
    ProportionIsMonotone(Target(bits), 1209600, 1209600);
    ReencodesTheSame(v);
  }

  lemma {:induction false} FirstRealInRange(network: Network, bits: seq<nat>, from: nat, height: nat)
    requires from <= |bits| <= height && forall i :: 0 <= i < |bits| ==> InRange(network, bits[i])
    ensures InRange(network, FirstReal(bits, from, height, MaxBits(network)))
    decreases |bits| - from
  {
    hide InRange, MaxBits;
    if from == |bits| {
      MaximumIsInRange(network);
    } else {
      FirstRealInRange(network, bits, from + 1, height);
    }
  }

  lemma TestnetInRange(chain: seq<Header>, time: nat, height: nat)
    requires 0 < |chain| <= height && forall i :: 0 <= i < |chain| ==> InRange(Testnet, chain[i].bits)
    ensures InRange(Testnet, TestnetBits(chain, time, height))
  {
    hide InRange, MaxBits, FirstReal;
    MaximumIsInRange(Testnet);
    FirstRealInRange(Testnet, Recent(chain), 0, height);
  }

  /** From a chain of targets in range, the next one is in range and its computation does not overflow. */
  lemma WorkStaysInRange(network: Network, chain: seq<Header>, time: nat, height: nat)
    requires 0 < |chain| <= height < |chain| + RETARGETING_INTERVAL
    requires forall i :: 0 <= i < |chain| ==> InRange(network, chain[i].bits)
    ensures forall i :: 0 <= i < |chain| ==> chain[i].bits < U32
    ensures var r := WorkRequired(network, chain, time, height); r.Some? && InRange(network, r.value)
  {
    assert forall i :: 0 <= i < |chain| ==> InRange(network, chain[i].bits) ==> chain[i].bits < U32;
    hide InRange, MaxBits, Retarget, TestnetBits;
    var parent := chain[|chain| - 1];
    if IsRetargetHeight(height) {
      HeightAtLeastInterval(height);
      RetargetBounds(network, parent.bits, chain[height - RETARGETING_INTERVAL].time, parent.time);
    } else if network == Testnet {
      TestnetInRange(chain, time, height);
    }
  }

  /** A chain that starts at the network's easiest target and is extended only with `work_required`;
      `heights[n]` is the height given for block `n`. */
  ghost predicate Grown(network: Network, chain: seq<Header>, heights: seq<nat>) {
    && 0 < |chain| == |heights|
    && chain[0].bits == MaxBits(network)
    && (forall n :: 0 <= n < |chain| ==> chain[n].bits < U32)
    && (forall n :: 0 < n < |chain| ==>
          && n <= heights[n] < n + RETARGETING_INTERVAL
          && WorkRequired(network, chain[..n], chain[n].time, heights[n]) == Some(chain[n].bits))
  }

  /** The genesis block alone is such a chain, and `work_required` extends any. */
  lemma GrowthGoesOn(network: Network, chain: seq<Header>, heights: seq<nat>, time: nat, height: nat)
    ensures Grown(network, [Header(time, MaxBits(network))], [0])
    ensures Grown(network, chain, heights) && |chain| <= height < |chain| + RETARGETING_INTERVAL ==>
      var r := WorkRequired(network, chain, time, height);
      r.Some? && Grown(network, chain + [Header(time, r.value)], heights + [height])
  {
    hide InRange, MaxBits, WorkRequired;
    if Grown(network, chain, heights) && |chain| <= height < |chain| + RETARGETING_INTERVAL {
      EveryTargetInRange(network, chain, heights, |chain| - 1);
      WorkStaysInRange(network, chain, time, height);
      var r := WorkRequired(network, chain, time, height).value;
      InRangeIsCompact(network, r);
      var chain', heights' := chain + [Header(time, r)], heights + [height];
      forall n | 0 < n < |chain'|
        ensures n <= heights'[n] < n + RETARGETING_INTERVAL && (forall i :: 0 <= i < n ==> chain'[..n][i].bits < U32)
        ensures WorkRequired(network, chain'[..n], chain'[n].time, heights'[n]) == Some(chain'[n].bits)
      {
        assert chain'[..n] == if n < |chain| then chain[..n] else chain;
      }
    }
  }

  lemma InRangeIsCompact(network: Network, bits: nat)
    requires InRange(network, bits)
    ensures bits < U32
  {
  }

  /** On every such chain every target is in range. */
  lemma {:induction false} EveryTargetInRange(network: Network, chain: seq<Header>, heights: seq<nat>, n: nat)
    requires Grown(network, chain, heights) && n < |chain|
    ensures forall i :: 0 <= i <= n ==> InRange(network, chain[i].bits)
  {
    hide InRange, MaxBits, WorkRequired;
    if n == 0 {
      MaximumIsInRange(network);
    } else {
      EveryTargetInRange(network, chain, heights, n - 1);
      WorkStaysInRange(network, chain[..n], chain[n].time, heights[n]);
    }
  }

  /** On every such chain the next target can be computed, whatever the time, and no target exceeds the
      network's maximum. */
  lemma ChainNeverOverflows(network: Network, chain: seq<Header>, heights: seq<nat>, time: nat, height: nat)
    requires Grown(network, chain, heights) && |chain| <= height < |chain| + RETARGETING_INTERVAL
    ensures WorkRequired(network, chain, time, height).Some?
    ensures forall i :: 0 <= i < |chain| ==> ToU256(chain[i].bits).Ok? && ToU256(chain[i].bits).value <= MaxTarget(network)
  {
    hide MaxBits, WorkRequired, ToU256, MaxTarget;
    EveryTargetInRange(network, chain, heights, |chain| - 1);
    WorkStaysInRange(network, chain, time, height);
    MaximumIsInRange(network);
    assert forall i :: 0 <= i < |chain| ==> InRange(network, chain[i].bits);
  }

  lemma GrownAt(network: Network, chain: seq<Header>, heights: seq<nat>, n: nat)
    requires Grown(network, chain, heights) && 0 < n < |chain|
    ensures |heights| == |chain| && n <= heights[n] < n + RETARGETING_INTERVAL
    ensures forall i :: 0 <= i < |chain| ==> chain[i].bits < U32
    ensures WorkRequired(network, chain[..n], chain[n].time, heights[n]) == Some(chain[n].bits)
  {
    hide WorkRequired, MaxBits;
  }

  /** A retarget every 10080 blocks. */
  lemma RetargetHeightIff(height: nat)
    ensures IsRetargetHeight(height) <==> height % 10080 == 0
    ensures 0 < height && IsRetargetHeight(height) ==> 10080 <= height
  {
  }

  /** Every target of such a chain: at a retarget height it is the retarget of the parent's over the time
      since 10080 blocks before that height; otherwise mainnet and alphanet keep the parent's. */
  lemma EachTarget(network: Network, chain: seq<Header>, heights: seq<nat>, n: nat)
    requires Grown(network, chain, heights) && 0 < n < |chain|
    ensures chain[n - 1].bits < U32
    ensures IsRetargetHeight(heights[n]) ==>
      && 10080 <= heights[n] < n + 10080
      && Retarget(network, chain[n - 1].bits, chain[heights[n] - 10080].time, chain[n - 1].time) == Some(chain[n].bits)
    ensures !IsRetargetHeight(heights[n]) && network != Testnet ==> chain[n].bits == chain[n - 1].bits
  {
    hide MaxBits, Retarget, TestnetBits, Grown, IsRetargetHeight;
    GrownAt(network, chain, heights, n);
    RetargetHeightIff(heights[n]);
  }

  lemma RecentAt(chain: seq<Header>)
    ensures |Recent(chain)| == if |chain| < 10080 then |chain| else 10080
    ensures forall j :: 0 <= j < |Recent(chain)| ==> Recent(chain)[j] == chain[|chain| - 1 - j].bits
  {
  }

  /** The nearest block before a height that is not the easiest or has a retarget height, looking back
      10080 blocks at most. `b` is that block, or the one before the last that is looked at. */
  ghost predicate Nearest(chain: seq<Header>, height: nat, b: int)
    requires |chain| <= height
  {
    && -1 <= b < |chain| && |chain| - 10081 <= b
    && (forall i :: b < i < |chain| ==> chain[i].bits == MaxBits(Testnet) && !IsRetargetHeight(height - |chain| + i))
    && (0 <= b && |chain| - 10080 <= b ==> chain[b].bits != MaxBits(Testnet) || IsRetargetHeight(height - |chain| + b))
  }

  lemma FirstRealIsNearest(chain: seq<Header>, height: nat, b: int)
    requires |chain| <= height && Nearest(chain, height, b)
    ensures |Recent(chain)| <= height
    ensures FirstReal(Recent(chain), 0, height, MaxBits(Testnet))
      == if 0 <= b && |chain| - 10080 <= b then chain[b].bits else MaxBits(Testnet)
  {
    hide MaxBits, FirstReal, IsRetargetHeight, Recent;
    RecentAt(chain);
    var bits, easiest, k := Recent(chain), MaxBits(Testnet), |chain| - 1 - b;
    forall j | 0 <= j < k ensures j < |bits| && !Real(bits, j, height, easiest) {
      assert chain[|chain| - 1 - j].bits == easiest && !IsRetargetHeight(height - |chain| + (|chain| - 1 - j));
    }
    FirstRealIsLeast(bits, 0, k, height, easiest);
  }

  /** A block of the test network between retargets: more than four minutes after its parent it has the
      easiest target, otherwise that of the nearest block. */
  lemma EachTestnetTarget(chain: seq<Header>, heights: seq<nat>, n: nat, b: int)
    requires Grown(Testnet, chain, heights) && 0 < n < |chain| && n <= heights[n] && !IsRetargetHeight(heights[n])
    requires Nearest(chain[..n], heights[n], b)
    ensures chain[n].time > (chain[n - 1].time + 240) % U32 ==> chain[n].bits == MaxBits(Testnet)
    ensures chain[n].time <= (chain[n - 1].time + 240) % U32 ==>
      chain[n].bits == if 0 <= b && n - 10080 <= b then chain[b].bits else MaxBits(Testnet)
  {
    hide MaxBits, Retarget, FirstReal, Grown, IsRetargetHeight, Recent, Nearest;
    GrownAt(Testnet, chain, heights, n);
    FirstRealIsNearest(chain[..n], heights[n], b);
    NearestIsBefore(chain[..n], heights[n], b);
  }

  lemma NearestIsBefore(chain: seq<Header>, height: nat, b: int)
    requires |chain| <= height && Nearest(chain, height, b)
    ensures b < |chain|
  {
  }
}
