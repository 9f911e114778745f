/**
 * Network parameters: which upgrades a network schedules at which heights, and the branch id in force at a
 * height. Covers `network.rs` and the activation walk of `craft.rs`.
 */
module Network {
  import opened Wrappers

  const U32_MAX: nat := 0xFFFF_FFFF

  datatype Upgrade =
    | Overwinter | Sapling | Blossom | Heartwood | Canopy | Nu5 | Nu6 | Nu6_1 | Nu6_2 | Nu6_3 | Nu7

  datatype BranchId = Sprout | BranchOf(upgrade: Upgrade)

  datatype NetworkType = MainNet | TestNet | Regtest

  /** Either a named network, whose heights are consensus constants, or a local one. */
  datatype AnyNetwork = AnyNetwork(kind: NetworkType, schedule: Upgrade -> Option<nat>) {

    predicate IsActive(nu: Upgrade, height: nat) {
      schedule(nu).Some? && schedule(nu).value <= height
    }

    /** Heights are 32-bit. */
    ghost predicate Valid() {
      forall nu :: schedule(nu).Some? ==> schedule(nu).value <= U32_MAX
    }
  }

  function NextUpgrade(nu: Upgrade): Option<Upgrade> {
    match nu
    case Overwinter => Some(Sapling)
    case Sapling => Some(Blossom)
    case Blossom => Some(Heartwood)
    case Heartwood => Some(Canopy)
    case Canopy => Some(Nu5)
    case Nu5 => Some(Nu6)
    case Nu6 => Some(Nu6_1)
    case Nu6_1 => Some(Nu6_2)
    case Nu6_2 => Some(Nu6_3)
    case Nu6_3 => Some(Nu7)
    case Nu7 => None
  }

  /** Position in activation order. */
  function Rank(nu: Upgrade): nat {
    match nu
    case Overwinter => 0
    case Sapling => 1
    case Blossom => 2
    case Heartwood => 3
    case Canopy => 4
    case Nu5 => 5
    case Nu6 => 6
    case Nu6_1 => 7
    case Nu6_2 => 8
    case Nu6_3 => 9
    case Nu7 => 10
  }

  lemma RankIsInjective(nu: Upgrade)
    ensures forall v :: Rank(v) == Rank(nu) ==> v == nu
  {
  }

  /** The walk from Overwinter visits every upgrade: no variant drops out of it. */
  lemma WalkIsExhaustive(nu: Upgrade)
    ensures NextUpgrade(nu) == None <==> nu == Nu7
    ensures NextUpgrade(nu).Some? ==> Rank(NextUpgrade(nu).value) == Rank(nu) + 1
    ensures nu == Overwinter || exists prev :: NextUpgrade(prev) == Some(nu)
  {
    match nu
    case Overwinter =>
    case Sapling => assert NextUpgrade(Overwinter) == Some(nu);
    case Blossom => assert NextUpgrade(Sapling) == Some(nu);
    case Heartwood => assert NextUpgrade(Blossom) == Some(nu);
    case Canopy => assert NextUpgrade(Heartwood) == Some(nu);
    case Nu5 => assert NextUpgrade(Canopy) == Some(nu);
    case Nu6 => assert NextUpgrade(Nu5) == Some(nu);
    case Nu6_1 => assert NextUpgrade(Nu6) == Some(nu);
    case Nu6_2 => assert NextUpgrade(Nu6_1) == Some(nu);
    case Nu6_3 => assert NextUpgrade(Nu6_2) == Some(nu);
    case Nu7 => assert NextUpgrade(Nu6_3) == Some(nu);
  }

  predicate IsAhead(network: AnyNetwork, nu: Upgrade, target: nat) {
    network.schedule(nu).Some? && network.schedule(nu).value > target
  }

  // ----- the next activation -----

  /** The nearer of an upgrade's height, when that is ahead, and the nearest so far. */
  function Nearer(network: AnyNetwork, target: nat, nu: Upgrade, next: Option<nat>): Option<nat> {
    var height := network.schedule(nu);
    if height.Some? && height.value > target && (next == None || height.value < next.value) then height else next
  }

  /** The walk's result from `nu` on, given the lowest height found before it. */
  function WalkFrom(network: AnyNetwork, target: nat, nu: Option<Upgrade>, next: Option<nat>): Option<nat>
    decreases if nu.Some? then 11 - Rank(nu.value) else 0, target
  {
    if nu == None then next
    else WalkFrom(network, target, NextUpgrade(nu.value), Nearer(network, target, nu.value, next))
  }

  function NextActivation(network: AnyNetwork, target: nat): Option<nat> {
    WalkFrom(network, target, Some(Overwinter), None)
  }

  /** `next` is the lowest height above `target` among the upgrades of at most the given rank. */
  ghost predicate IsLowestAhead(network: AnyNetwork, target: nat, below: nat, next: Option<nat>) {
    && (next.Some? ==> next.value > target && exists nu :: network.schedule(nu) == next)
    && forall nu :: Rank(nu) < below && IsAhead(network, nu, target) ==>
         next.Some? && next.value <= network.schedule(nu).value
  }

  function RankOrEnd(nu: Option<Upgrade>): nat {
    if nu.Some? then Rank(nu.value) else 11
  }

  lemma LowestStep(network: AnyNetwork, target: nat, nu: Upgrade, next: Option<nat>)
    requires IsLowestAhead(network, target, Rank(nu), next)
    ensures IsLowestAhead(network, target, RankOrEnd(NextUpgrade(nu)), Nearer(network, target, nu, next))
  {
    RankIsInjective(nu);
  }

  lemma {:induction false} WalkFindsLowest(network: AnyNetwork, target: nat, nu: Option<Upgrade>, next: Option<nat>)
    requires IsLowestAhead(network, target, RankOrEnd(nu), next)
    ensures IsLowestAhead(network, target, 11, WalkFrom(network, target, nu, next))
    decreases if nu.Some? then 11 - Rank(nu.value) else 0
  {
    if nu.Some? {
      LowestStep(network, target, nu.value, next);
      WalkFindsLowest(network, target, NextUpgrade(nu.value), Nearer(network, target, nu.value, next));
    }
  }

  method NextActivationHeight(network: AnyNetwork, target: nat) returns (next: Option<nat>)
    ensures next == NextActivation(network, target)
  {
    next := None;
    var nu := Some(Overwinter);
    while nu.Some?
      invariant IsLowestAhead(network, target, RankOrEnd(nu), next)
      decreases if nu.Some? then 11 - Rank(nu.value) else 0
    {
      var current := nu.value;
      LowestStep(network, target, current, next);
      var height := network.schedule(current);
      if height.Some? {
        if height.value > target && (next == None || height.value < next.value) {
          next := height;
        }
      }
      nu := NextUpgrade(current);
    }
    WalkFindsLowest(network, target, Some(Overwinter), None);
    LowestAheadIsUnique(network, target, next, NextActivation(network, target));
  }

  lemma LowestAheadIsUnique(network: AnyNetwork, target: nat, a: Option<nat>, b: Option<nat>)
    requires IsLowestAhead(network, target, 11, a) && IsLowestAhead(network, target, 11, b)
    ensures a == b
  {
  }

  /** The lowest scheduled height strictly above the target, or nothing when every scheduled upgrade is active. */
  lemma NextActivationIsLowestAhead(network: AnyNetwork, target: nat)
    ensures match NextActivation(network, target)
            case None => forall nu :: !IsAhead(network, nu, target)
            case Some(a) =>
              && a > target
              && (exists nu :: network.schedule(nu) == Some(a))
              && forall nu :: IsAhead(network, nu, target) ==> a <= network.schedule(nu).value
  {
    WalkFindsLowest(network, target, Some(Overwinter), None);
  }

  // ----- the branch in force -----

  /** The last active upgrade in activation order, however odd the schedule. */
  function BranchIdFor(network: AnyNetwork, height: nat): BranchId {
    if network.IsActive(Nu7, height) then BranchOf(Nu7)
    else if network.IsActive(Nu6_3, height) then BranchOf(Nu6_3)
    else if network.IsActive(Nu6_2, height) then BranchOf(Nu6_2)
    else if network.IsActive(Nu6_1, height) then BranchOf(Nu6_1)
    else if network.IsActive(Nu6, height) then BranchOf(Nu6)
    else if network.IsActive(Nu5, height) then BranchOf(Nu5)
    else if network.IsActive(Canopy, height) then BranchOf(Canopy)
    else if network.IsActive(Heartwood, height) then BranchOf(Heartwood)
    else if network.IsActive(Blossom, height) then BranchOf(Blossom)
    else if network.IsActive(Sapling, height) then BranchOf(Sapling)
    else if network.IsActive(Overwinter, height) then BranchOf(Overwinter)
    else Sprout
  }

  lemma BranchIsLastActive(network: AnyNetwork, height: nat, nu: Upgrade)
    ensures BranchIdFor(network, height) == BranchOf(nu) <==>
              network.IsActive(nu, height) && forall later :: Rank(later) > Rank(nu) ==> !network.IsActive(later, height)
  {
  }

  // ----- regtest schedules -----

  datatype ScheduleError =
    | HeightIsZero(nu: Upgrade)
    | PredecessorUnscheduled(nu: Upgrade)
    | BeforePredecessor(nu: Upgrade)

  /** The canonical regtest heights. */
  function RegtestHeight(nu: Upgrade): Option<nat> {
    match nu
    case Overwinter | Sapling | Blossom | Heartwood | Canopy => Some(1)
    case Nu5 | Nu6 | Nu6_1 | Nu6_2 | Nu6_3 => Some(2)
    case Nu7 => None
  }

  /** A caller's height replaces the canonical one. */
  function Picked(overrides: Upgrade -> Option<nat>, nu: Upgrade): Option<nat> {
    if overrides(nu).Some? then overrides(nu) else RegtestHeight(nu)
  }

  function FirstZero(overrides: Upgrade -> Option<nat>, nu: Upgrade): Option<ScheduleError>
    decreases 11 - Rank(nu)
  {
    if overrides(nu) == Some(0) then Some(HeightIsZero(nu))
    else
      match NextUpgrade(nu)
      case None => None
      case Some(next) => FirstZero(overrides, next)
  }

  /** The check of each upgrade against its direct predecessor. */
  function FirstBadPair(schedule: Upgrade -> Option<nat>, nu: Upgrade): Option<ScheduleError>
    decreases 11 - Rank(nu)
  {
    match NextUpgrade(nu)
    case None => None
    case Some(next) =>
      match (schedule(nu), schedule(next))
      case (None, Some(_)) => Some(PredecessorUnscheduled(next))
      case (Some(p), Some(c)) => if c < p then Some(BeforePredecessor(next)) else FirstBadPair(schedule, next)
      case _ => FirstBadPair(schedule, next)
  }

  function ToLocalNetwork(overrides: Upgrade -> Option<nat>): Result<AnyNetwork, ScheduleError> {
    var schedule := nu => Picked(overrides, nu);
    match FirstZero(overrides, Overwinter)
    case Some(e) => Failure(e)
    case None =>
      match FirstBadPair(schedule, Overwinter)
      case Some(e) => Failure(e)
      case None => Success(AnyNetwork(Regtest, schedule))
  }

  /** If `b` is scheduled, then so is `a`, no later. */
  predicate Precedes(schedule: Upgrade -> Option<nat>, a: Upgrade, b: Upgrade) {
    schedule(b).Some? ==> schedule(a).Some? && schedule(a).value <= schedule(b).value
  }

  /** Among the upgrades of at least `rank`, every one comes after all its predecessors, none of which is missing. */
  ghost predicate OrderedFrom(schedule: Upgrade -> Option<nat>, rank: nat) {
    forall a, b :: rank <= Rank(a) < Rank(b) ==> Precedes(schedule, a, b)
  }

  lemma OrderedStep(schedule: Upgrade -> Option<nat>, nu: Upgrade, next: Upgrade)
    requires NextUpgrade(nu) == Some(next)
    ensures OrderedFrom(schedule, Rank(nu)) <==> Precedes(schedule, nu, next) && OrderedFrom(schedule, Rank(next))
  {
    RankIsInjective(nu);
    RankIsInjective(next);
    if Precedes(schedule, nu, next) && OrderedFrom(schedule, Rank(next)) {
      forall a, b | Rank(nu) <= Rank(a) < Rank(b)
        ensures Precedes(schedule, a, b)
      {
        if Rank(a) == Rank(nu) && Rank(b) > Rank(next) {
          assert Precedes(schedule, next, b);
        }
      }
    }
  }

  lemma {:induction false} PairsOrderAll(schedule: Upgrade -> Option<nat>, nu: Upgrade)
    ensures FirstBadPair(schedule, nu) == None <==> OrderedFrom(schedule, Rank(nu))
    decreases 11 - Rank(nu)
  {
    var next := NextUpgrade(nu);
    if next.Some? {
      OrderedStep(schedule, nu, next.value);
      PairsOrderAll(schedule, next.value);
    }
  }

  lemma {:induction false} ZerosFound(overrides: Upgrade -> Option<nat>, nu: Upgrade)
    ensures FirstZero(overrides, nu) == None <==> forall v :: Rank(v) >= Rank(nu) ==> overrides(v) != Some(0)
    decreases 11 - Rank(nu)
  {
    match NextUpgrade(nu)
    case None =>
    case Some(next) =>
      ZerosFound(overrides, next);
      RankIsInjective(nu);
  }

  /** Overrides are accepted exactly when none is 0 and the whole resulting schedule is ordered and gap-free. */
  lemma AcceptedIffOrdered(overrides: Upgrade -> Option<nat>)
    ensures ToLocalNetwork(overrides).Success? <==>
              (forall nu :: overrides(nu) != Some(0)) && OrderedFrom(nu => Picked(overrides, nu), 0)
    ensures ToLocalNetwork(overrides).Success? ==>
              forall nu :: ToLocalNetwork(overrides).value.schedule(nu) == Picked(overrides, nu)
  {
    var schedule := nu => Picked(overrides, nu);
    ZerosFound(overrides, Overwinter);
    PairsOrderAll(schedule, Overwinter);
  }

  /** What a refused schedule is refused for: a zero override, or a height below the direct predecessor's. */
  ghost predicate IsScheduleCause(overrides: Upgrade -> Option<nat>, e: ScheduleError) {
    match e
    case HeightIsZero(nu) => overrides(nu) == Some(0)
    case BeforePredecessor(nu) => exists prev :: NextUpgrade(prev) == Some(nu) && ComesBefore(overrides, nu, prev)
    case PredecessorUnscheduled(_) => false
  }

  predicate ComesBefore(overrides: Upgrade -> Option<nat>, nu: Upgrade, prev: Upgrade) {
    Picked(overrides, nu).Some? && Picked(overrides, prev).Some? && Picked(overrides, nu).value < Picked(overrides, prev).value
  }

  lemma {:induction false} PairErrors(overrides: Upgrade -> Option<nat>, nu: Upgrade)
    ensures var e := FirstBadPair(v => Picked(overrides, v), nu);
            e.Some? ==> e.value.BeforePredecessor? && IsScheduleCause(overrides, e.value)
    decreases 11 - Rank(nu)
  {
    var next := NextUpgrade(nu);
    if next.Some? {
      PairErrors(overrides, next.value);
      assert ComesBefore(overrides, next.value, nu) ==> IsScheduleCause(overrides, BeforePredecessor(next.value));
    }
  }

  lemma {:induction false} ZeroErrors(overrides: Upgrade -> Option<nat>, nu: Upgrade)
    ensures var e := FirstZero(overrides, nu); e.Some? ==> e.value.HeightIsZero? && IsScheduleCause(overrides, e.value)
    decreases 11 - Rank(nu)
  {
    if NextUpgrade(nu).Some? {
      ZeroErrors(overrides, NextUpgrade(nu).value);
    }
  }

  /**
   * A refusal names its true cause. The missing-predecessor error cannot be reached: the canonical heights leave
   * only the last upgrade open.
   */
  lemma GapErrorIsUnreachable(overrides: Upgrade -> Option<nat>)
    ensures ToLocalNetwork(overrides).Failure? ==>
              && !ToLocalNetwork(overrides).error.PredecessorUnscheduled?
              && IsScheduleCause(overrides, ToLocalNetwork(overrides).error)
  {
    PairErrors(overrides, Overwinter);
    ZeroErrors(overrides, Overwinter);
  }

  // ----- resolving a network by name -----

  datatype ResolveError =
    | UnknownNetwork(name: string)
    | OverridesForNamedNetwork(name: string)
    | BadSchedule(reason: ScheduleError)

  /** `named` gives the named networks' heights, which are consensus constants. No name means the test network. */
  function ResolveAnyNetwork(named: NetworkType -> Upgrade -> Option<nat>, name: Option<string>,
                             overrides: Option<Upgrade -> Option<nat>>): Result<AnyNetwork, ResolveError>
  {
    var chosen := if name.Some? then name.value else "testnet";
    if chosen == "regtest" then
      match overrides
      case None => Success(AnyNetwork(Regtest, RegtestHeight))
      case Some(heights) =>
        match ToLocalNetwork(heights)
        case Failure(e) => Failure(BadSchedule(e))
        case Success(network) => Success(network)
    else if chosen != "testnet" && chosen != "mainnet" then Failure(UnknownNetwork(chosen))
    else if overrides.Some? then Failure(OverridesForNamedNetwork(chosen))
    else
      var kind := if chosen == "testnet" then TestNet else MainNet;
      Success(AnyNetwork(kind, named(kind)))
  }

  lemma CanonicalScheduleIsOrdered()
    ensures OrderedFrom(RegtestHeight, 0)
  {
    PairsOrderAll(RegtestHeight, Overwinter);
  }

  /** Overrides are never dropped, only the main and test networks keep their own heights, and a regtest schedule is ordered. */
  lemma ResolvedNetworkHonoursOverrides(named: NetworkType -> Upgrade -> Option<nat>, name: Option<string>,
                                        overrides: Option<Upgrade -> Option<nat>>)
    requires ResolveAnyNetwork(named, name, overrides).Success?
    ensures var network := ResolveAnyNetwork(named, name, overrides).value;
            && (network.kind == Regtest <==> name == Some("regtest"))
            && (network.kind == MainNet <==> name == Some("mainnet"))
            && (network.kind == TestNet <==> name == Some("testnet") || name == None)
            && (network.kind == Regtest ==> OrderedFrom(network.schedule, 0))
            && (network.kind != Regtest ==> overrides == None && network.schedule == named(network.kind))
            && (overrides.Some? ==> forall nu :: overrides.value(nu).Some? ==> network.schedule(nu) == overrides.value(nu))
  {
    CanonicalScheduleIsOrdered();
    if overrides.Some? {
      AcceptedIffOrdered(overrides.value);
      var network := ResolveAnyNetwork(named, name, overrides).value;
      forall a, b | Rank(a) < Rank(b)
        ensures Precedes(network.schedule, a, b)
      {
        assert Precedes(nu => Picked(overrides.value, nu), a, b);
      }
    }
  }

  ghost predicate IsResolveCause(name: Option<string>, overrides: Option<Upgrade -> Option<nat>>, e: ResolveError) {
    match e
    case UnknownNetwork(n) => name == Some(n) && n != "mainnet" && n != "testnet" && n != "regtest"
    case OverridesForNamedNetwork(n) =>
      overrides.Some? && (if name == None then n == "testnet" else n == name.value && (n == "mainnet" || n == "testnet"))
    case BadSchedule(reason) =>
      name == Some("regtest") && overrides.Some? && ToLocalNetwork(overrides.value) == Failure(reason)
  }

  /**
   * A network is resolved exactly for a known name, with overrides only for regtest and only acceptable ones; a
   * refusal names its true cause.
   */
  lemma ResolvesIff(named: NetworkType -> Upgrade -> Option<nat>, name: Option<string>,
                    overrides: Option<Upgrade -> Option<nat>>)
    ensures ResolveAnyNetwork(named, name, overrides).Success? <==>
              if name == Some("regtest") then overrides.Some? ==> ToLocalNetwork(overrides.value).Success?
              else (name == None || name == Some("testnet") || name == Some("mainnet")) && overrides == None
    ensures ResolveAnyNetwork(named, name, overrides).Failure? ==>
              IsResolveCause(name, overrides, ResolveAnyNetwork(named, name, overrides).error)
  {
  }

  /** The canonical regtest chain: everything up to Canopy from height 1, everything up to NU6.3 from height 2, no NU7. */
  lemma CanonicalRegtestBranches(named: NetworkType -> Upgrade -> Option<nat>, height: nat, nu: Upgrade)
    ensures var r := ResolveAnyNetwork(named, Some("regtest"), None);
            && r.Success?
            && BranchIdFor(r.value, height)
                 == (if height == 0 then Sprout else if height == 1 then BranchOf(Canopy) else BranchOf(Nu6_3))
            && (r.value.IsActive(nu, height) <==>
                  (height >= 1 && Rank(nu) <= Rank(Canopy)) || (height >= 2 && Rank(nu) <= Rank(Nu6_3)))
  {
  }
}
