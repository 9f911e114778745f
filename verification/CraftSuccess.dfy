/** Exactly when a build of either kind succeeds, in terms a caller can check beforehand. */
module CraftSuccess {
  import opened Wrappers
  import opened Network
  import opened Lifecycle
  import opened Fees
  import opened DerivationPath
  import opened Craft
  import opened CraftOutputs

  /** An input is within the money supply and its script's length fits one byte. */
  predicate InputFits(lib: Library, utxo: Utxo, i: nat) {
    lib.takesInput(i) && utxo.value <= 2_100_000_000_000_000 && utxo.scriptLength <= 252
  }

  predicate OutputFits(lib: Library, out: OutputRequest, i: nat) {
    lib.takesOutput(i) && out.value <= 2_100_000_000_000_000
  }

  /** Every item is one the transaction library takes. */
  ghost predicate ItemsAreTaken(inputs: BuildInputs, lib: Library) {
    && (forall i :: 0 <= i < |inputs.spends| ==> lib.takesSpend(i))
    && (forall i :: 0 <= i < |inputs.utxos| ==> InputFits(lib, inputs.utxos[i], i))
    && (forall i :: 0 <= i < |inputs.outputs| ==> OutputFits(lib, inputs.outputs[i], i))
  }

  predicate WantsShielded(inputs: BuildInputs) {
    exists i :: 0 <= i < |inputs.outputs| && inputs.outputs[i].destination.ToShielded?
  }

  /**
   * What is checked before anything is added: the pool's upgrade, something to spend and to pay, and for a
   * shielded bundle its anchor and, when it spends, the viewing key. The Ironwood builder always needs a bundle.
   */
  predicate CanStart(inputs: BuildInputs) {
    && inputs.network.IsActive(if inputs.pool == Orchard then Nu5 else Nu6_3, inputs.target)
    && (inputs.spends != [] || inputs.utxos != [])
    && inputs.outputs != []
    && (inputs.pool == Ironwood ==> inputs.spends != [] || WantsShielded(inputs))
    && (inputs.spends != [] || WantsShielded(inputs) ==> inputs.anchor == ValidAnchor)
    && (inputs.spends != [] ==> inputs.hasFvk)
  }

  function TotalIn(inputs: BuildInputs): nat {
    Sum(inputs.spends) + Sum(InputValues(inputs.utxos))
  }

  /** The fee is acceptable at a marginal fee, and the library computes the same one. */
  predicate FeeSuitsAt(inputs: BuildInputs, lib: Library, marginal: nat) {
    Accepts(RequestedLayout(inputs), Surplus(inputs), marginal, inputs.fee) && lib.feeAt(marginal) == Some(inputs.fee)
  }

  predicate FeeSuits(inputs: BuildInputs, lib: Library) {
    FeeSuitsAt(inputs, lib, StandardMarginalFee(inputs.network.kind, inputs.target))
    || FeeSuitsAt(inputs, lib, LEGACY_MARGINAL_FEE)
  }

  predicate ChangeIsTransparent(inputs: BuildInputs) {
    Surplus(inputs) > inputs.fee && inputs.spends == []
  }

  predicate ChangeCanBePaid(inputs: BuildInputs, lib: Library) {
    Surplus(inputs) > inputs.fee ==>
      && Surplus(inputs) - inputs.fee <= 2_100_000_000_000_000 && lib.takesChange
      && (inputs.spends != [] ==> inputs.changeAddress.Some?)
      && (inputs.spends == [] ==>
            inputs.transparentChangeAddress.Some? && inputs.transparentChangePubkey.Some? && inputs.transparentChangeIndex.Some?)
  }

  /** Every index that goes into a derivation path is in its range. */
  predicate IndicesFit(inputs: BuildInputs) {
    && (inputs.spends != [] || WantsShielded(inputs) || inputs.utxos != [] ==> inputs.accountIndex < 0x8000_0000)
    && (forall i :: 0 <= i < |inputs.utxos| ==>
          inputs.utxos[i].scope < 0x8000_0000 && inputs.utxos[i].addressIndex < 0x8000_0000)
    && (ChangeIsTransparent(inputs) && inputs.transparentChangeIndex.Some? ==>
          inputs.transparentChangeIndex.value < 0x8000_0000)
  }

  // ----- totals -----

  lemma {:induction false} SpendsAddUpIff(lib: Library, spends: seq<nat>, i: nat, total: nat)
    requires i <= |spends| && total <= U64_MAX
    ensures AddSpends(lib, spends, i, total).Success? <==>
              (forall j :: i <= j < |spends| ==> lib.takesSpend(j)) && total + Sum(spends[i..]) <= U64_MAX
    decreases |spends| - i
  {
    if i < |spends| {
      assert spends[i..][1..] == spends[i + 1..];
      if lib.takesSpend(i) && total + spends[i] <= U64_MAX {
        SpendsAddUpIff(lib, spends, i + 1, total + spends[i]);
      }
    }
  }

  lemma {:induction false} InputsAddUpIff(lib: Library, utxos: seq<Utxo>, i: nat, total: nat)
    requires i <= |utxos| && total <= U64_MAX
    ensures AddInputs(lib, utxos, i, total).Success? <==>
              (forall j :: i <= j < |utxos| ==> InputFits(lib, utxos[j], j)) && total + Sum(InputValues(utxos[i..])) <= U64_MAX
    decreases |utxos| - i
  {
    if i < |utxos| {
      assert utxos[i..][1..] == utxos[i + 1..];
      assert InputValues(utxos[i..])[1..] == InputValues(utxos[i + 1..]);
      if TakesInput(lib, utxos[i], i) && total + utxos[i].value <= U64_MAX {
        InputsAddUpIff(lib, utxos, i + 1, total + utxos[i].value);
      }
    }
  }

  lemma {:induction false} OutputsAddUpIff(lib: Library, outputs: seq<OutputRequest>, i: nat, totals: OutputTotals)
    requires i <= |outputs| && totals.value <= U64_MAX
    ensures AddOutputs(lib, outputs, i, totals).Success? <==>
              && (forall j :: i <= j < |outputs| ==> OutputFits(lib, outputs[j], j))
              && totals.value + RequestedTotal(outputs[i..]) <= U64_MAX
    decreases |outputs| - i
  {
    if i < |outputs| {
      assert outputs[i..][1..] == outputs[i + 1..];
      if lib.takesOutput(i) && outputs[i].value <= MAX_MONEY && totals.value + outputs[i].value <= U64_MAX {
        OutputsAddUpIff(lib, outputs, i + 1, totals.Plus(outputs[i]));
      }
    }
  }

  // ----- change and fee -----

  function TotalsOf(inputs: BuildInputs): OutputTotals {
    OutputTotals(RequestedTotal(inputs.outputs), |ShieldedOutputs(inputs.outputs)|, |TransparentOutputs(inputs.outputs)|)
  }

  lemma MarginalFeesDiffer(layout: Layout)
    ensures layout.Fee(ZIP2009_MARGINAL_FEE) != layout.Fee(LEGACY_MARGINAL_FEE)
  {
    var n := layout.PaidActions();
    assert ZIP2009_MARGINAL_FEE * n < LEGACY_MARGINAL_FEE * n;
  }

  lemma {:induction false} PlanSucceedsIff(inputs: BuildInputs, lib: Library)
    requires TotalIn(inputs) <= U64_MAX
    ensures PlanFee(inputs, lib, TotalIn(inputs), TotalsOf(inputs)).Success? <==>
              FeeSuits(inputs, lib) && ChangeCanBePaid(inputs, lib)
  {
    TotalCounts(inputs.outputs);
    if Surplus(inputs) >= inputs.fee {
      var layout := RequestedLayout(inputs).Final(Surplus(inputs) - inputs.fee);
      MarginalFeesDiffer(layout);
      assert CallerMarginalFee(inputs.network.kind, inputs.target, inputs.fee, layout).Some? <==>
               inputs.fee == layout.Fee(StandardMarginalFee(inputs.network.kind, inputs.target))
               || inputs.fee == layout.Fee(LEGACY_MARGINAL_FEE);
    }
  }

  // ----- derivations -----

  lemma {:induction false} PathsSucceedIff(inputs: BuildInputs, i: nat)
    requires i <= |inputs.utxos|
    ensures InputPaths(inputs, i).Success? <==> forall j :: i <= j < |inputs.utxos| ==> InputPath(inputs, j).Success?
    decreases |inputs.utxos| - i
  {
    if i < |inputs.utxos| {
      PathsSucceedIff(inputs, i + 1);
    }
  }

  lemma StampSucceedsIff(inputs: BuildInputs, plan: Plan, built: Built)
    requires |built.inputs| == |inputs.utxos| && (plan.stamp.Some? ==> plan.stamp.value.index < |built.outputs|)
    requires plan.stamp.Some? <==> ChangeIsTransparent(inputs)
    requires plan.stamp.Some? ==> inputs.utxos != [] && inputs.transparentChangeIndex == Some(plan.stamp.value.addressIndex)
    ensures Stamp(inputs, plan.stamp, built).Success? && (HasShielded(inputs) ==> inputs.accountIndex < HARDENED_OFFSET)
        <==> IndicesFit(inputs)
  {
    PathsSucceedIff(inputs, 0);
    forall i | 0 <= i < |inputs.utxos|
      ensures InputPath(inputs, i).Success? <==>
                && inputs.accountIndex < HARDENED_OFFSET
                && inputs.utxos[i].scope < HARDENED_OFFSET && inputs.utxos[i].addressIndex < HARDENED_OFFSET
    {
    }
    assert inputs.utxos != [] ==> (InputPath(inputs, 0).Success? ==> inputs.accountIndex < HARDENED_OFFSET);
  }

  // ----- the whole build -----

  lemma TotalsSucceedIff(inputs: BuildInputs, lib: Library)
    ensures (&& AddSpends(lib, inputs.spends, 0, 0).Success?
             && AddInputs(lib, inputs.utxos, 0, AddSpends(lib, inputs.spends, 0, 0).value).Success?
             && AddOutputs(lib, inputs.outputs, 0, OutputTotals(0, 0, 0)).Success?)
        <==> ItemsAreTaken(inputs, lib) && TotalIn(inputs) <= U64_MAX && RequestedTotal(inputs.outputs) <= U64_MAX
  {
    assert inputs.spends[0..] == inputs.spends && inputs.utxos[0..] == inputs.utxos && inputs.outputs[0..] == inputs.outputs;
    SpendsAddUpIff(lib, inputs.spends, 0, 0);
    OutputsAddUpIff(lib, inputs.outputs, 0, OutputTotals(0, 0, 0));
    if AddSpends(lib, inputs.spends, 0, 0).Success? {
      SpendsAreSummed(lib, inputs.spends, 0, 0);
      InputsAddUpIff(lib, inputs.utxos, 0, Sum(inputs.spends));
    }
  }

  /** The totals that reach change derivation. */
  lemma TotalsReached(inputs: BuildInputs, lib: Library)
    requires ItemsAreTaken(inputs, lib) && TotalIn(inputs) <= U64_MAX && RequestedTotal(inputs.outputs) <= U64_MAX
    ensures AddSpends(lib, inputs.spends, 0, 0) == Success(Sum(inputs.spends))
    ensures AddInputs(lib, inputs.utxos, 0, Sum(inputs.spends)) == Success(TotalIn(inputs))
    ensures AddOutputs(lib, inputs.outputs, 0, OutputTotals(0, 0, 0)) == Success(TotalsOf(inputs))
  {
    TotalsSucceedIff(inputs, lib);
    assert inputs.spends[0..] == inputs.spends && inputs.utxos[0..] == inputs.utxos && inputs.outputs[0..] == inputs.outputs;
    SpendsAreSummed(lib, inputs.spends, 0, 0);
    InputsAreSummed(lib, inputs.utxos, 0, Sum(inputs.spends));
    OutputsAreCounted(lib, inputs.outputs, 0, OutputTotals(0, 0, 0));
  }

  /** A plan that passed, up to the result of the build. */
  lemma PlannedBuildSucceedsIff(inputs: BuildInputs, lib: Library)
    requires Precheck(inputs) == None
    requires ItemsAreTaken(inputs, lib) && TotalIn(inputs) <= U64_MAX && RequestedTotal(inputs.outputs) <= U64_MAX
    requires PlanFee(inputs, lib, TotalIn(inputs), TotalsOf(inputs)).Success?
    ensures Build(inputs, lib).Success? <==>
              && lib.assembles && IndicesFit(inputs)
              && CapExpiryBelowNextActivation(inputs.network, inputs.target, lib.defaultExpiry).Success?
  {
    TotalsReached(inputs, lib);
    PlanIsRouted(inputs, lib, TotalIn(inputs), TotalsOf(inputs));
    var plan := PlanFee(inputs, lib, TotalIn(inputs), TotalsOf(inputs)).value;
    var capped := CapExpiryBelowNextActivation(inputs.network, inputs.target, lib.defaultExpiry);
    if lib.assembles && capped.Success? {
      StampFits(inputs, lib, TotalsOf(inputs), plan, capped.value);
      StampSucceedsIff(inputs, plan, Assemble(inputs, plan, capped.value));
    }
  }

  /**
   * A build succeeds exactly when its preconditions on the network and the bundle hold, the library takes every
   * item, the input total fits 64 bits, the fee is acceptable for the layout its own change completes, that change
   * has somewhere to go, the expiry can be capped and every derivation index is in range.
   */
  lemma BuildSucceedsIff(inputs: BuildInputs, lib: Library)
    ensures Build(inputs, lib).Success? <==>
              && CanStart(inputs)
              && ItemsAreTaken(inputs, lib) && TotalIn(inputs) <= U64_MAX
              && FeeSuits(inputs, lib) && ChangeCanBePaid(inputs, lib)
              && lib.assembles && IndicesFit(inputs)
              && CapExpiryBelowNextActivation(inputs.network, inputs.target, lib.defaultExpiry).Success?
  {
    TotalsSucceedIff(inputs, lib);
    if Precheck(inputs) == None && ItemsAreTaken(inputs, lib) && TotalIn(inputs) <= U64_MAX
       && RequestedTotal(inputs.outputs) <= U64_MAX {
      TotalsReached(inputs, lib);
      PlanSucceedsIff(inputs, lib);
      if PlanFee(inputs, lib, TotalIn(inputs), TotalsOf(inputs)).Success? {
        PlannedBuildSucceedsIff(inputs, lib);
      }
    }
  }

  // ----- refusals -----

  lemma {:induction false} SpendRefusal(lib: Library, spends: seq<nat>, i: nat, total: nat)
    requires i <= |spends| && total <= U64_MAX && AddSpends(lib, spends, i, total).Failure?
    ensures match AddSpends(lib, spends, i, total).error
            case SpendRejected(k) => i <= k < |spends| && !lib.takesSpend(k)
            case SpendOverflow => total + Sum(spends[i..]) > U64_MAX
            case _ => false
    decreases |spends| - i
  {
    assert spends[i..][1..] == spends[i + 1..];
    if lib.takesSpend(i) && total + spends[i] <= U64_MAX {
      SpendRefusal(lib, spends, i + 1, total + spends[i]);
    }
  }

  lemma {:induction false} InputRefusal(lib: Library, utxos: seq<Utxo>, i: nat, total: nat)
    requires i <= |utxos| && total <= U64_MAX && AddInputs(lib, utxos, i, total).Failure?
    ensures match AddInputs(lib, utxos, i, total).error
            case InputRejected(k) => i <= k < |utxos| && !InputFits(lib, utxos[k], k)
            case InputOverflow => total + Sum(InputValues(utxos[i..])) > U64_MAX
            case _ => false
    decreases |utxos| - i
  {
    assert utxos[i..][1..] == utxos[i + 1..];
    assert InputValues(utxos[i..])[1..] == InputValues(utxos[i + 1..]);
    if TakesInput(lib, utxos[i], i) && total + utxos[i].value <= U64_MAX {
      InputRefusal(lib, utxos, i + 1, total + utxos[i].value);
    }
  }

  lemma {:induction false} OutputRefusal(lib: Library, outputs: seq<OutputRequest>, i: nat, totals: OutputTotals)
    requires i <= |outputs| && totals.value <= U64_MAX && AddOutputs(lib, outputs, i, totals).Failure?
    ensures match AddOutputs(lib, outputs, i, totals).error
            case OutputRejected(k) => i <= k < |outputs| && !OutputFits(lib, outputs[k], k)
            case OutputOverflow => totals.value + RequestedTotal(outputs[i..]) > U64_MAX
            case _ => false
    decreases |outputs| - i
  {
    assert outputs[i..][1..] == outputs[i + 1..];
    if lib.takesOutput(i) && outputs[i].value <= MAX_MONEY && totals.value + outputs[i].value <= U64_MAX {
      OutputRefusal(lib, outputs, i + 1, totals.Plus(outputs[i]));
    }
  }

  predicate ChangeDetailsGiven(inputs: BuildInputs) {
    if inputs.spends != [] then inputs.changeAddress.Some?
    else inputs.transparentChangeAddress.Some? && inputs.transparentChangePubkey.Some? && inputs.transparentChangeIndex.Some?
  }

  predicate FeeIsZip317(inputs: BuildInputs) {
    var standard := StandardMarginalFee(inputs.network.kind, inputs.target);
    || Accepts(RequestedLayout(inputs), Surplus(inputs), standard, inputs.fee)
    || (standard < LEGACY_MARGINAL_FEE && Accepts(RequestedLayout(inputs), Surplus(inputs), LEGACY_MARGINAL_FEE, inputs.fee))
  }

  lemma {:induction false} PlanRefusal(inputs: BuildInputs, lib: Library)
    requires TotalIn(inputs) <= U64_MAX && PlanFee(inputs, lib, TotalIn(inputs), TotalsOf(inputs)).Failure?
    ensures match PlanFee(inputs, lib, TotalIn(inputs), TotalsOf(inputs)).error
            case OutflowOverflow => RequestedTotal(inputs.outputs) + inputs.fee > U64_MAX
            case InsufficientFunds => Surplus(inputs) < inputs.fee
            case ChangeDetailsMissing => Surplus(inputs) > inputs.fee && !ChangeDetailsGiven(inputs)
            case ChangeRejected =>
              Surplus(inputs) > inputs.fee && (Surplus(inputs) - inputs.fee > 2_100_000_000_000_000 || !lib.takesChange)
            case FeeNotZip317 => Surplus(inputs) >= inputs.fee && !FeeIsZip317(inputs)
            case BuilderFeeMismatch => FeeIsZip317(inputs) && !FeeSuits(inputs, lib)
            case _ => false
  {
    TotalCounts(inputs.outputs);
    if Surplus(inputs) >= inputs.fee {
      MarginalFeesDiffer(RequestedLayout(inputs).Final(Surplus(inputs) - inputs.fee));
      CallerFeeAcceptedIff(inputs.network.kind, inputs.target, RequestedLayout(inputs), Surplus(inputs), inputs.fee);
    }
  }

  /** What each refusal of a build says is so. */
  ghost predicate IsTrueOf(inputs: BuildInputs, lib: Library, e: CraftError) {
    match e
    case UpgradeNotActive => !inputs.network.IsActive(if inputs.pool == Orchard then Nu5 else Nu6_3, inputs.target)
    case NoInputs => inputs.spends == [] && inputs.utxos == []
    case NoOutputs => inputs.outputs == []
    case NoShieldedBundle => inputs.pool == Ironwood && inputs.spends == [] && !WantsShielded(inputs)
    case BadAnchor => inputs.anchor != ValidAnchor && (inputs.spends != [] || WantsShielded(inputs))
    case FvkMissing => inputs.spends != [] && !inputs.hasFvk
    case SpendRejected(k) => k < |inputs.spends| && !lib.takesSpend(k)
    case InputRejected(k) => k < |inputs.utxos| && !InputFits(lib, inputs.utxos[k], k)
    case OutputRejected(k) => k < |inputs.outputs| && !OutputFits(lib, inputs.outputs[k], k)
    case SpendOverflow => Sum(inputs.spends) > U64_MAX
    case InputOverflow => TotalIn(inputs) > U64_MAX
    case OutputOverflow => RequestedTotal(inputs.outputs) > U64_MAX
    case OutflowOverflow => RequestedTotal(inputs.outputs) + inputs.fee > U64_MAX
    case InsufficientFunds => Surplus(inputs) < inputs.fee
    case ChangeDetailsMissing => Surplus(inputs) > inputs.fee && !ChangeDetailsGiven(inputs)
    case ChangeRejected =>
      Surplus(inputs) > inputs.fee && (Surplus(inputs) - inputs.fee > 2_100_000_000_000_000 || !lib.takesChange)
    case FeeNotZip317 => Surplus(inputs) >= inputs.fee && !FeeIsZip317(inputs)
    case BuilderFeeMismatch => FeeIsZip317(inputs) && !FeeSuits(inputs, lib)
    case AssemblyFailed => !lib.assembles
    case ExpiryTooClose(reason) => CapExpiryBelowNextActivation(inputs.network, inputs.target, lib.defaultExpiry) == Failure(reason)
    case IndexOutOfRange => !IndicesFit(inputs)
  }

  lemma TotalsRefusal(inputs: BuildInputs, lib: Library)
    requires Precheck(inputs) == None && Build(inputs, lib).Failure?
    requires !(ItemsAreTaken(inputs, lib) && TotalIn(inputs) <= U64_MAX && RequestedTotal(inputs.outputs) <= U64_MAX)
    ensures IsTrueOf(inputs, lib, Build(inputs, lib).error)
  {
    assert inputs.spends[0..] == inputs.spends && inputs.utxos[0..] == inputs.utxos && inputs.outputs[0..] == inputs.outputs;
    TotalsSucceedIff(inputs, lib);
    var spent := AddSpends(lib, inputs.spends, 0, 0);
    if spent.Failure? {
      SpendRefusal(lib, inputs.spends, 0, 0);
    } else {
      SpendsAreSummed(lib, inputs.spends, 0, 0);
      if AddInputs(lib, inputs.utxos, 0, spent.value).Failure? {
        InputRefusal(lib, inputs.utxos, 0, spent.value);
      } else {
        OutputRefusal(lib, inputs.outputs, 0, OutputTotals(0, 0, 0));
      }
    }
  }

  lemma PathRefusal(inputs: BuildInputs, i: nat)
    requires InputPaths(inputs, i).Failure?
    ensures InputPaths(inputs, i).error == IndexOutOfRange
    decreases |inputs.utxos| - i
  {
  }

  lemma PlannedRefusal(inputs: BuildInputs, lib: Library)
    requires Precheck(inputs) == None && Build(inputs, lib).Failure?
    requires ItemsAreTaken(inputs, lib) && TotalIn(inputs) <= U64_MAX && RequestedTotal(inputs.outputs) <= U64_MAX
    requires PlanFee(inputs, lib, TotalIn(inputs), TotalsOf(inputs)).Success?
    ensures IsTrueOf(inputs, lib, Build(inputs, lib).error)
  {
    TotalsReached(inputs, lib);
    PlannedBuildSucceedsIff(inputs, lib);
    if InputPaths(inputs, 0).Failure? {
      PathRefusal(inputs, 0);
    }
  }

  /** A build is never refused for a reason that does not hold; rejected items are named by their own index. */
  lemma RefusalIsTrue(inputs: BuildInputs, lib: Library)
    requires Build(inputs, lib).Failure?
    ensures IsTrueOf(inputs, lib, Build(inputs, lib).error)
  {
    if Precheck(inputs) == None {
      if ItemsAreTaken(inputs, lib) && TotalIn(inputs) <= U64_MAX && RequestedTotal(inputs.outputs) <= U64_MAX {
        TotalsReached(inputs, lib);
        if PlanFee(inputs, lib, TotalIn(inputs), TotalsOf(inputs)).Failure? {
          PlanRefusal(inputs, lib);
        } else {
          PlannedRefusal(inputs, lib);
        }
      } else {
        TotalsRefusal(inputs, lib);
      }
    }
  }
}
