/** Who a built transaction pays: every request at its own address and value, the change, and nobody else. */
module CraftOutputs {
  import opened Wrappers
  import opened Network
  import opened Lifecycle
  import opened Craft

  lemma {:induction false} TransparentCount(outputs: seq<OutputRequest>)
    ensures |TransparentOutputs(outputs)| == TransparentBefore(outputs, |outputs|)
  {
    if outputs != [] {
      var rest := outputs[1..];
      TransparentCount(rest);
      var first := if outputs[0].destination.ToTransparent? then 1 else 0;
      assert |TransparentOutputs(outputs)| == first + |TransparentOutputs(rest)|;
      assert TransparentBefore(outputs, |outputs|) == first + TransparentBefore(rest, |rest|);
    }
  }

  lemma {:induction false} KindsCount(outputs: seq<OutputRequest>)
    ensures |ShieldedOutputs(outputs)| + |TransparentOutputs(outputs)| == |outputs|
  {
    if outputs != [] {
      KindsCount(outputs[1..]);
    }
  }

  lemma {:induction false} TotalCounts(outputs: seq<OutputRequest>)
    ensures |TransparentOutputs(outputs)| == TransparentBefore(outputs, |outputs|)
    ensures |ShieldedOutputs(outputs)| == |outputs| - TransparentBefore(outputs, |outputs|)
  {
    TransparentCount(outputs);
    KindsCount(outputs);
  }

  /** Request `j` is in the list of its kind, behind the requests of that kind before it. */
  lemma {:induction false} RequestIsListed(outputs: seq<OutputRequest>, j: nat)
    requires j < |outputs|
    ensures var out := outputs[j];
            var t := TransparentBefore(outputs, j);
            match out.destination
            case ToTransparent(address) =>
              t < |TransparentOutputs(outputs)| && TransparentOutputs(outputs)[t] == PcztOutput(address, out.value, map[])
            case ToShielded(address) =>
              j - t < |ShieldedOutputs(outputs)| && ShieldedOutputs(outputs)[j - t] == ShieldedOutput(address, out.value)
    decreases j
  {
    if j > 0 {
      RequestIsListed(outputs[1..], j - 1);
    }
  }

  lemma AssembledOutputs(inputs: BuildInputs, lib: Library)
    requires Build(inputs, lib).Success?
    ensures var b := Build(inputs, lib).value;
            var n := |TransparentOutputs(inputs.outputs)|;
            && |b.outputs| == n + (if b.change > 0 && inputs.spends == [] then 1 else 0)
            && b.outputs[..n] == TransparentOutputs(inputs.outputs)
            && (b.change > 0 && inputs.spends != [] ==> inputs.changeAddress.Some?)
            && b.shieldedOutputs == ShieldedOutputs(inputs.outputs)
                 + (if b.change > 0 && inputs.spends != [] then [ShieldedOutput(inputs.changeAddress.value, b.change)] else [])
  {
    var totalIn, totals, plan, expiry := BuildStages(inputs, lib);
    PlanIsRouted(inputs, lib, totalIn, totals);
    StampKeepsAmounts(inputs, plan.stamp, Assemble(inputs, plan, expiry));
    OnlyChangeOutputIsStamped(inputs, lib);
  }

  /** The transaction pays request `j`: its own address and its own value, in order within its kind. */
  predicate IsPaid(b: Built, outputs: seq<OutputRequest>, j: nat)
    requires j < |outputs|
  {
    var out, t := outputs[j], TransparentBefore(outputs, j);
    match out.destination
    case ToTransparent(address) => t < |b.outputs| && b.outputs[t] == PcztOutput(address, out.value, map[])
    case ToShielded(address) =>
      j - t < |b.shieldedOutputs| && b.shieldedOutputs[j - t] == ShieldedOutput(address, out.value)
  }

  lemma ListedIsPaid(b: Built, outputs: seq<OutputRequest>, j: nat)
    requires j < |outputs|
    requires TransparentOutputs(outputs) <= b.outputs && ShieldedOutputs(outputs) <= b.shieldedOutputs
    ensures IsPaid(b, outputs, j)
  {
    RequestIsListed(outputs, j);
  }

  /** In every successful build, each request is paid. */
  lemma EachRequestIsPaid(inputs: BuildInputs, lib: Library, j: nat)
    requires Build(inputs, lib).Success? && j < |inputs.outputs|
    ensures IsPaid(Build(inputs, lib).value, inputs.outputs, j)
  {
    AssembledOutputs(inputs, lib);
    ListedIsPaid(Build(inputs, lib).value, inputs.outputs, j);
  }

  /**
   * Nobody else is paid: there are as many outputs of each kind as requests, and one more for change. Shielded
   * change goes to the caller's change address; the transparent one is described by `OnlyChangeOutputIsStamped`.
   */
  lemma OnlyChangeIsAdded(inputs: BuildInputs, lib: Library)
    requires Build(inputs, lib).Success?
    ensures var b := Build(inputs, lib).value;
            var t := TransparentBefore(inputs.outputs, |inputs.outputs|);
            var s := |inputs.outputs| - t;
            && |b.outputs| == t + (if b.change > 0 && inputs.spends == [] then 1 else 0)
            && (if b.change > 0 && inputs.spends != [] then
                  && inputs.changeAddress.Some? && |b.shieldedOutputs| == s + 1
                  && b.shieldedOutputs[s] == ShieldedOutput(inputs.changeAddress.value, b.change)
                else |b.shieldedOutputs| == s)
  {
    AssembledOutputs(inputs, lib);
    TotalCounts(inputs.outputs);
  }

  /** The expiry is the proposed one as capped, and the branch recorded is the one in force at the target. */
  lemma BuildIsCapped(inputs: BuildInputs, lib: Library)
    requires Build(inputs, lib).Success?
    ensures var b := Build(inputs, lib).value;
            && CapExpiryBelowNextActivation(inputs.network, inputs.target, lib.defaultExpiry) == Success(b.expiry)
            && b.branch == BranchIdFor(inputs.network, inputs.target)
            && b.circuit == ProvingCircuitFor(inputs.pool, inputs.network, inputs.target)
            && inputs.network.IsActive(if inputs.pool == Orchard then Nu5 else Nu6_3, inputs.target)
  {
    var totalIn, totals, plan, expiry := BuildStages(inputs, lib);
    StampKeepsAmounts(inputs, plan.stamp, Assemble(inputs, plan, expiry));
  }
}
