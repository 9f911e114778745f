/**
 * From crafting to mining: the expiry cap of `craft.rs` keeps a transaction inside the consensus branch it
 * was built for, and the prover and the verifier choose the same circuit generation (`circuit.rs`).
 */
module Lifecycle {
  import opened Wrappers
  import opened Network

  const EXPIRING_SOON_THRESHOLD: nat := 3
  const SIGNING_MARGIN_BLOCKS: nat := 5
  const MIN_VALIDITY_BLOCKS: nat := EXPIRING_SOON_THRESHOLD + SIGNING_MARGIN_BLOCKS

  datatype ExpiryError = ExpiryTooCloseToActivation(target: nat, activation: nat, cappedExpiry: nat)

  function SaturatingAdd(a: nat, b: nat): nat {
    if a + b <= U32_MAX then a + b else U32_MAX
  }

  function CapExpiryBelowNextActivation(network: AnyNetwork, target: nat, expiry: nat): Result<nat, ExpiryError> {
    if expiry == 0 then Success(expiry)
    else
      match NextActivation(network, target)
      case None => Success(expiry)
      case Some(activation) =>
        NextActivationIsLowestAhead(network, target);
        var capped := if expiry <= activation - 1 then expiry else activation - 1;
        if capped < SaturatingAdd(target, MIN_VALIDITY_BLOCKS)
        then Failure(ExpiryTooCloseToActivation(target, activation, capped))
        else Success(capped)
  }

  /**
   * Acceptance and value of the cap: never raised, and at least the minimal validity when an upgrade is ahead.
   * An expiry of 0 means none and stays so; a refusal names the target, the activation and the expiry left.
   */
  lemma CapIsExact(network: AnyNetwork, target: nat, expiry: nat)
    requires network.Valid() && target <= U32_MAX && expiry <= U32_MAX
    ensures var r := CapExpiryBelowNextActivation(network, target, expiry);
            match NextActivation(network, target)
            case None => r == Success(expiry)
            case Some(a) =>
              if expiry == 0 then r == Success(0)
              else if target + 8 <= expiry && target + 8 <= a - 1 then r == Success(if expiry < a then expiry else a - 1)
              else r == Failure(ExpiryTooCloseToActivation(target, a, if expiry < a then expiry else a - 1))
  {
    NextActivationIsLowestAhead(network, target);
  }

  ghost predicate SameUpgrades(network: AnyNetwork, g: nat, h: nat) {
    forall nu :: network.IsActive(nu, g) <==> network.IsActive(nu, h)
  }

  /** Every height the transaction can be mined at has the active upgrades, and so the branch id, of its target. */
  lemma OneBranchUntilExpiry(network: AnyNetwork, target: nat, expiry: nat, height: nat)
    requires expiry > 0
    requires CapExpiryBelowNextActivation(network, target, expiry).Success?
    requires target <= height <= CapExpiryBelowNextActivation(network, target, expiry).value
    ensures SameUpgrades(network, target, height)
    ensures BranchIdFor(network, height) == BranchIdFor(network, target)
  {
    NextActivationIsLowestAhead(network, target);
    forall nu
      ensures network.IsActive(nu, target) <==> network.IsActive(nu, height)
    {
      assert IsAhead(network, nu, target) || !IsAhead(network, nu, target);
    }
  }

  /** The cap gives nothing away: one block past a lowered expiry the set of active upgrades has changed. */
  lemma CapIsTight(network: AnyNetwork, target: nat, expiry: nat)
    requires expiry > 0
    requires CapExpiryBelowNextActivation(network, target, expiry).Success?
    requires CapExpiryBelowNextActivation(network, target, expiry).value != expiry
    ensures !SameUpgrades(network, target, CapExpiryBelowNextActivation(network, target, expiry).value + 1)
  {
    NextActivationIsLowestAhead(network, target);
    var a := NextActivation(network, target).value;
    var nu :| network.schedule(nu) == Some(a);
    assert network.IsActive(nu, a) && !network.IsActive(nu, target);
  }

  // ----- circuit generations -----

  datatype Circuit = FixedPostNu6_2 | PostNu6_3

  datatype Pool = Orchard | Ironwood

  /** Branches without an Orchard bundle fall back to the older generation. */
  function OrchardCircuitVersionFor(branch: BranchId): Circuit {
    match branch
    case BranchOf(Nu6_3) => PostNu6_3
    case BranchOf(Nu7) => PostNu6_3
    case _ => FixedPostNu6_2
  }

  /** The 32-bit branch id as a PCZT records it. */
  datatype BranchCodec = BranchCodec(encode: BranchId -> nat, decode: nat -> Option<BranchId>) {
    ghost predicate Valid() {
      forall b :: decode(encode(b)) == Some(b)
    }
  }

  /** `finalize_transaction`'s choice: an unrecognised id falls back to the older generation. */
  function VerifyingCircuitFor(codec: BranchCodec, consensusBranchId: nat): Circuit {
    match codec.decode(consensusBranchId)
    case Some(branch) => OrchardCircuitVersionFor(branch)
    case None => FixedPostNu6_2
  }

  /** The verifier uses the newer generation exactly for the ids of NU6.3 and NU7; any other id gets the older one. */
  lemma VerifierChoosesNewIff(codec: BranchCodec, id: nat)
    ensures VerifyingCircuitFor(codec, id) == PostNu6_3 <==>
              codec.decode(id) == Some(BranchOf(Nu6_3)) || codec.decode(id) == Some(BranchOf(Nu7))
  {
  }

  /** The builders' choice: the Orchard path follows the target's branch, the Ironwood path is fixed. */
  function ProvingCircuitFor(pool: Pool, network: AnyNetwork, target: nat): Circuit {
    match pool
    case Orchard => OrchardCircuitVersionFor(BranchIdFor(network, target))
    case Ironwood => PostNu6_3
  }

  /** The upgrade each builder requires to be active at its target. */
  function GateOf(pool: Pool): Upgrade {
    match pool
    case Orchard => Nu5
    case Ironwood => Nu6_3
  }

  /** The prover's and the verifier's circuits agree for a transaction built at `target`. */
  predicate CircuitsAgree(pool: Pool, network: AnyNetwork, target: nat, codec: BranchCodec) {
    ProvingCircuitFor(pool, network, target) == VerifyingCircuitFor(codec, codec.encode(BranchIdFor(network, target)))
  }

  /** Past the activation gate both sides choose the same generation, on any network and schedule. */
  lemma GatedBuildsVerify(pool: Pool, network: AnyNetwork, target: nat, codec: BranchCodec)
    requires codec.Valid() && network.IsActive(GateOf(pool), target)
    ensures CircuitsAgree(pool, network, target, codec)
  {
    assert codec.decode(codec.encode(BranchIdFor(network, target))) == Some(BranchIdFor(network, target));
  }

  /** The Ironwood gate is needed: its fixed key is right exactly from NU6.3 on. */
  lemma IronwoodAgreesIffUpgraded(network: AnyNetwork, target: nat, codec: BranchCodec)
    requires codec.Valid()
    ensures CircuitsAgree(Ironwood, network, target, codec) <==>
              network.IsActive(Nu6_3, target) || network.IsActive(Nu7, target)
  {
    assert codec.decode(codec.encode(BranchIdFor(network, target))) == Some(BranchIdFor(network, target));
  }

  /** Over the whole life of a capped transaction, consensus expects the circuit it was proved with. */
  lemma CircuitHoldsUntilExpiry(pool: Pool, network: AnyNetwork, target: nat, expiry: nat, height: nat)
    requires network.IsActive(GateOf(pool), target) && expiry > 0
    requires CapExpiryBelowNextActivation(network, target, expiry).Success?
    requires target <= height <= CapExpiryBelowNextActivation(network, target, expiry).value
    ensures OrchardCircuitVersionFor(BranchIdFor(network, height)) == ProvingCircuitFor(pool, network, target)
  {
    OneBranchUntilExpiry(network, target, expiry, height);
  }
}
