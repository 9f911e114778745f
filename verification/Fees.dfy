/**
 * The ZIP 317 fee of a layout, and the fees a builder accepts. The change is what the caller's fee leaves
 * over, and adding a change output alters the layout the same fee is then checked against.
 */
module Fees {
  import opened Wrappers
  import opened Network

  const LEGACY_MARGINAL_FEE: nat := 5_000
  const ZIP2009_MARGINAL_FEE: nat := 1_000
  const ZIP2009_MAINNET_HEIGHT: nat := 3_590_000
  const GRACE_ACTIONS: nat := 2
  /** A shielded bundle is padded to at least this many actions. */
  const MIN_ACTIONS: nat := 2

  function Max(a: nat, b: nat): nat {
    if a >= b then a else b
  }

  /** Counts of one shielded pool (Orchard or Ironwood) and of the transparent pool. */
  datatype Layout = Layout(spends: nat, shieldedOutputs: nat, inputs: nat, transparentOutputs: nat) {

    function ShieldedActions(): nat {
      if spends == 0 && shieldedOutputs == 0 then 0 else Max(MIN_ACTIONS, Max(spends, shieldedOutputs))
    }

    function LogicalActions(): nat {
      Max(inputs, transparentOutputs) + ShieldedActions()
    }

    /** Change goes back to the pool that funds it: shielded with shielded spends, transparent without. */
    function WithChange(): Layout {
      if spends > 0 then this.(shieldedOutputs := shieldedOutputs + 1)
      else this.(transparentOutputs := transparentOutputs + 1)
    }

    function PaidActions(): nat {
      Max(GRACE_ACTIONS, LogicalActions())
    }

    /** The fee formula, the same for both builders. */
    function Fee(marginal: nat): nat {
      marginal * PaidActions()
    }

    /** A shielded bundle of `k` actions has room for every spend and output; a bundle is never of one action. */
    predicate FitsBundle(k: nat) {
      spends <= k && shieldedOutputs <= k && k != 1
    }

    /** `n` actions pay for the layout: two grace ones, a bundle, and a transparent input and output on each of the rest. */
    ghost predicate PaysFor(n: nat) {
      n >= 2 && exists k: nat :: k <= n && FitsBundle(k) && inputs <= n - k && transparentOutputs <= n - k
    }

    function Final(change: nat): Layout {
      if change > 0 then WithChange() else this
    }
  }

  function StandardMarginalFee(kind: NetworkType, target: nat): nat {
    if kind == MainNet && target < ZIP2009_MAINNET_HEIGHT then LEGACY_MARGINAL_FEE else ZIP2009_MARGINAL_FEE
  }

  /** The marginal fee a fee was computed with: the standard one, or the legacy one where that is higher. */
  function CallerMarginalFee(kind: NetworkType, target: nat, fee: nat, layout: Layout): Option<nat> {
    var standard := StandardMarginalFee(kind, target);
    if fee == layout.Fee(standard) then Some(standard)
    else if standard != LEGACY_MARGINAL_FEE && fee == layout.Fee(LEGACY_MARGINAL_FEE) then Some(LEGACY_MARGINAL_FEE)
    else None
  }

  /** The fee pays for the fewest actions that hold everything in the layout. */
  lemma FeePaysForFewestActions(layout: Layout, marginal: nat, n: nat)
    ensures layout.PaysFor(layout.PaidActions()) && layout.Fee(marginal) == marginal * layout.PaidActions()
    ensures layout.PaysFor(n) ==> layout.PaidActions() <= n
  {
    assert layout.FitsBundle(layout.ShieldedActions());
  }

  // ----- one marginal fee -----

  /** Change derivation followed by validation at one marginal fee, for a surplus of inputs over outputs. */
  predicate Accepts(layout: Layout, surplus: int, marginal: nat, fee: nat) {
    surplus >= fee && fee == layout.Final(surplus - fee).Fee(marginal)
  }

  lemma ProductMonotone(m: nat, a: nat, b: nat)
    requires a <= b <= a + 1
    ensures m * a <= m * b <= m * a + m
  {
    assert b == a || b == a + 1;
    assert m * (a + 1) == m * a + m;
  }

  /** A change output never lowers the fee and costs at most one marginal fee. */
  lemma ChangeCostsAtMostOneAction(layout: Layout, marginal: nat)
    ensures layout.Fee(marginal) <= layout.WithChange().Fee(marginal) <= layout.Fee(marginal) + marginal
  {
    var a, b := layout.PaidActions(), layout.WithChange().PaidActions();
    assert a <= b <= a + 1;
    ProductMonotone(marginal, a, b);
  }

  /** A fee is accepted exactly when it spends the whole surplus without change, or leaves change and pays for it. */
  lemma AcceptsIff(layout: Layout, surplus: int, marginal: nat, fee: nat)
    ensures Accepts(layout, surplus, marginal, fee) <==>
              (fee == surplus == layout.Fee(marginal)) || (fee == layout.WithChange().Fee(marginal) && fee < surplus)
  {
  }

  /** At one marginal fee there is at most one acceptable fee, and none exactly in the gap between the two. */
  lemma AcceptedFeeIsUnique(layout: Layout, surplus: int, marginal: nat, f: nat, g: nat)
    requires Accepts(layout, surplus, marginal, f) && Accepts(layout, surplus, marginal, g)
    ensures f == g
  {
    ChangeCostsAtMostOneAction(layout, marginal);
  }

  lemma SomeFeeIsAcceptedIff(layout: Layout, surplus: int, marginal: nat)
    ensures (exists f :: Accepts(layout, surplus, marginal, f)) <==>
              surplus == layout.Fee(marginal) || surplus > layout.WithChange().Fee(marginal)
  {
    ChangeCostsAtMostOneAction(layout, marginal);
    if surplus == layout.Fee(marginal) {
      assert Accepts(layout, surplus, marginal, layout.Fee(marginal));
    } else if surplus > layout.WithChange().Fee(marginal) {
      assert Accepts(layout, surplus, marginal, layout.WithChange().Fee(marginal));
    }
  }

  // ----- both marginal fees -----

  /** What a builder accepts at a height: the standard fee and, once that is lower, also the legacy fee. */
  lemma CallerFeeAcceptedIff(kind: NetworkType, target: nat, layout: Layout, surplus: nat, fee: nat)
    requires fee <= surplus
    ensures CallerMarginalFee(kind, target, fee, layout.Final(surplus - fee)).Some? <==>
              || Accepts(layout, surplus, StandardMarginalFee(kind, target), fee)
              || (StandardMarginalFee(kind, target) < LEGACY_MARGINAL_FEE && Accepts(layout, surplus, LEGACY_MARGINAL_FEE, fee))
  {
  }

  /**
   * Before ZIP 2009 takes effect on the main network, at height 3,590,000, its fee of 1000 an action is refused;
   * elsewhere it is accepted. The legacy fee of 5000 an action always is.
   */
  lemma LowerFeeRefusedBeforeSwitch(kind: NetworkType, target: nat, layout: Layout)
    ensures CallerMarginalFee(kind, target, 1_000 * layout.PaidActions(), layout)
         == if kind == MainNet && target < 3_590_000 then None else Some(1_000)
    ensures CallerMarginalFee(kind, target, 5_000 * layout.PaidActions(), layout) == Some(5_000)
  {
    var n := layout.PaidActions();
    assert 1_000 * n < 5_000 * n;
  }
}
