/**
 * `build_transaction` and `build_ironwood_transaction`: one model for both, with the shielded pool as a
 * parameter. Inputs and outputs are totalled in 64-bit arithmetic, the change is what the caller's fee leaves
 * over, the fee is checked against the layout the change completes, and transparent derivations are stamped.
 */
module Craft {
  import opened Wrappers
  import opened Network
  import opened Lifecycle
  import opened Fees
  import opened DerivationPath

  const U64_MAX: nat := 0xFFFF_FFFF_FFFF_FFFF
  /** The largest amount the protocol's value type holds, in zatoshis. */
  const MAX_MONEY: nat := 2_100_000_000_000_000
  /** A longer script would need more than one length byte. */
  const MAX_SCRIPT: nat := 252
  const TRANSPARENT_INTERNAL_SCOPE: nat := 1

  type Pubkey(==, !new)
  type Address(==, !new)

  datatype Destination = ToShielded(address: Address) | ToTransparent(address: Address)

  datatype OutputRequest = OutputRequest(destination: Destination, value: nat)

  type Byte = b: nat | b < 256
  /** A transaction id in internal byte order. */
  type Txid = t: seq<Byte> | |t| == 32 witness seq(32, _ => 0)

  datatype Outpoint = Outpoint(txid: Txid, vout: nat)

  datatype Utxo = Utxo(pubkey: Pubkey, outpoint: Outpoint, scriptLength: nat, value: nat, scope: nat, addressIndex: nat)

  datatype Anchor = ZeroAnchor | MalformedAnchor | ValidAnchor

  datatype BuildInputs = BuildInputs(
    pool: Pool,
    network: AnyNetwork,
    target: nat,
    accountIndex: nat,
    hasFvk: bool,
    anchor: Anchor,
    changeAddress: Option<Address>,
    transparentChangeAddress: Option<Address>,
    transparentChangePubkey: Option<Pubkey>,
    transparentChangeIndex: Option<nat>,
    fee: nat,
    spends: seq<nat>,
    utxos: seq<Utxo>,
    outputs: seq<OutputRequest>)

  /** What the transaction library decides: which items it takes, its own fee, and the expiry it proposes. */
  datatype Library = Library(
    takesSpend: nat -> bool,
    takesInput: nat -> bool,
    takesOutput: nat -> bool,
    takesChange: bool,
    feeAt: nat -> Option<nat>,
    assembles: bool,
    defaultExpiry: nat)

  datatype CraftError =
    | UpgradeNotActive
    | NoInputs
    | NoOutputs
    | NoShieldedBundle
    | BadAnchor
    | FvkMissing
    | SpendRejected(index: nat)
    | InputRejected(index: nat)
    | OutputRejected(index: nat)
    | SpendOverflow
    | InputOverflow
    | OutputOverflow
    | OutflowOverflow
    | InsufficientFunds
    | ChangeDetailsMissing
    | ChangeRejected
    | FeeNotZip317
    | BuilderFeeMismatch
    | AssemblyFailed
    | ExpiryTooClose(reason: ExpiryError)
    | IndexOutOfRange

  // ----- step 1: totals -----

  /** Spends from the `i`-th on, added to a running total. */
  function AddSpends(lib: Library, spends: seq<nat>, i: nat, total: nat): Result<nat, CraftError>
    decreases |spends| - i
  {
    if i >= |spends| then Success(total)
    else if !lib.takesSpend(i) then Failure(SpendRejected(i))
    else if total + spends[i] > U64_MAX then Failure(SpendOverflow)
    else AddSpends(lib, spends, i + 1, total + spends[i])
  }

  predicate TakesInput(lib: Library, utxo: Utxo, i: nat) {
    lib.takesInput(i) && utxo.value <= MAX_MONEY && utxo.scriptLength <= MAX_SCRIPT
  }

  function AddInputs(lib: Library, utxos: seq<Utxo>, i: nat, total: nat): Result<nat, CraftError>
    decreases |utxos| - i
  {
    if i >= |utxos| then Success(total)
    else if !TakesInput(lib, utxos[i], i) then Failure(InputRejected(i))
    else if total + utxos[i].value > U64_MAX then Failure(InputOverflow)
    else AddInputs(lib, utxos, i + 1, total + utxos[i].value)
  }

  datatype OutputTotals = OutputTotals(value: nat, shielded: nat, transparent: nat) {
    function Plus(out: OutputRequest): OutputTotals {
      match out.destination
      case ToShielded(_) => OutputTotals(value + out.value, shielded + 1, transparent)
      case ToTransparent(_) => OutputTotals(value + out.value, shielded, transparent + 1)
    }
  }

  function AddOutputs(lib: Library, outputs: seq<OutputRequest>, i: nat, totals: OutputTotals)
    : Result<OutputTotals, CraftError>
    decreases |outputs| - i
  {
    if i >= |outputs| then Success(totals)
    else if !lib.takesOutput(i) || outputs[i].value > MAX_MONEY then Failure(OutputRejected(i))
    else if totals.value + outputs[i].value > U64_MAX then Failure(OutputOverflow)
    else AddOutputs(lib, outputs, i + 1, totals.Plus(outputs[i]))
  }

  // ----- step 2: change and fee -----

  /** Where the transparent change output sits and how it is derived. */
  datatype ChangeStamp = ChangeStamp(index: nat, pubkey: Pubkey, addressIndex: nat)

  datatype Plan = Plan(change: nat, layout: Layout, marginalFee: nat, stamp: Option<ChangeStamp>)

  /** Change goes to the pool that funds it; a transparent one needs its address, pubkey and index. */
  function RouteChange(inputs: BuildInputs, lib: Library, change: nat, transparentBefore: nat)
    : Result<Option<ChangeStamp>, CraftError>
  {
    if change == 0 then Success(None)
    else if inputs.spends != [] then
      if inputs.changeAddress == None then Failure(ChangeDetailsMissing)
      else if change > MAX_MONEY || !lib.takesChange then Failure(ChangeRejected)
      else Success(None)
    else if inputs.transparentChangeAddress == None || inputs.transparentChangePubkey == None
            || inputs.transparentChangeIndex == None then Failure(ChangeDetailsMissing)
    else if change > MAX_MONEY || !lib.takesChange then Failure(ChangeRejected)
    else
      Success(Some(ChangeStamp(transparentBefore, inputs.transparentChangePubkey.value, inputs.transparentChangeIndex.value)))
  }

  function PlanFee(inputs: BuildInputs, lib: Library, totalIn: nat, totals: OutputTotals): Result<Plan, CraftError> {
    if totals.value + inputs.fee > U64_MAX then Failure(OutflowOverflow)
    else if totalIn < totals.value + inputs.fee then Failure(InsufficientFunds)
    else
      var change := totalIn - (totals.value + inputs.fee);
      match RouteChange(inputs, lib, change, totals.transparent)
      case Failure(e) => Failure(e)
      case Success(stamp) =>
        var layout := Layout(|inputs.spends|, totals.shielded, |inputs.utxos|, totals.transparent).Final(change);
        match CallerMarginalFee(inputs.network.kind, inputs.target, inputs.fee, layout)
        case None => Failure(FeeNotZip317)
        case Some(marginal) =>
          if lib.feeAt(marginal) != Some(inputs.fee) then Failure(BuilderFeeMismatch)
          else Success(Plan(change, layout, marginal, stamp))
  }

  // ----- step 3: the PCZT -----

  /** Derivations by pubkey, as child indices. */
  datatype PcztInput = PcztInput(outpoint: Outpoint, value: nat, derivations: map<Pubkey, seq<nat>>)
  datatype PcztOutput = PcztOutput(address: Address, value: nat, derivations: map<Pubkey, seq<nat>>)

  /** A shielded output as it is handed to the library, which may reorder the actions of a bundle. */
  datatype ShieldedOutput = ShieldedOutput(address: Address, value: nat)

  datatype Built = Built(
    fee: nat,
    change: nat,
    spends: seq<nat>,
    shieldedOutputs: seq<ShieldedOutput>,
    inputs: seq<PcztInput>,
    outputs: seq<PcztOutput>,
    branch: BranchId,
    circuit: Circuit,
    expiry: nat)

  function ShieldedOutputs(outputs: seq<OutputRequest>): seq<ShieldedOutput> {
    if outputs == [] then []
    else
      (if outputs[0].destination.ToShielded? then [ShieldedOutput(outputs[0].destination.address, outputs[0].value)]
       else []) + ShieldedOutputs(outputs[1..])
  }

  function TransparentOutputs(outputs: seq<OutputRequest>): seq<PcztOutput> {
    if outputs == [] then []
    else
      (if outputs[0].destination.ToTransparent? then [PcztOutput(outputs[0].destination.address, outputs[0].value, map[])]
       else []) + TransparentOutputs(outputs[1..])
  }

  /** The library appends outputs in insertion order, the change last, all without derivations. */
  function Assemble(inputs: BuildInputs, plan: Plan, expiry: nat): Built {
    var shieldedChange := plan.change > 0 && plan.stamp == None && inputs.changeAddress.Some?;
    var transparentChange := plan.stamp.Some? && inputs.transparentChangeAddress.Some?;
    Built(
      inputs.fee,
      plan.change,
      inputs.spends,
      ShieldedOutputs(inputs.outputs)
        + (if shieldedChange then [ShieldedOutput(inputs.changeAddress.value, plan.change)] else []),
      seq(|inputs.utxos|, i requires 0 <= i < |inputs.utxos| => PcztInput(inputs.utxos[i].outpoint, inputs.utxos[i].value, map[])),
      TransparentOutputs(inputs.outputs)
        + (if transparentChange then [PcztOutput(inputs.transparentChangeAddress.value, plan.change, map[])] else []),
      BranchIdFor(inputs.network, inputs.target),
      ProvingCircuitFor(inputs.pool, inputs.network, inputs.target),
      expiry)
  }

  /** Regtest deliberately uses the main network's coin type. */
  function StampedCoinType(kind: NetworkType): nat {
    if kind == TestNet then 1 else 133
  }

  /** `m/44'/coin'/account'/scope/index`; the account must fit a hardened index, the last two a non-hardened one. */
  function Bip44Path(coinType: nat, account: nat, scope: nat, addressIndex: nat): Result<seq<nat>, CraftError> {
    if account >= HARDENED_OFFSET || scope >= HARDENED_OFFSET || addressIndex >= HARDENED_OFFSET
    then Failure(IndexOutOfRange)
    else Success([HARDENED_OFFSET + 44, HARDENED_OFFSET + coinType, HARDENED_OFFSET + account, scope, addressIndex])
  }

  function InputPath(inputs: BuildInputs, i: nat): Result<seq<nat>, CraftError>
    requires i < |inputs.utxos|
  {
    Bip44Path(StampedCoinType(inputs.network.kind), inputs.accountIndex, inputs.utxos[i].scope, inputs.utxos[i].addressIndex)
  }

  function ChangePath(inputs: BuildInputs, stamp: ChangeStamp): Result<seq<nat>, CraftError> {
    Bip44Path(StampedCoinType(inputs.network.kind), inputs.accountIndex, TRANSPARENT_INTERNAL_SCOPE, stamp.addressIndex)
  }

  function InputPaths(inputs: BuildInputs, i: nat): (paths: Result<seq<seq<nat>>, CraftError>)
    ensures i <= |inputs.utxos| && paths.Success? ==> |paths.value| == |inputs.utxos| - i
    decreases |inputs.utxos| - i
  {
    if i >= |inputs.utxos| then Success([])
    else
      match InputPath(inputs, i)
      case Failure(e) => Failure(e)
      case Success(path) =>
        match InputPaths(inputs, i + 1)
        case Failure(e) => Failure(e)
        case Success(rest) => Success([path] + rest)
  }

  /** All paths are computed before anything is stamped; then each input, and the change output by its index. */
  function StampedInputs(utxos: seq<Utxo>, paths: seq<seq<nat>>, entries: seq<PcztInput>): seq<PcztInput>
    requires |utxos| == |paths| == |entries|
  {
    seq(|entries|, i requires 0 <= i < |entries| =>
      entries[i].(derivations := entries[i].derivations[utxos[i].pubkey := paths[i]]))
  }

  function Stamp(inputs: BuildInputs, stamp: Option<ChangeStamp>, built: Built): Result<Built, CraftError>
    requires |built.inputs| == |inputs.utxos| && (stamp.Some? ==> stamp.value.index < |built.outputs|)
  {
    match InputPaths(inputs, 0)
    case Failure(e) => Failure(e)
    case Success(paths) =>
      var stamped := StampedInputs(inputs.utxos, paths, built.inputs);
      match stamp
      case None => Success(built.(inputs := stamped))
      case Some(change) =>
        match ChangePath(inputs, change)
        case Failure(e) => Failure(e)
        case Success(path) =>
          var out := built.outputs[change.index];
          Success(built.(inputs := stamped,
                         outputs := built.outputs[change.index := out.(derivations := out.derivations[change.pubkey := path])]))
  }

  predicate HasShielded(inputs: BuildInputs) {
    inputs.spends != [] || exists i :: 0 <= i < |inputs.outputs| && inputs.outputs[i].destination.ToShielded?
  }

  /** The checks before anything is added. */
  function Precheck(inputs: BuildInputs): Option<CraftError> {
    if !inputs.network.IsActive(GateOf(inputs.pool), inputs.target) then Some(UpgradeNotActive)
    else if inputs.spends == [] && inputs.utxos == [] then Some(NoInputs)
    else if inputs.outputs == [] then Some(NoOutputs)
    else if inputs.pool == Ironwood && !HasShielded(inputs) then Some(NoShieldedBundle)
    else if HasShielded(inputs) && inputs.anchor != ValidAnchor then Some(BadAnchor)
    else if inputs.spends != [] && !inputs.hasFvk then Some(FvkMissing)
    else None
  }

  lemma StampFits(inputs: BuildInputs, lib: Library, totals: OutputTotals, plan: Plan, expiry: nat)
    requires AddOutputs(lib, inputs.outputs, 0, OutputTotals(0, 0, 0)) == Success(totals)
    requires plan.stamp.Some? ==> plan.stamp.value.index == totals.transparent && inputs.transparentChangeAddress.Some?
    ensures plan.stamp.Some? ==> plan.stamp.value.index < |Assemble(inputs, plan, expiry).outputs|
  {
    OutputsAreCounted(lib, inputs.outputs, 0, OutputTotals(0, 0, 0));
    assert inputs.outputs[0..] == inputs.outputs;
  }

  function Build(inputs: BuildInputs, lib: Library): Result<Built, CraftError> {
    match Precheck(inputs)
    case Some(e) => Failure(e)
    case None =>
      match AddSpends(lib, inputs.spends, 0, 0)
      case Failure(e) => Failure(e)
      case Success(spent) =>
        match AddInputs(lib, inputs.utxos, 0, spent)
        case Failure(e) => Failure(e)
        case Success(totalIn) =>
          match AddOutputs(lib, inputs.outputs, 0, OutputTotals(0, 0, 0))
          case Failure(e) => Failure(e)
          case Success(totals) =>
            match PlanFee(inputs, lib, totalIn, totals)
            case Failure(e) => Failure(e)
            case Success(plan) =>
              if !lib.assembles then Failure(AssemblyFailed)
              else
                match CapExpiryBelowNextActivation(inputs.network, inputs.target, lib.defaultExpiry)
                case Failure(e) => Failure(ExpiryTooClose(e))
                case Success(expiry) =>
                  if HasShielded(inputs) && inputs.accountIndex >= HARDENED_OFFSET then Failure(IndexOutOfRange)
                  else
                    StampFits(inputs, lib, totals, plan, expiry);
                    Stamp(inputs, plan.stamp, Assemble(inputs, plan, expiry))
  }

  // ----- the loops of both builders -----

  method SumSpends(lib: Library, spends: seq<nat>) returns (r: Result<nat, CraftError>)
    ensures r == AddSpends(lib, spends, 0, 0)
  {
    var total: nat := 0;
    var i := 0;
    while i < |spends|
      invariant 0 <= i <= |spends|
      invariant AddSpends(lib, spends, 0, 0) == AddSpends(lib, spends, i, total)
    {
      if !lib.takesSpend(i) {
        return Failure(SpendRejected(i));
      }
      if total + spends[i] > U64_MAX {
        return Failure(SpendOverflow);
      }
      total := total + spends[i];
      i := i + 1;
    }
    return Success(total);
  }

  method SumInputs(lib: Library, utxos: seq<Utxo>, spent: nat) returns (r: Result<nat, CraftError>)
    ensures r == AddInputs(lib, utxos, 0, spent)
  {
    var total: nat := spent;
    var i := 0;
    while i < |utxos|
      invariant 0 <= i <= |utxos|
      invariant AddInputs(lib, utxos, 0, spent) == AddInputs(lib, utxos, i, total)
    {
      if !TakesInput(lib, utxos[i], i) {
        return Failure(InputRejected(i));
      }
      if total + utxos[i].value > U64_MAX {
        return Failure(InputOverflow);
      }
      total := total + utxos[i].value;
      i := i + 1;
    }
    return Success(total);
  }

  method SumOutputs(lib: Library, outputs: seq<OutputRequest>) returns (r: Result<OutputTotals, CraftError>)
    ensures r == AddOutputs(lib, outputs, 0, OutputTotals(0, 0, 0))
  {
    var value: nat, shielded: nat, transparent: nat := 0, 0, 0;
    var i := 0;
    while i < |outputs|
      invariant 0 <= i <= |outputs|
      invariant AddOutputs(lib, outputs, 0, OutputTotals(0, 0, 0))
             == AddOutputs(lib, outputs, i, OutputTotals(value, shielded, transparent))
    {
      if !lib.takesOutput(i) || outputs[i].value > MAX_MONEY {
        return Failure(OutputRejected(i));
      }
      if value + outputs[i].value > U64_MAX {
        return Failure(OutputOverflow);
      }
      match outputs[i].destination {
        case ToShielded(_) => shielded := shielded + 1;
        case ToTransparent(_) => transparent := transparent + 1;
      }
      value := value + outputs[i].value;
      i := i + 1;
    }
    return Success(OutputTotals(value, shielded, transparent));
  }

  /** Stamping updates the bundle entry by entry. */
  method StampTransparentDerivations(inputs: BuildInputs, stamp: Option<ChangeStamp>, built: Built)
      returns (r: Result<Built, CraftError>)
    requires |built.inputs| == |inputs.utxos| && (stamp.Some? ==> stamp.value.index < |built.outputs|)
    ensures r == Stamp(inputs, stamp, built)
  {
    var paths :- InputPaths(inputs, 0);
    var changePath := [];
    if stamp.Some? {
      changePath :- ChangePath(inputs, stamp.value);
    }
    var entries := built.inputs;
    var i := 0;
    while i < |entries|
      invariant 0 <= i <= |entries| == |built.inputs|
      invariant forall j :: 0 <= j < i ==>
                  entries[j] == built.inputs[j].(derivations := built.inputs[j].derivations[inputs.utxos[j].pubkey := paths[j]])
      invariant forall j :: i <= j < |entries| ==> entries[j] == built.inputs[j]
    {
      entries := entries[i := entries[i].(derivations := entries[i].derivations[inputs.utxos[i].pubkey := paths[i]])];
      i := i + 1;
    }
    assert entries == StampedInputs(inputs.utxos, paths, built.inputs);
    var outputs := built.outputs;
    if stamp.Some? {
      var out := outputs[stamp.value.index];
      outputs := outputs[stamp.value.index := out.(derivations := out.derivations[stamp.value.pubkey := changePath])];
    }
    return Success(built.(inputs := entries, outputs := outputs));
  }

  method BuildTransaction(inputs: BuildInputs, lib: Library) returns (r: Result<Built, CraftError>)
    ensures r == Build(inputs, lib)
  {
    var refused := Precheck(inputs);
    if refused.Some? {
      return Failure(refused.value);
    }
    var spent :- SumSpends(lib, inputs.spends);
    var totalIn :- SumInputs(lib, inputs.utxos, spent);
    var totals :- SumOutputs(lib, inputs.outputs);
    var plan :- PlanFee(inputs, lib, totalIn, totals);
    if !lib.assembles {
      return Failure(AssemblyFailed);
    }
    var expiry := CapExpiryBelowNextActivation(inputs.network, inputs.target, lib.defaultExpiry);
    if expiry.Failure? {
      return Failure(ExpiryTooClose(expiry.error));
    }
    if HasShielded(inputs) && inputs.accountIndex >= HARDENED_OFFSET {
      return Failure(IndexOutOfRange);
    }
    StampFits(inputs, lib, totals, plan, expiry.value);
    r := StampTransparentDerivations(inputs, plan.stamp, Assemble(inputs, plan, expiry.value));
  }

  // ----- counting and summing -----

  function Sum(values: seq<nat>): nat {
    if values == [] then 0 else values[0] + Sum(values[1..])
  }

  function OutputValues(outputs: seq<PcztOutput>): (values: seq<nat>)
    ensures |values| == |outputs| && forall i :: 0 <= i < |values| ==> values[i] == outputs[i].value
  {
    if outputs == [] then [] else [outputs[0].value] + OutputValues(outputs[1..])
  }

  function ShieldedValues(outputs: seq<ShieldedOutput>): (values: seq<nat>)
    ensures |values| == |outputs| && forall i :: 0 <= i < |values| ==> values[i] == outputs[i].value
  {
    seq(|outputs|, i requires 0 <= i < |outputs| => outputs[i].value)
  }

  function InputValues(utxos: seq<Utxo>): (values: seq<nat>)
    ensures |values| == |utxos|
  {
    if utxos == [] then [] else [utxos[0].value] + InputValues(utxos[1..])
  }

  function RequestedTotal(outputs: seq<OutputRequest>): nat {
    if outputs == [] then 0 else outputs[0].value + RequestedTotal(outputs[1..])
  }

  lemma {:induction false} OutputsAreCounted(lib: Library, outputs: seq<OutputRequest>, i: nat, totals: OutputTotals)
    requires i <= |outputs| && AddOutputs(lib, outputs, i, totals).Success?
    ensures var r := AddOutputs(lib, outputs, i, totals).value;
            && r.value == totals.value + RequestedTotal(outputs[i..])
            && r.shielded == totals.shielded + |ShieldedOutputs(outputs[i..])|
            && r.transparent == totals.transparent + |TransparentOutputs(outputs[i..])|
    decreases |outputs| - i
  {
    if i < |outputs| {
      OutputsAreCounted(lib, outputs, i + 1, totals.Plus(outputs[i]));
      assert outputs[i..][1..] == outputs[i + 1..];
    }
  }

  lemma {:induction false} SpendsAreSummed(lib: Library, spends: seq<nat>, i: nat, total: nat)
    requires i <= |spends| && total <= U64_MAX && AddSpends(lib, spends, i, total).Success?
    ensures AddSpends(lib, spends, i, total).value == total + Sum(spends[i..]) <= U64_MAX
    decreases |spends| - i
  {
    if i < |spends| {
      SpendsAreSummed(lib, spends, i + 1, total + spends[i]);
      assert spends[i..][1..] == spends[i + 1..];
    }
  }

  lemma {:induction false} InputsAreSummed(lib: Library, utxos: seq<Utxo>, i: nat, total: nat)
    requires i <= |utxos| && total <= U64_MAX && AddInputs(lib, utxos, i, total).Success?
    ensures AddInputs(lib, utxos, i, total).value == total + Sum(InputValues(utxos[i..])) <= U64_MAX
    decreases |utxos| - i
  {
    if i < |utxos| {
      InputsAreSummed(lib, utxos, i + 1, total + utxos[i].value);
      assert utxos[i..][1..] == utxos[i + 1..];
      assert InputValues(utxos[i..])[1..] == InputValues(utxos[i + 1..]);
    }
  }

  lemma {:induction false} SumOfAppended(a: seq<nat>, b: seq<nat>)
    ensures Sum(a + b) == Sum(a) + Sum(b)
  {
    if a == [] {
      assert a + b == b;
    } else {
      SumOfAppended(a[1..], b);
      assert (a + b)[1..] == a[1..] + b;
    }
  }

  /** The two pools together carry every requested output. */
  lemma {:induction false} RequestedOutputsSplit(outputs: seq<OutputRequest>)
    ensures RequestedTotal(outputs)
         == Sum(ShieldedValues(ShieldedOutputs(outputs))) + Sum(OutputValues(TransparentOutputs(outputs)))
  {
    if outputs != [] {
      var rest := outputs[1..];
      RequestedOutputsSplit(rest);
      if outputs[0].destination.ToShielded? {
        var out := ShieldedOutput(outputs[0].destination.address, outputs[0].value);
        assert ShieldedValues([out] + ShieldedOutputs(rest)) == [out.value] + ShieldedValues(ShieldedOutputs(rest));
        SumOfAppended([out.value], ShieldedValues(ShieldedOutputs(rest)));
        assert TransparentOutputs(outputs) == TransparentOutputs(rest);
      } else {
        var out := PcztOutput(outputs[0].destination.address, outputs[0].value, map[]);
        assert OutputValues([out] + TransparentOutputs(rest)) == [out.value] + OutputValues(TransparentOutputs(rest));
        SumOfAppended([out.value], OutputValues(TransparentOutputs(rest)));
        assert ShieldedOutputs(outputs) == ShieldedOutputs(rest);
      }
    }
  }

  // ----- what a successful build guarantees -----

  /** Transparent requests among the first `j`. */
  function TransparentBefore(outputs: seq<OutputRequest>, j: nat): (t: nat)
    requires j <= |outputs|
    ensures t <= j
  {
    if j == 0 then 0
    else (if outputs[0].destination.ToTransparent? then 1 else 0) + TransparentBefore(outputs[1..], j - 1)
  }

  /** Everything the caller supplied, before change: counts of the requested layout and the surplus over it. */
  function RequestedLayout(inputs: BuildInputs): Layout {
    var transparent := TransparentBefore(inputs.outputs, |inputs.outputs|);
    Layout(|inputs.spends|, |inputs.outputs| - transparent, |inputs.utxos|, transparent)
  }

  function Surplus(inputs: BuildInputs): int {
    Sum(inputs.spends) + Sum(InputValues(inputs.utxos)) - RequestedTotal(inputs.outputs)
  }

  /** The stages of a successful build. */
  lemma {:induction false} BuildStages(inputs: BuildInputs, lib: Library) returns (totalIn: nat, totals: OutputTotals, plan: Plan, expiry: nat)
    requires Build(inputs, lib).Success?
    ensures totalIn == Sum(inputs.spends) + Sum(InputValues(inputs.utxos)) <= U64_MAX
    ensures totals == OutputTotals(RequestedTotal(inputs.outputs), |ShieldedOutputs(inputs.outputs)|,
                                   |TransparentOutputs(inputs.outputs)|)
    ensures Precheck(inputs) == None
    ensures PlanFee(inputs, lib, totalIn, totals) == Success(plan)
    ensures CapExpiryBelowNextActivation(inputs.network, inputs.target, lib.defaultExpiry) == Success(expiry)
    ensures plan.stamp.Some? ==> plan.stamp.value.index < |Assemble(inputs, plan, expiry).outputs|
    ensures Build(inputs, lib) == Stamp(inputs, plan.stamp, Assemble(inputs, plan, expiry))
  {
    SpendsAreSummed(lib, inputs.spends, 0, 0);
    assert inputs.spends[0..] == inputs.spends;
    var spent := AddSpends(lib, inputs.spends, 0, 0).value;
    InputsAreSummed(lib, inputs.utxos, 0, spent);
    assert inputs.utxos[0..] == inputs.utxos;
    totalIn := AddInputs(lib, inputs.utxos, 0, spent).value;
    OutputsAreCounted(lib, inputs.outputs, 0, OutputTotals(0, 0, 0));
    assert inputs.outputs[0..] == inputs.outputs;
    totals := AddOutputs(lib, inputs.outputs, 0, OutputTotals(0, 0, 0)).value;
    plan := PlanFee(inputs, lib, totalIn, totals).value;
    expiry := CapExpiryBelowNextActivation(inputs.network, inputs.target, lib.defaultExpiry).value;
    StampFits(inputs, lib, totals, plan, expiry);
  }

  /** Stamping leaves every amount alone. */
  lemma StampKeepsAmounts(inputs: BuildInputs, stamp: Option<ChangeStamp>, built: Built)
    requires |built.inputs| == |inputs.utxos| && (stamp.Some? ==> stamp.value.index < |built.outputs|)
    requires Stamp(inputs, stamp, built).Success?
    ensures var r := Stamp(inputs, stamp, built).value;
            && r == built.(inputs := r.inputs, outputs := r.outputs)
            && OutputValues(r.outputs) == OutputValues(built.outputs)
            && |r.inputs| == |built.inputs|
            && forall i :: 0 <= i < |r.inputs| ==>
                 r.inputs[i].value == built.inputs[i].value && r.inputs[i].outpoint == built.inputs[i].outpoint
  {
    var r := Stamp(inputs, stamp, built).value;
    assert |r.outputs| == |built.outputs|;
    assert OutputValues(r.outputs) == OutputValues(built.outputs);
  }

  /** What the plan of a successful build says about change. */
  lemma PlanIsRouted(inputs: BuildInputs, lib: Library, totalIn: nat, totals: OutputTotals)
    requires PlanFee(inputs, lib, totalIn, totals).Success?
    ensures var plan := PlanFee(inputs, lib, totalIn, totals).value;
            && totalIn == totals.value + plan.change + inputs.fee
            && (plan.stamp.Some? <==> plan.change > 0 && inputs.spends == [])
            && (plan.change > 0 && inputs.spends != [] ==> inputs.changeAddress.Some?)
            && (plan.stamp.Some? ==>
                  && inputs.transparentChangeAddress.Some? && inputs.transparentChangePubkey.Some?
                  && inputs.transparentChangeIndex.Some?
                  && plan.stamp.value == ChangeStamp(totals.transparent, inputs.transparentChangePubkey.value,
                                                     inputs.transparentChangeIndex.value))
  {
  }

  lemma AssembledAmounts(inputs: BuildInputs, plan: Plan, expiry: nat)
    requires plan.stamp.Some? ==> plan.change > 0 && inputs.transparentChangeAddress.Some?
    requires plan.stamp == None && plan.change > 0 ==> inputs.changeAddress.Some?
    ensures var b := Assemble(inputs, plan, expiry);
            Sum(ShieldedValues(b.shieldedOutputs)) + Sum(OutputValues(b.outputs)) == RequestedTotal(inputs.outputs) + plan.change
  {
    RequestedOutputsSplit(inputs.outputs);
    var shielded, requested := ShieldedOutputs(inputs.outputs), TransparentOutputs(inputs.outputs);
    assert Sum([plan.change]) == plan.change;
    assert shielded + [] == shielded && requested + [] == requested;
    if plan.stamp.Some? {
      var change := PcztOutput(inputs.transparentChangeAddress.value, plan.change, map[]);
      assert OutputValues(requested + [change]) == OutputValues(requested) + [plan.change];
      SumOfAppended(OutputValues(requested), [plan.change]);
    } else if plan.change > 0 {
      var change := ShieldedOutput(inputs.changeAddress.value, plan.change);
      assert ShieldedValues(shielded + [change]) == ShieldedValues(shielded) + [plan.change];
      SumOfAppended(ShieldedValues(shielded), [plan.change]);
    }
  }

  /**
   * Every successful build conserves value, for either pool and without wrap-around: what is spent is what was
   * requested, the change and the fee; and the outputs of the transaction carry the requests and the change.
   */
  lemma {:induction false} BuildConservesValue(inputs: BuildInputs, lib: Library)
    requires Build(inputs, lib).Success?
    ensures var b := Build(inputs, lib).value;
            && b.fee == inputs.fee && b.spends == inputs.spends
            && Sum(b.spends) + Sum(InputValues(inputs.utxos)) == RequestedTotal(inputs.outputs) + b.change + b.fee <= U64_MAX
            && Sum(ShieldedValues(b.shieldedOutputs)) + Sum(OutputValues(b.outputs)) == RequestedTotal(inputs.outputs) + b.change
            && |b.inputs| == |inputs.utxos|
            && forall i :: 0 <= i < |b.inputs| ==>
                 b.inputs[i].value == inputs.utxos[i].value && b.inputs[i].outpoint == inputs.utxos[i].outpoint
  {
    var totalIn, totals, plan, expiry := BuildStages(inputs, lib);
    PlanIsRouted(inputs, lib, totalIn, totals);
    StampKeepsAmounts(inputs, plan.stamp, Assemble(inputs, plan, expiry));
    AssembledAmounts(inputs, plan, expiry);
  }

  // ----- derivations -----

  lemma {:induction false} PathsByIndex(inputs: BuildInputs, from: nat, i: nat)
    requires from <= i < |inputs.utxos| && InputPaths(inputs, from).Success?
    ensures InputPath(inputs, i) == Success(InputPaths(inputs, from).value[i - from])
    decreases |inputs.utxos| - from
  {
    if from < i {
      PathsByIndex(inputs, from + 1, i);
    }
  }

  /** The path an input or the change output is signed with: purpose 44, and coin 133 on the main network and regtest. */
  function ExpectedPath(inputs: BuildInputs, scope: nat, addressIndex: nat): seq<nat> {
    [0x8000_0000 + 44, 0x8000_0000 + (if inputs.network.kind == TestNet then 1 else 133), 0x8000_0000 + inputs.accountIndex,
     scope, addressIndex]
  }

  /** The printed form reads back to the same hardened and non-hardened indices. */
  predicate PathIsReadable(path: seq<nat>) {
    (forall i :: i in path ==> IsChildIndex(i)) && ParseDerivationPath(FormatDerivationPath(path)) == Some(path)
  }

  lemma StampedPathIsReadable(inputs: BuildInputs, scope: nat, addressIndex: nat)
    requires Bip44Path(StampedCoinType(inputs.network.kind), inputs.accountIndex, scope, addressIndex).Success?
    ensures Bip44Path(StampedCoinType(inputs.network.kind), inputs.accountIndex, scope, addressIndex).value
         == ExpectedPath(inputs, scope, addressIndex)
    ensures PathIsReadable(ExpectedPath(inputs, scope, addressIndex))
  {
    PathParsesBack(ExpectedPath(inputs, scope, addressIndex));
  }

  lemma StampedInputAt(inputs: BuildInputs, stamp: Option<ChangeStamp>, built: Built, i: nat)
    requires |built.inputs| == |inputs.utxos| && (stamp.Some? ==> stamp.value.index < |built.outputs|)
    requires i < |inputs.utxos| && Stamp(inputs, stamp, built).Success? && built.inputs[i].derivations == map[]
    ensures InputPath(inputs, i).Success?
    ensures Stamp(inputs, stamp, built).value.inputs[i].derivations == map[inputs.utxos[i].pubkey := InputPath(inputs, i).value]
  {
    PathsByIndex(inputs, 0, i);
  }

  /** Each transparent input carries exactly one derivation: its own pubkey at its own path. */
  lemma EachInputHasOneDerivation(inputs: BuildInputs, lib: Library, i: nat)
    requires Build(inputs, lib).Success? && i < |inputs.utxos|
    ensures var b := Build(inputs, lib).value;
            var utxo := inputs.utxos[i];
            && |b.inputs| == |inputs.utxos|
            && b.inputs[i].derivations == map[utxo.pubkey := ExpectedPath(inputs, utxo.scope, utxo.addressIndex)]
    ensures PathIsReadable(ExpectedPath(inputs, inputs.utxos[i].scope, inputs.utxos[i].addressIndex))
  {
    var totalIn, totals, plan, expiry := BuildStages(inputs, lib);
    StampKeepsAmounts(inputs, plan.stamp, Assemble(inputs, plan, expiry));
    StampedInputAt(inputs, plan.stamp, Assemble(inputs, plan, expiry), i);
    StampedPathIsReadable(inputs, inputs.utxos[i].scope, inputs.utxos[i].addressIndex);
  }

  lemma StampedOutputs(inputs: BuildInputs, plan: Plan, built: Built)
    requires plan.stamp.Some? ==> plan.change > 0 && inputs.transparentChangeAddress.Some?
    requires |built.inputs| == |inputs.utxos|
    requires var requested := TransparentOutputs(inputs.outputs);
             && (plan.stamp == None ==> built.outputs == requested)
             && (plan.stamp.Some? ==>
                   && plan.stamp.value.index == |requested|
                   && built.outputs == requested + [PcztOutput(inputs.transparentChangeAddress.value, plan.change, map[])])
    requires Stamp(inputs, plan.stamp, built).Success?
    ensures var r := Stamp(inputs, plan.stamp, built).value;
            var requested := TransparentOutputs(inputs.outputs);
            if plan.stamp == None then r.outputs == requested
            else
              && ChangePath(inputs, plan.stamp.value).Success?
              && r.outputs == requested + [PcztOutput(inputs.transparentChangeAddress.value, plan.change,
                                             map[plan.stamp.value.pubkey := ChangePath(inputs, plan.stamp.value).value])]
  {
  }

  lemma {:induction false} RequestedOutputsAreUnstamped(outputs: seq<OutputRequest>, i: nat)
    requires i < |TransparentOutputs(outputs)|
    ensures TransparentOutputs(outputs)[i].derivations == map[]
  {
    if outputs[0].destination.ToTransparent? {
      if i > 0 {
        RequestedOutputsAreUnstamped(outputs[1..], i - 1);
      }
    } else {
      RequestedOutputsAreUnstamped(outputs[1..], i);
    }
  }

  /**
   * A transparent change output exists exactly when change is left and nothing shielded is spent. It is the
   * last transparent output, holds the change, and is the only output stamped, at the internal scope.
   */
  lemma OnlyChangeOutputIsStamped(inputs: BuildInputs, lib: Library)
    requires Build(inputs, lib).Success?
    ensures var b := Build(inputs, lib).value;
            var requested := TransparentOutputs(inputs.outputs);
            var n := |requested|;
            && n <= |b.outputs| && b.outputs[..n] == requested
            && (forall i :: 0 <= i < n ==> b.outputs[i].derivations == map[])
            && (if b.change > 0 && inputs.spends == [] then
                  && inputs.transparentChangeAddress.Some? && inputs.transparentChangePubkey.Some? && inputs.transparentChangeIndex.Some?
                  && b.outputs[n..] == [PcztOutput(inputs.transparentChangeAddress.value, b.change,
                                          map[inputs.transparentChangePubkey.value :=
                                                ExpectedPath(inputs, 1, inputs.transparentChangeIndex.value)])]
                  && PathIsReadable(ExpectedPath(inputs, 1, inputs.transparentChangeIndex.value))
                else |b.outputs| == n)
  {
    var totalIn, totals, plan, expiry := BuildStages(inputs, lib);
    PlanIsRouted(inputs, lib, totalIn, totals);
    var built := Assemble(inputs, plan, expiry);
    var requested := TransparentOutputs(inputs.outputs);
    assert requested + [] == requested;
    StampKeepsAmounts(inputs, plan.stamp, built);
    StampedOutputs(inputs, plan, built);
    forall i | 0 <= i < |requested|
      ensures requested[i].derivations == map[]
    {
      RequestedOutputsAreUnstamped(inputs.outputs, i);
    }
    if plan.stamp.Some? {
      StampedPathIsReadable(inputs, 1, inputs.transparentChangeIndex.value);
    }
  }

  /** The built transaction keeps to one branch until it expires, and is proved with that branch's circuit. */
  lemma BuildKeepsToItsBranch(inputs: BuildInputs, lib: Library, height: nat)
    requires Build(inputs, lib).Success? && lib.defaultExpiry > 0
    requires inputs.target <= height <= Build(inputs, lib).value.expiry
    ensures Build(inputs, lib).value.expiry <= lib.defaultExpiry
    ensures BranchIdFor(inputs.network, height) == Build(inputs, lib).value.branch
    ensures OrchardCircuitVersionFor(BranchIdFor(inputs.network, height)) == Build(inputs, lib).value.circuit
  {
    var totalIn, totals, plan, expiry := BuildStages(inputs, lib);
    StampKeepsAmounts(inputs, plan.stamp, Assemble(inputs, plan, expiry));
    OneBranchUntilExpiry(inputs.network, inputs.target, lib.defaultExpiry, height);
    CircuitHoldsUntilExpiry(inputs.pool, inputs.network, inputs.target, lib.defaultExpiry, height);
  }
}
