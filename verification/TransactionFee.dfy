/**
 * `transaction_fee`: the fee of a finished transaction, recomputed from its own amounts and from previous-output
 * values the caller supplies by displayed transaction id. It agrees with the fee the builder was given.
 */
module TransactionFee {
  import opened Wrappers
  import opened Craft

  const HEX_DIGITS := "0123456789abcdef"

  /** Values of spent outputs, by displayed txid and output index. */
  type PrevoutValues = map<(string, nat), nat>

  /** What the fee depends on: outpoints spent, transparent amounts paid, and value leaving the shielded pool. */
  datatype Transaction = Transaction(inputs: seq<Outpoint>, outputs: seq<nat>, valueBalance: int)

  datatype FeeError = PrevoutOutOfRange | InputsOverflow | OutputsOverflow | BalanceOutOfRange

  // ----- the displayed txid -----

  function Hex(bytes: seq<Byte>): (text: string)
    ensures |text| == 2 * |bytes|
  {
    if bytes == [] then ""
    else [HEX_DIGITS[bytes[0] / 16], HEX_DIGITS[bytes[0] % 16]] + Hex(bytes[1..])
  }

  function Reversed(bytes: seq<Byte>): (r: seq<Byte>)
    ensures |r| == |bytes| && forall i :: 0 <= i < |bytes| ==> r[i] == bytes[|bytes| - 1 - i]
  {
    seq(|bytes|, i requires 0 <= i < |bytes| => bytes[|bytes| - 1 - i])
  }

  function DisplayTxid(txid: Txid): string {
    Hex(Reversed(txid))
  }

  lemma HexDigitsDiffer(m: nat, n: nat)
    requires m < 16 && n < 16 && HEX_DIGITS[m] == HEX_DIGITS[n]
    ensures m == n
  {
    var order := [48, 49, 50, 51, 52, 53, 54, 55, 56, 57, 97, 98, 99, 100, 101, 102];
    assert HEX_DIGITS[m] as int == order[m] && HEX_DIGITS[n] as int == order[n];
  }

  lemma {:induction false} HexIsInjective(a: seq<Byte>, b: seq<Byte>)
    requires |a| == |b| && Hex(a) == Hex(b)
    ensures a == b
  {
    if a != [] {
      var x, y := Hex(a), Hex(b);
      assert x[0] == HEX_DIGITS[a[0] / 16] && x[1] == HEX_DIGITS[a[0] % 16] && x[2..] == Hex(a[1..]);
      assert y[0] == HEX_DIGITS[b[0] / 16] && y[1] == HEX_DIGITS[b[0] % 16] && y[2..] == Hex(b[1..]);
      HexDigitsDiffer(a[0] / 16, b[0] / 16);
      HexDigitsDiffer(a[0] % 16, b[0] % 16);
      HexIsInjective(a[1..], b[1..]);
      assert a == [a[0]] + a[1..] && b == [b[0]] + b[1..];
    }
  }

  /** Two transactions are never shown under the same id, so no previous output is taken for another. */
  lemma DisplayTxidIsInjective(a: Txid, b: Txid)
    ensures DisplayTxid(a) == DisplayTxid(b) <==> a == b
  {
    if DisplayTxid(a) == DisplayTxid(b) {
      HexIsInjective(Reversed(a), Reversed(b));
      forall i | 0 <= i < 32 ensures a[i] == b[i] {
        assert Reversed(a)[31 - i] == Reversed(b)[31 - i];
      }
    }
  }

  /**
   * `text` shows a txid as explorers do: two lower-case hexadecimal digits a byte, high digit first, from the
   * last byte to the first.
   */
  predicate Shows(text: string, txid: Txid) {
    && |text| == 64
    && forall i :: 0 <= i < 32 ==>
         text[2 * i] == "0123456789abcdef"[txid[31 - i] / 16] && text[2 * i + 1] == "0123456789abcdef"[txid[31 - i] % 16]
  }

  lemma {:induction false} HexDigitsAt(bytes: seq<Byte>, i: nat)
    requires i < |bytes|
    ensures Hex(bytes)[2 * i] == "0123456789abcdef"[bytes[i] / 16]
    ensures Hex(bytes)[2 * i + 1] == "0123456789abcdef"[bytes[i] % 16]
    decreases i
  {
    if i > 0 {
      HexDigitsAt(bytes[1..], i - 1);
    }
  }

  /** The key is the one text that shows the txid. */
  lemma DisplayTxidShows(text: string, txid: Txid)
    ensures text == DisplayTxid(txid) <==> Shows(text, txid)
  {
    var display := DisplayTxid(txid);
    forall i | 0 <= i < 32
      ensures display[2 * i] == "0123456789abcdef"[txid[31 - i] / 16]
      ensures display[2 * i + 1] == "0123456789abcdef"[txid[31 - i] % 16]
    {
      HexDigitsAt(Reversed(txid), i);
    }
    if Shows(text, txid) {
      forall k | 0 <= k < 64
        ensures text[k] == display[k]
      {
        assert k == 2 * (k / 2) || k == 2 * (k / 2) + 1;
      }
    }
  }

  function KeyOf(outpoint: Outpoint): (string, nat) {
    (DisplayTxid(outpoint.txid), outpoint.vout)
  }

  // ----- the fee -----

  /** Inputs from the `i`-th on, added to a running total; an unknown value makes the sum unknown. */
  function SumPrevouts(inputs: seq<Outpoint>, prevouts: PrevoutValues, i: nat, total: nat): Result<Option<nat>, FeeError>
    decreases |inputs| - i
  {
    if i >= |inputs| then Success(Some(total))
    else if KeyOf(inputs[i]) !in prevouts then Success(None)
    else
      var value := prevouts[KeyOf(inputs[i])];
      if value > MAX_MONEY then Failure(PrevoutOutOfRange)
      else if total + value > MAX_MONEY then Failure(InputsOverflow)
      else SumPrevouts(inputs, prevouts, i + 1, total + value)
  }

  /** What remains once every pool is accounted for. */
  function FeePaid(tx: Transaction, prevouts: PrevoutValues): Result<Option<nat>, FeeError> {
    match SumPrevouts(tx.inputs, prevouts, 0, 0)
    case Failure(e) => Failure(e)
    case Success(None) => Success(None)
    case Success(Some(totalIn)) =>
      var totalOut := Sum(tx.outputs);
      if totalOut > MAX_MONEY then Failure(OutputsOverflow)
      else if tx.valueBalance + MAX_MONEY < 0 || tx.valueBalance > MAX_MONEY then Failure(BalanceOutOfRange)
      else
        var fee := totalIn - totalOut + tx.valueBalance;
        if fee < 0 || fee > MAX_MONEY then Failure(BalanceOutOfRange) else Success(Some(fee))
  }

  function Zeros(n: nat): (zeros: seq<nat>)
    ensures |zeros| == n
  {
    seq(n, _ => 0)
  }

  /** A built transaction as it is read back: the bundle is padded with dummy spends and outputs of value zero. */
  function ReadBack(b: Built, dummySpends: nat, dummyOutputs: nat): Transaction {
    Transaction(
      seq(|b.inputs|, i requires 0 <= i < |b.inputs| => b.inputs[i].outpoint),
      OutputValues(b.outputs),
      Sum(b.spends + Zeros(dummySpends)) - Sum(ShieldedValues(b.shieldedOutputs) + Zeros(dummyOutputs)))
  }

  /** Every value the caller supplies for an input, under the id explorers show, is its true value. */
  ghost predicate Truthful(utxos: seq<Utxo>, prevouts: PrevoutValues) {
    forall i, text :: 0 <= i < |utxos| && Shows(text, utxos[i].outpoint.txid) && (text, utxos[i].outpoint.vout) in prevouts ==>
      prevouts[(text, utxos[i].outpoint.vout)] == utxos[i].value
  }

  ghost predicate Supplied(utxos: seq<Utxo>, prevouts: PrevoutValues) {
    forall i, text :: 0 <= i < |utxos| && Shows(text, utxos[i].outpoint.txid) ==> (text, utxos[i].outpoint.vout) in prevouts
  }

  /** The two in terms of the keys that are looked up. */
  lemma ByKey(utxos: seq<Utxo>, prevouts: PrevoutValues)
    ensures Truthful(utxos, prevouts) <==>
              forall i :: 0 <= i < |utxos| && KeyOf(utxos[i].outpoint) in prevouts ==>
                prevouts[KeyOf(utxos[i].outpoint)] == utxos[i].value
    ensures Supplied(utxos, prevouts) <==> forall i :: 0 <= i < |utxos| ==> KeyOf(utxos[i].outpoint) in prevouts
  {
    forall i, text | 0 <= i < |utxos|
      ensures text == DisplayTxid(utxos[i].outpoint.txid) <==> Shows(text, utxos[i].outpoint.txid)
    {
      DisplayTxidShows(text, utxos[i].outpoint.txid);
    }
    forall i | 0 <= i < |utxos|
      ensures Shows(KeyOf(utxos[i].outpoint).0, utxos[i].outpoint.txid)
    {
    }
  }

  lemma {:induction false} ZerosAddNothing(values: seq<nat>, n: nat)
    ensures Sum(values + Zeros(n)) == Sum(values)
  {
    SumOfAppended(values, Zeros(n));
    SumOfZeros(n);
  }

  lemma {:induction false} SumOfZeros(n: nat)
    ensures Sum(Zeros(n)) == 0
  {
    if n > 0 {
      assert Zeros(n)[1..] == Zeros(n - 1);
      SumOfZeros(n - 1);
    }
  }

  function Outpoints(utxos: seq<Utxo>): (outpoints: seq<Outpoint>)
    ensures |outpoints| == |utxos| && forall i :: 0 <= i < |utxos| ==> outpoints[i] == utxos[i].outpoint
  {
    seq(|utxos|, i requires 0 <= i < |utxos| => utxos[i].outpoint)
  }

  /** The input total is right, or a value is missing, or an amount is out of range: never a wrong total. */
  lemma {:induction false} PrevoutsAreSummed(utxos: seq<Utxo>, prevouts: PrevoutValues, i: nat, total: nat)
    requires i <= |utxos| && Truthful(utxos, prevouts)
    ensures var r := SumPrevouts(Outpoints(utxos), prevouts, i, total);
            var all := total + Sum(InputValues(utxos[i..]));
            && (r.Success? && r.value.Some? ==> r.value.value == all && forall j :: i <= j < |utxos| ==> KeyOf(utxos[j].outpoint) in prevouts)
            && (all <= MAX_MONEY ==> r.Success?)
            && (r.Success? && r.value.Some? && total <= MAX_MONEY ==> all <= MAX_MONEY)
            && (r == Success(None) ==> !Supplied(utxos, prevouts))
    decreases |utxos| - i
  {
    ByKey(utxos, prevouts);
    if i < |utxos| && KeyOf(utxos[i].outpoint) in prevouts {
      var value := utxos[i].value;
      assert utxos[i..][1..] == utxos[i + 1..];
      assert Sum(InputValues(utxos[i..])) == value + Sum(InputValues(utxos[i + 1..])) by {
        assert InputValues(utxos[i..]) == [value] + InputValues(utxos[i + 1..]);
      }
      PrevoutsAreSummed(utxos, prevouts, i + 1, total + value);
    }
  }

  /** The amounts of a transaction leave a fee, out of no more than `worth` in its inputs and `spent` in notes. */
  ghost predicate Balances(tx: Transaction, worth: nat, spent: nat, fee: nat) {
    && worth - Sum(tx.outputs) + tx.valueBalance == fee
    && -(worth as int) <= tx.valueBalance <= spent
    && Sum(tx.outputs) <= spent + worth && fee <= spent + worth
  }

  /** Reading a build back gives the amounts the build conserves, whatever the padding. */
  lemma {:induction false} ReadBackBalances(inputs: BuildInputs, lib: Library, dummySpends: nat, dummyOutputs: nat)
    requires Build(inputs, lib).Success?
    ensures var tx := ReadBack(Build(inputs, lib).value, dummySpends, dummyOutputs);
            && tx.inputs == Outpoints(inputs.utxos)
            && Balances(tx, Sum(InputValues(inputs.utxos)), Sum(inputs.spends), inputs.fee)
  {
    BuildConservesValue(inputs, lib);
    var b := Build(inputs, lib).value;
    ZerosAddNothing(b.spends, dummySpends);
    ZerosAddNothing(ShieldedValues(b.shieldedOutputs), dummyOutputs);
  }

  predicate InRange(tx: Transaction, worth: nat) {
    && Sum(tx.outputs) <= MAX_MONEY
    && 0 <= tx.valueBalance + MAX_MONEY <= 2 * MAX_MONEY
    && 0 <= worth - Sum(tx.outputs) + tx.valueBalance <= MAX_MONEY
  }

  /** The fee of any transaction, from what its inputs are really worth. */
  lemma FeeOfAmounts(tx: Transaction, utxos: seq<Utxo>, prevouts: PrevoutValues)
    requires tx.inputs == Outpoints(utxos) && Truthful(utxos, prevouts)
    ensures var r := FeePaid(tx, prevouts);
            var worth := Sum(InputValues(utxos));
            && (r.Success? && r.value.Some? ==>
                  r.value.value == worth - Sum(tx.outputs) + tx.valueBalance && Supplied(utxos, prevouts))
            && (r == Success(None) ==> !Supplied(utxos, prevouts))
            && (r.Success? && r.value.Some? <==> Supplied(utxos, prevouts) && worth <= MAX_MONEY && InRange(tx, worth))
            && (worth <= MAX_MONEY && InRange(tx, worth) ==>
                  r == Success(if Supplied(utxos, prevouts) then Some(worth - Sum(tx.outputs) + tx.valueBalance) else None))
  {
    PrevoutsAreSummed(utxos, prevouts, 0, 0);
    ByKey(utxos, prevouts);
    assert utxos[0..] == utxos;
  }

  /** What a failed fee computation says about the amounts. */
  ghost predicate IsFeeCause(tx: Transaction, utxos: seq<Utxo>, e: FeeError) {
    match e
    case PrevoutOutOfRange => exists i :: 0 <= i < |utxos| && utxos[i].value > 2_100_000_000_000_000
    case InputsOverflow => Sum(InputValues(utxos)) > 2_100_000_000_000_000
    case OutputsOverflow => Sum(tx.outputs) > 2_100_000_000_000_000
    case BalanceOutOfRange => !InRange(tx, Sum(InputValues(utxos)))
  }

  lemma {:induction false} SumRefusal(utxos: seq<Utxo>, prevouts: PrevoutValues, i: nat, total: nat)
    requires i <= |utxos| && Truthful(utxos, prevouts)
    requires SumPrevouts(Outpoints(utxos), prevouts, i, total).Failure?
    ensures match SumPrevouts(Outpoints(utxos), prevouts, i, total).error
            case PrevoutOutOfRange => exists k :: 0 <= k < |utxos| && utxos[k].value > 2_100_000_000_000_000
            case InputsOverflow => total + Sum(InputValues(utxos[i..])) > 2_100_000_000_000_000
            case _ => false
    decreases |utxos| - i
  {
    ByKey(utxos, prevouts);
    var value := utxos[i].value;
    assert utxos[i..][1..] == utxos[i + 1..];
    assert InputValues(utxos[i..]) == [value] + InputValues(utxos[i + 1..]);
    if value <= MAX_MONEY && total + value <= MAX_MONEY {
      SumRefusal(utxos, prevouts, i + 1, total + value);
    }
  }

  /** A fee computation with truthful values fails only on amounts that really are out of range. */
  lemma FeeRefusalIsTrue(tx: Transaction, utxos: seq<Utxo>, prevouts: PrevoutValues)
    requires tx.inputs == Outpoints(utxos) && Truthful(utxos, prevouts) && FeePaid(tx, prevouts).Failure?
    ensures IsFeeCause(tx, utxos, FeePaid(tx, prevouts).error)
  {
    assert utxos[0..] == utxos;
    var total := SumPrevouts(tx.inputs, prevouts, 0, 0);
    if total.Failure? {
      SumRefusal(utxos, prevouts, 0, 0);
    } else {
      PrevoutsAreSummed(utxos, prevouts, 0, 0);
    }
  }

  lemma FeeFromBalances(tx: Transaction, utxos: seq<Utxo>, prevouts: PrevoutValues, spent: nat, fee: nat)
    requires tx.inputs == Outpoints(utxos) && Truthful(utxos, prevouts)
    requires Balances(tx, Sum(InputValues(utxos)), spent, fee) && spent + Sum(InputValues(utxos)) <= MAX_MONEY
    ensures FeePaid(tx, prevouts) == Success(if Supplied(utxos, prevouts) then Some(fee) else None)
  {
    FeeOfAmounts(tx, utxos, prevouts);
  }

  /**
   * A wrong fee is never reported: on any successful build, with truthful previous outputs, a reported fee is
   * the caller's own, and it is reported only when every previous output was supplied.
   */
  lemma {:induction false} ReportedFeeIsTheCallersFee(inputs: BuildInputs, lib: Library, prevouts: PrevoutValues, dummySpends: nat, dummyOutputs: nat)
    requires Build(inputs, lib).Success? && Truthful(inputs.utxos, prevouts)
    ensures var r := FeePaid(ReadBack(Build(inputs, lib).value, dummySpends, dummyOutputs), prevouts);
            && (r.Success? && r.value.Some? ==> r.value.value == inputs.fee && Supplied(inputs.utxos, prevouts))
            && (r == Success(None) ==> !Supplied(inputs.utxos, prevouts))
  {
    ReadBackBalances(inputs, lib, dummySpends, dummyOutputs);
    var tx := ReadBack(Build(inputs, lib).value, dummySpends, dummyOutputs);
    FeeOfAmounts(tx, inputs.utxos, prevouts);
  }

  /** Within the money supply the fee is found exactly when every previous output is supplied, else unknown. */
  lemma FeeIsFoundIffSupplied(inputs: BuildInputs, lib: Library, prevouts: PrevoutValues, dummySpends: nat, dummyOutputs: nat)
    requires Build(inputs, lib).Success? && Truthful(inputs.utxos, prevouts)
    requires Sum(inputs.spends) + Sum(InputValues(inputs.utxos)) <= MAX_MONEY
    ensures FeePaid(ReadBack(Build(inputs, lib).value, dummySpends, dummyOutputs), prevouts)
         == Success(if Supplied(inputs.utxos, prevouts) then Some(inputs.fee) else None)
  {
    ReadBackBalances(inputs, lib, dummySpends, dummyOutputs);
    var tx := ReadBack(Build(inputs, lib).value, dummySpends, dummyOutputs);
    FeeFromBalances(tx, inputs.utxos, prevouts, Sum(inputs.spends), inputs.fee);
  }

  // ----- previous outputs keyed by display id -----

  /** The map a caller builds from the outputs being spent, later entries replacing earlier ones. */
  function PrevoutsOf(utxos: seq<Utxo>): PrevoutValues
  {
    if utxos == [] then map[]
    else PrevoutsOf(utxos[..|utxos| - 1])[KeyOf(utxos[|utxos| - 1].outpoint) := utxos[|utxos| - 1].value]
  }

  lemma {:induction false} PrevoutsOfByKey(utxos: seq<Utxo>, i: nat)
    requires i < |utxos|
    requires forall j, k :: 0 <= j < k < |utxos| ==> utxos[j].outpoint != utxos[k].outpoint
    ensures KeyOf(utxos[i].outpoint) in PrevoutsOf(utxos)
    ensures PrevoutsOf(utxos)[KeyOf(utxos[i].outpoint)] == utxos[i].value
  {
    var n := |utxos| - 1;
    if i < n {
      assert utxos[..n][i] == utxos[i];
      PrevoutsOfByKey(utxos[..n], i);
      DisplayTxidIsInjective(utxos[i].outpoint.txid, utxos[n].outpoint.txid);
    }
  }

  /** As no output is spent twice and ids are shown apart, each entry of that map keeps its own value. */
  lemma PrevoutsOfAreTruthful(utxos: seq<Utxo>)
    requires forall i, j :: 0 <= i < j < |utxos| ==> utxos[i].outpoint != utxos[j].outpoint
    ensures Truthful(utxos, PrevoutsOf(utxos)) && Supplied(utxos, PrevoutsOf(utxos))
  {
    forall i | 0 <= i < |utxos|
      ensures KeyOf(utxos[i].outpoint) in PrevoutsOf(utxos)
      ensures PrevoutsOf(utxos)[KeyOf(utxos[i].outpoint)] == utxos[i].value
    {
      PrevoutsOfByKey(utxos, i);
    }
    ByKey(utxos, PrevoutsOf(utxos));
  }

  /**
   * Building and then asking for the fee gives back the caller's fee, for any map that holds the value of every
   * spent output under the id explorers show.
   */
  lemma FeeRoundTrip(inputs: BuildInputs, lib: Library, prevouts: PrevoutValues, dummySpends: nat, dummyOutputs: nat)
    requires Build(inputs, lib).Success? && Sum(inputs.spends) + Sum(InputValues(inputs.utxos)) <= MAX_MONEY
    requires forall i, text :: 0 <= i < |inputs.utxos| && Shows(text, inputs.utxos[i].outpoint.txid) ==>
               && (text, inputs.utxos[i].outpoint.vout) in prevouts
               && prevouts[(text, inputs.utxos[i].outpoint.vout)] == inputs.utxos[i].value
    ensures FeePaid(ReadBack(Build(inputs, lib).value, dummySpends, dummyOutputs), prevouts) == Success(Some(inputs.fee))
  {
    FeeIsFoundIffSupplied(inputs, lib, prevouts, dummySpends, dummyOutputs);
  }
}
