/** `parse_pczt`'s view of the transparent bundle: what a device is shown of a transaction the builders made. */
module ParsedPczt {
  import opened Wrappers
  import opened DerivationPath
  import opened Craft

  datatype ParsedDerivation = ParsedDerivation(pubkey: Pubkey, signingPath: string)

  datatype ParseError = TooManyDerivations(count: nat) | DerivationMissing

  lemma OnlyElement(s: set<Pubkey>) returns (pk: Pubkey)
    requires |s| == 1
    ensures s == {pk}
  {
    pk :| pk in s;
    assert |s - {pk}| == 0;
  }

  /** The one key of a map, which a device signs with. */
  function OnlyKey(derivations: map<Pubkey, seq<nat>>): (pk: Pubkey)
    requires |derivations| == 1
    ensures derivations.Keys == {pk}
  {
    assert exists pk :: pk in derivations.Keys && derivations.Keys == {pk} by {
      var pk := OnlyElement(derivations.Keys);
    }
    var pk :| pk in derivations.Keys && derivations.Keys == {pk};
    pk
  }

  /** No derivation, or the one there is with its path printed; a device cannot represent more. */
  function SingleDerivation(derivations: map<Pubkey, seq<nat>>): Result<Option<ParsedDerivation>, ParseError> {
    if |derivations| == 0 then Success(None)
    else if |derivations| == 1 then
      var pk := OnlyKey(derivations);
      Success(Some(ParsedDerivation(pk, FormatDerivationPath(derivations[pk]))))
    else Failure(TooManyDerivations(|derivations|))
  }

  function InputDerivation(input: PcztInput): Result<ParsedDerivation, ParseError> {
    match SingleDerivation(input.derivations)
    case Failure(e) => Failure(e)
    case Success(None) => Failure(DerivationMissing)
    case Success(Some(d)) => Success(d)
  }

  lemma SingletonIsRead(pk: Pubkey, path: seq<nat>)
    ensures SingleDerivation(map[pk := path]) == Success(Some(ParsedDerivation(pk, FormatDerivationPath(path))))
  {
    assert map[pk := path].Keys == {pk};
  }

  /** At most one derivation can be shown: none, the only one with its own key and path, or a refusal with their number. */
  lemma SingleDerivationIff(derivations: map<Pubkey, seq<nat>>)
    ensures SingleDerivation(derivations) == Success(None) <==> derivations == map[]
    ensures forall pk :: derivations == map[pk := (if pk in derivations then derivations[pk] else [])] ==>
              SingleDerivation(derivations) == Success(Some(ParsedDerivation(pk, FormatDerivationPath(derivations[pk]))))
    ensures |derivations| > 1 ==> SingleDerivation(derivations) == Failure(TooManyDerivations(|derivations|))
  {
    assert |derivations| == 0 ==> derivations == map[];
    forall pk | derivations == map[pk := (if pk in derivations then derivations[pk] else [])]
      ensures SingleDerivation(derivations) == Success(Some(ParsedDerivation(pk, FormatDerivationPath(derivations[pk]))))
    {
      SingletonIsRead(pk, derivations[pk]);
    }
  }

  lemma MissingDerivationIsNamed(input: PcztInput)
    ensures InputDerivation(input) == Failure(DerivationMissing) <==> input.derivations == map[]
  {
    SingleDerivationIff(input.derivations);
  }

  /** An input's derivation is read exactly when it is the only one, and then it is that one. */
  lemma InputIsReadIff(input: PcztInput, pk: Pubkey, path: seq<nat>)
    requires pk in input.derivations && input.derivations[pk] == path
    ensures InputDerivation(input).Success? <==> input.derivations == map[pk := path]
    ensures InputDerivation(input).Success? ==> InputDerivation(input).value == ParsedDerivation(pk, FormatDerivationPath(path))
  {
    if |input.derivations| == 1 {
      var only := OnlyKey(input.derivations);
      assert pk in input.derivations.Keys;
      assert input.derivations == map[pk := path];
    }
    SingletonIsRead(pk, path);
  }

  /** What the device must show and sign with for a derivation at the given scope and index. */
  predicate Shows(inputs: BuildInputs, d: ParsedDerivation, pk: Pubkey, scope: nat, addressIndex: nat) {
    d.pubkey == pk && ParseDerivationPath(d.signingPath) == Some(ExpectedPath(inputs, scope, addressIndex))
  }

  /** Every input of every successful build is accepted, and its printed path reads back to the path it was crafted for. */
  lemma BuiltInputsAreRead(inputs: BuildInputs, lib: Library, i: nat)
    requires Build(inputs, lib).Success? && i < |inputs.utxos|
    ensures |Build(inputs, lib).value.inputs| == |inputs.utxos|
    ensures var d := InputDerivation(Build(inputs, lib).value.inputs[i]);
            var utxo := inputs.utxos[i];
            d.Success? && Shows(inputs, d.value, utxo.pubkey, utxo.scope, utxo.addressIndex)
  {
    EachInputHasOneDerivation(inputs, lib, i);
    var utxo := inputs.utxos[i];
    SingletonIsRead(utxo.pubkey, ExpectedPath(inputs, utxo.scope, utxo.addressIndex));
  }

  /** Of the outputs, the device recognises the change and nothing else: every recipient is shown as external. */
  lemma BuiltOutputsAreRead(inputs: BuildInputs, lib: Library, i: nat)
    requires Build(inputs, lib).Success? && i < |Build(inputs, lib).value.outputs|
    ensures var b := Build(inputs, lib).value;
            var d := SingleDerivation(b.outputs[i].derivations);
            if i < |TransparentOutputs(inputs.outputs)| then d == Success(None)
            else
              && i == |b.outputs| - 1 && b.outputs[i].value == b.change && inputs.transparentChangePubkey.Some?
              && inputs.transparentChangeIndex.Some?
              && d.Success? && d.value.Some?
              && Shows(inputs, d.value.value, inputs.transparentChangePubkey.value, 1, inputs.transparentChangeIndex.value)
  {
    OnlyChangeOutputIsStamped(inputs, lib);
    var b := Build(inputs, lib).value;
    var n := |TransparentOutputs(inputs.outputs)|;
    if i >= n {
      assert b.outputs[i] == b.outputs[n..][i - n];
      SingletonIsRead(inputs.transparentChangePubkey.value, ExpectedPath(inputs, 1, inputs.transparentChangeIndex.value));
    }
  }
}
