/**
 * Device signatures meet the actions of a PCZT by position: the signer of `testing.rs` produces one per
 * unsigned action, `finalize_transaction` injects one per unsigned action, each checked against the action's
 * own key.
 */
module Signing {
  import opened Wrappers
  import opened Der

  type VerificationKey(==, !new)
  type SpendAuthSig(==, !new)
  type Pubkey(==, !new)
  type PubkeyHash(==, !new)

  /** The primitives behind the signer. `sign` gives no signature when the key does not authorise the action. */
  datatype Crypto = Crypto(
    verify: (VerificationKey, SpendAuthSig) -> bool,
    sign: (VerificationKey, nat) -> Option<SpendAuthSig>,
    hash160: Pubkey -> PubkeyHash,
    ecdsaVerify: (nat, Pubkey, Signature) -> bool)
  {
    ghost predicate SignsValidly() {
      forall rk, i :: sign(rk, i).Some? ==> verify(rk, sign(rk, i).value)
    }
  }

  datatype Action = Action(rk: VerificationKey, spendAuthSig: Option<SpendAuthSig>)

  /** `derivationKeys` are the pubkeys recorded when crafting; the script commits only to a hash. */
  datatype TransparentInput = TransparentInput(
    derivationKeys: seq<Pubkey>,
    scriptHash: PubkeyHash,
    preimages: map<PubkeyHash, Pubkey>,
    partialSignature: Option<Signature>)

  datatype Pczt = Pczt(orchard: seq<Action>, ironwood: seq<Action>, inputs: seq<TransparentInput>)

  datatype SigningError =
    | OrchardCount(got: nat, expected: nat)
    | IronwoodCount(got: nat, expected: nat)
    | TransparentCount(got: nat, expected: nat)
    | NoDerivation(input: nat)
    | OrchardSignatureRejected(action: nat)
    | IronwoodSignatureRejected(action: nat)
    | BadDer(error: DerError)
    | TransparentSignatureRejected(input: nat)
    | SigningFailed(action: nat)

  // ----- unsigned actions -----

  predicate IsUnsigned(actions: seq<Action>, i: nat) {
    i < |actions| && actions[i].spendAuthSig == None
  }

  predicate Ascending(indices: seq<nat>) {
    forall j, k :: 0 <= j < k < |indices| ==> indices[j] < indices[k]
  }

  predicate InBounds(indices: seq<nat>, n: nat) {
    forall k :: 0 <= k < |indices| ==> indices[k] < n
  }

  /** Indices of the actions without a signature from `from` on, ascending. */
  function Unsigned(actions: seq<Action>, from: nat): (indices: seq<nat>)
    ensures forall k :: 0 <= k < |indices| ==> from <= indices[k] && IsUnsigned(actions, indices[k])
    ensures forall i: nat :: from <= i && IsUnsigned(actions, i) ==> i in indices
    ensures Ascending(indices)
    decreases |actions| - from
  {
    if from >= |actions| then []
    else if actions[from].spendAuthSig == None then [from] + Unsigned(actions, from + 1)
    else Unsigned(actions, from + 1)
  }

  // ----- injecting signatures -----

  /** Applies the signatures from the `k`-th on; a rejected one ends it with its action's index. */
  function ApplySigs(c: Crypto, actions: seq<Action>, indices: seq<nat>, sigs: seq<SpendAuthSig>, k: nat)
    : Result<seq<Action>, nat>
    requires |indices| == |sigs| && InBounds(indices, |actions|)
    decreases |indices| - k
  {
    if k >= |indices| then Success(actions)
    else
      var i := indices[k];
      if !c.verify(actions[i].rk, sigs[k]) then Failure(i)
      else ApplySigs(c, actions[i := actions[i].(spendAuthSig := Some(sigs[k]))], indices, sigs, k + 1)
  }

  function Stamped(c: Crypto, input: TransparentInput, keys: seq<Pubkey>): TransparentInput
    decreases |keys|
  {
    if keys == [] then input
    else Stamped(c, input.(preimages := input.preimages[c.hash160(keys[0]) := keys[0]]), keys[1..])
  }

  function FirstWithoutDerivation(inputs: seq<TransparentInput>, from: nat): Option<nat>
    decreases |inputs| - from
  {
    if from >= |inputs| then None
    else if inputs[from].derivationKeys == [] then Some(from)
    else FirstWithoutDerivation(inputs, from + 1)
  }

  /** Every input learns the preimages its derivation keys give; an input without any fails the whole call first. */
  function StampPreimages(c: Crypto, inputs: seq<TransparentInput>): Result<seq<TransparentInput>, SigningError> {
    match FirstWithoutDerivation(inputs, 0)
    case Some(i) => Failure(NoDerivation(i))
    case None =>
      Success(seq(|inputs|, i requires 0 <= i < |inputs| => Stamped(c, inputs[i], inputs[i].derivationKeys)))
  }

  /** The signature must verify under the pubkey whose hash the script commits to. */
  predicate Accepts(c: Crypto, i: nat, input: TransparentInput, sig: Signature) {
    input.scriptHash in input.preimages && c.ecdsaVerify(i, input.preimages[input.scriptHash], sig)
  }

  function AppendSigs(c: Crypto, inputs: seq<TransparentInput>, ders: seq<seq<Byte>>, from: nat)
    : Result<seq<TransparentInput>, SigningError>
    requires |ders| == |inputs|
    decreases |inputs| - from
  {
    if from >= |inputs| then Success(inputs)
    else
      match ParsedDer(ders[from])
      case Failure(e) => Failure(BadDer(e))
      case Success(sig) =>
        if !Accepts(c, from, inputs[from], sig) then Failure(TransparentSignatureRejected(from))
        else AppendSigs(c, inputs[from := inputs[from].(partialSignature := Some(sig))], ders, from + 1)
  }

  /** The signed PCZT that goes on to extraction. */
  function Finalized(c: Crypto, pczt: Pczt, orchardSigs: seq<SpendAuthSig>, ironwoodSigs: seq<SpendAuthSig>,
                     ders: seq<seq<Byte>>): Result<Pczt, SigningError>
  {
    var unsigned, unsignedIronwood := Unsigned(pczt.orchard, 0), Unsigned(pczt.ironwood, 0);
    if |orchardSigs| != |unsigned| then Failure(OrchardCount(|orchardSigs|, |unsigned|))
    else if |ironwoodSigs| != |unsignedIronwood| then Failure(IronwoodCount(|ironwoodSigs|, |unsignedIronwood|))
    else if |ders| != |pczt.inputs| then Failure(TransparentCount(|ders|, |pczt.inputs|))
    else
      match StampPreimages(c, pczt.inputs)
      case Failure(e) => Failure(e)
      case Success(inputs) =>
        match ApplySigs(c, pczt.orchard, unsigned, orchardSigs, 0)
        case Failure(i) => Failure(OrchardSignatureRejected(i))
        case Success(orchard) =>
          match ApplySigs(c, pczt.ironwood, unsignedIronwood, ironwoodSigs, 0)
          case Failure(i) => Failure(IronwoodSignatureRejected(i))
          case Success(ironwood) =>
            match AppendSigs(c, inputs, ders, 0)
            case Failure(e) => Failure(e)
            case Success(signed) => Success(Pczt(orchard, ironwood, signed))
  }

  /** The signer role: it owns the PCZT while signatures are added. */
  class Signer {
    var orchard: seq<Action>
    var ironwood: seq<Action>
    var inputs: seq<TransparentInput>

    constructor (pczt: Pczt)
      ensures orchard == pczt.orchard && ironwood == pczt.ironwood && inputs == pczt.inputs
    {
      orchard := pczt.orchard;
      ironwood := pczt.ironwood;
      inputs := pczt.inputs;
    }

    method ApplyOrchardSignature(c: Crypto, i: nat, sig: SpendAuthSig) returns (ok: bool)
      requires i < |orchard|
      modifies this`orchard
      ensures ok == c.verify(old(orchard)[i].rk, sig)
      ensures orchard == if ok then old(orchard)[i := old(orchard)[i].(spendAuthSig := Some(sig))] else old(orchard)
    {
      ok := c.verify(orchard[i].rk, sig);
      if ok {
        orchard := orchard[i := orchard[i].(spendAuthSig := Some(sig))];
      }
    }

    method ApplyIronwoodSignature(c: Crypto, i: nat, sig: SpendAuthSig) returns (ok: bool)
      requires i < |ironwood|
      modifies this`ironwood
      ensures ok == c.verify(old(ironwood)[i].rk, sig)
      ensures ironwood == if ok then old(ironwood)[i := old(ironwood)[i].(spendAuthSig := Some(sig))] else old(ironwood)
    {
      ok := c.verify(ironwood[i].rk, sig);
      if ok {
        ironwood := ironwood[i := ironwood[i].(spendAuthSig := Some(sig))];
      }
    }

    method AppendTransparentSignature(c: Crypto, i: nat, sig: Signature) returns (ok: bool)
      requires i < |inputs|
      modifies this`inputs
      ensures ok == Accepts(c, i, old(inputs)[i], sig)
      ensures inputs == if ok then old(inputs)[i := old(inputs)[i].(partialSignature := Some(sig))] else old(inputs)
    {
      ok := Accepts(c, i, inputs[i], sig);
      if ok {
        inputs := inputs[i := inputs[i].(partialSignature := Some(sig))];
      }
    }

    /** Step 3: one device signature per unsigned Orchard action, in order. */
    method InjectOrchard(c: Crypto, indices: seq<nat>, sigs: seq<SpendAuthSig>) returns (rejected: Option<nat>)
      requires |indices| == |sigs| && InBounds(indices, |orchard|)
      modifies this`orchard
      ensures match ApplySigs(c, old(orchard), indices, sigs, 0)
              case Failure(i) => rejected == Some(i)
              case Success(actions) => rejected == None && orchard == actions
    {
      var k := 0;
      while k < |indices|
        invariant 0 <= k <= |indices| && |orchard| == |old(orchard)|
        invariant ApplySigs(c, old(orchard), indices, sigs, 0) == ApplySigs(c, orchard, indices, sigs, k)
      {
        var ok := ApplyOrchardSignature(c, indices[k], sigs[k]);
        if !ok {
          return Some(indices[k]);
        }
        k := k + 1;
      }
      return None;
    }

    /** Step 3b: the same for the Ironwood bundle. */
    method InjectIronwood(c: Crypto, indices: seq<nat>, sigs: seq<SpendAuthSig>) returns (rejected: Option<nat>)
      requires |indices| == |sigs| && InBounds(indices, |ironwood|)
      modifies this`ironwood
      ensures match ApplySigs(c, old(ironwood), indices, sigs, 0)
              case Failure(i) => rejected == Some(i)
              case Success(actions) => rejected == None && ironwood == actions
    {
      var k := 0;
      while k < |indices|
        invariant 0 <= k <= |indices| && |ironwood| == |old(ironwood)|
        invariant ApplySigs(c, old(ironwood), indices, sigs, 0) == ApplySigs(c, ironwood, indices, sigs, k)
      {
        var ok := ApplyIronwoodSignature(c, indices[k], sigs[k]);
        if !ok {
          return Some(indices[k]);
        }
        k := k + 1;
      }
      return None;
    }

    /** Step 4: one DER signature per transparent input, in order. */
    method InjectTransparent(c: Crypto, ders: seq<seq<Byte>>) returns (failed: Option<SigningError>)
      requires |ders| == |inputs|
      modifies this`inputs
      ensures match AppendSigs(c, old(inputs), ders, 0)
              case Failure(e) => failed == Some(e)
              case Success(signed) => failed == None && inputs == signed
    {
      var k := 0;
      while k < |inputs|
        invariant 0 <= k <= |inputs| == |ders|
        invariant AppendSigs(c, old(inputs), ders, 0) == AppendSigs(c, inputs, ders, k)
        decreases |ders| - k
      {
        var sig := ParseTransparentDer(ders[k]);
        if sig.Failure? {
          return Some(BadDer(sig.error));
        }
        var ok := AppendTransparentSignature(c, k, sig.value);
        if !ok {
          return Some(TransparentSignatureRejected(k));
        }
        k := k + 1;
      }
      return None;
    }
  }

  method FinalizeTransaction(c: Crypto, pczt: Pczt, orchardSigs: seq<SpendAuthSig>, ironwoodSigs: seq<SpendAuthSig>,
                             ders: seq<seq<Byte>>) returns (r: Result<Pczt, SigningError>)
    ensures r == Finalized(c, pczt, orchardSigs, ironwoodSigs, ders)
  {
    var unsigned, unsignedIronwood := Unsigned(pczt.orchard, 0), Unsigned(pczt.ironwood, 0);
    if |orchardSigs| != |unsigned| {
      return Failure(OrchardCount(|orchardSigs|, |unsigned|));
    }
    if |ironwoodSigs| != |unsignedIronwood| {
      return Failure(IronwoodCount(|ironwoodSigs|, |unsignedIronwood|));
    }
    if |ders| != |pczt.inputs| {
      return Failure(TransparentCount(|ders|, |pczt.inputs|));
    }
    var stamped :- StampPreimages(c, pczt.inputs);
    var signer := new Signer(pczt.(inputs := stamped));
    var rejected := signer.InjectOrchard(c, unsigned, orchardSigs);
    if rejected.Some? {
      return Failure(OrchardSignatureRejected(rejected.value));
    }
    rejected := signer.InjectIronwood(c, unsignedIronwood, ironwoodSigs);
    if rejected.Some? {
      return Failure(IronwoodSignatureRejected(rejected.value));
    }
    var failed := signer.InjectTransparent(c, ders);
    if failed.Some? {
      return Failure(failed.value);
    }
    return Success(Pczt(signer.orchard, signer.ironwood, signer.inputs));
  }

  // ----- the signer whose output is injected -----

  /** Every unsigned action holds the signature its key gives. */
  ghost predicate SignedInPlace(c: Crypto, actions: seq<Action>, indices: seq<nat>, signed: seq<Action>, n: nat)
    requires InBounds(indices, |actions|) && n <= |indices|
  {
    && |signed| == |actions|
    && (forall i :: 0 <= i < |actions| ==> signed[i].rk == actions[i].rk)
    && forall j :: 0 <= j < n ==>
         signed[indices[j]].spendAuthSig == c.sign(actions[indices[j]].rk, indices[j]) != None
  }

  method SignInPlace(c: Crypto, actions: seq<Action>, indices: seq<nat>) returns (r: Result<seq<Action>, SigningError>)
    requires InBounds(indices, |actions|) && Ascending(indices)
    ensures r.Success? ==> SignedInPlace(c, actions, indices, r.value, |indices|)
    ensures r.Failure? ==>
              exists k :: 0 <= k < |indices| && r.error == SigningFailed(indices[k])
                && c.sign(actions[indices[k]].rk, indices[k]) == None
  {
    var signed := actions;
    var k := 0;
    while k < |indices|
      invariant 0 <= k <= |indices| && SignedInPlace(c, actions, indices, signed, k)
    {
      var i := indices[k];
      var sig := c.sign(signed[i].rk, i);
      if sig == None {
        assert c.sign(actions[indices[k]].rk, indices[k]) == None;
        return Failure(SigningFailed(i));
      }
      signed := signed[i := signed[i].(spendAuthSig := sig)];
      k := k + 1;
    }
    return Success(signed);
  }

  /** Signs every unsigned action in place, then reads the signatures back in the same order. */
  method SignActions(c: Crypto, actions: seq<Action>) returns (r: Result<seq<SpendAuthSig>, SigningError>)
    ensures r.Success? ==> SignerOutput(c, actions, r.value)
    ensures r.Failure? ==>
              exists i: nat :: IsUnsigned(actions, i) && r.error == SigningFailed(i) && c.sign(actions[i].rk, i) == None
  {
    var indices := Unsigned(actions, 0);
    var signed :- SignInPlace(c, actions, indices);
    var sigs: seq<SpendAuthSig> := [];
    var k := 0;
    while k < |indices|
      invariant 0 <= k <= |indices| && |sigs| == k
      invariant forall j :: 0 <= j < k ==> c.sign(actions[indices[j]].rk, indices[j]) == Some(sigs[j])
    {
      sigs := sigs + [signed[indices[k]].spendAuthSig.value];
      k := k + 1;
    }
    return Success(sigs);
  }

  // ----- what injection does -----

  /** The first `n` signatures on their own actions, nothing else touched. */
  ghost predicate Injected(before: seq<Action>, indices: seq<nat>, sigs: seq<SpendAuthSig>, after: seq<Action>, n: nat)
    requires |indices| == |sigs| && InBounds(indices, |before|) && n <= |indices|
  {
    && |after| == |before|
    && (forall k :: 0 <= k < n ==> after[indices[k]] == before[indices[k]].(spendAuthSig := Some(sigs[k])))
    && (forall i :: 0 <= i < |before| && i !in indices[..n] ==> after[i] == before[i])
  }

  /** Signature `k` verifies under the key of the k-th unsigned action. */
  predicate Fits(c: Crypto, actions: seq<Action>, indices: seq<nat>, sigs: seq<SpendAuthSig>, k: nat)
    requires |indices| == |sigs| && InBounds(indices, |actions|)
  {
    k < |indices| && c.verify(actions[indices[k]].rk, sigs[k])
  }

  ghost predicate AllFit(c: Crypto, actions: seq<Action>, indices: seq<nat>, sigs: seq<SpendAuthSig>, n: nat)
    requires |indices| == |sigs| && InBounds(indices, |actions|)
  {
    forall k: nat :: k < n ==> Fits(c, actions, indices, sigs, k)
  }

  lemma InjectOne(before: seq<Action>, indices: seq<nat>, sigs: seq<SpendAuthSig>, now: seq<Action>, n: nat)
    requires |indices| == |sigs| && InBounds(indices, |before|) && Ascending(indices) && n < |indices|
    requires Injected(before, indices, sigs, now, n)
    ensures now[indices[n]] == before[indices[n]]
    ensures Injected(before, indices, sigs, now[indices[n] := now[indices[n]].(spendAuthSig := Some(sigs[n]))], n + 1)
  {
    var i := indices[n];
    assert i !in indices[..n];
    assert indices[..n + 1] == indices[..n] + [i];
  }

  lemma {:induction false} ApplySigsFrom(c: Crypto, before: seq<Action>, now: seq<Action>, indices: seq<nat>,
                                         sigs: seq<SpendAuthSig>, n: nat)
    requires |indices| == |sigs| && InBounds(indices, |before|) && Ascending(indices) && n <= |indices|
    requires Injected(before, indices, sigs, now, n) && AllFit(c, before, indices, sigs, n)
    ensures match ApplySigs(c, now, indices, sigs, n)
            case Success(after) =>
              AllFit(c, before, indices, sigs, |indices|) && Injected(before, indices, sigs, after, |indices|)
            case Failure(i) =>
              exists k: nat :: k < |indices| && indices[k] == i && !Fits(c, before, indices, sigs, k)
                && AllFit(c, before, indices, sigs, k)
    decreases |indices| - n
  {
    if n < |indices| {
      var i := indices[n];
      InjectOne(before, indices, sigs, now, n);
      if c.verify(now[i].rk, sigs[n]) {
        assert Fits(c, before, indices, sigs, n);
        ApplySigsFrom(c, before, now[i := now[i].(spendAuthSig := Some(sigs[n]))], indices, sigs, n + 1);
      } else {
        assert !Fits(c, before, indices, sigs, n);
      }
    }
  }

  /**
   * Injection succeeds exactly when every signature verifies under its own action's key; then each action
   * holds its signature and the rest are unchanged. Otherwise the first misfit is named.
   */
  lemma ApplySigsIff(c: Crypto, actions: seq<Action>, indices: seq<nat>, sigs: seq<SpendAuthSig>)
    requires |indices| == |sigs| && InBounds(indices, |actions|) && Ascending(indices)
    ensures ApplySigs(c, actions, indices, sigs, 0).Success? <==> AllFit(c, actions, indices, sigs, |indices|)
    ensures match ApplySigs(c, actions, indices, sigs, 0)
            case Success(after) => Injected(actions, indices, sigs, after, |indices|)
            case Failure(i) =>
              exists k: nat :: k < |indices| && indices[k] == i && !Fits(c, actions, indices, sigs, k)
                && AllFit(c, actions, indices, sigs, k)
  {
    ApplySigsFrom(c, actions, actions, indices, sigs, 0);
  }

  /** Input `i` has a decodable signature that verifies under the pubkey its script commits to. */
  predicate TransparentFits(c: Crypto, inputs: seq<TransparentInput>, ders: seq<seq<Byte>>, i: nat)
    requires |inputs| == |ders|
  {
    i < |ders| && ParsedDer(ders[i]).Success? && Accepts(c, i, inputs[i], ParsedDer(ders[i]).value)
  }

  ghost predicate AllTransparentFit(c: Crypto, inputs: seq<TransparentInput>, ders: seq<seq<Byte>>, n: nat)
    requires |inputs| == |ders|
  {
    forall i: nat :: i < n ==> TransparentFits(c, inputs, ders, i)
  }

  predicate HoldsSignature(before: TransparentInput, der: seq<Byte>, after: TransparentInput) {
    ParsedDer(der).Success? && after == before.(partialSignature := Some(ParsedDer(der).value))
  }

  ghost predicate Appended(before: seq<TransparentInput>, ders: seq<seq<Byte>>, after: seq<TransparentInput>, n: nat)
    requires |before| == |ders| && n <= |ders|
  {
    && |after| == |before|
    && (forall i :: 0 <= i < n ==> HoldsSignature(before[i], ders[i], after[i]))
    && (forall i :: n <= i < |before| ==> after[i] == before[i])
  }

  lemma AppendOne(before: seq<TransparentInput>, ders: seq<seq<Byte>>, now: seq<TransparentInput>, n: nat, sig: Signature)
    requires |before| == |ders| && n < |ders|
    requires Appended(before, ders, now, n) && ParsedDer(ders[n]) == Success(sig)
    ensures now[n] == before[n]
    ensures Appended(before, ders, now[n := now[n].(partialSignature := Some(sig))], n + 1)
  {
    assert HoldsSignature(before[n], ders[n], now[n].(partialSignature := Some(sig)));
  }

  lemma {:induction false} AppendSigsFrom(c: Crypto, before: seq<TransparentInput>, now: seq<TransparentInput>,
                                          ders: seq<seq<Byte>>, n: nat)
    requires |before| == |ders| && n <= |ders|
    requires Appended(before, ders, now, n) && AllTransparentFit(c, before, ders, n)
    ensures match AppendSigs(c, now, ders, n)
            case Success(after) => AllTransparentFit(c, before, ders, |ders|) && Appended(before, ders, after, |ders|)
            case Failure(_) => exists i: nat :: i < |ders| && !TransparentFits(c, before, ders, i)
    decreases |ders| - n
  {
    if n < |ders| {
      var parsed := ParsedDer(ders[n]);
      if parsed.Success? && Accepts(c, n, now[n], parsed.value) {
        AppendOne(before, ders, now, n, parsed.value);
        assert TransparentFits(c, before, ders, n);
        AppendSigsFrom(c, before, now[n := now[n].(partialSignature := Some(parsed.value))], ders, n + 1);
      } else {
        assert !TransparentFits(c, before, ders, n);
      }
    }
  }

  lemma {:induction false} NoDerivationFound(inputs: seq<TransparentInput>, from: nat)
    ensures match FirstWithoutDerivation(inputs, from)
            case None => forall i :: from <= i < |inputs| ==> inputs[i].derivationKeys != []
            case Some(i) =>
              && from <= i < |inputs| && inputs[i].derivationKeys == []
              && forall j :: from <= j < i ==> inputs[j].derivationKeys != []
    decreases |inputs| - from
  {
    if from < |inputs| {
      NoDerivationFound(inputs, from + 1);
    }
  }

  /** Stamping adds preimages only, and finds the pubkey of any recorded key the script commits to. */
  lemma {:induction false} StampedFindsKey(c: Crypto, input: TransparentInput, keys: seq<Pubkey>)
    ensures Stamped(c, input, keys).(preimages := input.preimages) == input
    ensures forall h :: h in input.preimages ==> h in Stamped(c, input, keys).preimages
    ensures forall pk :: pk in keys ==> c.hash160(pk) in Stamped(c, input, keys).preimages
    ensures forall h :: h in Stamped(c, input, keys).preimages ==>
              (h in input.preimages && Stamped(c, input, keys).preimages[h] == input.preimages[h])
              || (Stamped(c, input, keys).preimages[h] in keys && c.hash160(Stamped(c, input, keys).preimages[h]) == h)
    decreases |keys|
  {
    if keys != [] {
      var next := input.(preimages := input.preimages[c.hash160(keys[0]) := keys[0]]);
      StampedFindsKey(c, next, keys[1..]);
      assert forall pk :: pk in keys ==> pk == keys[0] || pk in keys[1..];
      assert forall pk :: pk in keys[1..] ==> pk in keys;
    }
  }

  /** An input crafted with one derivation is checked against exactly that derivation's pubkey. */
  lemma StampedInputUsesItsKey(c: Crypto, input: TransparentInput, pk: Pubkey, i: nat, sig: Signature)
    requires input.derivationKeys == [pk] && input.preimages == map[] && c.hash160(pk) == input.scriptHash
    ensures Accepts(c, i, Stamped(c, input, input.derivationKeys), sig) <==> c.ecdsaVerify(i, pk, sig)
  {
    StampedFindsKey(c, input, [pk]);
  }

  // ----- the whole call -----

  /** Counts match, every transparent input has a derivation, and every signature fits its place. */
  ghost predicate Acceptable(c: Crypto, pczt: Pczt, orchardSigs: seq<SpendAuthSig>, ironwoodSigs: seq<SpendAuthSig>,
                             ders: seq<seq<Byte>>)
  {
    var unsigned, unsignedIronwood := Unsigned(pczt.orchard, 0), Unsigned(pczt.ironwood, 0);
    && |orchardSigs| == |unsigned| && |ironwoodSigs| == |unsignedIronwood| && |ders| == |pczt.inputs|
    && (forall i :: 0 <= i < |pczt.inputs| ==> pczt.inputs[i].derivationKeys != [])
    && AllFit(c, pczt.orchard, unsigned, orchardSigs, |unsigned|)
    && AllFit(c, pczt.ironwood, unsignedIronwood, ironwoodSigs, |unsignedIronwood|)
    && StampPreimages(c, pczt.inputs).Success?
    && AllTransparentFit(c, StampPreimages(c, pczt.inputs).value, ders, |ders|)
  }

  /** The call succeeds exactly on acceptable signatures: any wrong count or misplaced signature fails it as a whole. */
  lemma FinalizedIffAcceptable(c: Crypto, pczt: Pczt, orchardSigs: seq<SpendAuthSig>, ironwoodSigs: seq<SpendAuthSig>,
                               ders: seq<seq<Byte>>)
    ensures Finalized(c, pczt, orchardSigs, ironwoodSigs, ders).Success?
       <==> Acceptable(c, pczt, orchardSigs, ironwoodSigs, ders)
  {
    var unsigned, unsignedIronwood := Unsigned(pczt.orchard, 0), Unsigned(pczt.ironwood, 0);
    NoDerivationFound(pczt.inputs, 0);
    if |orchardSigs| == |unsigned| && |ironwoodSigs| == |unsignedIronwood| && |ders| == |pczt.inputs| {
      ApplySigsIff(c, pczt.orchard, unsigned, orchardSigs);
      ApplySigsIff(c, pczt.ironwood, unsignedIronwood, ironwoodSigs);
      var stamped := StampPreimages(c, pczt.inputs);
      if stamped.Success? {
        AppendSigsFrom(c, stamped.value, stamped.value, ders, 0);
      }
    }
  }

  ghost predicate SignedOnce(before: seq<Action>, sigs: seq<SpendAuthSig>, after: seq<Action>)
    requires |sigs| == |Unsigned(before, 0)|
  {
    var indices := Unsigned(before, 0);
    && |after| == |before|
    && (forall k :: 0 <= k < |indices| ==> after[indices[k]] == before[indices[k]].(spendAuthSig := Some(sigs[k])))
    && (forall i :: 0 <= i < |before| && before[i].spendAuthSig.Some? ==> after[i] == before[i])
    && (forall i :: 0 <= i < |before| ==> after[i].spendAuthSig.Some?)
  }

  lemma InjectedSignsOnce(before: seq<Action>, sigs: seq<SpendAuthSig>, after: seq<Action>)
    requires |sigs| == |Unsigned(before, 0)|
    requires Injected(before, Unsigned(before, 0), sigs, after, |sigs|)
    ensures SignedOnce(before, sigs, after)
  {
    var indices := Unsigned(before, 0);
    assert indices[..|sigs|] == indices;
    forall i | 0 <= i < |before|
      ensures after[i].spendAuthSig.Some?
      ensures before[i].spendAuthSig.Some? ==> after[i] == before[i]
    {
      if IsUnsigned(before, i) {
        assert i in indices;
      } else {
        assert i !in indices;
      }
    }
  }

  /**
   * After success each unsigned action of either bundle holds exactly its own signature, those signed before
   * are unchanged, and none stays unsigned.
   */
  lemma FinalizedSignsEachOnce(c: Crypto, pczt: Pczt, orchardSigs: seq<SpendAuthSig>, ironwoodSigs: seq<SpendAuthSig>,
                               ders: seq<seq<Byte>>)
    requires Finalized(c, pczt, orchardSigs, ironwoodSigs, ders).Success?
    ensures var signed := Finalized(c, pczt, orchardSigs, ironwoodSigs, ders).value;
            && |orchardSigs| == |Unsigned(pczt.orchard, 0)| && |ironwoodSigs| == |Unsigned(pczt.ironwood, 0)|
            && SignedOnce(pczt.orchard, orchardSigs, signed.orchard)
            && SignedOnce(pczt.ironwood, ironwoodSigs, signed.ironwood)
            && |signed.inputs| == |pczt.inputs| == |ders|
            && forall i :: 0 <= i < |ders| ==>
                 HoldsSignature(Stamped(c, pczt.inputs[i], pczt.inputs[i].derivationKeys), ders[i], signed.inputs[i])
  {
    ApplySigsIff(c, pczt.orchard, Unsigned(pczt.orchard, 0), orchardSigs);
    ApplySigsIff(c, pczt.ironwood, Unsigned(pczt.ironwood, 0), ironwoodSigs);
    var signed := Finalized(c, pczt, orchardSigs, ironwoodSigs, ders).value;
    InjectedSignsOnce(pczt.orchard, orchardSigs, signed.orchard);
    InjectedSignsOnce(pczt.ironwood, ironwoodSigs, signed.ironwood);
    var stamped := StampPreimages(c, pczt.inputs).value;
    AppendSigsFrom(c, stamped, stamped, ders, 0);
  }

  /** `sigs` is what the signer returns for the actions. */
  ghost predicate SignerOutput(c: Crypto, actions: seq<Action>, sigs: seq<SpendAuthSig>) {
    var indices := Unsigned(actions, 0);
    && |sigs| == |indices|
    && forall k :: 0 <= k < |indices| ==> c.sign(actions[indices[k]].rk, indices[k]) == Some(sigs[k])
  }

  lemma SignerOutputFits(c: Crypto, actions: seq<Action>, sigs: seq<SpendAuthSig>)
    requires c.SignsValidly() && SignerOutput(c, actions, sigs)
    ensures AllFit(c, actions, Unsigned(actions, 0), sigs, |sigs|)
  {
    var indices := Unsigned(actions, 0);
    forall k: nat | k < |sigs|
      ensures Fits(c, actions, indices, sigs, k)
    {
      assert c.sign(actions[indices[k]].rk, indices[k]) == Some(sigs[k]);
    }
  }

  /**
   * For any mix of signed and unsigned actions, what the signer returns for a PCZT is accepted by
   * finalisation, given transparent signatures that fit their inputs.
   */
  lemma SignThenFinalizeSucceeds(c: Crypto, pczt: Pczt, orchardSigs: seq<SpendAuthSig>, ironwoodSigs: seq<SpendAuthSig>,
                                 ders: seq<seq<Byte>>)
    requires c.SignsValidly()
    requires SignerOutput(c, pczt.orchard, orchardSigs) && SignerOutput(c, pczt.ironwood, ironwoodSigs)
    requires |ders| == |pczt.inputs| && StampPreimages(c, pczt.inputs).Success?
    requires AllTransparentFit(c, StampPreimages(c, pczt.inputs).value, ders, |ders|)
    ensures Finalized(c, pczt, orchardSigs, ironwoodSigs, ders).Success?
  {
    SignerOutputFits(c, pczt.orchard, orchardSigs);
    SignerOutputFits(c, pczt.ironwood, ironwoodSigs);
    NoDerivationFound(pczt.inputs, 0);
    FinalizedIffAcceptable(c, pczt, orchardSigs, ironwoodSigs, ders);
  }

  /** A signature that is no DER, or one that does not verify for the input it is named with. */
  ghost predicate IsTransparentCause(c: Crypto, inputs: seq<TransparentInput>, ders: seq<seq<Byte>>, e: SigningError)
    requires |inputs| == |ders|
  {
    match e
    case BadDer(reason) => exists k :: 0 <= k < |ders| && ParsedDer(ders[k]) == Failure(reason)
    case TransparentSignatureRejected(i) =>
      i < |ders| && ParsedDer(ders[i]).Success? && !Accepts(c, i, inputs[i], ParsedDer(ders[i]).value)
    case _ => false
  }

  lemma {:induction false} AppendRefusal(c: Crypto, before: seq<TransparentInput>, now: seq<TransparentInput>,
                                         ders: seq<seq<Byte>>, n: nat)
    requires |before| == |now| == |ders| && n <= |ders| && AppendSigs(c, now, ders, n).Failure?
    requires forall i :: n <= i < |before| ==> now[i] == before[i]
    ensures IsTransparentCause(c, before, ders, AppendSigs(c, now, ders, n).error)
    decreases |ders| - n
  {
    var parsed := ParsedDer(ders[n]);
    if parsed.Success? && Accepts(c, n, now[n], parsed.value) {
      AppendRefusal(c, before, now[n := now[n].(partialSignature := Some(parsed.value))], ders, n + 1);
    }
  }

  /** Signature `k` is for action `i` of a bundle and does not verify under that action's key. */
  ghost predicate IsMisfit(c: Crypto, actions: seq<Action>, sigs: seq<SpendAuthSig>, i: nat) {
    var indices := Unsigned(actions, 0);
    |sigs| == |indices| && exists k :: 0 <= k < |indices| && indices[k] == i && !c.verify(actions[i].rk, sigs[k])
  }

  /** What a refusal says is wrong, in the bundle it says it is wrong in. */
  ghost predicate IsCause(c: Crypto, pczt: Pczt, orchardSigs: seq<SpendAuthSig>, ironwoodSigs: seq<SpendAuthSig>,
                          ders: seq<seq<Byte>>, e: SigningError)
  {
    match e
    case OrchardCount(got, expected) => got == |orchardSigs| && expected == |Unsigned(pczt.orchard, 0)| && got != expected
    case IronwoodCount(got, expected) => got == |ironwoodSigs| && expected == |Unsigned(pczt.ironwood, 0)| && got != expected
    case TransparentCount(got, expected) => got == |ders| && expected == |pczt.inputs| && got != expected
    case NoDerivation(i) => i < |pczt.inputs| && pczt.inputs[i].derivationKeys == []
    case OrchardSignatureRejected(i) => IsMisfit(c, pczt.orchard, orchardSigs, i)
    case IronwoodSignatureRejected(i) => IsMisfit(c, pczt.ironwood, ironwoodSigs, i)
    case SigningFailed(_) => false
    case _ =>
      && |ders| == |pczt.inputs|
      && IsTransparentCause(c, seq(|ders|, i requires 0 <= i < |ders| => Stamped(c, pczt.inputs[i], pczt.inputs[i].derivationKeys)),
                            ders, e)
  }

  /** Every refusal names its true cause. */
  lemma RefusalNamesItsCause(c: Crypto, pczt: Pczt, orchardSigs: seq<SpendAuthSig>, ironwoodSigs: seq<SpendAuthSig>,
                             ders: seq<seq<Byte>>)
    requires Finalized(c, pczt, orchardSigs, ironwoodSigs, ders).Failure?
    ensures IsCause(c, pczt, orchardSigs, ironwoodSigs, ders, Finalized(c, pczt, orchardSigs, ironwoodSigs, ders).error)
  {
    var unsigned, unsignedIronwood := Unsigned(pczt.orchard, 0), Unsigned(pczt.ironwood, 0);
    NoDerivationFound(pczt.inputs, 0);
    if |orchardSigs| == |unsigned| && |ironwoodSigs| == |unsignedIronwood| && |ders| == |pczt.inputs| {
      ApplySigsIff(c, pczt.orchard, unsigned, orchardSigs);
      ApplySigsIff(c, pczt.ironwood, unsignedIronwood, ironwoodSigs);
      var stamped := StampPreimages(c, pczt.inputs);
      if stamped.Success? && AppendSigs(c, stamped.value, ders, 0).Failure? {
        AppendRefusal(c, stamped.value, stamped.value, ders, 0);
        assert stamped.value
            == seq(|ders|, i requires 0 <= i < |ders| => Stamped(c, pczt.inputs[i], pczt.inputs[i].derivationKeys));
      }
    }
  }
}
