/** `format_derivation_path`: raw ZIP-32 / BIP-32 child indices as the device's path string. */
module DerivationPath {
  import opened Wrappers
  import opened Decimal

  /** Bit 31 of a child index marks it as hardened. */
  const HARDENED_OFFSET: nat := 0x8000_0000
  const U32_MAX: nat := 0xFFFF_FFFF

  predicate IsChildIndex(i: nat) {
    i <= U32_MAX
  }

  function FormatIndex(i: nat): string {
    if i >= HARDENED_OFFSET then Digits(i - HARDENED_OFFSET) + "'" else Digits(i)
  }

  function FormatIndices(indices: seq<nat>): (parts: seq<string>)
    ensures |parts| == |indices|
  {
    if indices == [] then [] else [FormatIndex(indices[0])] + FormatIndices(indices[1..])
  }

  function FormatDerivationPath(indices: seq<nat>): string {
    Join(FormatIndices(indices), '/')
  }

  // ----- the reader on the other side -----

  function ParseIndex(s: string): Option<nat> {
    var hardened := s != "" && s[|s| - 1] == '\'';
    var digits := if hardened then s[..|s| - 1] else s;
    if digits == "" || !AllDigits(digits) || Value(digits) >= HARDENED_OFFSET then None
    else Some(if hardened then Value(digits) + HARDENED_OFFSET else Value(digits))
  }

  function ParseIndices(parts: seq<string>): Option<seq<nat>> {
    if parts == [] then Some([])
    else
      match (ParseIndex(parts[0]), ParseIndices(parts[1..]))
      case (Some(i), Some(rest)) => Some([i] + rest)
      case _ => None
  }

  function ParseDerivationPath(s: string): Option<seq<nat>> {
    if s == "" then Some([]) else ParseIndices(Split(s, '/'))
  }

  lemma IndexParsesBack(i: nat)
    requires IsChildIndex(i)
    ensures FormatIndex(i) != "" && '/' !in FormatIndex(i)
    ensures ParseIndex(FormatIndex(i)) == Some(i)
  {
    var n := if i >= HARDENED_OFFSET then i - HARDENED_OFFSET else i;
    ValueOfDigits(n);
    assert forall k :: 0 <= k < |Digits(n)| ==> IsDigit(Digits(n)[k]);
    if i >= HARDENED_OFFSET {
      assert FormatIndex(i)[..|FormatIndex(i)| - 1] == Digits(n);
    }
  }

  lemma {:induction false} FormattedIndex(indices: seq<nat>, k: nat)
    requires k < |indices|
    ensures FormatIndices(indices)[k] == FormatIndex(indices[k])
    decreases k
  {
    if k > 0 {
      var rest := indices[1..];
      FormattedIndex(rest, k - 1);
      assert FormatIndices(indices)[k] == FormatIndices(rest)[k - 1];
    }
  }

  lemma {:induction false} IndicesParseBack(indices: seq<nat>)
    requires forall i :: i in indices ==> IsChildIndex(i)
    ensures ParseIndices(FormatIndices(indices)) == Some(indices)
  {
    if indices != [] {
      var rest := indices[1..];
      assert forall i :: i in rest ==> i in indices;
      IndexParsesBack(indices[0]);
      IndicesParseBack(rest);
      assert FormatIndices(indices)[1..] == FormatIndices(rest);
      assert [indices[0]] + rest == indices;
    }
  }

  /** Every path of 32-bit indices reads back to the same hardened and non-hardened indices. */
  lemma PathParsesBack(indices: seq<nat>)
    requires forall i :: i in indices ==> IsChildIndex(i)
    ensures ParseDerivationPath(FormatDerivationPath(indices)) == Some(indices)
  {
    IndicesParseBack(indices);
    if indices != [] {
      var parts := FormatIndices(indices);
      forall k | 0 <= k < |parts|
        ensures '/' !in parts[k] && parts[k] != ""
      {
        FormattedIndex(indices, k);
        IndexParsesBack(indices[k]);
      }
      SplitUndoesJoin(parts, '/');
      assert parts[0] != "";
    }
  }

  /** Two different paths never print alike. */
  lemma PathsPrintApart(a: seq<nat>, b: seq<nat>)
    requires forall i :: i in a ==> IsChildIndex(i)
    requires forall i :: i in b ==> IsChildIndex(i)
    requires FormatDerivationPath(a) == FormatDerivationPath(b)
    ensures a == b
  {
    PathParsesBack(a);
    PathParsesBack(b);
  }

  /**
   * The device's form of one index: a decimal number below 2^31 without a leading zero, and a quote behind it
   * exactly when the index is hardened.
   */
  lemma IndexIsCanonical(i: nat)
    requires IsChildIndex(i)
    ensures var text := FormatIndex(i);
            var hardened := i >= 0x8000_0000;
            var digits := if hardened then text[..|text| - 1] else text;
            && (hardened ==> text[|text| - 1] == '\'')
            && digits != "" && AllDigits(digits) && Value(digits) == i % 0x8000_0000
            && (digits[0] == '0' ==> digits == "0")
  {
    var n := if i >= HARDENED_OFFSET then i - HARDENED_OFFSET else i;
    ValueOfDigits(n);
    NoLeadingZero(n);
    if i >= HARDENED_OFFSET {
      assert FormatIndex(i)[..|FormatIndex(i)| - 1] == Digits(n);
    }
  }
}
