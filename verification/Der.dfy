/**
 * `parse_transparent_der`: a device returns an ECDSA signature in DER (sections 8.3, 8.9 and 10.1 of ITU-T
 * X.690) with the parity of y in the header byte and a sighash-type byte behind it. Both are undone before
 * decoding.
 */
module Der {
  import opened Wrappers

  type Byte = b: nat | b < 256

  datatype Signature = Signature(r: nat, s: nat)

  datatype DerError = TooShort(length: nat) | NotDer

  function Pow256(k: nat): (p: nat)
    ensures p > 0
  {
    if k == 0 then 1 else 256 * Pow256(k - 1)
  }

  /** Both numbers fit 32 bytes. */
  predicate InRange(sig: Signature) {
    sig.r < Pow256(32) && sig.s < Pow256(32)
  }

  // ----- encoding -----

  /** Big-endian value. */
  function Value(bytes: seq<Byte>): nat {
    if bytes == [] then 0 else 256 * Value(bytes[..|bytes| - 1]) + bytes[|bytes| - 1]
  }

  /** Big-endian bytes without a leading zero, except for 0 itself. */
  function MinimalBytes(n: nat): (bytes: seq<Byte>)
    ensures bytes != []
    ensures bytes[0] == 0 ==> n == 0 && bytes == [0]
  {
    if n < 256 then [n] else MinimalBytes(n / 256) + [n % 256]
  }

  /** Content of a non-negative INTEGER: a zero byte keeps the sign bit clear. */
  function IntegerContent(n: nat): (content: seq<Byte>)
    ensures content != [] && content[0] < 0x80
  {
    var bytes := MinimalBytes(n);
    if bytes[0] >= 0x80 then [0] + bytes else bytes
  }

  lemma {:induction false} MinimalLength(n: nat, k: nat)
    requires k > 0 && n < Pow256(k)
    ensures |MinimalBytes(n)| <= k
    decreases k
  {
    if n >= 256 {
      assert Pow256(k) == 256 * Pow256(k - 1);
      assert n / 256 < Pow256(k - 1);
      MinimalLength(n / 256, k - 1);
    }
  }

  lemma ContentLength(n: nat)
    requires n < Pow256(32)
    ensures |IntegerContent(n)| <= 33
  {
    MinimalLength(n, 32);
  }

  function DerInteger(n: nat): seq<Byte>
    requires n < Pow256(32)
  {
    ContentLength(n);
    [0x02, |IntegerContent(n)|] + IntegerContent(n)
  }

  /** A SEQUENCE whose one length byte counts exactly what follows it. */
  predicate IsShortForm(buf: seq<Byte>) {
    |buf| >= 2 && buf[0] == 0x30 && buf[1] < 0x80 && |buf| - 2 == buf[1]
  }

  /** The minimal encoding; its content is at most 70 bytes, so the length byte is always short-form. */
  function EncodeDer(sig: Signature): (der: seq<Byte>)
    requires InRange(sig)
    ensures IsShortForm(der) && der[1] <= 70
  {
    ContentLength(sig.r);
    ContentLength(sig.s);
    var body := DerInteger(sig.r) + DerInteger(sig.s);
    [0x30, |body|] + body
  }

  // ----- decoding -----

  /** A non-negative INTEGER of at most 256 bits in its shortest form, and what follows it. */
  function DecodeInteger(bytes: seq<Byte>): Option<(nat, seq<Byte>)> {
    if |bytes| < 2 || bytes[0] != 0x02 || bytes[1] == 0 || bytes[1] >= 0x80 || |bytes| < 2 + bytes[1] then None
    else
      var content := bytes[2..2 + bytes[1]];
      if content[0] >= 0x80 then None                                            // negative
      else if |content| > 1 && content[0] == 0 && content[1] < 0x80 then None    // needless padding
      else if Value(content) >= Pow256(32) then None
      else Some((Value(content), bytes[2 + bytes[1]..]))
  }

  function DecodeDer(buf: seq<Byte>): Option<Signature> {
    if !IsShortForm(buf) then None
    else
      match DecodeInteger(buf[2..])
      case None => None
      case Some((r, rest)) =>
        match DecodeInteger(rest)
        case None => None
        case Some((s, end)) => if end == [] then Some(Signature(r, s)) else None
  }

  // ----- undoing the device's changes -----

  function WithTag(buf: seq<Byte>): (b: seq<Byte>)
    requires |buf| >= 2
    ensures |b| == |buf| && b[1..] == buf[1..]
  {
    if buf[0] == 0x31 then buf[0 := 0x30] else buf
  }

  function Stripped(buf: seq<Byte>): seq<Byte>
    requires |buf| >= 2
  {
    if buf[1] < 0x80 && |buf| == 2 + buf[1] + 1 then buf[..2 + buf[1]] else buf
  }

  function Normalised(buf: seq<Byte>): (b: seq<Byte>)
    requires |buf| >= 2
    ensures |b| >= 2
  {
    Stripped(WithTag(buf))
  }

  function ParsedDer(bytes: seq<Byte>): Result<Signature, DerError> {
    if |bytes| < 2 then Failure(TooShort(|bytes|))
    else
      match DecodeDer(Normalised(bytes))
      case None => Failure(NotDer)
      case Some(sig) => Success(sig)
  }

  /** The parser works on a copy that it rewrites and truncates. */
  method ParseTransparentDer(bytes: seq<Byte>) returns (r: Result<Signature, DerError>)
    ensures r == ParsedDer(bytes)
  {
    if |bytes| < 2 {
      return Failure(TooShort(|bytes|));
    }
    var buf := bytes;
    if buf[0] == 0x31 {
      buf := buf[0 := 0x30];
    }
    if |buf| >= 2 && buf[1] < 0x80 {
      var contentLen := buf[1];
      var declaredTotal := 2 + contentLen;
      if |buf| == declaredTotal + 1 {
        buf := buf[..declaredTotal];
      }
    }
    var decoded := DecodeDer(buf);
    if decoded == None {
      return Failure(NotDer);
    }
    return Success(decoded.value);
  }

  // ----- the encoding is unique -----

  lemma {:induction false} ValueOfMinimal(n: nat)
    ensures Value(MinimalBytes(n)) == n
  {
    if n >= 256 {
      ValueOfMinimal(n / 256);
      assert MinimalBytes(n)[..|MinimalBytes(n)| - 1] == MinimalBytes(n / 256);
    }
  }

  lemma {:induction false} LeadingZeroIsNothing(bytes: seq<Byte>)
    ensures Value([0] + bytes) == Value(bytes)
  {
    var padded := [0] + bytes;
    if bytes != [] {
      LeadingZeroIsNothing(bytes[..|bytes| - 1]);
      assert padded[..|padded| - 1] == [0] + bytes[..|bytes| - 1];
    }
  }

  lemma {:induction false} ValueIsPositive(bytes: seq<Byte>)
    requires bytes != [] && bytes[0] != 0
    ensures Value(bytes) >= 1 && (|bytes| > 1 ==> Value(bytes) >= 256)
  {
    if |bytes| > 1 {
      ValueIsPositive(bytes[..|bytes| - 1]);
    }
  }

  lemma {:induction false} MinimalOfValue(bytes: seq<Byte>)
    requires bytes != [] && (bytes[0] != 0 || |bytes| == 1)
    ensures MinimalBytes(Value(bytes)) == bytes
  {
    if |bytes| > 1 {
      var front := bytes[..|bytes| - 1];
      MinimalOfValue(front);
      ValueIsPositive(bytes);
      assert Value(bytes) / 256 == Value(front);
      assert bytes == front + [bytes[|bytes| - 1]];
    }
  }

  lemma {:induction false} IntegerDecodes(n: nat, rest: seq<Byte>)
    requires n < Pow256(32)
    ensures DecodeInteger(DerInteger(n) + rest) == Some((n, rest))
  {
    ContentLength(n);
    ValueOfMinimal(n);
    LeadingZeroIsNothing(MinimalBytes(n));
    var bytes := DerInteger(n) + rest;
    assert bytes[2..2 + bytes[1]] == IntegerContent(n);
    assert bytes[2 + bytes[1]..] == rest;
  }

  lemma ContentOfValue(content: seq<Byte>)
    requires content != [] && content[0] < 0x80
    requires |content| > 1 && content[0] == 0 ==> content[1] >= 0x80
    ensures IntegerContent(Value(content)) == content
  {
    if |content| > 1 && content[0] == 0 {
      LeadingZeroIsNothing(content[1..]);
      assert content == [0] + content[1..];
      MinimalOfValue(content[1..]);
    } else {
      MinimalOfValue(content);
    }
  }

  lemma DecodedIntegerIsEncoded(bytes: seq<Byte>)
    requires DecodeInteger(bytes).Some?
    ensures var (n, rest) := DecodeInteger(bytes).value;
            n < Pow256(32) && bytes == DerInteger(n) + rest
  {
    var content := bytes[2..2 + bytes[1]];
    ContentOfValue(content);
    assert bytes == [0x02, |content|] + content + bytes[2 + bytes[1]..];
  }

  lemma {:induction false} EncodingDecodes(sig: Signature)
    requires InRange(sig)
    ensures DecodeDer(EncodeDer(sig)) == Some(sig)
  {
    var r, s := DerInteger(sig.r), DerInteger(sig.s);
    assert EncodeDer(sig)[2..] == r + s;
    IntegerDecodes(sig.r, s);
    assert s + [] == s;
    IntegerDecodes(sig.s, []);
  }

  lemma DecodedBody(body: seq<Byte>, r: nat, rest: seq<Byte>, s: nat)
    requires DecodeInteger(body) == Some((r, rest)) && DecodeInteger(rest) == Some((s, []))
    ensures r < Pow256(32) && s < Pow256(32) && body == DerInteger(r) + DerInteger(s)
  {
    DecodedIntegerIsEncoded(body);
    DecodedIntegerIsEncoded(rest);
    assert rest == DerInteger(s) + [] == DerInteger(s);
  }

  lemma ShortFormIsHeaderAndBody(buf: seq<Byte>)
    requires IsShortForm(buf)
    ensures buf == [0x30, |buf[2..]|] + buf[2..]
  {
  }

  lemma DecodedIsEncoding(buf: seq<Byte>)
    requires DecodeDer(buf).Some?
    ensures InRange(DecodeDer(buf).value) && buf == EncodeDer(DecodeDer(buf).value)
  {
    var (r, rest) := DecodeInteger(buf[2..]).value;
    var (s, end) := DecodeInteger(rest).value;
    DecodedBody(buf[2..], r, rest, s);
    ShortFormIsHeaderAndBody(buf);
  }

  /** Decoding inverts encoding, and accepts nothing but encodings. */
  lemma DerIsUnique(buf: seq<Byte>, sig: Signature)
    requires InRange(sig)
    ensures DecodeDer(buf) == Some(sig) <==> buf == EncodeDer(sig)
  {
    EncodingDecodes(sig);
    if DecodeDer(buf) == Some(sig) {
      DecodedIsEncoding(buf);
    }
  }

  // ----- what normalisation does -----

  /** What the device may send for an encoding: y's parity in the header byte, one byte of its own behind. */
  function FromDevice(der: seq<Byte>, oddY: bool, sighashType: Option<Byte>): seq<Byte>
    requires |der| >= 2
  {
    (if oddY then der[0 := 0x31] else der) + (if sighashType.Some? then [sighashType.value] else [])
  }

  /**
   * Normalisation restores an encoding from exactly the four shapes a device may send it in, and from
   * nothing else.
   */
  lemma NormalisedIffFromDevice(buf: seq<Byte>, der: seq<Byte>)
    requires |buf| >= 2 && IsShortForm(der)
    ensures Normalised(buf) == der <==> exists oddY, sighashType :: buf == FromDevice(der, oddY, sighashType)
  {
    if Normalised(buf) == der {
      var sighashType := if |buf| == |der| then None else Some(buf[|der|]);
      assert WithTag(buf)[..|der|] == der;
      assert buf[1..|der|] == der[1..];
      assert buf == FromDevice(der, buf[0] == 0x31, sighashType);
    }
    forall oddY, sighashType | buf == FromDevice(der, oddY, sighashType)
      ensures Normalised(buf) == der
    {
      assert WithTag(buf)[..|der|] == der;
      assert WithTag(buf) == der + (if sighashType.Some? then [sighashType.value] else []);
    }
  }

  /** A signature is read exactly from its encoding in one of the device's shapes. */
  lemma ParsesIffFromDevice(bytes: seq<Byte>, sig: Signature)
    requires InRange(sig)
    ensures ParsedDer(bytes) == Success(sig) <==>
              exists oddY, sighashType :: bytes == FromDevice(EncodeDer(sig), oddY, sighashType)
  {
    if |bytes| >= 2 {
      DerIsUnique(Normalised(bytes), sig);
      NormalisedIffFromDevice(bytes, EncodeDer(sig));
    }
  }

  /** Normalising twice is normalising once; a long-form buffer is never cut. */
  lemma NormalisedIsStable(buf: seq<Byte>)
    requires |buf| >= 2
    ensures Normalised(Normalised(buf)) == Normalised(buf)
    ensures buf[1] >= 0x80 ==> |Normalised(buf)| == |buf| && Normalised(buf)[1..] == buf[1..]
    ensures |buf| - 1 <= |Normalised(buf)| <= |buf|
  {
  }

  /** Fewer than two bytes are refused by length; longer input that is no signature of either kind is no DER. */
  lemma RefusedIff(bytes: seq<Byte>)
    ensures ParsedDer(bytes) == Failure(TooShort(|bytes|)) <==> |bytes| < 2
    ensures ParsedDer(bytes).Failure? && |bytes| >= 2 ==> ParsedDer(bytes).error == NotDer
  {
  }
}
