/** RAR5 variable-length integers: seven bits to a byte, least significant first, the high bit
    set on all but the last. */
module Vint {
  import opened Wrappers

  type Octet = b: nat | b < 256

  type Octets = seq<Octet>

  /** The bytes from a position on; none from one past the end. */
  function From(s: Octets, pos: nat): Octets {
    if pos <= |s| then s[pos..] else []
  }

  const U64: nat := 0x1_0000_0000_0000_0000

  /** A value takes at most ten bytes. */
  const MAX_BYTES: nat := 10

  datatype RarError =
    | UnexpectedEof
    | TruncatedHeader(at: nat)
    | SignatureNotFound
    | InvalidHeaderCrc(at: nat)
    | EncryptedHeaders
    | UnsupportedEncryptionVersion(version: nat)

  function Encode(v: nat): (r: Octets)
    ensures |r| > 0
  {
    if v < 128 then [v] else [128 + v % 128] + Encode(v / 128)
  }

  /** The value the bytes from the start of `s` spell, `k` having been read before, and what is
      left after them. */
  function Digits(s: Octets, k: nat): (r: Result<(nat, Octets), RarError>)
    requires k < MAX_BYTES
    ensures r.Ok? ==> |r.value.1| < |s|
    decreases MAX_BYTES - k
  {
    if s == [] then Err(UnexpectedEof)
    else if s[0] < 128 then Ok((s[0], s[1..]))
    else if k + 1 >= MAX_BYTES then Err(TruncatedHeader(0))
    else
      var (high, rest) :- Digits(s[1..], k + 1);
      Ok((s[0] - 128 + 128 * high, rest))
  }

  /** The integer at the start of `s`, in 64 bits, and what is left after it. */
  function Read(s: Octets): (r: Result<(nat, Octets), RarError>)
    ensures r.Ok? ==> |r.value.1| < |s|
  {
    var (v, rest) :- Digits(s, 0);
    Ok((v % U64, rest))
  }

  function Pow128(k: nat): (r: nat)
    ensures r > 0
  {
    if k == 0 then 1 else 128 * Pow128(k - 1)
  }

  lemma {:induction false} DigitsInvertEncode(v: nat, rest: Octets, k: nat)
    requires k < MAX_BYTES && v < Pow128(MAX_BYTES - k)
    ensures Digits(Encode(v) + rest, k) == Ok((v, rest))
    decreases v
  {
    var s := Encode(v) + rest;
    if v < 128 {
      assert s[1..] == rest;
    } else {
      assert s[1..] == Encode(v / 128) + rest;
      assert Pow128(MAX_BYTES - k) == 128 * Pow128(MAX_BYTES - k - 1);
      assert k + 1 < MAX_BYTES by {
        assert Pow128(1) == 128 * Pow128(0);
      }
      DigitsInvertEncode(v / 128, rest, k + 1);
      assert s[0] == 128 + v % 128;
    }
  }

  lemma ReadMeansDigits(s: Octets)
    ensures Digits(s, 0).Ok? ==> Read(s) == Ok((Digits(s, 0).value.0 % U64, Digits(s, 0).value.1))
    ensures Digits(s, 0).Err? ==> Read(s) == Err(Digits(s, 0).error)
  {
  }

  lemma TenDigitsAreEnough()
    ensures U64 <= Pow128(MAX_BYTES)
  {
    assert Pow128(5) == 0x8_0000_0000;
    assert Pow128(10) == 128 * (128 * (128 * (128 * (128 * Pow128(5)))));
  }

  /** Every 64-bit value reads back, whatever follows, and takes exactly its own bytes. */
  lemma ReadInvertsEncode(v: nat, rest: Octets)
    requires v < U64
    ensures Read(Encode(v) + rest) == Ok((v, rest))
  {
    ReadMeansDigits(Encode(v) + rest);
    assert v % U64 == v;
    TenDigitsAreEnough();
    hide *;
    DigitsInvertEncode(v, rest, 0);
  }

  /** How many of the first bytes have the high bit set. */
  function Continued(s: Octets): (n: nat)
    ensures n <= |s|
    ensures forall i :: 0 <= i < n ==> s[i] >= 128
    ensures n < |s| ==> s[n] < 128
  {
    if s == [] || s[0] < 128 then 0 else 1 + Continued(s[1..])
  }

  /** Reading fails exactly when ten bytes in a row continue, or the bytes end first. */
  lemma {:induction false} DigitsFailExactlyWhen(s: Octets, k: nat)
    requires k < MAX_BYTES
    ensures Digits(s, k) == Err(TruncatedHeader(0)) <==> Continued(s) >= MAX_BYTES - k
    ensures Digits(s, k) == Err(UnexpectedEof) <==> Continued(s) == |s| < MAX_BYTES - k
    ensures Digits(s, k).Ok? ==> |s| - |Digits(s, k).value.1| == Continued(s) + 1
    decreases MAX_BYTES - k
  {
    if s != [] && s[0] >= 128 && k + 1 < MAX_BYTES {
      DigitsFailExactlyWhen(s[1..], k + 1);
    }
  }

  lemma ReadFailsExactlyWhen(s: Octets)
    ensures Read(s) == Err(TruncatedHeader(0)) <==> Continued(s) >= MAX_BYTES
    ensures Read(s) == Err(UnexpectedEof) <==> Continued(s) == |s| < MAX_BYTES
    ensures Read(s).Ok? ==> |s| - |Read(s).value.1| == Continued(s) + 1
  {
    DigitsFailExactlyWhen(s, 0);
  }
}
