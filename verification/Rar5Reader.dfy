/** A reader over bytes with a position, and the variable-length integers read from it. */
module Rar5Readers {
  import opened Wrappers
  import opened Vint

  class Reader {
    const bytes: Octets
    var pos: nat

    constructor (bytes: Octets)
      ensures this.bytes == bytes && pos == 0
    {
      this.bytes := bytes;
      pos := 0;
    }

    /** The bytes from the position on; none once it is past the end. */
    function Left(): (r: Octets)
      reads this
    {
      From(bytes, pos)
    }

    /** Read exactly `n` bytes, or fail. */
    method ReadExact(n: nat) returns (r: Result<Octets, RarError>)
      modifies `pos
      ensures r.Ok? <==> n <= |old(Left())|
      ensures r.Ok? ==> r.value == old(Left())[..n] && Left() == old(Left())[n..] && pos == old(pos) + n
      ensures r.Err? ==> r.error == UnexpectedEof
    {
      if n == 0 {
        return Ok([]);
      }
      if pos + n > |bytes| {
        return Err(UnexpectedEof);
      }
      r := Ok(bytes[pos..pos + n]);
      pos := pos + n;
    }

    /** Read a variable-length integer, byte by byte, into 64 bits. */
    method ReadVint() returns (r: Result<nat, RarError>)
      modifies `pos
      ensures r.Ok? <==> Read(old(Left())).Ok?
      ensures r.Ok? ==> (r.value, Left()) == Read(old(Left())).value && pos == old(pos) + |old(Left())| - |Left()|
      ensures r.Err? ==> r.error == Read(old(Left())).error
    {
      var result: nat, weight: nat, k: nat := 0, 1, 0;
      ghost var s := Left();
      SumsStart(s);
      ReadMeansDigits(s);
      hide Digits, Sums, Read, Left, Added, Digit;
      while true
        invariant k < MAX_BYTES && pos == old(pos) + k && k == |s| - |Left()|
        invariant Sums(Digits(s, 0), result, weight, Digits(Left(), k))
        decreases MAX_BYTES - k
      {
        SumsStep(Digits(s, 0), result, weight, Left(), k);
        var byte := ReadExact(1);
        if byte.Err? {
          return Err(byte.error);
        }
        var b := byte.value[0];
        result := Added(result, b, weight);
        if b < 128 {
          return Ok(result % U64);
        }
        k, weight := k + 1, weight * 128;
        if k >= MAX_BYTES {
          return Err(TruncatedHeader(0));
        }
      }
    }
  }

  /** The low seven bits. */
  function Digit(b: Octet): nat {
    b % 128
  }

  function Added(result: nat, b: Octet, weight: nat): nat {
    result + Digit(b) * weight
  }

  /** A whole value is `result` and `weight` times what the rest spells. */
  ghost predicate Sums(
      whole: Result<(nat, Octets), RarError>, result: nat, weight: nat, rest: Result<(nat, Octets), RarError>) {
    match rest
    case Err(e) => whole == Err(e)
    case Ok((high, left)) => whole == Ok((result + weight * high, left))
  }

  lemma SumsStart(s: Octets)
    ensures Sums(Digits(s, 0), 0, 1, Digits(s, 0))
  {
    hide Digits;
  }

  lemma Weigh(result: nat, weight: nat, digit: nat, high: nat)
    ensures result + weight * (digit + 128 * high) == result + digit * weight + weight * 128 * high
  {
  }

  lemma SumsStep(whole: Result<(nat, Octets), RarError>, result: nat, weight: nat, left: Octets, k: nat)
    requires k < MAX_BYTES && Sums(whole, result, weight, Digits(left, k))
    ensures left == [] ==> whole == Err(UnexpectedEof)
    ensures left != [] && left[0] < 128 ==> whole == Ok((Added(result, left[0], weight), left[1..]))
    ensures left != [] && left[0] >= 128 && k + 1 >= MAX_BYTES ==> whole == Err(TruncatedHeader(0))
    ensures left != [] && left[0] >= 128 && k + 1 < MAX_BYTES ==>
      Sums(whole, Added(result, left[0], weight), weight * 128, Digits(left[1..], k + 1))
  {
    if left == [] {
    } else if left[0] < 128 {
      Weigh(result, weight, left[0], 0);
    } else if k + 1 < MAX_BYTES {
      var rest := Digits(left[1..], k + 1);
      assert Digit(left[0]) == left[0] - 128;
      if rest.Ok? {
        Weigh(result, weight, Digit(left[0]), rest.value.0);
        assert Digits(left, k) == Ok((Digit(left[0]) + 128 * rest.value.0, rest.value.1));
        hide Digits, Digit;
      }
    }
  }
}
