/**
 The code for lengths. Its layout belongs to the `variable-len-reader` crate, so the
 framing theorems hold for every lawful code; the base-128 varint is one of them.
 */
module LengthCodes {
  import opened Wire

  datatype LengthCode = LengthCode(encode: nat -> Bytes, decode: Parser<nat>) {

    /** What framing needs of the code: it reads one byte at a time, and it inverts `encode` on every `usize`. */
    ghost predicate Lawful() {
      && Incremental(decode)
      && decode([]).More?
      && (forall s :: decode(s).Done? ==> decode(s).value < USIZE_LIMIT)
      && (forall n: nat :: n < USIZE_LIMIT ==> decode(encode(n)) == Done(n, []))
    }
  }

  function EncodeVarint(n: nat): Bytes {
    if n < 128 then [n as byte] else [(n % 128 + 128) as byte] + EncodeVarint(n / 128)
  }

  function Scale(i: nat): nat {
    if i == 0 then 1 else 128 * Scale(i - 1)
  }

  /** Reads from the `i`-th byte on, `acc` being what the earlier bytes amount to. */
  function DecodeVarintFrom(s: Bytes, i: nat, acc: nat): Parsed<nat> {
    if s == [] then More
    else
      var b := s[0] as nat;
      var v := acc + b % 128 * Scale(i);
      if v >= USIZE_LIMIT || (b >= 128 && i >= 9) then Bad(IO(InvalidData), s[1..])
      else if b < 128 then Done(v, s[1..])
      else DecodeVarintFrom(s[1..], i + 1, v)
  }

  function Varint(): LengthCode {
    LengthCode(EncodeVarint, s => DecodeVarintFrom(s, 0, 0))
  }

  lemma {:induction false} DecodeSuffix(s: Bytes, i: nat, acc: nat)
    ensures var r := DecodeVarintFrom(s, i, acc);
      !r.More? ==> |r.rest| < |s| && r.rest == s[|s| - |r.rest|..] && (r.Done? ==> r.value < USIZE_LIMIT)
  {
    if s != [] {
      DecodeSuffix(s[1..], i + 1, acc + s[0] as nat % 128 * Scale(i));
    }
  }

  lemma {:induction false} DecodeExtends(s: Bytes, t: Bytes, i: nat, acc: nat)
    requires !DecodeVarintFrom(s, i, acc).More?
    ensures DecodeVarintFrom(s + t, i, acc) == DecodeVarintFrom(s, i, acc).Extend(t)
  {
    assert (s + t)[1..] == s[1..] + t;
    var b := s[0] as nat;
    var v := acc + b % 128 * Scale(i);
    if v < USIZE_LIMIT && b >= 128 && i < 9 {
      DecodeExtends(s[1..], t, i + 1, v);
    }
  }

  lemma {:induction false} DecodeTight(s: Bytes, b: byte, i: nat, acc: nat)
    requires DecodeVarintFrom(s, i, acc).More?
    ensures var r := DecodeVarintFrom(s + [b], i, acc); !r.More? ==> r.rest == []
  {
    if s != [] {
      assert (s + [b])[1..] == s[1..] + [b];
      DecodeTight(s[1..], b, i + 1, acc + s[0] as nat % 128 * Scale(i));
    }
  }

  lemma SplitProduct(n: nat, c: nat)
    ensures n * c == n % 128 * c + n / 128 * (128 * c)
    ensures n % 128 * c <= n * c
    ensures n >= 128 ==> 128 * c <= n * c
  {
    var q, r := n / 128, n % 128;
    calc {
      n * c;
      (q * 128 + r) * c;
      r * c + q * (128 * c);
    }
    assert 0 <= q * (128 * c);
    if n >= 128 {
      assert (n - 128) * c >= 0;
    }
  }

  lemma ScaleAtNine(i: nat)
    requires i >= 9
    ensures Scale(i) >= 0x8000_0000_0000_0000
  {
    if i == 9 {
      assert Scale(3) == 128 * 128 * 128;
      assert Scale(6) == 128 * 128 * 128 * Scale(3);
      assert Scale(9) == 128 * 128 * 128 * Scale(6);
    } else {
      ScaleAtNine(i - 1);
    }
  }

  /** A number of two bytes or more never reaches the tenth byte of a `usize`. */
  lemma TenthByteIsLast(n: nat, i: nat)
    requires n >= 128 && n * Scale(i) < USIZE_LIMIT
    ensures i < 9
  {
    if i >= 9 {
      ScaleAtNine(i);
      SplitProduct(n, Scale(i));
      assert false;
    }
  }

  lemma {:induction false} VarintRoundTrip(n: nat, i: nat, acc: nat)
    requires acc + n * Scale(i) < USIZE_LIMIT
    ensures DecodeVarintFrom(EncodeVarint(n), i, acc) == Done(acc + n * Scale(i), [])
  {
    if n >= 128 {
      var c := Scale(i);
      SplitProduct(n, c);
      TenthByteIsLast(n, i);
      var s := EncodeVarint(n);
      var v := acc + n % 128 * c;
      assert s[1..] == EncodeVarint(n / 128);
      assert s[0] as nat % 128 == n % 128;
      assert Scale(i + 1) == 128 * c;
      VarintRoundTrip(n / 128, i + 1, v);
      assert DecodeVarintFrom(s, i, acc) == DecodeVarintFrom(s[1..], i + 1, v);
    }
  }

  /** The varint covers every length of a 64-bit target. */
  lemma VarintCovers(n: nat)
    requires n < 0x1_0000_0000_0000_0000
    ensures Varint().decode(EncodeVarint(n)) == Done(n, [])
  {
    assert n * Scale(0) == n;
    VarintRoundTrip(n, 0, 0);
  }

  /** The varint is a lawful length code, so the theorems over lawful codes are not about nothing. */
  lemma VarintLawful()
    ensures Varint().Lawful()
  {
    var p := Varint().decode;
    forall s
      ensures !p(s).More? ==> |p(s).rest| <= |s| && p(s).rest == s[|s| - |p(s).rest|..]
      ensures p(s).Done? ==> p(s).value < USIZE_LIMIT
    {
      DecodeSuffix(s, 0, 0);
    }
    forall s, t | !p(s).More?
      ensures p(s + t) == p(s).Extend(t)
    {
      DecodeExtends(s, t, 0, 0);
    }
    forall s, b | p(s).More? && !p(s + [b]).More?
      ensures p(s + [b]).rest == []
    {
      DecodeTight(s, b, 0, 0);
    }
    forall n: nat | n < USIZE_LIMIT
      ensures p(EncodeVarint(n)) == Done(n, [])
    {
      VarintRoundTrip(n, 0, 0);
    }
  }
}
