/** Little-endian bitfields. */
module Bitfields {
  import opened Merkle
  import opened Bytes

  /** `get_bit`: bit `i % 8` of byte `i / 8`, clear past the end. */
  predicate GetBit(bits: seq<Byte>, i: nat)
  {
    i / 8 < |bits| && High(bits[i / 8], i % 8) % 2 == 1
  }

  /** Higher multiples leave a binary digit alone. */
  lemma {:induction false} DigitOfSum(low: nat, high: nat, w: nat, i: nat)
    requires i < w
    ensures High(low + Pow2(w) * high, i) % 2 == High(low, i) % 2
    decreases i
  {
    var n := low + Pow2(w) * high;
    Doubled(Pow2(w - 1), high);
    assert n / 2 == low / 2 + Pow2(w - 1) * high && n % 2 == low % 2;
    if i > 0 {
      DigitOfSum(low / 2, high, w - 1, i - 1);
    }
  }

  lemma {:induction false} HighAdds(n: nat, a: nat, b: nat)
    ensures High(n, a + b) == High(High(n, a), b)
    decreases a
  {
    if a > 0 {
      HighAdds(n / 2, a - 1, b);
    }
  }

  lemma EightDigits(n: nat)
    ensures High(n, 8) == n / 256 && Pow2(8) == 256
  {
    assert High(n, 8) == High(n / 2, 7) == High(n / 2 / 2, 6) == High(n / 2 / 2 / 2, 5) == High(n / 2 / 2 / 2 / 2, 4);
    var m := n / 2 / 2 / 2 / 2;
    assert High(m, 4) == High(m / 2, 3) == High(m / 2 / 2, 2) == High(m / 2 / 2 / 2, 1) == m / 2 / 2 / 2 / 2;
  }

  lemma {:induction false} NoDigits(i: nat)
    ensures High(0, i) == 0
  {
    if i > 0 {
      NoDigits(i - 1);
    }
  }

  /** A bitfield's bits are the binary digits of the integer its bytes spell, lowest first. */
  lemma {:induction false} BitIsDigit(bits: seq<Byte>, i: nat)
    ensures GetBit(bits, i) <==> High(FromLe(bits), i) % 2 == 1
    decreases |bits|
  {
    if bits == [] {
      NoDigits(i);
    } else {
      var first, rest: nat := bits[0], FromLe(bits[1..]);
      EightDigits(first + 256 * rest);
      if i < 8 {
        DigitOfSum(first, rest, 8, i);
      } else {
        BitIsDigit(bits[1..], i - 8);
        HighAdds(first + 256 * rest, 8, i - 8);
        assert (first + 256 * rest) / 256 == rest;
        assert i / 8 == (i - 8) / 8 + 1 && i % 8 == (i - 8) % 8;
      }
    }
  }
}
