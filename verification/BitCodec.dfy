/**
 * Regrouping bits: bytes into digits of five or six bits and back, as RFC 4648 defines base32 and
 * base64, with an accumulator of 32 bits that is never masked. What the loops compute is stated on
 * the bits themselves.
 */
module BitCodec {
  function Pow2(n: nat): (p: nat)
    ensures p > 0
  {
    if n == 0 then 1 else 2 * Pow2(n - 1)
  }

  // ---------------------------------------------------------------- the operators

  /** `x << n`, before it is cut to a word. */
  function Shl(x: nat, n: nat): nat {
    if n == 0 then x else 2 * Shl(x, n - 1)
  }

  /** `x >>> n`. */
  function Shr(x: nat, n: nat): nat {
    if n == 0 then x else Shr(x / 2, n - 1)
  }

  /** The lowest `n` bits: `x & mask`, and with 32 what a word keeps. */
  function Low(x: nat, n: nat): nat {
    if n == 0 then 0 else 2 * Low(x / 2, n - 1) + x % 2
  }

  /** `(value << n) | x` in a word, for `x` of `n` bits. */
  function Pushed(value: nat, x: nat, n: nat): nat {
    Low(Shl(value, n) + x, 32)
  }

  lemma {:induction false} LowIsBelow(x: nat, n: nat)
    ensures Low(x, n) < Pow2(n)
  {
    if n > 0 { LowIsBelow(x / 2, n - 1); }
  }

  lemma {:induction false} HighAndLowParts(x: nat, n: nat)
    ensures x == Shl(Shr(x, n), n) + Low(x, n)
  {
    if n > 0 { HighAndLowParts(x / 2, n - 1); }
  }

  lemma {:induction false} ShlIsTimes(x: nat, n: nat)
    ensures Shl(x, n) == x * Pow2(n)
  {
    if n > 0 { ShlIsTimes(x, n - 1); }
  }

  lemma QuotientAndRemainder(x: nat, p: nat, q: nat, r: nat)
    requires x == q * p + r && r < p
    ensures x / p == q && x % p == r
  {
    OneQuotient(p, q, r, x / p, x % p);
  }

  lemma OneQuotient(p: nat, q: nat, r: nat, q': nat, r': nat)
    requires q * p + r == q' * p + r' && r < p && r' < p
    ensures q == q' && r == r'
  {
    Multiple(p, q, q');
    Multiple(p, q', q);
  }

  lemma Multiple(p: nat, q: nat, q': nat)
    ensures q < q' ==> q * p + p <= q' * p
  {
    if q < q' {
      var d := q' - q - 1;
      assert q' * p == q * p + p + d * p;
    }
  }

  /** The operators are what a word's shifts and masks do to its number: times, quotient and remainder. */
  lemma WordOperators(x: nat, n: nat)
    ensures Shl(x, n) == x * Pow2(n) && Shr(x, n) == x / Pow2(n) && Low(x, n) == x % Pow2(n)
  {
    HighAndLowParts(x, n);
    ShlIsTimes(x, n);
    ShlIsTimes(Shr(x, n), n);
    LowIsBelow(x, n);
    QuotientAndRemainder(x, Pow2(n), Shr(x, n), Low(x, n));
  }

  // ---------------------------------------------------------------- bits

  /** The lowest `k` bits of a number, the highest first. */
  function BitsOf(x: nat, k: nat): (b: seq<nat>)
    ensures |b| == k
  {
    if k == 0 then [] else BitsOf(x / 2, k - 1) + [x % 2]
  }

  /** The bits of a row of numbers, `k` of each. */
  function Bits(xs: seq<nat>, k: nat): seq<nat> {
    if xs == [] then [] else Bits(xs[..|xs| - 1], k) + BitsOf(xs[|xs| - 1], k)
  }

  predicate Below(xs: seq<nat>, k: nat) {
    forall x <- xs :: x < Pow2(k)
  }

  /** The digits say what the bytes say, and fill up the last digit with zeros. */
  ghost predicate Encodes(k: nat, bytes: seq<nat>, digits: seq<nat>) {
    && Below(digits, k)
    && exists pad: nat :: pad < k && Bits(digits, k) == Bits(bytes, 8) + BitsOf(0, pad)
  }

  /** The bytes say what the digits say, but for less than a byte left over. */
  ghost predicate Decodes(k: nat, digits: seq<nat>, bytes: seq<nat>) {
    && Below(bytes, 8)
    && exists rest: seq<nat> :: |rest| < 8 && Bits(digits, k) == Bits(bytes, 8) + rest
  }

  /** Bits above the lowest `k` do not matter. */
  lemma {:induction false} HighBitsIgnored(x: nat, m: nat, k: nat)
    requires k <= m
    ensures BitsOf(Low(x, m), k) == BitsOf(x, k)
  {
    if k > 0 { HighBitsIgnored(x / 2, m - 1, k - 1); }
  }

  /** Two numbers side by side. */
  lemma {:induction false} SideBySide(x: nat, y: nat, i: nat, j: nat)
    requires y < Pow2(j)
    ensures BitsOf(Shl(x, j) + y, i + j) == BitsOf(x, i) + BitsOf(y, j)
  {
    if j > 0 {
      SideBySide(x, y / 2, i, j - 1);
      assert (Shl(x, j) + y) / 2 == Shl(x, j - 1) + y / 2 && (Shl(x, j) + y) % 2 == y % 2;
      assert BitsOf(x, i) + BitsOf(y, j) == (BitsOf(x, i) + BitsOf(y / 2, j - 1)) + [y % 2];
    } else {
      assert BitsOf(x, i) + [] == BitsOf(x, i);
    }
  }

  /** The highest bits are those of the shifted number. */
  lemma {:induction false} HighAndLow(x: nat, i: nat, j: nat)
    ensures BitsOf(x, i + j) == BitsOf(Shr(x, j), i) + BitsOf(x, j)
  {
    if j > 0 {
      HighAndLow(x / 2, i, j - 1);
      assert BitsOf(Shr(x, j), i) + BitsOf(x, j) == (BitsOf(Shr(x, j), i) + BitsOf(x / 2, j - 1)) + [x % 2];
    } else {
      assert BitsOf(x, i) + [] == BitsOf(x, i);
    }
  }

  /** Numbers with the same bits are the same. */
  lemma {:induction false} SameBits(x: nat, y: nat, k: nat)
    requires x < Pow2(k) && y < Pow2(k) && BitsOf(x, k) == BitsOf(y, k)
    ensures x == y
  {
    if k > 0 {
      var a, b := BitsOf(x, k), BitsOf(y, k);
      assert a[..k - 1] == BitsOf(x / 2, k - 1) && b[..k - 1] == BitsOf(y / 2, k - 1);
      assert a[k - 1] == x % 2 && b[k - 1] == y % 2;
      SameBits(x / 2, y / 2, k - 1);
    }
  }

  lemma {:induction false} BitsLength(xs: seq<nat>, k: nat)
    ensures |Bits(xs, k)| == |xs| * k
  {
    if xs != [] {
      BitsLength(xs[..|xs| - 1], k);
      assert |xs| * k == (|xs| - 1) * k + k;
    }
  }

  lemma {:induction false} SameRows(xs: seq<nat>, ys: seq<nat>, k: nat)
    requires Below(xs, k) && Below(ys, k) && |xs| == |ys| && Bits(xs, k) == Bits(ys, k)
    ensures xs == ys
  {
    if xs != [] {
      var n := |xs| - 1;
      BitsLength(xs[..n], k);
      BitsLength(ys[..n], k);
      var a, b := Bits(xs, k), Bits(ys, k);
      assert a[..n * k] == Bits(xs[..n], k) && b[..n * k] == Bits(ys[..n], k);
      assert a[n * k..] == BitsOf(xs[n], k) && b[n * k..] == BitsOf(ys[n], k);
      assert xs[n] in xs && ys[n] in ys;
      SameBits(xs[n], ys[n], k);
      assert (forall x <- xs[..n] :: x in xs) && (forall y <- ys[..n] :: y in ys);
      SameRows(xs[..n], ys[..n], k);
    }
  }

  lemma OneMore(xs: seq<nat>, x: nat, k: nat)
    ensures Bits(xs + [x], k) == Bits(xs, k) + BitsOf(x, k)
  {
    assert (xs + [x])[..|xs|] == xs;
  }

  // ---------------------------------------------------------------- the round trip

  /** Whatever decodes what encodes some bytes is those bytes: for any digits of at most eight bits. */
  lemma RoundTrip(k: nat, bytes: seq<nat>, digits: seq<nat>, back: seq<nat>)
    requires 0 < k <= 8 && Below(bytes, 8) && Encodes(k, bytes, digits) && Decodes(k, digits, back)
    ensures back == bytes
  {
    var pad: nat :| pad < k && Bits(digits, k) == Bits(bytes, 8) + BitsOf(0, pad);
    var rest: seq<nat> :| |rest| < 8 && Bits(digits, k) == Bits(back, 8) + rest;
    BitsLength(bytes, 8);
    BitsLength(back, 8);
    assert |bytes| * 8 + pad == |back| * 8 + |rest|;
    assert |bytes| == |back|;
    assert Bits(bytes, 8) == Bits(digits, k)[..|bytes| * 8] == Bits(back, 8);
    SameRows(bytes, back, 8);
  }

  // ---------------------------------------------------------------- steps of the loops

  lemma Empty(value: nat, k: nat)
    ensures Bits([], k) == [] && BitsOf(value, 0) == []
  {
  }

  /** A number of `n` bits is shifted in below the `bits` waiting; the word never needs masking. */
  lemma ShiftIn(done: seq<nat>, value: nat, bits: nat, x: nat, n: nat)
    requires x < Pow2(n) && bits + n <= 32
    ensures done + BitsOf(Pushed(value, x, n), bits + n) == (done + BitsOf(value, bits)) + BitsOf(x, n)
  {
    HighBitsIgnored(Shl(value, n) + x, 32, bits + n);
    SideBySide(value, x, bits, n);
  }

  /** The highest `n` of the `bits` waiting are taken off. */
  lemma TakeOff(xs: seq<nat>, value: nat, bits: nat, n: nat)
    requires n <= bits && Below(xs, n)
    ensures Below(xs + [Low(Shr(value, bits - n), n)], n)
    ensures Bits(xs + [Low(Shr(value, bits - n), n)], n) + BitsOf(value, bits - n) == Bits(xs, n) + BitsOf(value, bits)
  {
    var top := Low(Shr(value, bits - n), n);
    HighAndLow(value, n, bits - n);
    HighBitsIgnored(Shr(value, bits - n), n, n);
    LowIsBelow(Shr(value, bits - n), n);
    OneMore(xs, top, n);
    assert (Bits(xs, n) + BitsOf(top, n)) + BitsOf(value, bits - n) == Bits(xs, n)
        + (BitsOf(top, n) + BitsOf(value, bits - n));
  }

  /** The last digit is filled up with zeros. */
  lemma FillUp(xs: seq<nat>, value: nat, bits: nat, k: nat)
    requires bits <= k <= 32 && Below(xs, k)
    ensures var last := Low(Pushed(value, 0, k - bits), k);
            Below(xs + [last], k) && Bits(xs + [last], k) == (Bits(xs, k) + BitsOf(value, bits)) + BitsOf(0, k - bits)
  {
    var last := Low(Pushed(value, 0, k - bits), k);
    ShiftIn([], value, bits, 0, k - bits);
    HighBitsIgnored(Pushed(value, 0, k - bits), k, k);
    assert BitsOf(last, k) == BitsOf(value, bits) + BitsOf(0, k - bits) by {
      assert [] + BitsOf(Pushed(value, 0, k - bits), k) == BitsOf(Pushed(value, 0, k - bits), k);
      assert [] + BitsOf(value, bits) == BitsOf(value, bits);
    }
    LowIsBelow(Pushed(value, 0, k - bits), k);
    OneMore(xs, last, k);
    assert Bits(xs, k) + (BitsOf(value, bits) + BitsOf(0, k - bits)) == (Bits(xs, k) + BitsOf(value, bits))
        + BitsOf(0, k - bits);
  }

  lemma NextOf(xs: seq<nat>, i: nat, k: nat)
    requires i < |xs| && Below(xs, k)
    ensures xs[i] < Pow2(k) && Bits(xs[..i + 1], k) == Bits(xs[..i], k) + BitsOf(xs[i], k)
  {
    assert xs[i] in xs && xs[..i + 1] == xs[..i] + [xs[i]];
    OneMore(xs[..i], xs[i], k);
  }

  // ---------------------------------------------------------------- the loops

  /** The loop of both encoders: bytes go in, digits of `k` bits come out. */
  method Regroup(bytes: seq<nat>, k: nat) returns (digits: seq<nat>)
    requires 0 < k <= 8 && Below(bytes, 8)
    ensures Encodes(k, bytes, digits)
  {
    hide Bits, BitsOf, Pow2, Low, Shl, Shr, Pushed;
    var bits: nat, value: nat := 0, 0;
    digits := [];
    Empty(0, k);
    Empty(0, 8);
    for i := 0 to |bytes|
      invariant bits < k && Below(digits, k)
      invariant Bits(digits, k) + BitsOf(value, bits) == Bits(bytes[..i], 8)
    {
      NextOf(bytes, i, 8);
      ShiftIn(Bits(digits, k), value, bits, bytes[i], 8);
      value := Pushed(value, bytes[i], 8);
      bits := bits + 8;
      while bits >= k
        invariant bits < k + 8 && Below(digits, k)
        invariant Bits(digits, k) + BitsOf(value, bits) == Bits(bytes[..i + 1], 8)
      {
        TakeOff(digits, value, bits, k);
        digits := digits + [Low(Shr(value, bits - k), k)];
        bits := bits - k;
      }
    }
    assert bytes[..|bytes|] == bytes;
    if bits > 0 {
      FillUp(digits, value, bits, k);
      digits := digits + [Low(Pushed(value, 0, k - bits), k)];
      assert Bits(digits, k) == Bits(bytes, 8) + BitsOf(0, k - bits);
    } else {
      Empty(0, k);
      Empty(value, k);
      assert Bits(digits, k) == Bits(bytes, 8) + BitsOf(0, 0);
    }
  }

  /** The loop of both decoders: digits go in, bytes come out, into a buffer of just the room there can be. */
  method Ungroup(digits: seq<nat>, k: nat) returns (bytes: seq<nat>)
    requires 0 < k <= 8 && Below(digits, k)
    ensures Decodes(k, digits, bytes)
  {
    hide Bits, BitsOf, Pow2, Low, Shl, Shr, Pushed, Below;
    var out := new nat[|digits| * k / 8];
    var bits: nat, value: nat, n: nat := 0, 0, 0;
    Empty(0, 8);
    Empty(0, k);
    NothingIsBelow(8);
    for i := 0 to |digits|
      invariant bits < 8 && n * 8 + bits == i * k && n <= out.Length
      invariant Below(out[..n], 8)
      invariant Bits(out[..n], 8) + BitsOf(value, bits) == Bits(digits[..i], k)
    {
      ghost var done := out[..n];
      NextOf(digits, i, k);
      ShiftIn(Bits(done, 8), value, bits, digits[i], k);
      Room(i, |digits|, k);
      value := Pushed(value, digits[i], k);
      bits := bits + k;
      if bits >= 8 {
        TakeOff(done, value, bits, 8);
        bits := bits - 8;
        out[n] := Low(Shr(value, bits), 8);
        n := n + 1;
        assert out[..n] == done + [Low(Shr(value, bits), 8)];
      }
    }
    assert digits[..|digits|] == digits;
    bytes := out[..n];
  }

  lemma NothingIsBelow(k: nat)
    ensures Below([], k)
  {
  }

  lemma Room(i: nat, all: nat, k: nat)
    requires i < all
    ensures (i + 1) * k == i * k + k && (i + 1) * k <= all * k
  {
  }
}
