/** Byte strings and the big-endian unsigned integers they denote. */
module Bytes {

  /** An octet, as held in a Node `Buffer`. */
  type Byte = b: int | 0 <= b < 256

  /** `base` raised to the power `e`. */
  function Pow(base: nat, e: nat): (r: nat)
    ensures base >= 1 ==> r >= 1
  {
    if e == 0 then 1 else base * Pow(base, e - 1)
  }

  /** `n` copies of `x`. */
  function Repeat<T>(x: T, n: nat): (r: seq<T>)
    ensures |r| == n
    ensures forall i :: 0 <= i < n ==> r[i] == x
  {
    if n == 0 then [] else [x] + Repeat(x, n - 1)
  }

  lemma {:induction false} PowMonotone(base: nat, e1: nat, e2: nat)
    requires base >= 1 && e1 <= e2
    ensures Pow(base, e1) <= Pow(base, e2)
  {
    if e1 < e2 {
      PowMonotone(base, e1, e2 - 1);
      MulAtLeast(base, Pow(base, e2 - 1));
    }
  }

  /** Two hex digits make one byte: 16^(2k) == 256^k. */
  lemma {:induction false} PowSixteenTwice(k: nat)
    ensures Pow(16, 2 * k) == Pow(256, k)
  {
    if k > 0 {
      PowSixteenTwice(k - 1);
      assert Pow(16, 2 * k) == 16 * (16 * Pow(16, 2 * (k - 1)));
    }
  }

  /** The unsigned integer a byte string denotes, most significant byte first. */
  function BEValue(bs: seq<Byte>): (v: nat)
    ensures v < Pow(256, |bs|)
  {
    if bs == [] then 0
    else
      var high := BEValue(bs[..|bs| - 1]);
      assert high + 1 <= Pow(256, |bs| - 1);
      assert (high + 1) * 256 <= Pow(256, |bs| - 1) * 256;
      high * 256 + bs[|bs| - 1]
  }

  /**
   * The `width`-byte big-endian unsigned encoding of `n`, keeping the low
   * `width` bytes; with width 32 this is how Solidity lays out a `uint256`.
   */
  function BEBytes(n: nat, width: nat): (bs: seq<Byte>)
    ensures |bs| == width
  {
    if width == 0 then [] else BEBytes(n / 256, width - 1) + [n % 256]
  }

  /** Digit `i` of `n` in base 256, counting from the least significant. */
  function Digit(n: nat, i: nat): Byte {
    if i == 0 then n % 256 else Digit(n / 256, i - 1)
  }

  /** Digit `i` is what is left below 256 after dividing by 256^i. */
  lemma {:induction false} DigitDiv(n: nat, i: nat)
    ensures Digit(n, i) == (n / Pow(256, i)) % 256
  {
    if i > 0 {
      DigitDiv(n / 256, i - 1);
      DivDiv(n, 256, Pow(256, i - 1));
    }
  }

  /** Byte k of the encoding is digit `width - 1 - k` of `n` in base 256. */
  lemma {:induction false} BEBytesAt(n: nat, width: nat, k: nat)
    requires k < width
    ensures BEBytes(n, width)[k] == Digit(n, width - 1 - k)
  {
    if k < width - 1 {
      BEBytesAt(n / 256, width - 1, k);
      assert BEBytes(n, width)[k] == BEBytes(n / 256, width - 1)[k];
    }
  }

  lemma DivDiv(n: nat, a: nat, b: nat)
    requires a > 0 && b > 0
    ensures n / a / b == n / (a * b)
  {
    var q, r := n / a, n % a;
    var q2, r2 := q / b, q % b;
    DivDivSplit(n, a, b, q, r, q2, r2);
    DivUnique(n, a * b, q2, a * r2 + r);
  }

  /** The two-step quotient and remainders, regrouped as one division by `a * b`. */
  lemma DivDivSplit(n: nat, a: nat, b: nat, q: nat, r: nat, q2: nat, r2: nat)
    requires n == a * q + r && r < a
    requires q == b * q2 + r2 && r2 < b
    ensures n == (a * b) * q2 + (a * r2 + r) && a * r2 + r < a * b
  {
    assert a * q == (a * b) * q2 + a * r2;
    MulAtLeast(b - r2, a);
  }

  lemma DivUnique(n: nat, d: nat, q: nat, r: nat)
    requires d > 0 && n == d * q + r && r < d
    ensures n / d == q
  {
    var q', r' := n / d, n % d;
    assert n == d * q' + r';
    if q' > q {
      MulAtLeast(q' - q, d);
    } else if q > q' {
      MulAtLeast(q - q', d);
    }
  }

  /** Reading back an encoding that fits gives the number encoded. */
  lemma {:induction false} BEValueOfBEBytes(n: nat, width: nat)
    requires n < Pow(256, width)
    ensures BEValue(BEBytes(n, width)) == n
  {
    if width > 0 {
      var q, r := n / 256, n % 256;
      var p := Pow(256, width - 1);
      assert q < p by { DivBelow(n, 256, p); }
      BEValueOfBEBytes(q, width - 1);
      BEValueSnoc(BEBytes(q, width - 1), r);
      assert BEBytes(n, width) == BEBytes(q, width - 1) + [r];
      assert n == q * 256 + r;
    }
  }

  /** A number below `d * p` has a quotient by `d` below `p`. */
  lemma DivBelow(n: nat, d: nat, p: nat)
    requires d > 0 && n < d * p
    ensures n / d < p
  {
  }

  /** Appending a byte shifts the value up one place: the one-byte case of `BEValueAppend`. */
  lemma BEValueSnoc(bs: seq<Byte>, b: Byte)
    ensures BEValue(bs + [b]) == BEValue(bs) * 256 + b
  {
    assert (bs + [b])[..|bs|] == bs;
  }

  /** Encoding the value of a byte string at its own width gives it back. */
  lemma {:induction false} BEBytesOfBEValue(bs: seq<Byte>)
    ensures BEBytes(BEValue(bs), |bs|) == bs
  {
    if bs != [] {
      var init := bs[..|bs| - 1];
      BEBytesOfBEValue(init);
      var v := BEValue(bs);
      assert v == BEValue(init) * 256 + bs[|bs| - 1];
      assert v / 256 == BEValue(init) && v % 256 == bs[|bs| - 1];
      assert bs == init + [bs[|bs| - 1]];
    }
  }

  /** Byte strings of one width are equal exactly when their values are. */
  lemma BEValueInjective(a: seq<Byte>, b: seq<Byte>)
    requires |a| == |b|
    ensures BEValue(a) == BEValue(b) <==> a == b
  {
    if BEValue(a) == BEValue(b) {
      BEBytesOfBEValue(a);
      BEBytesOfBEValue(b);
    }
  }

  /** Splitting a byte string splits its value positionally. */
  lemma {:induction false} BEValueAppend(a: seq<Byte>, b: seq<Byte>)
    ensures BEValue(a + b) == BEValue(a) * Pow(256, |b|) + BEValue(b)
  {
    if b == [] {
      assert a + b == a;
    } else {
      var init := b[..|b| - 1];
      BEValueAppend(a, init);
      assert (a + b)[..|a + b| - 1] == a + init;
      var x, p, y, z := BEValue(a), Pow(256, |init|), BEValue(init), b[|b| - 1];
      assert BEValue(a + b) == BEValue(a + init) * 256 + z;
      assert BEValue(b) == y * 256 + z;
      assert Pow(256, |b|) == p * 256;
      Regroup(BEValue(a + b), BEValue(a + init), x, p, y, z, Pow(256, |b|), 256);
    }
  }

  /**
   * Appending one digit in base `base` to a value split as `x * p + y`:
   * the split moves up one place.
   */
  lemma Regroup(whole: int, prefix: int, x: int, p: int, y: int, z: int, pNext: int, base: int)
    requires whole == prefix * base + z && prefix == x * p + y && pNext == p * base
    ensures whole == x * pNext + (y * base + z)
  {
  }

  /** A byte string denotes zero exactly when every byte is zero. */
  lemma {:induction false} BEValueZero(bs: seq<Byte>)
    ensures BEValue(bs) == 0 <==> forall k :: 0 <= k < |bs| ==> bs[k] == 0
  {
    if bs != [] {
      var init := bs[..|bs| - 1];
      BEValueZero(init);
      if BEValue(bs) == 0 {
        assert BEValue(init) == 0 && bs[|bs| - 1] == 0;
        forall k | 0 <= k < |bs| ensures bs[k] == 0 {
          if k < |bs| - 1 { assert bs[k] == init[k]; }
        }
      }
    }
  }

  /** The first `j` bytes of `bs` are zero. */
  predicate ZeroPrefix(bs: seq<Byte>, j: nat) {
    forall k :: 0 <= k < j && k < |bs| ==> bs[k] == 0
  }

  /**
   * The first `j` bytes of a big-endian string are all zero exactly when its
   * value fits in the remaining `|bs| - j` bytes.
   */
  lemma LeadingZeroBytes(bs: seq<Byte>, j: nat)
    requires j <= |bs|
    ensures ZeroPrefix(bs, j) <==> BEValue(bs) < Pow(256, |bs| - j)
  {
    var high, low := bs[..j], bs[j..];
    assert bs == high + low;
    BEValueAppend(high, low);
    BEValueZero(high);
    var p := Pow(256, |low|);
    assert BEValue(bs) == BEValue(high) * p + BEValue(low);
    assert ZeroPrefix(bs, j) <==> (forall k :: 0 <= k < |high| ==> high[k] == 0);
    if BEValue(high) >= 1 {
      MulAtLeast(BEValue(high), p);
    }
  }

  /** For an encoding that fits, the first `j` bytes are zero exactly when `n` fits in the other `width - j`. */
  lemma LeadingZerosOfBEBytes(n: nat, width: nat, j: nat)
    requires n < Pow(256, width) && j <= width
    ensures ZeroPrefix(BEBytes(n, width), j) <==> n < Pow(256, width - j)
  {
    BEValueOfBEBytes(n, width);
    LeadingZeroBytes(BEBytes(n, width), j);
  }

  lemma Even(n: nat, k: nat)
    requires n == 2 * k
    ensures n % 2 == 0
  {
  }

  lemma MulAtLeast(a: nat, p: nat)
    requires a >= 1
    ensures a * p >= p
  {
  }

  /** Zero encodes as all zero bytes. */
  lemma {:induction false} BEBytesZero(width: nat)
    ensures BEBytes(0, width) == Repeat<Byte>(0, width)
  {
    if width > 0 {
      BEBytesZero(width - 1);
      assert Repeat<Byte>(0, width) == Repeat<Byte>(0, width - 1) + [0];
    }
  }

  /** An encoding whose value fits in one byte is zeros followed by that byte. */
  lemma SmallBEBytes(n: nat, width: nat)
    requires 0 < width && n < 256
    ensures BEBytes(n, width) == Repeat<Byte>(0, width - 1) + [n]
  {
    assert n / 256 == 0;
    BEBytesZero(width - 1);
  }
}
