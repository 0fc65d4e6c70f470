/**
 * Hexadecimal text and bytes, as the JavaScript runtime handles them:
 * `Number.prototype.toString(16)`, `String.prototype.padStart` and Node's
 * `Buffer.from(text, 'hex')`.
 */
module Hex {
  import opened Bytes

  predicate IsHexDigit(c: char) {
    '0' <= c <= '9' || 'a' <= c <= 'f' || 'A' <= c <= 'F'
  }

  /** The digits `toString(16)` emits: never upper case. */
  predicate IsLowerHexDigit(c: char) {
    '0' <= c <= '9' || 'a' <= c <= 'f'
  }

  predicate AllHex(s: string) {
    forall i :: 0 <= i < |s| ==> IsHexDigit(s[i])
  }

  function DigitValue(c: char): (d: nat)
    requires IsHexDigit(c)
    ensures d < 16
  {
    if '0' <= c <= '9' then c as int - '0' as int
    else if 'a' <= c <= 'f' then c as int - 'a' as int + 10
    else c as int - 'A' as int + 10
  }

  /** The lower-case digit for `d`; the inverse of `DigitValue`. */
  function DigitChar(d: nat): (c: char)
    requires d < 16
    ensures IsLowerHexDigit(c) && IsHexDigit(c) && DigitValue(c) == d
  {
    if d < 10 then ('0' as int + d) as char else ('a' as int + d - 10) as char
  }

  /** ASCII lower-casing, used to say when two texts differ only in letter case. */
  function CaseFold(c: char): char {
    if 'A' <= c <= 'Z' then (c as int + 32) as char else c
  }

  /** Two hex digits have the same value exactly when they are the same letter up to case. */
  lemma SameDigitValue(c: char, d: char)
    requires IsHexDigit(c) && IsHexDigit(d)
    ensures DigitValue(c) == DigitValue(d) <==> CaseFold(c) == CaseFold(d)
  {
  }

  lemma CaseFoldKeepsDigit(c: char, d: char)
    requires CaseFold(c) == CaseFold(d)
    ensures IsHexDigit(c) <==> IsHexDigit(d)
    ensures IsHexDigit(c) ==> DigitValue(c) == DigitValue(d)
  {
  }

  /** Characters `2k` and `2k + 1` of `s` exist and are both hex digits. */
  predicate HexPairAt(s: string, k: nat) {
    2 * k + 1 < |s| && IsHexDigit(s[2 * k]) && IsHexDigit(s[2 * k + 1])
  }

  /** The byte spelled by the `k`-th digit pair, high nibble first. */
  function PairValue(s: string, k: nat): Byte
    requires HexPairAt(s, k)
  {
    16 * DigitValue(s[2 * k]) + DigitValue(s[2 * k + 1])
  }

  /** Dropping the first two characters shifts the pairs down by one. */
  lemma PairShift(s: string, k: nat)
    requires |s| >= 2
    ensures HexPairAt(s, k + 1) <==> HexPairAt(s[2..], k)
    ensures HexPairAt(s, k + 1) ==> PairValue(s, k + 1) == PairValue(s[2..], k)
  {
    if 2 * k + 3 < |s| {
      assert s[2 * (k + 1)] == s[2..][2 * k] && s[2 * (k + 1) + 1] == s[2..][2 * k + 1];
    }
  }

  /**
   * Node's `Buffer.from(s, 'hex')`. Byte k is read from the digit pair at
   * characters 2k and 2k + 1, of either case, high nibble first. Decoding
   * stops, without error, at the first pair that is not two hex digits, and
   * an unpaired final digit is dropped.
   */
  function DecodeHex(s: string): (bs: seq<Byte>)
    ensures 2 * |bs| <= |s|
    ensures forall k: nat :: k < |bs| ==> HexPairAt(s, k) && bs[k] == PairValue(s, k)
    ensures !HexPairAt(s, |bs|)
    ensures AllHex(s) ==> |bs| == |s| / 2
    decreases |s|
  {
    if |s| < 2 || !IsHexDigit(s[0]) || !IsHexDigit(s[1]) then []
    else
      var rest := DecodeHex(s[2..]);
      var bs := [PairValue(s, 0)] + rest;
      assert HexPairAt(s, 0) && bs[0] == PairValue(s, 0);
      assert forall k: nat :: 1 <= k < |bs| ==> HexPairAt(s, k) && bs[k] == PairValue(s, k) by {
        forall k: nat | 1 <= k < |bs| ensures HexPairAt(s, k) && bs[k] == PairValue(s, k) {
          assert bs[k] == rest[k - 1];
          PairShift(s, k - 1);
        }
      }
      PairShift(s, |rest|);
      assert AllHex(s) ==> AllHex(s[2..]);
      bs
  }

  /**
   * The contract of `DecodeHex` pins its result down: any byte string read
   * pair by pair from `s` that stops at the first position without a pair is
   * the decoding of `s`.
   */
  lemma DecodeHexUnique(s: string, bs: seq<Byte>)
    requires forall k: nat :: k < |bs| ==> HexPairAt(s, k) && bs[k] == PairValue(s, k)
    requires !HexPairAt(s, |bs|)
    ensures bs == DecodeHex(s)
  {
  }

  /** A text that does not start with a digit pair decodes to nothing. */
  lemma NoLeadingPair(s: string)
    requires !HexPairAt(s, 0)
    ensures DecodeHex(s) == []
  {
  }

  /** Decoding a well-formed even-length prefix does not interact with what follows. */
  lemma DecodeHexAppend(a: string, b: string)
    requires AllHex(a) && |a| % 2 == 0
    ensures DecodeHex(a + b) == DecodeHex(a) + DecodeHex(b)
  {
    var ab, x, y := a + b, DecodeHex(a), DecodeHex(b);
    var m := |x|;
    assert |a| == 2 * m;
    forall k: nat | k < m + |y| ensures HexPairAt(ab, k) && (x + y)[k] == PairValue(ab, k) {
      if k < m {
        PairInPrefix(a, b, k);
        assert (x + y)[k] == x[k];
      } else {
        PairInSuffix(a, b, m, k - m);
        assert (x + y)[k] == y[k - m];
      }
    }
    PairInSuffix(a, b, m, |y|);
    DecodeHexUnique(ab, x + y);
  }

  /** A digit pair inside `a` is the same pair of `a + b`. */
  lemma PairInPrefix(a: string, b: string, k: nat)
    requires 2 * k + 1 < |a|
    ensures HexPairAt(a + b, k) == HexPairAt(a, k)
    ensures HexPairAt(a, k) ==> PairValue(a + b, k) == PairValue(a, k)
  {
    assert (a + b)[2 * k] == a[2 * k] && (a + b)[2 * k + 1] == a[2 * k + 1];
  }

  /** Past an even-length `a` of `m` pairs, pair `m + j` of `a + b` is pair `j` of `b`. */
  lemma PairInSuffix(a: string, b: string, m: nat, j: nat)
    requires |a| == 2 * m
    ensures HexPairAt(a + b, m + j) == HexPairAt(b, j)
    ensures HexPairAt(b, j) ==> PairValue(a + b, m + j) == PairValue(b, j)
  {
    if 2 * j + 1 < |b| {
      assert (a + b)[2 * (m + j)] == b[2 * j] && (a + b)[2 * (m + j) + 1] == b[2 * j + 1];
    }
  }

  /** Decoding stops where the digit pairs stop: text after a well-formed even-length prefix that does not start with a pair is ignored. */
  lemma DecodeHexStopsAt(a: string, b: string)
    requires AllHex(a) && |a| % 2 == 0 && !HexPairAt(b, 0)
    ensures DecodeHex(a + b) == DecodeHex(a)
  {
    DecodeHexAppend(a, b);
    NoLeadingPair(b);
  }

  /** Decoding ignores letter case: texts equal up to case decode to the same bytes. */
  lemma {:induction false} DecodeHexCaseInsensitive(s: string, t: string)
    requires |s| == |t|
    requires forall i :: 0 <= i < |s| ==> CaseFold(s[i]) == CaseFold(t[i])
    ensures DecodeHex(s) == DecodeHex(t)
  {
    if |s| >= 2 {
      CaseFoldKeepsDigit(s[0], t[0]);
      CaseFoldKeepsDigit(s[1], t[1]);
      DecodeHexCaseInsensitive(s[2..], t[2..]);
    }
  }

  /**
   * Conversely, two well-formed texts of one even length decode to the same
   * bytes only when they agree digit by digit up to case.
   */
  lemma DecodeHexInjective(s: string, t: string)
    requires AllHex(s) && AllHex(t) && |s| == |t| && |s| % 2 == 0
    ensures DecodeHex(s) == DecodeHex(t) <==> forall i :: 0 <= i < |s| ==> CaseFold(s[i]) == CaseFold(t[i])
  {
    if DecodeHex(s) == DecodeHex(t) {
      forall i | 0 <= i < |s| ensures CaseFold(s[i]) == CaseFold(t[i]) {
        SameDecodedDigit(s, t, i);
      }
    } else {
      if forall i :: 0 <= i < |s| ==> CaseFold(s[i]) == CaseFold(t[i]) {
        DecodeHexCaseInsensitive(s, t);
      }
    }
  }

  /** Texts that decode alike agree, up to case, on each digit of their pairs. */
  lemma SameDecodedDigit(s: string, t: string, i: nat)
    requires AllHex(s) && AllHex(t) && |s| == |t| && |s| % 2 == 0 && i < |s|
    requires DecodeHex(s) == DecodeHex(t)
    ensures CaseFold(s[i]) == CaseFold(t[i])
  {
    var k := i / 2;
    assert i == 2 * k || i == 2 * k + 1;
    assert PairValue(s, k) == PairValue(t, k) by {
      assert DecodeHex(s)[k] == DecodeHex(t)[k];
    }
    SplitPair(DigitValue(s[2 * k]), DigitValue(s[2 * k + 1]), DigitValue(t[2 * k]), DigitValue(t[2 * k + 1]));
    SameDigitValue(s[2 * k], t[2 * k]);
    SameDigitValue(s[2 * k + 1], t[2 * k + 1]);
  }

  /** A byte determines its two digits. */
  lemma SplitPair(a: nat, b: nat, c: nat, d: nat)
    requires a < 16 && b < 16 && c < 16 && d < 16 && 16 * a + b == 16 * c + d
    ensures a == c && b == d
  {
  }

  /** The number a string of hex digits denotes, most significant digit first. */
  function HexValue(s: string): (v: nat)
    requires AllHex(s)
    ensures v < Pow(16, |s|)
  {
    if s == [] then 0
    else
      var high := HexValue(s[..|s| - 1]);
      assert (high + 1) * 16 <= Pow(16, |s| - 1) * 16;
      high * 16 + DigitValue(s[|s| - 1])
  }

  /** Splitting a digit string splits its value positionally. */
  lemma {:induction false} HexValueAppend(a: string, b: string)
    requires AllHex(a) && AllHex(b)
    ensures AllHex(a + b)
    ensures HexValue(a + b) == HexValue(a) * Pow(16, |b|) + HexValue(b)
  {
    var ab := a + b;
    AllHexAppend(a, b);
    if b == [] {
      assert ab == a;
    } else {
      var init := b[..|b| - 1];
      assert AllHex(init);
      HexValueAppend(a, init);
      assert ab[..|ab| - 1] == a + init && ab[|ab| - 1] == b[|b| - 1];
      HexValueSnoc(ab);
      HexValueSnoc(b);
      assert Pow(16, |b|) == Pow(16, |init|) * 16;
      Regroup(HexValue(ab), HexValue(a + init), HexValue(a), Pow(16, |init|), HexValue(init),
        DigitValue(b[|b| - 1]), Pow(16, |b|), 16);
    }
  }

  lemma AllHexAppend(a: string, b: string)
    requires AllHex(a) && AllHex(b)
    ensures AllHex(a + b)
  {
    var ab := a + b;
    forall i | 0 <= i < |ab| ensures IsHexDigit(ab[i]) {
      if i < |a| { assert ab[i] == a[i]; } else { assert ab[i] == b[i - |a|]; }
    }
  }

  lemma HexValueSnoc(s: string)
    requires AllHex(s) && s != []
    ensures AllHex(s[..|s| - 1])
    ensures HexValue(s) == HexValue(s[..|s| - 1]) * 16 + DigitValue(s[|s| - 1])
  {
  }

  /** Leading zero digits do not change the value. */
  lemma LeadingZeroDigits(m: nat, s: string)
    requires AllHex(s)
    ensures AllHex(Repeat('0', m) + s)
    ensures HexValue(Repeat('0', m) + s) == HexValue(s)
  {
    ZeroDigits(m);
    HexValueAppend(Repeat('0', m), s);
  }

  lemma {:induction false} ZeroDigits(m: nat)
    ensures AllHex(Repeat('0', m)) && HexValue(Repeat('0', m)) == 0
  {
    if m > 0 {
      ZeroDigits(m - 1);
      assert Repeat('0', m)[..m - 1] == Repeat('0', m - 1);
    }
  }

  /** Decoding a well-formed even-length text preserves the number it spells. */
  lemma {:induction false} BEValueOfDecodeHex(s: string)
    requires AllHex(s) && |s| % 2 == 0
    ensures BEValue(DecodeHex(s)) == HexValue(s)
  {
    if s != [] {
      var init := s[..|s| - 2];
      assert AllHex(init) && |init| % 2 == 0 by { Even(|init|, |s| / 2 - 1); }
      BEValueOfDecodeHex(init);
      var b := LastPair(s);
      BEValueSnoc(DecodeHex(init), b);
    }
  }

  /** The last digit pair of a well-formed even-length text is its last byte and its lowest base-256 place. */
  lemma LastPair(s: string) returns (b: Byte)
    requires AllHex(s) && |s| >= 2 && |s| % 2 == 0
    ensures DecodeHex(s) == DecodeHex(s[..|s| - 2]) + [b]
    ensures HexValue(s) == HexValue(s[..|s| - 2]) * 256 + b
  {
    var n := |s|;
    var init, pair, s1 := s[..n - 2], s[n - 2..], s[..n - 1];
    var b' := PairOfTwo(pair);
    b := PairValue(pair, 0);
    assert DecodeHex(s) == DecodeHex(init) + [b] by {
      assert s == init + pair;
      assert AllHex(init) && |init| % 2 == 0 by { Even(|init|, n / 2 - 1); }
      DecodeHexAppend(init, pair);
    }
    assert HexValue(s) == HexValue(s1) * 16 + DigitValue(s[n - 1]) by { HexValueSnoc(s); }
    assert HexValue(s1) == HexValue(init) * 16 + DigitValue(s[n - 2]) by {
      assert s1[..n - 2] == init;
      HexValueSnoc(s1);
    }
  }

  /** A well-formed even-length text decodes to the big-endian encoding of the number it spells. */
  lemma DecodeHexBigEndian(s: string, n: nat)
    requires AllHex(s) && |s| == 2 * n
    ensures DecodeHex(s) == BEBytes(HexValue(s), n)
  {
    var bs := DecodeHex(s);
    BEValueOfDecodeHex(s);
    BEBytesOfBEValue(bs);
  }

  /** `2n` copies of one digit `d` decode to `n` copies of the byte 0xdd. */
  lemma DecodeRepeatedDigit(d: char, n: nat)
    requires IsHexDigit(d)
    ensures DecodeHex(Repeat(d, 2 * n)) == Repeat<Byte>(17 * DigitValue(d), n)
  {
    var s := Repeat(d, 2 * n);
    var bs := DecodeHex(s);
    assert AllHex(s);
    forall k | 0 <= k < n ensures bs[k] == 17 * DigitValue(d) {
      assert HexPairAt(s, k) && bs[k] == PairValue(s, k);
    }
  }

  /** A two-digit text decodes to one byte and spells that byte's value. */
  lemma PairOfTwo(pair: string) returns (b: Byte)
    requires |pair| == 2 && AllHex(pair)
    ensures DecodeHex(pair) == [b] && HexValue(pair) == b
  {
    b := PairValue(pair, 0);
    assert pair[2..] == [];
    assert pair[..1][..0] == [];
  }

  /**
   * `Number.prototype.toString(16)` on a non-negative integer: lower-case
   * digits, no leading zero, and "0" for zero.
   */
  function ToHex(n: nat): (s: string)
    ensures |s| >= 1 && AllHex(s)
    ensures forall i :: 0 <= i < |s| ==> IsLowerHexDigit(s[i])
    ensures HexValue(s) == n
    ensures s[0] == '0' <==> n == 0
    ensures n == 0 ==> s == "0"
  {
    if n < 16 then [DigitChar(n)]
    else
      var high := ToHex(n / 16);
      var s := high + [DigitChar(n % 16)];
      assert s[..|s| - 1] == high;
      s
  }

  /** `toString(16)` fits in `w` digits exactly when the number is below 16^w. */
  lemma {:induction false} ToHexLength(n: nat, w: nat)
    requires w >= 1
    ensures |ToHex(n)| <= w <==> n < Pow(16, w)
  {
    if n < 16 {
      PowMonotone(16, 1, w);
    } else if w == 1 {
      assert |ToHex(n)| == |ToHex(n / 16)| + 1;
    } else {
      ToHexLength(n / 16, w - 1);
      assert |ToHex(n)| == |ToHex(n / 16)| + 1;
      assert Pow(16, w) == 16 * Pow(16, w - 1);
    }
  }

  /**
   * JavaScript's `s.padStart(width, fill)` with a one-character fill: fills
   * on the left up to `width` and never shortens `s`.
   */
  function PadStart(s: string, width: nat, fill: char): (r: string)
    ensures |r| == if |s| >= width then |s| else width
    ensures r[|r| - |s|..] == s
    ensures forall i :: 0 <= i < |r| - |s| ==> r[i] == fill
  {
    if |s| >= width then s else Repeat(fill, width - |s|) + s
  }

  /** 16^k is written with k + 1 digits. */
  lemma PowerDigits(k: nat)
    ensures |ToHex(Pow(16, k))| == k + 1
  {
    var n := Pow(16, k);
    assert Pow(16, k + 1) == 16 * n;
    ToHexLength(n, k + 1);
    if k > 0 {
      ToHexLength(n, k);
    }
  }

  /**
   * Padding `toString(16)` of a number below 16^w to w >= 1 digits gives
   * exactly w digits, zeros prepended, spelling the same number.
   */
  lemma PaddedToHex(n: nat, w: nat)
    requires w >= 1 && n < Pow(16, w)
    ensures |PadStart(ToHex(n), w, '0')| == w
    ensures PadStart(ToHex(n), w, '0') == Repeat('0', w - |ToHex(n)|) + ToHex(n)
    ensures AllHex(PadStart(ToHex(n), w, '0')) && HexValue(PadStart(ToHex(n), w, '0')) == n
  {
    ToHexLength(n, w);
    PaddedDigits(ToHex(n), w);
  }

  /** Padding a digit string with '0' up to `w` prepends zeros and keeps its value. */
  lemma PaddedDigits(h: string, w: nat)
    requires AllHex(h) && |h| <= w
    ensures PadStart(h, w, '0') == Repeat('0', w - |h|) + h
    ensures AllHex(PadStart(h, w, '0')) && HexValue(PadStart(h, w, '0')) == HexValue(h)
  {
    var z := Repeat('0', w - |h|);
    if |h| == w {
      assert z == [];
      assert z + h == h;
    }
    LeadingZeroDigits(w - |h|, h);
  }
}
