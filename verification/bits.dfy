/** Binary digit strings, most significant bit first, as produced by Python's `bin`. */
module Bits {

  function Pow2(n: nat): (r: nat)
    ensures r >= 1
  {
    if n == 0 then 1 else 2 * Pow2(n - 1)
  }

  predicate IsBit(c: char) {
    c == '0' || c == '1'
  }

  predicate IsBinary(s: string) {
    forall i :: 0 <= i < |s| ==> IsBit(s[i])
  }

  function BitChar(b: nat): (c: char)
    requires b < 2
    ensures IsBit(c)
  {
    if b == 0 then '0' else '1'
  }

  function BitValue(c: char): (b: nat)
    requires IsBit(c)
    ensures b < 2 && BitChar(b) == c
  {
    if c == '0' then 0 else 1
  }

  /** The value of a binary string read most significant bit first. */
  function FromBits(s: string): (v: nat)
    requires IsBinary(s)
  {
    if |s| == 0 then 0 else 2 * FromBits(s[..|s| - 1]) + BitValue(s[|s| - 1])
  }

  /** `bin(n)[2:]`: the shortest binary spelling of `n`, which is "0" for zero. */
  function ToBinary(n: nat): (r: string)
    ensures 1 <= |r|
    ensures IsBinary(r)
    ensures FromBits(r) == n
  {
    if n < 2 then [BitChar(n)]
    else
      var r := ToBinary(n / 2) + [BitChar(n % 2)];
      assert r[..|r| - 1] == ToBinary(n / 2);
      r
  }

  function Zeros(k: nat): (r: string)
    ensures |r| == k
    ensures IsBinary(r) && FromBits(r) == 0
  {
    if k == 0 then [] else
      var r := Zeros(k - 1) + ['0'];
      assert r[..|r| - 1] == Zeros(k - 1);
      r
  }

  /** `bin_extend(num, cnt)`: the binary spelling of `num`, left-padded with '0'
      up to `cnt` characters. A number too wide for `cnt` is not truncated. */
  function BinExtend(num: nat, cnt: nat): (r: string)
    ensures IsBinary(r)
    ensures FromBits(r) == num
    ensures 1 <= cnt && num < Pow2(cnt) ==> |r| == cnt
    ensures num >= Pow2(cnt) ==> |r| > cnt
  {
    var st := ToBinary(num);
    var r := Zeros(if cnt > |st| then cnt - |st| else 0) + st;
    FromBitsAppend(Zeros(if cnt > |st| then cnt - |st| else 0), st);
    if 1 <= cnt && num < Pow2(cnt) then
      BinaryLengthBound(num, cnt);
      r
    else if num >= Pow2(cnt) then
      BinaryLengthLower(num, cnt);
      r
    else r
  }

  lemma {:induction false} Pow2Monotone(a: nat, b: nat)
    requires a <= b
    ensures Pow2(a) <= Pow2(b)
    decreases b
  {
    if a < b {
      Pow2Monotone(a, b - 1);
    }
  }

  /** Reading a concatenation shifts the first part left by the length of the second. */
  lemma {:induction false} FromBitsAppend(a: string, b: string)
    requires IsBinary(a) && IsBinary(b)
    ensures IsBinary(a + b)
    ensures FromBits(a + b) == FromBits(a) * Pow2(|b|) + FromBits(b)
    decreases |b|
  {
    var ab := a + b;
    if |b| == 0 {
      assert ab == a;
    } else {
      var b' := b[..|b| - 1];
      var bit := BitValue(b[|b| - 1]);
      assert ab[..|ab| - 1] == a + b';
      FromBitsAppend(a, b');
      ShiftStep(FromBits(a), Pow2(|b'|), FromBits(b'), bit);
    }
  }

  lemma ShiftStep(x: int, p: int, y: int, bit: int)
    ensures 2 * (x * p + y) + bit == x * (2 * p) + (2 * y + bit)
  {
  }

  /** A binary string of length k spells a number below 2^k. */
  lemma {:induction false} FromBitsBound(s: string)
    requires IsBinary(s)
    ensures FromBits(s) < Pow2(|s|)
    decreases |s|
  {
    if |s| > 0 {
      FromBitsBound(s[..|s| - 1]);
    }
  }

  /** A number below 2^k (k >= 1) has a binary spelling of at most k digits. */
  lemma {:induction false} BinaryLengthBound(n: nat, k: nat)
    requires 1 <= k && n < Pow2(k)
    ensures |ToBinary(n)| <= k
    decreases n
  {
    if n >= 2 {
      assert Pow2(1) == 2;
      assert k >= 2;
      BinaryLengthBound(n / 2, k - 1);
    }
  }

  /** A number of at least 2^k has a binary spelling longer than k digits. */
  lemma BinaryLengthLower(n: nat, k: nat)
    requires n >= Pow2(k)
    ensures |ToBinary(n)| > k
  {
    FromBitsBound(ToBinary(n));
    if |ToBinary(n)| <= k {
      Pow2Monotone(|ToBinary(n)|, k);
    }
  }

  /** Two binary strings of the same length that spell the same number are equal. */
  lemma {:induction false} FromBitsInjective(s: string, t: string)
    requires IsBinary(s) && IsBinary(t) && |s| == |t|
    requires FromBits(s) == FromBits(t)
    ensures s == t
    decreases |s|
  {
    if |s| > 0 {
      var n := |s| - 1;
      assert BitValue(s[n]) == BitValue(t[n]);
      FromBitsInjective(s[..n], t[..n]);
      assert s == s[..n] + [s[n]];
      assert t == t[..n] + [t[n]];
    }
  }

  /** Padding a binary string's value back to its own width gives the string back. */
  lemma BinExtendFromBits(s: string)
    requires IsBinary(s) && 1 <= |s|
    ensures BinExtend(FromBits(s), |s|) == s
  {
    FromBitsBound(s);
    FromBitsInjective(BinExtend(FromBits(s), |s|), s);
  }
}
