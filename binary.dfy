/** Binary digit sequences, least significant digit first, and the ripple-carry
    counter the pattern explorer increments in place. */
module Binary {

  /** 2 to the power k. */
  function Pow2(k: nat): (p: nat)
    ensures p >= 1
  {
    if k == 0 then 1 else 2 * Pow2(k - 1)
  }

  /** Every digit is 0 or 1. */
  predicate IsBinary(s: seq<int>)
  {
    forall i :: 0 <= i < |s| ==> s[i] == 0 || s[i] == 1
  }

  /** The number a digit sequence stands for, digit 0 being the least significant. */
  function Value(s: seq<int>): int
  {
    if s == [] then 0 else s[0] + 2 * Value(s[1..])
  }

  /** The `len` least significant binary digits of k, least significant first. */
  function Digits(k: nat, len: nat): (d: seq<int>)
    ensures |d| == len && IsBinary(d)
  {
    if len == 0 then [] else [k % 2] + Digits(k / 2, len - 1)
  }

  lemma {:induction false} Pow2Monotone(i: nat, j: nat)
    requires i <= j
    ensures Pow2(i) <= Pow2(j)
  {
    if i < j {
      Pow2Monotone(i, j - 1);
    }
  }

  /** Reading back the digits of k gives k, for every k that fits in `len` digits. */
  lemma {:induction false} ValueOfDigits(k: nat, len: nat)
    requires k < Pow2(len)
    ensures Value(Digits(k, len)) == k
  {
    if len > 0 {
      ValueOfDigits(k / 2, len - 1);
      assert Digits(k, len)[1..] == Digits(k / 2, len - 1);
    }
  }

  /** A binary sequence is the digit expansion of its own value, and that value
      lies in [0, 2^|s|). */
  lemma {:induction false} DigitsOfValue(s: seq<int>)
    requires IsBinary(s)
    ensures 0 <= Value(s) < Pow2(|s|)
    ensures Digits(Value(s), |s|) == s
  {
    if s != [] {
      assert IsBinary(s[1..]);
      DigitsOfValue(s[1..]);
      assert s == [s[0]] + s[1..];
    }
  }

  /** Different numbers below 2^len have different expansions. */
  lemma DigitsInjective(a: nat, b: nat, len: nat)
    requires a < Pow2(len) && b < Pow2(len)
    ensures Digits(a, len) == Digits(b, len) <==> a == b
  {
    ValueOfDigits(a, len);
    ValueOfDigits(b, len);
  }

  /** Zero is the only number below 2^len whose expansion has no 1 digit. */
  lemma {:induction false} DigitsHaveOne(k: nat, len: nat)
    requires 0 < k < Pow2(len)
    ensures exists i :: 0 <= i < len && Digits(k, len)[i] == 1
  {
    if k % 2 == 1 {
      assert Digits(k, len)[0] == 1;
    } else {
      DigitsHaveOne(k / 2, len - 1);
      var i :| 0 <= i < len - 1 && Digits(k / 2, len - 1)[i] == 1;
      assert Digits(k, len)[i + 1] == 1;
    }
  }

  /** The largest number that fits in `len` digits is written with ones only. */
  lemma {:induction false} DigitsAllOnes(len: nat)
    ensures Digits(Pow2(len) - 1, len) == seq(len, _ => 1)
  {
    if len > 0 {
      DigitsAllOnes(len - 1);
      assert (Pow2(len) - 1) / 2 == Pow2(len - 1) - 1;
    }
  }

  /** Zero is written with zeros only. */
  lemma {:induction false} DigitsOfZero(len: nat)
    ensures Digits(0, len) == seq(len, _ => 0)
  {
    if len > 0 {
      DigitsOfZero(len - 1);
    }
  }

  /** A positive multiple of d is at least d. */
  lemma {:induction false} MultipleAtLeast(d: nat, e: nat)
    requires e >= 1
    ensures d * e >= d
  {
    if e > 1 {
      MultipleAtLeast(d, e - 1);
      assert d * e == d * (e - 1) + d;
    }
  }

  /** k = d * q + r with 0 <= r < d determines the quotient. */
  lemma DivUnique(k: int, d: nat, q: int, r: int)
    requires d > 0 && 0 <= r < d && k == d * q + r
    ensures k / d == q
  {
    var q0, r0 := k / d, k % d;
    assert d * q0 + r0 == k;
    assert d * (q - q0) == r0 - r;
    if q > q0 {
      MultipleAtLeast(d, q - q0);
    } else if q < q0 {
      MultipleAtLeast(d, q0 - q);
    }
  }

  /** Halving, then dividing by b, is dividing by 2b. */
  lemma HalfThenDivide(k: nat, b: nat)
    requires b >= 1
    ensures (k / 2) / b == k / (2 * b)
  {
    var h := k / 2;
    var q := h / b;
    assert k == (2 * b) * q + (2 * (h % b) + k % 2);
    DivUnique(k, 2 * b, q, 2 * (h % b) + k % 2);
  }

  /** Digit i of the expansion of k is bit i of k. */
  lemma {:induction false} DigitAt(k: nat, len: nat, i: nat)
    requires i < len
    ensures Digits(k, len)[i] == (k / Pow2(i)) % 2
  {
    if i > 0 {
      DigitAt(k / 2, len - 1, i - 1);
      HalfThenDivide(k, Pow2(i - 1));
    }
  }

  /** Replacing digit i by v moves the value by (v - s[i]) * 2^i. */
  lemma {:induction false} ValueUpdate(s: seq<int>, i: nat, v: int)
    requires i < |s|
    ensures Value(s[i := v]) == Value(s) + (v - s[i]) * Pow2(i)
  {
    if i > 0 {
      ValueUpdate(s[1..], i - 1, v);
      assert s[i := v][1..] == s[1..][i - 1 := v];
    }
  }

  /** With no negative digit, digit i alone contributes s[i] * 2^i to the value. */
  lemma {:induction false} ValueAtLeast(s: seq<int>, i: nat)
    requires i < |s|
    requires forall j :: 0 <= j < |s| ==> s[j] >= 0
    ensures Value(s) >= s[i] * Pow2(i)
  {
    NonNegativeValue(s[1..]);
    if i > 0 {
      ValueAtLeast(s[1..], i - 1);
    }
  }

  lemma {:induction false} NonNegativeValue(s: seq<int>)
    requires forall j :: 0 <= j < |s| ==> s[j] >= 0
    ensures Value(s) >= 0
  {
    if s != [] {
      NonNegativeValue(s[1..]);
    }
  }

  /** A digit that reached 2 in a counter below 2^|s| is not the last one. */
  lemma CarryStaysInside(s: seq<int>, i: nat)
    requires i < |s| && s[i] >= 2
    requires forall j :: 0 <= j < |s| ==> s[j] >= 0
    requires Value(s) < Pow2(|s|)
    ensures i + 1 < |s|
  {
    ValueAtLeast(s, i);
    var p := Pow2(i);
    assert s[i] * p == 2 * p + (s[i] - 2) * p;
    assert (s[i] - 2) * p >= 0;
    assert Pow2(i + 1) == 2 * p;
    if i + 1 == |s| {
      assert false;
    }
  }

  /** Turning a 2 at digit i into 0 and adding one to digit i + 1 keeps the value. */
  lemma CarryKeepsValue(s: seq<int>, i: nat)
    requires i + 1 < |s| && s[i] == 2
    ensures Value(s[i := 0][i + 1 := s[i + 1] + 1]) == Value(s)
  {
    ValueUpdate(s, i, 0);
    ValueUpdate(s[i := 0], i + 1, s[i + 1] + 1);
    assert Pow2(i + 1) == 2 * Pow2(i);
  }

  /** One pass of the ripple increment: add one to digit 0, then, scanning
      upwards, turn every digit that reached 2 into 0 and carry one into the
      next digit, stopping at the first digit that did not overflow. The
      counter must not already hold all ones, so the carry never runs past
      the last digit. */
  method Increment(grid: array<int>)
    requires IsBinary(grid[..])
    requires Value(grid[..]) + 1 < Pow2(grid.Length)
    modifies grid
    ensures IsBinary(grid[..])
    ensures Value(grid[..]) == Value(old(grid[..])) + 1
  {
    ghost var target := Value(grid[..]) + 1;
    ghost var before := grid[..];
    grid[0] := grid[0] + 1;
    assert grid[..] == before[0 := before[0] + 1];
    ValueUpdate(before, 0, before[0] + 1);
    var index := 0;
    while index < grid.Length
      invariant 0 <= index <= grid.Length
      invariant Value(grid[..]) == target
      invariant forall j :: 0 <= j < grid.Length && j != index ==> grid[j] == 0 || grid[j] == 1
      invariant index < grid.Length ==> 0 <= grid[index] <= 2
    {
      if grid[index] > 1 {
        ghost var s0 := grid[..];
        CarryStaysInside(s0, index);
        grid[index] := 0;
        grid[index + 1] := grid[index + 1] + 1;
        assert grid[..] == s0[index := 0][index + 1 := s0[index + 1] + 1];
        CarryKeepsValue(s0, index);
      } else {
        break;
      }
      index := index + 1;
    }
    assert IsBinary(grid[..]);
  }
}
