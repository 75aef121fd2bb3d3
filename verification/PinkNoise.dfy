/** The pink-noise generator: a running sum over rows that are refreshed at halving rates. Random words are inputs. */
module PinkNoise {
  import opened Arithmetic

  const MAX_RANDOM_ROWS := 30
  const RANDOM_BITS: nat := 24
  const RANDOM_SHIFT: nat := 32 - RANDOM_BITS

  /** What a row value stays below. */
  const ROW_LIMIT: nat := Power2(RANDOM_BITS - 1)

  /** What the engine returns: less than 2 to the power 31. */
  type Word = w: int | 0 <= w < 0x8000_0000

  /** A word without its low RANDOM_SHIFT bits. */
  function RowValue(w: Word): (v: nat)
    ensures v < ROW_LIMIT && 256 * v <= w < 256 * (v + 1)
  {
    ShiftValues();
    w / Power2(RANDOM_SHIFT)
  }

  lemma ShiftValues()
    ensures Power2(RANDOM_SHIFT) == 256 && ROW_LIMIT == 0x80_0000
  {
    assert Power2(4) == 16;
    PowerSum(4, 4);
    PowerSum(8, 8);
    PowerSum(16, 7);
    assert Power2(7) == 128 by { PowerSum(4, 3); }
  }

  function SumOf(rows: seq<int>): int {
    if rows == [] then 0 else SumOf(rows[..|rows| - 1]) + rows[|rows| - 1]
  }

  /** The number of low bits of n that are 0. */
  function TrailingZeros(n: nat): nat
    requires n > 0
  {
    if n % 2 == 1 then 0 else 1 + TrailingZeros(n / 2)
  }

  lemma {:induction false} SumOfUpdate(rows: seq<int>, i: nat, v: int)
    requires i < |rows|
    ensures SumOf(rows[i := v]) == SumOf(rows) - rows[i] + v
    decreases |rows|
  {
    var last := |rows| - 1;
    if i == last {
      assert rows[i := v][..last] == rows[..last];
    } else {
      assert rows[i := v][..last] == rows[..last][i := v];
      SumOfUpdate(rows[..last], i, v);
    }
  }

  lemma {:induction false} SumOfRange(rows: seq<int>)
    requires forall i | 0 <= i < |rows| :: 0 <= rows[i] < ROW_LIMIT
    ensures 0 <= SumOf(rows) <= |rows| * (ROW_LIMIT - 1)
  {
    if rows != [] {
      SumOfRange(rows[..|rows| - 1]);
    }
  }

  /** A number below 2^k has fewer than k trailing zeros. */
  lemma {:induction false} ZerosAreFew(n: nat, k: nat)
    requires 0 < n < Power2(k)
    ensures TrailingZeros(n) < k
    decreases k
  {
    if n % 2 == 0 {
      ZerosAreFew(n / 2, k - 1);
    }
  }

  // ---------- Which row is refreshed when ----------

  /** n has exactly k trailing zeros when it is 2^k modulo 2^(k+1). */
  lemma {:induction false} ZerosAreResidue(n: nat, k: nat)
    requires n > 0
    ensures TrailingZeros(n) == k <==> n % Power2(k + 1) == Power2(k)
    decreases k
  {
    if k == 0 {
      assert Power2(1) == 2;
    } else {
      var m := Power2(k);
      var h := n / 2;
      var q, r := h / m, h % m;
      assert h == q * m + r;
      assert n == q * (2 * m) + (2 * r + n % 2);
      DivModUnique(n, 2 * m, q, 2 * r + n % 2);
      if n % 2 == 0 {
        ZerosAreResidue(h, k - 1);
      } else {
        assert TrailingZeros(n) == 0;
        assert Power2(k) == 2 * Power2(k - 1);
      }
    }
  }

  /** Reducing modulo a multiple first does not change the remainder. */
  lemma NestedModulus(x: nat, m: nat, t: nat)
    requires m > 0 && t > 0
    ensures m * t > 0
    ensures (x % (m * t)) % m == x % m
  {
    ProductMonotone(1, t, m);
    var big := m * t;
    var q, y := x / big, x % big;
    var p, s := y / m, y % m;
    assert x == q * big + y && y == p * m + s;
    assert q * big == (q * t) * m by {
      assert q * (m * t) == (q * t) * m;
    }
    assert x == (q * t + p) * m + s;
    DivModUnique(x, m, q * t + p, s);
  }

  lemma ShiftedResidue(i: nat, j: nat, m: nat)
    requires 0 < j <= m
    ensures (i + j) % m == if i % m + j < m then i % m + j else i % m + j - m
  {
    var q, r := i / m, i % m;
    assert i == q * m + r;
    if r + j < m {
      DivModUnique(i + j, m, q, r + j);
    } else if r + j < 2 * m {
      assert i + j == (q + 1) * m + (r + j - m);
      DivModUnique(i + j, m, q + 1, r + j - m);
    }
  }

  /** The index of the next step. */
  function NextIndex(i: nat, accuracy: nat): nat { (i + 1) % Power2(accuracy) }

  /** The index j steps after index i. */
  function IndexAfter(i: nat, j: nat, accuracy: nat): nat {
    if j == 0 then i else NextIndex(IndexAfter(i, j - 1, accuracy), accuracy)
  }

  /** Stepping wraps again and again, and is the same as adding first and wrapping once. */
  lemma {:induction false} StepsWrapOnce(i: nat, j: nat, accuracy: nat)
    requires j > 0
    ensures IndexAfter(i, j, accuracy) == (i + j) % Power2(accuracy)
    decreases j
  {
    var m := Power2(accuracy);
    if j > 1 {
      StepsWrapOnce(i, j - 1, accuracy);
      ShiftedResidue(i + j - 1, 1, m);
      NextOnRing((i + j - 1) % m, m);
    }
  }

  predicate Refreshes(index: nat, row: nat) {
    index > 0 && TrailingZeros(index) == row
  }

  lemma RefreshesByResidue(i: nat, j: nat, row: nat, accuracy: nat)
    requires row < accuracy && j > 0
    ensures Refreshes(IndexAfter(i, j, accuracy), row) <==> (i + j) % Power2(row + 1) == Power2(row)
  {
    hide Power2, IndexAfter, TrailingZeros;
    StepsWrapOnce(i, j, accuracy);
    var index := IndexAfter(i, j, accuracy);
    IndexKeepsResidue(i + j, row, accuracy);
    if index > 0 {
      ZerosAreResidue(index, row);
    } else {
      ZeroIsNoResidue(Power2(row + 1));
    }
  }

  lemma ZeroIsNoResidue(m: nat)
    requires m > 0
    ensures 0 % m == 0
  {
  }

  /** Wrapping the index keeps its low bits. */
  lemma IndexKeepsResidue(x: nat, row: nat, accuracy: nat)
    requires row < accuracy
    ensures x % Power2(accuracy) % Power2(row + 1) == x % Power2(row + 1)
  {
    hide Power2;
    PowerSum(row + 1, accuracy - row - 1);
    NestedModulus(x, Power2(row + 1), Power2(accuracy - row - 1));
  }

  /** From any index on, exactly one of the next 2^(k+1) steps refreshes row k. */
  lemma RefreshedExactlyOnce(i: nat, row: nat, accuracy: nat) returns (j: nat)
    requires row < accuracy
    ensures 1 <= j <= Power2(row + 1) && Refreshes(IndexAfter(i, j, accuracy), row)
    ensures forall k | 1 <= k <= Power2(row + 1) && Refreshes(IndexAfter(i, k, accuracy), row) :: k == j
  {
    var half, m := Power2(row), Power2(row + 1);
    var r := i % m;
    j := if r < half then half - r else half - r + m;
    ShiftedResidue(i, j, m);
    RefreshesByResidue(i, j, row, accuracy);
    forall k | 1 <= k <= m && Refreshes(IndexAfter(i, k, accuracy), row)
      ensures k == j
    {
      ShiftedResidue(i, k, m);
      RefreshesByResidue(i, k, row, accuracy);
    }
  }

  // ---------- The generator ----------

  /** What one call takes from the engine. */
  datatype Draw = Draw(refresh: Word, extra: Word)

  const WARM_UP_LIMIT := 19200000

  class Generator {
    const accuracy: nat
    const rows: array<int>
    var runningSum: int
    var index: nat
    ghost var steps: nat        // calls so far, those of the warm-up included

    ghost predicate Valid()
      reads this, rows
    {
      && 4 <= accuracy <= MAX_RANDOM_ROWS && rows.Length == accuracy
      && (forall i | 0 <= i < accuracy :: 0 <= rows[i] < ROW_LIMIT)
      && runningSum == SumOf(rows[..])
      && index < Power2(accuracy) && index == IndexAfter(0, steps, accuracy)
    }

    /** With its warm-up, which ends after as many calls as `draws` says: at least one, and at most its limit. */
    constructor (accuracy: nat, draws: seq<Draw>)
      requires 4 <= accuracy <= MAX_RANDOM_ROWS && 0 < |draws| <= WARM_UP_LIMIT
      ensures Valid() && this.accuracy == accuracy && steps == |draws| && fresh(rows)
    {
      this.accuracy := accuracy;
      rows := new int[accuracy](_ => 0);
      runningSum, index, steps := 0, 0, 0;
      new;
      ZeroSum(rows[..]);
      hide Power2, IndexAfter, SumOf;
      for i := 0 to |draws|
        invariant Valid() && steps == i
      {
        var sum := NextSum(draws[i].refresh, draws[i].extra);
      }
    }

    /** The loop that counts trailing zeros; it ends because n is not 0. */
    method CountZeros(start: nat) returns (numZeros: nat)
      requires start > 0
      ensures numZeros == TrailingZeros(start)
    {
      numZeros := 0;
      var n := start;
      while n % 2 == 0
        invariant n > 0 && numZeros + TrailingZeros(n) == TrailingZeros(start)
        decreases n
      {
        n := n / 2;
        numZeros := numZeros + 1;
      }
    }

    /** operator() up to its sum, before scaling. The sum is what pmax of setScale allows, and fits in 32 bits. */
    method NextSum(refresh: Word, extra: Word) returns (sum: int)
      requires Valid()
      modifies this`index, this`runningSum, this`steps, rows
      ensures Valid() && steps == old(steps) + 1 && index == NextIndex(old(index), accuracy)
      ensures forall row | 0 <= row < accuracy ::
          rows[row] == if Refreshes(index, row) then RowValue(refresh) else old(rows[row])
      ensures sum == SumOf(rows[..]) + RowValue(extra)
      ensures 0 <= sum < (accuracy + 1) * ROW_LIMIT < 0x8000_0000
    {
      hide Power2, SumOf, RowValue, TrailingZeros;
      steps := steps + 1;
      index := (index + 1) % Power2(accuracy);
      if index != 0 {
        var numZeros := CountZeros(index);
        ZerosAreFew(index, accuracy);
        SumOfUpdate(rows[..], numZeros, RowValue(refresh));
        runningSum := runningSum - rows[numZeros];
        var newRandom := RowValue(refresh);
        runningSum := runningSum + newRandom;
        ghost var before := rows[..];
        rows[numZeros] := newRandom;
        assert rows[..] == before[numZeros := newRandom];
      }
      SumOfRange(rows[..]);
      sum := runningSum + RowValue(extra);
      BelowMaximum(accuracy, SumOf(rows[..]), RowValue(extra));
    }
  }

  lemma BelowMaximum(accuracy: nat, rowSum: int, white: nat)
    requires accuracy <= MAX_RANDOM_ROWS && rowSum <= accuracy * (ROW_LIMIT - 1) && white < ROW_LIMIT
    ensures rowSum + white < (accuracy + 1) * ROW_LIMIT < 0x8000_0000
  {
    hide Power2;
    ShiftValues();
  }

  lemma {:induction false} ZeroSum(rows: seq<int>)
    requires forall i | 0 <= i < |rows| :: rows[i] == 0
    ensures SumOf(rows) == 0
  {
    if rows != [] {
      ZeroSum(rows[..|rows| - 1]);
    }
  }
}
