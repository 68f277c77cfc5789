/**
 * Arithmetic shared by the two level-by-level tree builders: a row of `L`
 * subtrees, each standing for at most `2^(k+1)` items, is halved (rounding up)
 * in every round until one subtree is left.
 */
module Levels {

  function Pow2(k: nat): (r: nat)
    ensures r >= 1
  {
    if k == 0 then 1 else 2 * Pow2(k - 1)
  }

  /** A row of `rows` subtrees over `n` items, each covering at most `per` items, all but the last exactly `per`. */
  ghost predicate Covers(n: nat, rows: nat, per: nat)
  {
    (rows - 1) * per < n <= rows * per
  }

  /**
   * One round of pairing: a row of `rows` subtrees over `n` items, where every
   * subtree but the last covers exactly `per` items, becomes a row of
   * `next == ceil(rows / 2)` subtrees each covering up to `2 * per` items.
   */
  lemma {:induction false} PairingRound(n: nat, rows: nat, next: nat, per: nat)
    requires rows >= 2 && per >= 1
    requires Covers(n, rows, per)
    requires rows == 2 * next || rows == 2 * next - 1
    ensures 1 <= next < rows
    ensures Covers(n, next, 2 * per)
    ensures per < n
  {
    assert rows * per <= (2 * next) * per by {
      assert rows <= 2 * next;
      MulMonotone(rows, 2 * next, per);
    }
    assert (2 * next) * per == next * (2 * per);
    assert (2 * next - 2) * per <= (rows - 1) * per by {
      MulMonotone(2 * next - 2, rows - 1, per);
    }
    assert (next - 1) * (2 * per) == (2 * next - 2) * per;
    assert 1 * per <= (rows - 1) * per by {
      MulMonotone(1, rows - 1, per);
    }
  }

  /** Whether `m` is a power of two, by halving. */
  predicate IsPow2(m: nat)
  {
    if m <= 1 then m == 1 else m % 2 == 0 && IsPow2(m / 2)
  }

  /** Between two consecutive powers of two, only the upper one is a power of two. */
  lemma {:induction false} PowerOfTwoBetween(m: nat, d: nat)
    requires Pow2(d) < m <= Pow2(d + 1)
    ensures IsPow2(m) <==> m == Pow2(d + 1)
  {
    if d > 0 && m % 2 == 0 {
      PowerOfTwoBetween(m / 2, d - 1);
    }
  }

  /**
   * With the least `d` such that `n <= 2^(d+1)`, `n + 1` is a power of two
   * exactly when it is `2^(d+1)`.
   */
  lemma LastRowExact(n: nat, d: nat)
    requires 1 <= n <= Pow2(d + 1)
    requires d == 0 || Pow2(d) < n
    ensures IsPow2(n + 1) <==> n + 1 == Pow2(d + 1)
  {
    if n == Pow2(d + 1) {
      assert n % 2 == 0;
      assert !IsPow2(n + 1);
    } else {
      PowerOfTwoBetween(n + 1, d);
    }
  }

  /** The last of `rows` subtrees of `per` items each would be complete with one more item. */
  ghost predicate Exact(n: nat, rows: nat, per: nat)
  {
    rows * per == n + 1
  }

  /** A row of pairs over `n` items ends with a single one exactly when `n` is odd. */
  lemma OddCount(n: nat, rows: nat)
    requires n == 2 * rows || n == 2 * rows - 1
    ensures n % 2 == 1 <==> n == 2 * rows - 1
  {
  }

  /** The fringe row: `n` items, two per node, the last node perhaps with one. */
  lemma FringeCounts(n: nat, rows: nat)
    requires n >= 1 && (n == 2 * rows || n == 2 * rows - 1)
    ensures Covers(n, rows, Pow2(1))
    ensures Exact(n, rows, Pow2(1)) <==> n % 2 == 1
  {
    assert Pow2(1) == 2;
  }

  /** A single subtree is exact when it covers one more than all the items. */
  lemma ExactSingle(n: nat, per: nat)
    ensures Exact(n, 1, per) <==> per == n + 1
  {
  }

  /**
   * One round of pairing keeps the last subtree's count exact (`rows * per ==
   * n + 1`) only when the row was even: an odd row's last subtree is paired
   * with nothing and the next row covers `per` more.
   */
  lemma ExactRound(n: nat, rows: nat, next: nat, per: nat)
    requires rows >= 2 && per >= 2
    requires Covers(n, rows, per)
    requires rows == 2 * next || rows == 2 * next - 1
    ensures Exact(n, next, 2 * per) <==> rows == 2 * next && Exact(n, rows, per)
  {
    assert next * (2 * per) == (2 * next) * per;
    if rows == 2 * next - 1 {
      assert (2 * next) * per == rows * per + per;
    }
  }

  lemma MulMonotone(a: nat, b: nat, c: nat)
    requires a <= b
    ensures a * c <= b * c
  {
  }
}
