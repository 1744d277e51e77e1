/** Positions in a circular buffer of n cells, and the range of 32-bit counters. */
module RingArithmetic {

  const TWO_32: int := 0x1_0000_0000

  /** A position that has run past the end at most once. */
  function Wrap(x: nat, n: nat): (r: nat)
    requires x < 2 * n
    ensures r < n
  {
    if x < n then x else x - n
  }

  lemma MulMonotone(n: nat, a: nat, b: nat)
    requires a <= b
    ensures n * a <= n * b
  {
  }

  lemma QuotientOf(x: nat, n: nat, q: nat, r: nat)
    requires r < n && x == n * q + r
    ensures x / n == q && x % n == r
  {
    if x / n > q {
      MulMonotone(n, q + 1, x / n);
      assert false;
    }
    if x / n < q {
      MulMonotone(n, x / n + 1, q);
      assert false;
    }
  }

  /** Below twice the size, a remainder is at most one subtraction. */
  lemma ModIsWrap(x: nat, n: nat)
    requires x < 2 * n
    ensures x % n == Wrap(x, n)
  {
    if x < n {
      QuotientOf(x, n, 0, x);
    } else {
      QuotientOf(x, n, 1, x - n);
    }
  }

  /** The n elements from cell `start` on, around the end of the buffer. */
  function Window<T>(cells: seq<T>, start: nat, n: nat): (s: seq<T>)
    requires n <= |cells| && (start < |cells| || n == 0)
    ensures |s| == n
  {
    seq(n, i requires 0 <= i < n => cells[Wrap(start + i, |cells|)])
  }

  /** Dropping the oldest k elements. */
  lemma WindowDrop<T>(cells: seq<T>, start: nat, n: nat, k: nat)
    requires start < |cells| && k <= n <= |cells|
    ensures var next := Wrap(start + k, |cells|);
      && Window(cells, start, n)[k..] == Window(cells, next, n - k)
      && Wrap(next + (n - k), |cells|) == Wrap(start + n, |cells|)
  {
    var next := Wrap(start + k, |cells|);
    var before, after := Window(cells, start, n), Window(cells, next, n - k);
    forall i | 0 <= i < n - k
      ensures before[k..][i] == after[i]
    {
      assert before[k..][i] == before[k + i] == cells[Wrap(start + (k + i), |cells|)];
      assert after[i] == cells[Wrap(next + i, |cells|)];
      assert Wrap(start + (k + i), |cells|) == Wrap(next + i, |cells|);
    }
  }

  /** Elements that do not pass the end of the buffer lie side by side. */
  lemma WindowStraight<T>(cells: seq<T>, start: nat, n: nat, k: nat)
    requires start < |cells| && k <= n <= |cells| && start + k <= |cells|
    ensures Window(cells, start, n)[..k] == cells[start..start + k]
  {
    forall i | 0 <= i < k
      ensures Window(cells, start, n)[..k][i] == cells[start..start + k][i]
    {
      assert Window(cells, start, n)[i] == cells[Wrap(start + i, |cells|)];
    }
  }

  /** Filling the free cells behind the window with a block that does not pass the end of the buffer. */
  lemma WindowAppend<T>(cells: seq<T>, after: seq<T>, start: nat, n: nat, block: seq<T>)
    requires start < |cells| && n + |block| <= |cells| == |after|
    requires var to := Wrap(start + n, |cells|);
      && to + |block| <= |cells|
      && after == cells[..to] + block + cells[to + |block|..]
    ensures Window(after, start, n + |block|) == Window(cells, start, n) + block
  {
    var to := Wrap(start + n, |cells|);
    forall i | 0 <= i < n + |block|
      ensures Window(after, start, n + |block|)[i] == (Window(cells, start, n) + block)[i]
    {
      var cell := Wrap(start + i, |cells|);
      if i < n {
        assert cell < to || cell >= to + |block|;
      } else {
        assert |block| > 0 && cell == to + (i - n);
      }
    }
  }
}
