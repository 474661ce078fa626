/** The integer macros of the simulation's C core (`src/utilities.h`):
    `max`, `min`, `ifelse` and the ring-buffer index arithmetic `ring_inc`,
    `ring_dec` and `ring_add`. C `int` is modelled as an unbounded integer. */
module Utilities {

  /** `ifelse(c, a, b)`: the conditional the other macros are written with. */
  function IfElse<T>(c: bool, a: T, b: T): (r: T)
    ensures c ==> r == a
    ensures !c ==> r == b
  {
    if c then a else b
  }

  /** `max(x, y)`: an upper bound of both arguments that is one of them. */
  function Max(x: int, y: int): (r: int)
    ensures r >= x && r >= y
    ensures r == x || r == y
  {
    IfElse(x > y, x, y)
  }

  /** `min(x, y)`: a lower bound of both arguments that is one of them. */
  function Min(x: int, y: int): (r: int)
    ensures r <= x && r <= y
    ensures r == x || r == y
  {
    IfElse(x < y, x, y)
  }

  /** The value `ring_inc(x, n)` stores back into `x`. */
  function RingNext(x: int, n: int): (r: int)
    ensures 0 <= x < n ==> 0 <= r < n && r == (x + 1) % n
  {
    IfElse(x == n - 1, 0, x + 1)
  }

  /** The value `ring_dec(x, n)` stores back into `x`. */
  function RingPrev(x: int, n: int): (r: int)
    ensures 0 <= x < n ==> 0 <= r < n && r == (x - 1 + n) % n
  {
    IfElse(x == 0, n - 1, x - 1)
  }

  /** `ring_add(x, y, n)`: the index `y` places after `x`, without changing `x`. */
  function RingAdd(x: int, y: int, n: int): (r: int)
    ensures 0 <= x < n && 0 <= y < n ==> 0 <= r < n && r == (x + y) % n
  {
    IfElse(x + y < n, x + y, x + y - n)
  }

  /** Decrementing undoes incrementing and vice versa. */
  lemma RingPrevNext(x: int, n: int)
    requires 0 <= x < n
    ensures RingPrev(RingNext(x, n), n) == x
    ensures RingNext(RingPrev(x, n), n) == x
  {
  }

  /** The index reached from `x` by `k` successive `ring_inc`s. */
  function RingAdvance(x: int, n: int, k: nat): int
  {
    if k == 0 then x else RingNext(RingAdvance(x, n, k - 1), n)
  }

  lemma MulAtLeast(k: int, n: int)
    requires k >= 1 && n > 0
    ensures k * n >= n
  {
    assert k * n == (k - 1) * n + n;
  }

  /** Euclidean division is determined by a quotient and an in-range remainder. */
  lemma DivModUnique(a: int, n: int, q: int, r: int)
    requires n > 0 && a == q * n + r && 0 <= r < n
    ensures a / n == q && a % n == r
  {
    var q', r' := a / n, a % n;
    assert a == q' * n + r';
    var d := q - q';
    assert d * n == r' - r;
    if d >= 1 {
      MulAtLeast(d, n);
    } else if d <= -1 {
      MulAtLeast(-d, n);
    }
  }

  /** Incrementing a remainder is taking the remainder of the successor. */
  lemma ModSucc(a: int, n: int)
    requires n > 0
    ensures RingNext(a % n, n) == (a + 1) % n
  {
    var q, r := a / n, a % n;
    assert a == q * n + r;
    if r + 1 < n {
      DivModUnique(a + 1, n, q, r + 1);
    } else {
      assert a + 1 == (q + 1) * n + 0;
      DivModUnique(a + 1, n, q + 1, 0);
    }
  }

  /** `k` increments from `x` land on `(x + k) mod n`. */
  lemma {:induction false} RingAdvanceMod(x: int, n: int, k: nat)
    requires 0 <= x < n
    ensures RingAdvance(x, n, k) == (x + k) % n
  {
    if k > 0 {
      RingAdvanceMod(x, n, k - 1);
      ModSucc(x + k - 1, n);
    }
  }

  /** `n` increments bring an index back to where it started. */
  lemma RingAdvanceFull(x: int, n: int)
    requires 0 <= x < n
    ensures RingAdvance(x, n, n) == x
  {
    RingAdvanceMod(x, n, n);
    DivModUnique(x + n, n, 1, x);
  }

  /** An index variable of a ring of `n` slots, updated in place by
      `ring_inc` and `ring_dec`. */
  class RingIndex {
    var x: int
    const n: int

    ghost predicate Valid()
      reads this
    {
      0 <= x < n
    }

    constructor (x0: int, n: int)
      requires 0 <= x0 < n
      ensures Valid() && x == x0 && this.n == n
    {
      x := x0;
      this.n := n;
    }

    /** `ring_inc(x, n)`: step forward, wrapping `n - 1` to `0`. */
    method Inc()
      requires Valid()
      modifies this
      ensures Valid()
      ensures x == (old(x) + 1) % n
      ensures old(x) == n - 1 ==> x == 0
    {
      x := RingNext(x, n);
    }

    /** `ring_dec(x, n)`: step back, wrapping `0` to `n - 1`. */
    method Dec()
      requires Valid()
      modifies this
      ensures Valid()
      ensures x == (old(x) - 1 + n) % n
      ensures old(x) == 0 ==> x == n - 1
    {
      x := RingPrev(x, n);
    }
  }
}
