/** The pool hands out I/O contexts by an atomic 64-bit counter taken modulo the pool size. */
module RoundRobin {

  const WRAP := 0x1_0000_0000_0000_0000

  class AsioIOServicePool {
    const size: nat
    var nextIOService: nat

    ghost predicate Valid()
      reads this
    {
      size > 0 && nextIOService < WRAP
    }

    constructor (size: nat)
      requires size > 0
      ensures Valid() && this.size == size && nextIOService == 0
    {
      this.size := size;
      nextIOService := 0;
    }

    method GetIOService() returns (idx: nat)
      requires Valid()
      modifies this
      ensures Valid()
      ensures nextIOService == Ticket(old(nextIOService), 1)
      ensures idx == Ticket(old(nextIOService), 0) % size && idx < size
    {
      idx := nextIOService;
      nextIOService := (nextIOService + 1) % WRAP;
      idx := idx % size;
    }
  }

  /** The value the `k`-th of a window of `fetch_add`s gets, whichever threads make them. */
  function Ticket(start: nat, k: nat): nat {
    (start + k) % WRAP
  }

  /** How many of the `w` calls from counter value `start` on get context `j`. */
  function Count(n: nat, start: nat, w: nat, j: nat): nat
    requires n > 0
  {
    if w == 0 then 0
    else Count(n, start, w - 1, j) + Hit(n, start, w - 1, j)
  }

  /** How many numbers below `x` have residue `j`. */
  function Below(n: nat, x: nat, j: nat): nat
    requires n > 0
  {
    x / n + if x % n > j then 1 else 0
  }

  /** How often the counter passes from 2^64 - 1 to 0 inside the window. */
  function Wraps(start: nat, w: nat): nat {
    if w == 0 then 0 else (start + w - 1) / WRAP
  }

  lemma DivModUnique(n: int, q: int, r: int)
    requires 0 <= r < n
    ensures (q * n + r) / n == q && (q * n + r) % n == r
  {
    var x := q * n + r;
    var d := x / n - q;
    assert x == (x / n) * n + x % n;
    assert d * n == r - x % n;
    assert d == 0;
  }

  lemma Successor(n: nat, x: nat)
    requires n > 0
    ensures x % n + 1 < n ==> (x + 1) / n == x / n && (x + 1) % n == x % n + 1
    ensures x % n + 1 == n ==> (x + 1) / n == x / n + 1 && (x + 1) % n == 0
  {
    var q, r := x / n, x % n;
    assert x == q * n + r;
    if r + 1 < n {
      DivModUnique(n, q, r + 1);
    } else {
      assert x + 1 == (q + 1) * n + 0;
      DivModUnique(n, q + 1, 0);
    }
  }

  lemma BelowStep(n: nat, x: nat, j: nat)
    requires n > 0 && j < n
    ensures Below(n, x + 1, j) == Below(n, x, j) + if x % n == j then 1 else 0
  {
    Successor(n, x);
  }

  /** Whether call `k` of the window goes to context `j`. */
  function Hit(n: nat, start: nat, k: nat, j: nat): nat
    requires n > 0
  {
    if Ticket(start, k) % n == j then 1 else 0
  }

  lemma TicketWithoutWrap(start: nat, k: nat)
    requires start + k < WRAP
    ensures Ticket(start, k) == start + k
  {
  }

  lemma HitWithoutWrap(n: nat, start: nat, k: nat, j: nat)
    requires n > 0 && j < n && start + k < WRAP
    ensures Below(n, start + k + 1, j) == Below(n, start + k, j) + Hit(n, start, k, j)
  {
    TicketWithoutWrap(start, k);
    BelowStep(n, start + k, j);
  }

  lemma {:induction false} CountWithoutWrap(n: nat, start: nat, w: nat, j: nat)
    requires n > 0 && j < n && start + w <= WRAP
    ensures Count(n, start, w, j) == Below(n, start + w, j) - Below(n, start, j)
  {
    if w > 0 {
      CountWithoutWrap(n, start, w - 1, j);
      HitWithoutWrap(n, start, w - 1, j);
    }
  }

  lemma TicketSplits(start: nat, a: nat, k: nat)
    ensures Ticket(Ticket(start, a), k) == Ticket(start, a + k)
  {
  }

  lemma {:induction false} CountSplits(n: nat, start: nat, a: nat, b: nat, j: nat)
    requires n > 0
    ensures Count(n, start, a + b, j) == Count(n, start, a, j) + Count(n, Ticket(start, a), b, j)
  {
    if b > 0 {
      CountSplits(n, start, a, b - 1, j);
      TicketSplits(start, a, b - 1);
    }
  }

  /** Over any window, two contexts' shares differ by at most one more than the counter wraps: by one
      without a wrap, by two across one. */
  lemma {:induction false} SharesDifferByWraps(n: nat, start: nat, w: nat, i: nat, j: nat)
    requires n > 0 && i < n && j < n && start < WRAP
    ensures Count(n, start, w, i) - Count(n, start, w, j) <= 1 + Wraps(start, w)
    decreases w
  {
    if start + w <= WRAP {
      CountWithoutWrap(n, start, w, i);
      CountWithoutWrap(n, start, w, j);
    } else {
      var a := WRAP - start;
      var rest := w - a;
      CountSplits(n, start, a, rest, i);
      CountSplits(n, start, a, rest, j);
      CountWithoutWrap(n, start, a, i);
      CountWithoutWrap(n, start, a, j);
      assert Ticket(start, a) == 0;
      assert Wraps(start, w) == 1 + Wraps(0, rest);
      SharesDifferByWraps(n, 0, rest, i, j);
    }
  }

  lemma ModMod(n: nat, x: nat)
    requires n > 0 && WRAP % n == 0
    ensures (x % WRAP) % n == x % n
  {
    var m := WRAP / n;
    var k := x / WRAP;
    var y := x % WRAP;
    assert WRAP == m * n + 0;
    var q, r := y / n, y % n;
    assert x == k * WRAP + y;
    assert k * WRAP == k * m * n;
    assert x == (k * m + q) * n + r;
    DivModUnique(n, k * m + q, r);
  }

  lemma {:induction false} CountDivides(n: nat, start: nat, w: nat, j: nat)
    requires n > 0 && j < n && WRAP % n == 0
    ensures Count(n, start, w, j) == Below(n, start + w, j) - Below(n, start, j)
  {
    if w > 0 {
      CountDivides(n, start, w - 1, j);
      BelowStep(n, start + w - 1, j);
      ModMod(n, start + w - 1);
    }
  }

  /** When the pool size divides 2^64 the shares differ by at most one over any window. */
  lemma SharesDifferByOne(n: nat, start: nat, w: nat, i: nat, j: nat)
    requires n > 0 && i < n && j < n && WRAP % n == 0
    ensures Count(n, start, w, i) - Count(n, start, w, j) <= 1
  {
    CountDivides(n, start, w, i);
    CountDivides(n, start, w, j);
  }

  /** The bound of two is reached for every other pool size: on a window of one round cut short by the
      wrap and one call after it, the first context is served twice and the last one not at all. */
  lemma WrapCanFavourOne(n: nat)
    requires n > 0 && WRAP % n != 0
    ensures var start, w := WRAP - WRAP % n, WRAP % n + 1;
            start < WRAP && Wraps(start, w) == 1 && Count(n, start, w, 0) - Count(n, start, w, n - 1) == 2
  {
    var q, r := WRAP / n, WRAP % n;
    var start := WRAP - r;
    assert start == q * n + 0;
    DivModUnique(n, q, 0);
    CountWithoutWrap(n, start, r, 0);
    CountWithoutWrap(n, start, r, n - 1);
    assert Ticket(start, r) == 0;
    assert Hit(n, start, r, 0) == 1 && Hit(n, start, r, n - 1) == 0;
  }

  /** No context ever gets two calls more than another, whatever the window. */
  ghost predicate Fair(n: nat)
    requires n > 0
  {
    forall start: nat, w: nat, i: nat, j: nat :: start < WRAP && i < n && j < n
        ==> Count(n, start, w, i) - Count(n, start, w, j) <= 1
  }

  /** Exactly the pool sizes that divide 2^64 are fair. */
  lemma FairExact(n: nat)
    requires n > 0
    ensures Fair(n) <==> WRAP % n == 0
  {
    if WRAP % n == 0 {
      forall start: nat, w: nat, i: nat, j: nat | start < WRAP && i < n && j < n
        ensures Count(n, start, w, i) - Count(n, start, w, j) <= 1
      {
        SharesDifferByOne(n, start, w, i, j);
      }
    } else {
      WrapCanFavourOne(n);
    }
  }
}
