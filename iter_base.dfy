// distance and advance of mini_iterator_base.h.  An iterator is modelled by
// its position: ++ adds one and -- subtracts one, and a random-access
// iterator adds or subtracts any difference in one step.

module IterBase {

  /** __distance for input iterators: counts increments of `first` until it
      reaches `last`. */
  method DistanceInput(first: int, last: int) returns (n: int)
    requires first <= last
    ensures first + n == last && n >= 0
  {
    var it := first;
    n := 0;
    while it != last
      invariant first <= it <= last && n == it - first
      decreases last - it
    {
      it := it + 1;
      n := n + 1;
    }
  }

  /** __distance for random-access iterators: last - first. */
  function DistanceRandom(first: int, last: int): (n: int)
    ensures first + n == last
  {
    last - first
  }

  /** __advance for input iterators: n increments, none when n <= 0. */
  method AdvanceInput(iter: int, n: int) returns (it: int)
    ensures n > 0 ==> it == iter + n
    ensures n <= 0 ==> it == iter
  {
    it := iter;
    var k := n;
    while k > 0
      invariant k <= n && (n > 0 ==> it == iter + (n - k) && 0 <= k) && (n <= 0 ==> it == iter)
      decreases k
    {
      it := it + 1;
      k := k - 1;
    }
  }

  /** __advance for bidirectional iterators: n increments, or -n decrements. */
  method AdvanceBidirectional(iter: int, n: int) returns (it: int)
    ensures it == iter + n
  {
    it := iter;
    var k := n;
    if k > 0 {
      while k > 0
        invariant 0 <= k <= n && it == iter + (n - k)
        decreases k
      {
        it := it + 1;
        k := k - 1;
      }
    } else {
      while k < 0
        invariant n <= k <= 0 && it == iter + (n - k)
        decreases -k
      {
        it := it - 1;
        k := k + 1;
      }
    }
  }

  /** __advance for random-access iterators: iter += n. */
  function AdvanceRandom(iter: int, n: int): (it: int)
    ensures DistanceRandom(iter, it) == n
  {
    iter + n
  }
}
