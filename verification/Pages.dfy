/**
 Page arithmetic shared by the remote loader and the atexit table.

 The C++ code rounds with `x & ~(page - 1)`. A page size is a power of two, so
 the mask clears exactly the remainder (see `RoundsDown`). Rounding is defined
 by recursion so that every other fact about it is linear.
 */
module Pages {

  /** The start of the page that holds `x`. */
  function PageDown(x: nat, page: nat): (r: nat)
    requires page > 0
    ensures r <= x < r + page
  {
    if x < page then 0 else page + PageDown(x - page, page)
  }

  /** The first page boundary at or above `x`. */
  function PageUp(x: nat, page: nat): (r: nat)
    requires page > 0
    ensures x <= r < x + page
  {
    PageDown(x + page - 1, page)
  }

  predicate Aligned(x: nat, page: nat)
    requires page > 0
  {
    PageDown(x, page) == x
  }

  /** Rounding down clears the remainder. */
  lemma {:induction false} RoundsDown(x: nat, page: nat)
    requires page > 0
    ensures PageDown(x, page) == x - x % page
  {
    if x >= page {
      RoundsDown(x - page, page);
      RemainderStep(x, page);
    }
  }

  /** Scaling keeps strict order with a whole page to spare. */
  lemma ScaledGap(a: int, b: int, page: nat)
    requires a < b
    ensures a * page + page <= b * page
  {
    assert b * page == a * page + (b - a) * page;
    assert (b - a - 1) * page >= 0;
    assert (b - a) * page == (b - a - 1) * page + page;
  }

  lemma RemainderStep(x: nat, page: nat)
    requires 0 < page <= x
    ensures x % page == (x - page) % page
  {
    var p, q := x / page, (x - page) / page;
    assert x == p * page + x % page;
    assert x - page == q * page + (x - page) % page;
    assert (q + 1) * page == q * page + page;
    if p < q + 1 {
      ScaledGap(p, q + 1, page);
    } else if q + 1 < p {
      ScaledGap(q + 1, p, page);
    }
  }

  lemma {:induction false} BoundariesAreAligned(x: nat, page: nat)
    requires page > 0
    ensures Aligned(PageDown(x, page), page)
    ensures Aligned(PageUp(x, page), page)
  {
    DownIsAligned(x, page);
    DownIsAligned(x + page - 1, page);
  }

  lemma {:induction false} DownIsAligned(x: nat, page: nat)
    requires page > 0
    ensures Aligned(PageDown(x, page), page)
  {
    if x >= page {
      DownIsAligned(x - page, page);
    }
  }

  /** How many whole pages lie below `x`. */
  function PageIndex(x: nat, page: nat): nat
    requires page > 0
  {
    if x < page then 0 else 1 + PageIndex(x - page, page)
  }

  lemma {:induction false} PageIndexIsQuotient(x: nat, page: nat)
    requires page > 0
    ensures PageIndex(x, page) * page == x - x % page
  {
    if x >= page {
      PageIndexIsQuotient(x - page, page);
      RemainderStep(x, page);
      var k := PageIndex(x - page, page);
      assert (1 + k) * page == page + k * page;
    }
  }

  /** Counting pages in units of 4096 bytes gives a boundary back exactly when that is the page size, or for 0. */
  lemma {:induction false} UnitsOf4096(x: nat, page: nat)
    requires page > 0 && Aligned(x, page)
    ensures PageIndex(x, page) * 4096 == x <==> page == 4096 || x == 0
    ensures page > 4096 ==> PageIndex(x, page) * 4096 <= x
    ensures page < 4096 ==> PageIndex(x, page) * 4096 >= x
  {
    if x >= page {
      UnitsOf4096(x - page, page);
    }
  }

  /** Rounding commutes with moving by whole pages. */
  lemma {:induction false} Shift(x: nat, b: nat, page: nat)
    requires page > 0 && Aligned(b, page)
    ensures PageDown(x + b, page) == PageDown(x, page) + b
    ensures PageUp(x + b, page) == PageUp(x, page) + b
    decreases b
  {
    if b > 0 {
      assert b >= page;
      Shift(x, b - page, page);
    }
  }

  lemma {:induction false} AlignedSum(a: nat, b: nat, page: nat)
    requires page > 0 && Aligned(a, page) && Aligned(b, page)
    ensures Aligned(a + b, page)
    ensures a >= b ==> Aligned(a - b, page)
  {
    Shift(a, b, page);
    if a >= b {
      Shift(a - b, b, page);
    }
  }

  lemma {:induction false} Monotone(x: nat, y: nat, page: nat)
    requires page > 0 && x <= y
    ensures PageDown(x, page) <= PageDown(y, page)
    ensures PageUp(x, page) <= PageUp(y, page)
  {
    DownMonotone(x, y, page);
    DownMonotone(x + page - 1, y + page - 1, page);
  }

  lemma {:induction false} DownMonotone(x: nat, y: nat, page: nat)
    requires page > 0 && x <= y
    ensures PageDown(x, page) <= PageDown(y, page)
  {
    if x >= page {
      DownMonotone(x - page, y - page, page);
    }
  }

  /** A boundary at or below `x` is at or below its page; at or above `x`, at or above its rounding up. */
  lemma {:induction false} Nearest(b: nat, x: nat, page: nat)
    requires page > 0 && Aligned(b, page)
    ensures b <= x ==> b <= PageDown(x, page)
    ensures x <= b ==> PageUp(x, page) <= b
  {
    if b <= x {
      Monotone(b, x, page);
    }
    if x <= b {
      Monotone(x, b, page);
      AlignedUp(b, page);
    }
  }

  lemma {:induction false} AlignedUp(b: nat, page: nat)
    requires page > 0 && Aligned(b, page)
    ensures PageUp(b, page) == b
  {
    Shift(page - 1, b, page);
  }
}
