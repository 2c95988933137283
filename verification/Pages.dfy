/** Page arithmetic: powers of two, bit masks, and the split of a sector number
    into the first sector of its page and the offset inside it. */
module Pages {

  type uint16 = x: int | 0 <= x <= 0xFFFF

  // ----- powers of two and bitwise "and" on unsigned words -----

  function Pow2(k: nat): (r: nat)
    ensures r >= 1
  {
    if k == 0 then 1 else 2 * Pow2(k - 1)
  }

  /** Bitwise "and" of two unsigned numbers, bit by bit from the low end. */
  function BitAnd(x: nat, y: nat): nat
    decreases x
  {
    if x == 0 then 0
    else 2 * BitAnd(x / 2, y / 2) + (if x % 2 == 1 && y % 2 == 1 then 1 else 0)
  }

  /** Bitwise "or" of two unsigned numbers. */
  function BitOr(x: nat, y: nat): nat
    decreases x + y
  {
    if x == 0 && y == 0 then 0
    else 2 * BitOr(x / 2, y / 2) + (if x % 2 == 1 || y % 2 == 1 then 1 else 0)
  }

  /** A multiple of 2^k and a number below 2^k have no common bit: they add up. */
  lemma {:induction false} OrAdds(q: nat, k: nat, p: nat, y: nat)
    requires p == Pow2(k) && y < p
    ensures BitOr(q * p, y) == q * p + y
    decreases k
  {
    if k == 0 {
      OrZero(q);
    } else {
      var h := Pow2(k - 1);
      assert q * p == 2 * (q * h);
      OrAdds(q, k - 1, h, y / 2);
    }
  }

  lemma {:induction false} OrZero(x: nat)
    ensures BitOr(x, 0) == x
    decreases x
  {
    if x > 0 {
      OrZero(x / 2);
    }
  }

  lemma {:induction false} Pow2Monotone(j: nat, k: nat)
    requires j <= k
    ensures Pow2(j) <= Pow2(k)
    ensures j < k ==> Pow2(j) < Pow2(k)
  {
    if j < k {
      Pow2Monotone(j, k - 1);
    }
  }

  /** Masking with 2^k - 1 is the remainder by 2^k. */
  lemma {:induction false} MaskIsRemainder(x: nat, k: nat)
    ensures BitAnd(x, Pow2(k) - 1) == x % Pow2(k)
    decreases x
  {
    if x == 0 {
      SmallRemainder(0, Pow2(k));
    } else if k == 0 {
      AndZero(x);
      assert x % 1 == 0;
    } else {
      MaskIsRemainder(x / 2, k - 1);
      var h := Pow2(k - 1);
      assert (2 * h - 1) / 2 == h - 1 && (2 * h - 1) % 2 == 1;
      HalvedRemainder(x, h);
    }
  }

  lemma {:induction false} AndZero(x: nat)
    ensures BitAnd(x, 0) == 0
    decreases x
  {
    if x != 0 {
      AndZero(x / 2);
    }
  }

  lemma SmallRemainder(x: nat, m: nat)
    requires x < m
    ensures x % m == x && x / m == 0
  {
  }

  lemma HalvedRemainder(x: nat, h: nat)
    requires h >= 1
    ensures x % (2 * h) == 2 * ((x / 2) % h) + x % 2
  {
    var y := x / 2;
    var q, r := y / h, y % h;
    assert y == q * h + r;
    assert x == 2 * y + x % 2;
    assert x == q * (2 * h) + (2 * r + x % 2) by {
      assert 2 * (q * h) == q * (2 * h);
    }
    UniqueQuotient(x, 2 * h, q, 2 * r + x % 2);
  }

  lemma UniqueQuotient(x: int, m: nat, q: int, r: int)
    requires m >= 1 && 0 <= r < m && x == q * m + r
    ensures x / m == q && x % m == r
  {
    var q', r' := x / m, x % m;
    assert x == q' * m + r';
    assert (q - q') * m == r' - r;
    if q > q' {
      MulAtLeast(q - q', m);
    } else if q < q' {
      MulAtLeast(q' - q, m);
    }
  }

  lemma MulAtLeast(a: int, m: nat)
    requires a >= 1
    ensures a * m >= m
  {
  }

  lemma AndEven(x: nat, y: nat, m: nat)
    requires y == 2 * m
    ensures BitAnd(x, y) == 2 * BitAnd(x / 2, m)
  {
    assert y / 2 == m && y % 2 == 0;
  }

  /** Masking a word of w bits with the complement of 2^k - 1 rounds it down to
      a multiple of 2^k. */
  lemma ComplementMaskRoundsDown(x: nat, k: nat, w: nat)
    requires k <= w && x < Pow2(w)
    ensures Pow2(k) <= Pow2(w) && BitAnd(x, Pow2(w) - Pow2(k)) == x - x % Pow2(k)
  {
    Pow2Monotone(k, w);
    MaskRounds(x, k, w, Pow2(k), Pow2(w));
  }

  lemma {:induction false} MaskRounds(x: nat, k: nat, w: nat, p: nat, q: nat)
    requires k <= w && x < q && p == Pow2(k) && q == Pow2(w) && p <= q
    ensures BitAnd(x, q - p) == x - x % p
    decreases k
  {
    if k == 0 {
      FullMask(x, w);
    } else {
      var a, b := Pow2(w - 1), Pow2(k - 1);
      assert q == 2 * a && p == 2 * b;
      MaskRounds(x / 2, k - 1, w - 1, b, a);
      AndEven(x, q - p, a - b);
      HalvedRemainder(x, b);
      DoubledRemainder(x, x / 2 % b, BitAnd(x / 2, a - b));
    }
  }

  lemma FullMask(x: nat, w: nat)
    requires x < Pow2(w)
    ensures BitAnd(x, Pow2(w) - 1) == x - x % 1
  {
    MaskIsRemainder(x, w);
    SmallRemainder(x, Pow2(w));
    assert x % 1 == 0;
  }

  /** Twice what the halves leave, in plain numbers. */
  lemma DoubledRemainder(x: nat, r: nat, half: int)
    requires half == x / 2 - r
    ensures 2 * half == x - (2 * r + x % 2)
  {
  }

  lemma Pow2Bound(k: nat)
    ensures Pow2(k) <= 0x8000 <==> k <= 15
  {
    if k > 15 {
      Pow2Monotone(16, k);
      Pow2Of16();
    } else {
      PageSizeFits16(k);
    }
  }

  lemma Pow2Of16()
    ensures Pow2(16) == 0x1_0000
  {
    assert Pow2(8) == 0x100;
  }

  ghost predicate IsPow2(x: nat) {
    exists k: nat :: Pow2(k) == x
  }

  lemma {:induction false} AndSelf(x: nat)
    ensures BitAnd(x, x) == x
    decreases x
  {
    if x > 0 {
      AndSelf(x / 2);
    }
  }

  /** The test x & (x - 1) == 0 accepts exactly the powers of two (and zero). */
  lemma {:induction false} PowerOfTwoTest(x: nat)
    requires x >= 1
    ensures BitAnd(x, x - 1) == 0 <==> IsPow2(x)
    decreases x
  {
    if x == 1 {
      assert Pow2(0) == 1;
    } else if x % 2 == 1 {
      AndSelf(x / 2);
      assert (x - 1) / 2 == x / 2;
      forall k: nat
        ensures Pow2(k) != x
      {
      }
    } else {
      var h := x / 2;
      PowerOfTwoTest(h);
      assert (x - 1) / 2 == h - 1;
      if IsPow2(h) {
        var k: nat :| Pow2(k) == h;
        assert Pow2(k + 1) == x;
      }
      if IsPow2(x) {
        var k: nat :| Pow2(k) == x;
        assert k >= 1 && Pow2(k - 1) == h;
      }
    }
  }

  // ----- pages -----

  type pos = x: nat | x >= 1 witness 1

  // ----- multiples of the page size -----

  /** First sector of window k, when windows of sz sectors are laid out in a row. */
  function SlotStart(sz: pos, k: nat): (start: nat) {
    if k == 0 then 0 else SlotStart(sz, k - 1) + sz
  }

  lemma {:induction false} SlotStartIsProduct(sz: pos, k: nat)
    ensures SlotStart(sz, k) == k * sz
  {
    if k > 0 {
      SlotStartIsProduct(sz, k - 1);
      assert k * sz == (k - 1) * sz + sz;
    }
  }

  /** Windows of different slots are disjoint and, for n slots, tile [0, n*sz). */
  lemma {:induction false} SlotsTile(sz: pos, j: nat, k: nat)
    requires j < k
    ensures SlotStart(sz, j) + sz <= SlotStart(sz, k)
    ensures j + 1 == k ==> SlotStart(sz, j) + sz == SlotStart(sz, k)
    decreases k
  {
    if j + 1 < k {
      SlotsTile(sz, j, k - 1);
    }
  }

  /** First sector of the page that holds sector x. */
  function PageOf(sz: pos, x: nat): (b: nat)
    ensures b <= x < b + sz && Aligned(sz, b)
    decreases x
  {
    if x < sz then
      assert SlotStart(sz, 0) == 0;
      0
    else
      AlignedNext(sz, PageOf(sz, x - sz));
      PageOf(sz, x - sz) + sz
  }

  /** b is the first sector of some page. */
  ghost predicate Aligned(sz: pos, b: nat) {
    exists q: nat :: SlotStart(sz, q) == b
  }

  lemma AlignedNext(sz: pos, b: nat)
    requires Aligned(sz, b)
    ensures Aligned(sz, b + sz)
  {
    var q: nat :| SlotStart(sz, q) == b;
    assert SlotStart(sz, q + 1) == b + sz;
  }

  /** Distinct page starts are a whole page apart. */
  lemma AlignedGap(sz: pos, a: nat, b: nat)
    requires Aligned(sz, a) && Aligned(sz, b) && a < b
    ensures a + sz <= b
  {
    var p: nat :| SlotStart(sz, p) == a;
    var q: nat :| SlotStart(sz, q) == b;
    if q < p {
      SlotsTile(sz, q, p);
    } else {
      SlotsTile(sz, p, q);
    }
  }

  /** Page starts by division. */
  lemma {:induction false} PageOfIsRemainder(sz: pos, x: nat)
    ensures PageOf(sz, x) == x - x % sz
    decreases x
  {
    if x < sz {
      SmallRemainder(x, sz);
    } else {
      PageOfIsRemainder(sz, x - sz);
      SameRemainder(sz, x - sz);
    }
  }

  lemma SameRemainder(sz: pos, y: nat)
    ensures (y + sz) % sz == y % sz
  {
    var q := y / sz;
    assert y == q * sz + y % sz;
    assert (q + 1) * sz == q * sz + sz;
    UniqueQuotient(y + sz, sz, q + 1, y % sz);
  }

  lemma PageOfUnique(sz: pos, x: nat, b: nat)
    requires Aligned(sz, b) && b <= x < b + sz
    ensures PageOf(sz, x) == b
  {
    var c := PageOf(sz, x);
    if c < b {
      AlignedGap(sz, c, b);
    } else if b < c {
      AlignedGap(sz, b, c);
    }
  }

  lemma Pow2Of32()
    ensures Pow2(32) == 0x1_0000_0000
  {
    assert Pow2(8) == 0x100;
    assert Pow2(16) == 0x1_0000;
    assert Pow2(24) == 0x100_0000;
  }

  /** The two masks the cache applies to a 32-bit sector number give its page and
      its offset in the page. */
  lemma MasksSplitSector(x: nat, k: nat)
    requires k <= 32 && x < 0x1_0000_0000
    ensures Pow2(k) <= 0x1_0000_0000
    ensures BitAnd(x, 0x1_0000_0000 - Pow2(k)) == PageOf(Pow2(k), x)
    ensures BitAnd(x, Pow2(k) - 1) == x - PageOf(Pow2(k), x)
  {
    Pow2Of32();
    ComplementMaskRoundsDown(x, k, 32);
    MaskIsRemainder(x, k);
    PageOfIsRemainder(Pow2(k), x);
  }

  // ----- slot windows -----

  lemma PageSizeFits16(k: nat)
    requires k <= 15
    ensures Pow2(k) <= 0x8000
  {
    Pow2Monotone(k, 15);
    assert Pow2(5) == 0x20;
    assert Pow2(10) == 0x400;
  }
}
