/** The abstract contents of a cached disc, the invariant that ties pages, dirty
    intervals and device together, and what each cache routine does to both. */
module CacheInvariant {
  import opened Pages
  import opened Device
  import opened CacheModel

  // ----- abstraction and invariant -----

  /** Position of the first entry from the i-th on that holds page b, or -1. */
  function HolderFrom(ps: seq<Page>, b: nat, i: nat): (r: int)
    requires i <= |ps|
    ensures r == -1 || i <= r < |ps|
    ensures r >= 0 ==> ps[r].base == b && forall j :: i <= j < r ==> ps[j].base != b
    ensures r < 0 ==> forall j :: i <= j < |ps| ==> ps[j].base != b
    decreases |ps| - i
  {
    if i == |ps| then -1
    else if ps[i].base == b then i
    else HolderFrom(ps, b, i + 1)
  }

  /** Position of the first entry that holds page b, or -1. */
  function Holder(ps: seq<Page>, b: nat): (r: int)
    ensures -1 <= r < |ps|
    ensures r >= 0 ==> ps[r].base == b && forall i :: 0 <= i < r ==> ps[i].base != b
    ensures r < 0 ==> forall i :: 0 <= i < |ps| ==> ps[i].base != b
  {
    HolderFrom(ps, b, 0)
  }

  /** Sector x as the file system above must see it: the resident copy if there is
      one, else the device's. */
  ghost function View(g: Geo, c: Cache, x: nat): Sector {
    var b := PageOf(g.sz, x);
    var h := Holder(c.pages, b);
    if h >= 0 then At(c.pages[h].data, x - b) else At(c.disk.sectors, x)
  }

  /** s[i], or the empty sector off the end of s. */
  function At(s: seq<Sector>, i: nat): Sector {
    if i < |s| then s[i] else []
  }

  ghost predicate SameView(g: Geo, c: Cache, d: Cache) {
    forall x :: 0 <= x < g.n ==> View(g, d, x) == View(g, c, x)
  }

  /** No page is held by two entries. */
  ghost predicate Distinct(ps: seq<Page>) {
    forall i :: 0 <= i < |ps| && ps[i].base != EMPTY ==> NotBehind(ps, i)
  }

  /** The page of entry i is not held further back. */
  ghost predicate NotBehind(ps: seq<Page>, i: int)
    requires 0 <= i < |ps|
  {
    forall j :: i < j < |ps| ==> ps[j].base != ps[i].base
  }

  /** Outside the dirty interval the page agrees with the device. */
  ghost predicate PageSound(g: Geo, d: Disk, p: Page) {
    p.base != EMPTY ==>
      forall k :: 0 <= k < g.sz && p.base + k < g.n && !(p.lo <= k < p.hi) ==>
        At(p.data, k) == At(d.sectors, p.base + k)
  }

  ghost predicate SoundBut(g: Geo, c: Cache, v: int) {
    forall i :: 0 <= i < |c.pages| && i != v ==> PageSound(g, c.disk, c.pages[i])
  }

  ghost predicate Inv(g: Geo, c: Cache) {
    Struct(g, c) && Distinct(c.pages) && SoundBut(g, c, -1)
  }

  // ----- reading the view -----

  lemma ViewIn(g: Geo, c: Cache, i: nat, x: nat)
    requires Struct(g, c) && Distinct(c.pages) && x < g.n
    requires i < |c.pages| && c.pages[i].base != EMPTY
    requires c.pages[i].base <= x < c.pages[i].base + g.sz
    ensures View(g, c, x) == c.pages[i].data[x - c.pages[i].base]
  {
    PageOfUnique(g.sz, x, c.pages[i].base);
  }

  lemma ViewOut(g: Geo, c: Cache, x: nat)
    requires Struct(g, c) && x < g.n
    requires forall i :: 0 <= i < |c.pages| ==> c.pages[i].base != PageOf(g.sz, x)
    ensures View(g, c, x) == c.disk.sectors[x]
  {
  }

  // ----- search -----

  /** Entry r holds the lowest resident page at or above b. */
  ghost predicate NearestFrom(ps: seq<Page>, b: nat, r: nat)
    requires r < |ps|
  {
    && b <= ps[r].base < EMPTY
    && forall i :: 0 <= i < |ps| && b <= ps[i].base < EMPTY ==> ps[r].base <= ps[i].base
  }

  /** The early exit at an unused entry never hides a resident page: the search
      finds the page if it is resident, otherwise its nearest resident successor. */
  lemma SearchIsNearest(ps: seq<Page>, b: nat)
    requires EmptySuffix(ps) && (forall k :: 0 <= k < |ps| ==> ps[k].base <= EMPTY) && b < EMPTY
    ensures SearchResult(ps, b, Search(ps, b))
  {
    SearchFromNearest(ps, b, 0, -1);
  }

  ghost predicate SearchResult(ps: seq<Page>, b: nat, r: int)
    requires -1 <= r < |ps|
  {
    && (r < 0 ==> forall k :: 0 <= k < |ps| && ps[k].base != EMPTY ==> ps[k].base < b)
    && (r >= 0 ==> NearestFrom(ps, b, r))
    && (Holder(ps, b) >= 0 ==> r == Holder(ps, b))
  }

  lemma {:induction false} SearchFromNearest(ps: seq<Page>, b: nat, i: nat, best: int)
    requires EmptySuffix(ps) && (forall k :: 0 <= k < |ps| ==> ps[k].base <= EMPTY) && b < EMPTY
    requires -1 <= best < i <= |ps|
    requires forall k :: 0 <= k < i ==> ps[k].base != EMPTY && ps[k].base != b
    requires best < 0 ==> forall k :: 0 <= k < i ==> ps[k].base < b
    requires best >= 0 ==> b < ps[best].base
    requires best >= 0 ==> forall k :: 0 <= k < i && b <= ps[k].base ==> ps[best].base <= ps[k].base
    ensures SearchResult(ps, b, SearchFrom(ps, b, i, best))
    decreases |ps| - i
  {
    if i == |ps| {
    } else if ps[i].base == EMPTY {
      assert forall k :: i < k < |ps| ==> ps[k].base == EMPTY;
    } else if ps[i].base == b {
      assert Holder(ps, b) == i;
    } else {
      SearchFromNearest(ps, b, i + 1, if ps[i].base > b && ps[i].base < MinSec(ps, best) then i else best);
    }
  }

  // ----- flush of one entry -----

  /** Writing back the hull of the dirty sectors never changes the view and keeps
      the invariant, whether or not the device accepts it. */
  lemma FlushPageKeeps(g: Geo, o: Oracle, c: Cache, k: nat)
    requires Inv(g, c) && k < |c.pages|
    ensures var r := FlushPage(g, o, c, k);
      && Inv(g, r.0) && SameView(g, c, r.0)
      && (r.1 ==> r.0.pages[k] == c.pages[k].(lo := g.sz, hi := 0))
      && (!r.1 ==> r.0.pages == c.pages)
      && forall i :: 0 <= i < |c.pages| && i != k ==> r.0.pages[i] == c.pages[i]
  {
    var r := FlushPage(g, o, c, k);
    forall i | 0 <= i < |c.pages|
      ensures PageSound(g, r.0.disk, r.0.pages[i])
    {
      FlushPageSound(g, o, c, k, i);
    }
    assert Distinct(r.0.pages) by {
      assert forall i :: 0 <= i < |c.pages| ==> r.0.pages[i].base == c.pages[i].base;
    }
    FlushPageView(g, o, c, k);
  }

  lemma FlushPageView(g: Geo, o: Oracle, c: Cache, k: nat)
    requires Inv(g, c) && k < |c.pages| && Distinct(FlushPage(g, o, c, k).0.pages)
    ensures SameView(g, c, FlushPage(g, o, c, k).0)
  {
    var r := FlushPage(g, o, c, k);
    forall x | 0 <= x < g.n
      ensures View(g, r.0, x) == View(g, c, x)
    {
      var h := Holder(c.pages, PageOf(g.sz, x));
      if h >= 0 {
        ViewIn(g, r.0, h, x);
      } else {
        ViewOut(g, r.0, x);
        if c.pages[k].lo < c.pages[k].hi && c.pages[k].base <= x < c.pages[k].base + g.sz {
          PageOfUnique(g.sz, x, c.pages[k].base);
          assert false;
        }
      }
    }
  }

  lemma FlushPageSound(g: Geo, o: Oracle, c: Cache, k: nat, i: nat)
    requires Inv(g, c) && k < |c.pages| && i < |c.pages|
    ensures var r := FlushPage(g, o, c, k); PageSound(g, r.0.disk, r.0.pages[i])
  {
    var r := FlushPage(g, o, c, k);
    assert PageSound(g, c.disk, c.pages[i]);
    if c.pages[i].base != EMPTY && c.pages[k].lo < c.pages[k].hi {
      if i != k {
        DisjointPages(g, c, i, k);
        var p := c.pages[k];
        UntouchedSound(g, c.disk, r.0.disk, c.pages[i], p.base + p.lo, p.base + p.hi);
      } else if r.1 {
        WrittenBackSound(g, c.disk, r.0.disk, c.pages[k]);
      }
    }
  }

  /** A page keeps agreeing with the device when only sectors it does not hold, or
      holds dirty, change there. */
  lemma UntouchedSound(g: Geo, d: Disk, d': Disk, p: Page, from: nat, to: nat)
    requires PageSound(g, d, p) && |d'.sectors| == |d.sectors|
    requires forall x :: 0 <= x < |d.sectors| && !(from <= x < to) ==> d'.sectors[x] == d.sectors[x]
    requires to <= p.base || p.base + g.sz <= from
    ensures PageSound(g, d', p)
  {
  }

  lemma WrittenBackSound(g: Geo, d: Disk, d': Disk, p: Page)
    requires |p.data| == g.sz && p.base != EMPTY && p.lo < p.hi <= g.sz && p.base + p.hi <= |d.sectors|
    requires PageSound(g, d, p) && |d'.sectors| == |d.sectors|
    requires forall x :: 0 <= x < |d.sectors| ==>
      d'.sectors[x] == if p.base + p.lo <= x < p.base + p.hi then p.data[x - p.base] else d.sectors[x]
    ensures PageSound(g, d', p.(lo := g.sz, hi := 0))
  {
    forall k | 0 <= k < g.sz && p.base + k < g.n
      ensures At(p.data, k) == At(d'.sectors, p.base + k)
    {
      assert p.lo <= k < p.hi || At(p.data, k) == At(d.sectors, p.base + k);
    }
  }

  lemma DisjointPages(g: Geo, c: Cache, i: nat, j: nat)
    requires Struct(g, c) && Distinct(c.pages) && i < |c.pages| && j < |c.pages| && i != j
    requires c.pages[i].base != EMPTY && c.pages[j].base != EMPTY
    ensures var a, b := c.pages[i].base, c.pages[j].base; a + g.sz <= b || b + g.sz <= a
  {
    var a, b := c.pages[i].base, c.pages[j].base;
    if a < b { AlignedGap(g.sz, a, b); } else if b < a { AlignedGap(g.sz, b, a); }
  }

  // ----- refill of the victim -----

  /** Giving the clean victim to page b. A failed load leaves the entry unused and
      the view as it was; a load leaves the view as it was; skipping the load
      leaves only page b itself to be filled in. */
  lemma RefillKeeps(g: Geo, o: Oracle, c: Cache, v: nat, b: nat, load: bool)
    requires Inv(g, c) && v == Victim(c.pages) && c.pages[v].lo >= c.pages[v].hi
    requires Aligned(g.sz, b) && b < g.n
    requires forall i :: 0 <= i < |c.pages| && i != v ==> c.pages[i].base != b
    ensures var r := Refill(g, o, c, v, b, load);
      && Distinct(r.0.pages) && SoundBut(g, r.0, v)
      && (load || !r.1 ==> Inv(g, r.0) && SameView(g, c, r.0))
      && (r.1 ==> r.0.pages[v].base == b)
      && (forall x :: 0 <= x < g.n && !(b <= x < b + g.sz) ==> View(g, r.0, x) == View(g, c, x))
  {
    var r := Refill(g, o, c, v, b, load);
    assert forall i :: 0 <= i < |c.pages| && i != v ==> r.0.pages[i] == c.pages[i];
    assert forall i :: 0 <= i < |c.pages| && i != v ==> PageSound(g, c.disk, c.pages[i]);
    if load && r.1 {
      assert PageSound(g, r.0.disk, r.0.pages[v]);
    }
    forall x | 0 <= x < g.n && ((load || !r.1) || !(b <= x < b + g.sz))
      ensures View(g, r.0, x) == View(g, c, x)
    {
      RefillView(g, o, c, v, b, load, x);
    }
  }

  lemma RefillView(g: Geo, o: Oracle, c: Cache, v: nat, b: nat, load: bool, x: nat)
    requires Inv(g, c) && v == Victim(c.pages) && c.pages[v].lo >= c.pages[v].hi
    requires Aligned(g.sz, b) && b < g.n && x < g.n
    requires forall i :: 0 <= i < |c.pages| && i != v ==> c.pages[i].base != b
    requires Distinct(Refill(g, o, c, v, b, load).0.pages)
    requires var r := Refill(g, o, c, v, b, load); (load || !r.1) || !(b <= x < b + g.sz)
    ensures View(g, Refill(g, o, c, v, b, load).0, x) == View(g, c, x)
  {
    var r := Refill(g, o, c, v, b, load);
    var h := Holder(c.pages, PageOf(g.sz, x));
    if h >= 0 && h != v {
      ViewIn(g, r.0, h, x);
    } else {
      VictimView(g, c, v, x);
      RefilledView(g, o, c, v, b, load, x);
    }
  }

  /** What no entry but the clean one at v can hold is as on the device. */
  lemma VictimView(g: Geo, c: Cache, v: nat, x: nat)
    requires Inv(g, c) && v < |c.pages| && c.pages[v].lo >= c.pages[v].hi && x < g.n
    requires var h := Holder(c.pages, PageOf(g.sz, x)); h < 0 || h == v
    ensures View(g, c, x) == c.disk.sectors[x]
  {
    if Holder(c.pages, PageOf(g.sz, x)) == v {
      assert PageSound(g, c.disk, c.pages[v]);
      CleanSector(g, c.disk, c.pages[v], x);
    }
  }

  lemma CleanSector(g: Geo, d: Disk, p: Page, x: nat)
    requires PageSound(g, d, p) && p.base != EMPTY && p.lo >= p.hi
    requires p.base <= x < p.base + g.sz && x < g.n <= |d.sectors|
    ensures At(p.data, x - p.base) == d.sectors[x]
  {
    var k := x - p.base;
    assert At(p.data, k) == At(d.sectors, p.base + k);
  }

  lemma RefilledView(g: Geo, o: Oracle, c: Cache, v: nat, b: nat, load: bool, x: nat)
    requires Struct(g, c) && Distinct(c.pages) && v == Victim(c.pages) && c.pages[v].lo >= c.pages[v].hi
    requires Aligned(g.sz, b) && b < g.n && x < g.n
    requires Distinct(Refill(g, o, c, v, b, load).0.pages)
    requires var r := Refill(g, o, c, v, b, load); (load || !r.1) || !(b <= x < b + g.sz)
    requires var h := Holder(c.pages, PageOf(g.sz, x)); h < 0 || h == v
    ensures View(g, Refill(g, o, c, v, b, load).0, x) == c.disk.sectors[x]
  {
    var r := Refill(g, o, c, v, b, load);
    assert r.0.disk.sectors == c.disk.sectors;
    var h := Holder(r.0.pages, PageOf(g.sz, x));
    if h >= 0 {
      HolderAfterRefill(g, o, c, v, b, load, x);
      ViewIn(g, r.0, v, x);
    }
  }

  lemma HolderAfterRefill(g: Geo, o: Oracle, c: Cache, v: nat, b: nat, load: bool, x: nat)
    requires Struct(g, c) && v == Victim(c.pages) && c.pages[v].lo >= c.pages[v].hi
    requires Aligned(g.sz, b) && b < g.n && x < g.n && Distinct(c.pages)
    requires Holder(Refill(g, o, c, v, b, load).0.pages, PageOf(g.sz, x)) >= 0
    requires var h := Holder(c.pages, PageOf(g.sz, x)); h < 0 || h == v
    ensures Holder(Refill(g, o, c, v, b, load).0.pages, PageOf(g.sz, x)) == v
  {
    var r := Refill(g, o, c, v, b, load);
    var h := Holder(r.0.pages, PageOf(g.sz, x));
  }

  // ----- the dirty interval -----

  /** Sector x of page p was dirty, or is among the n written from `off` on. */
  predicate Marked(p: Page, off: nat, n: nat, x: nat) {
    p.lo <= x < p.hi || off <= x < off + n
  }

  /** After a write the dirty interval is the smallest one with all sectors that were
      dirty and all that were written: every sector in it lies between two of those. */
  lemma StoredHull(g: Geo, p: Page, limit: nat, off: nat, b: seq<Sector>, x: nat)
    requires PageOk(g, limit, p) && |b| >= 1 && off + |b| <= g.sz
    ensures var q := Stored(p, off, b);
      q.lo <= x < q.hi <==>
        exists i: nat, j: nat :: i <= x <= j && Marked(p, off, |b|, i) && Marked(p, off, |b|, j)
  {
    var q, n := Stored(p, off, b), |b|;
    if q.lo <= x < q.hi {
      assert Marked(p, off, n, q.lo) && Marked(p, off, n, q.hi - 1);
    }
  }

  // ----- access to a resident page -----

  /** Promoting an entry changes neither the invariant nor the view. */
  lemma TouchKeeps(g: Geo, c: Cache, k: nat)
    requires Inv(g, c) && k < |c.pages| && c.pages[k].base != EMPTY
    ensures var c' := Cache(Touch(c.pages, k), c.disk); Inv(g, c') && SameView(g, c, c')
  {
    var c' := Cache(Touch(c.pages, k), c.disk);
    assert forall i :: 0 <= i < |c.pages| ==>
      c'.pages[i] == if i == 0 then c.pages[k] else if i <= k then c.pages[i - 1] else c.pages[i];
    assert forall i :: 0 <= i < |c.pages| ==> PageSound(g, c.disk, c.pages[i]);
    forall x | 0 <= x < g.n
      ensures View(g, c', x) == View(g, c, x)
    {
      TouchView(g, c, k, x);
    }
  }

  lemma TouchView(g: Geo, c: Cache, k: nat, x: nat)
    requires Inv(g, c) && k < |c.pages| && x < g.n
    requires var c' := Cache(Touch(c.pages, k), c.disk); Struct(g, c') && Distinct(c'.pages)
    ensures View(g, Cache(Touch(c.pages, k), c.disk), x) == View(g, c, x)
  {
    var c' := Cache(Touch(c.pages, k), c.disk);
    var h := Holder(c.pages, PageOf(g.sz, x));
    if h >= 0 {
      ViewIn(g, c', if h == k then 0 else if h < k then h + 1 else h, x);
    } else {
      assert forall i :: 0 <= i < |c.pages| ==>
        c'.pages[i] == if i == 0 then c.pages[k] else if i <= k then c.pages[i - 1] else c.pages[i];
      ViewOut(g, c', x);
    }
  }

  /** Copying sectors into a page: the view takes them over, and the widened dirty
      interval still covers every difference from the device. A page whose load was
      skipped may be copied into only wholly. */
  lemma StoreKeeps(g: Geo, c: Cache, k: nat, off: nat, b: seq<Sector>)
    requires Struct(g, c) && Distinct(c.pages) && SoundBut(g, c, k)
    requires k < |c.pages| && c.pages[k].base != EMPTY
    requires |b| >= 1 && off + |b| <= g.sz && c.pages[k].base + off + |b| <= g.n
    requires PageSound(g, c.disk, c.pages[k]) || (off == 0 && |b| == g.sz)
    ensures var c' := Cache(c.pages[k := Stored(c.pages[k], off, b)], c.disk);
      && Inv(g, c')
      && forall x :: 0 <= x < g.n ==>
           View(g, c', x) == if c.pages[k].base + off <= x < c.pages[k].base + off + |b|
                             then b[x - c.pages[k].base - off] else View(g, c, x)
  {
    var p := c.pages[k];
    var c' := Cache(c.pages[k := Stored(p, off, b)], c.disk);
    assert Struct(g, c');
    assert forall i :: 0 <= i < |c.pages| && i != k ==> PageSound(g, c.disk, c'.pages[i]);
    StoredSound(g, c.disk, p, off, b);
    forall x | 0 <= x < g.n
      ensures View(g, c', x) == if p.base + off <= x < p.base + off + |b|
                                then b[x - p.base - off] else View(g, c, x)
    {
      StoreView(g, c, k, off, b, x);
    }
  }

  lemma StoredSound(g: Geo, d: Disk, p: Page, off: nat, b: seq<Sector>)
    requires |p.data| == g.sz && off + |b| <= g.sz
    requires PageSound(g, d, p) || (off == 0 && |b| == g.sz)
    ensures PageSound(g, d, Stored(p, off, b))
  {
    var q := Stored(p, off, b);
    BlitIndex(p.data, off, b);
    if p.base != EMPTY {
      forall k | 0 <= k < g.sz && p.base + k < g.n && !(q.lo <= k < q.hi)
        ensures At(q.data, k) == At(d.sectors, p.base + k)
      {
        assert At(p.data, k) == At(d.sectors, p.base + k);
      }
    }
  }

  lemma StoreView(g: Geo, c: Cache, k: nat, off: nat, b: seq<Sector>, x: nat)
    requires Struct(g, c) && Distinct(c.pages) && x < g.n
    requires k < |c.pages| && c.pages[k].base != EMPTY
    requires |b| >= 1 && off + |b| <= g.sz && c.pages[k].base + off + |b| <= g.n
    requires Struct(g, Cache(c.pages[k := Stored(c.pages[k], off, b)], c.disk))
    ensures var c' := Cache(c.pages[k := Stored(c.pages[k], off, b)], c.disk);
      View(g, c', x) == if c.pages[k].base + off <= x < c.pages[k].base + off + |b|
                        then b[x - c.pages[k].base - off] else View(g, c, x)
  {
    var c' := Cache(c.pages[k := Stored(c.pages[k], off, b)], c.disk);
    assert Distinct(c'.pages);
    var h := Holder(c.pages, PageOf(g.sz, x));
    if c.pages[k].base <= x < c.pages[k].base + g.sz {
      ViewIn(g, c', k, x);
      ViewIn(g, c, k, x);
      BlitIndex(c.pages[k].data, off, b);
    } else if h >= 0 {
      ViewIn(g, c', h, x);
    } else {
      ViewOut(g, c', x);
    }
  }
}
