/** The write-back sector cache as a value: what each routine of the cache does to
    the pages, taken in recency order, and to the device underneath. The class in
    DiscCache.dfy, which works in place on linked entries and one data buffer, is
    proved to compute exactly these functions. */
module CacheModel {
  import opened Pages
  import opened Device

  /** Base sector of an unused entry: all ones in an unsigned 32-bit sector number. */
  const EMPTY: nat := 0xFFFF_FFFF

  /** One cache entry with its window of the data buffer. Sectors [lo, hi) of the
      page are dirty. */
  datatype Page = Page(slot: nat, base: nat, lo: nat, hi: nat, data: seq<Sector>)

  /** Page size in sectors, and size of the cached disc in sectors. */
  datatype Geo = Geo(sz: pos, n: nat)

  /** Entries, most recently used first, and the device. */
  datatype Cache = Cache(pages: seq<Page>, disk: Disk)

  datatype Req = Req(first: nat, num: nat, partial: bool, aligned: bool, write: bool)

  // ----- structural invariant -----

  ghost predicate PageOk(g: Geo, limit: nat, p: Page)
  {
    && |p.data| == g.sz
    && p.base <= EMPTY
    && (p.base != EMPTY ==> Aligned(g.sz, p.base))
    && (|| (p.lo == g.sz && p.hi == 0)
        || (p.base != EMPTY && p.lo < p.hi <= g.sz && p.base + p.hi <= limit))
  }

  ghost predicate EmptySuffix(ps: seq<Page>) {
    forall i :: 0 <= i < |ps| && ps[i].base == EMPTY ==> EmptyBehind(ps, i)
  }

  ghost predicate EmptyBehind(ps: seq<Page>, i: int)
    requires 0 <= i < |ps|
  {
    forall j :: i < j < |ps| ==> ps[j].base == EMPTY
  }

  /** What holds of every reachable cache, even one with a duplicated page. */
  ghost predicate Struct(g: Geo, c: Cache) {
    && g.n <= EMPTY
    && g.n <= |c.disk.sectors|
    && |c.pages| >= 1
    && (forall i :: 0 <= i < |c.pages| ==> PageOk(g, |c.disk.sectors|, c.pages[i]))
    && EmptySuffix(c.pages)
  }

  /** No entry holds a page. */
  ghost predicate NoneInUse(ps: seq<Page>) {
    forall i :: 0 <= i < |ps| ==> ps[i].base == EMPTY
  }

  // ----- search -----

  function MinSec(ps: seq<Page>, best: int): nat
    requires -1 <= best < |ps|
  {
    if best < 0 then EMPTY else ps[best].base
  }

  /** The scan of the recency list from position i, `best` being the nearest
      successor of page b met so far (-1: none). */
  function SearchFrom(ps: seq<Page>, b: nat, i: nat, best: int): (r: int)
    requires i <= |ps| && -1 <= best < |ps|
    ensures -1 <= r < |ps|
    decreases |ps| - i
  {
    if i == |ps| || ps[i].base == EMPTY then best
    else if ps[i].base == b then i
    else SearchFrom(ps, b, i + 1, if ps[i].base > b && ps[i].base < MinSec(ps, best) then i else best)
  }

  function Search(ps: seq<Page>, b: nat): (r: int)
    ensures -1 <= r < |ps|
  {
    SearchFrom(ps, b, 0, -1)
  }

  // ----- flush of one entry -----

  function FlushPage(g: Geo, o: Oracle, c: Cache, k: nat): (r: (Cache, bool))
    requires Struct(g, c) && k < |c.pages|
    ensures Struct(g, r.0)
    ensures |r.0.pages| == |c.pages| && |r.0.disk.sectors| == |c.disk.sectors|
  {
    var p := c.pages[k];
    if p.lo >= p.hi then (c, true)
    else
      var (d, ok) := DiskWrite(o, c.disk, p.base + p.lo, p.data[p.lo..p.hi]);
      if ok then (Cache(c.pages[k := p.(lo := g.sz, hi := 0)], d), true)
      else (Cache(c.pages, d), false)
  }

  // ----- choice and refill of a victim -----

  function VictimFrom(ps: seq<Page>, i: nat): (r: nat)
    requires i < |ps|
    ensures r <= i
  {
    if ps[i].base == EMPTY && i > 0 && ps[i - 1].base == EMPTY then VictimFrom(ps, i - 1) else i
  }

  /** The first unused entry, or the tail of the list when every entry is in use. */
  function Victim(ps: seq<Page>): (r: nat)
    requires |ps| >= 1
    ensures r < |ps|
  {
    VictimFrom(ps, |ps| - 1)
  }

  lemma {:induction false} VictimFromFirst(ps: seq<Page>, i: nat)
    requires i < |ps| && EmptySuffix(ps)
    requires forall j :: i < j < |ps| ==> ps[j].base == EMPTY
    ensures var v := VictimFrom(ps, i);
      && (forall j :: v < j < |ps| ==> ps[j].base == EMPTY)
      && (ps[v].base == EMPTY ==> forall j :: 0 <= j < v ==> ps[j].base != EMPTY)
      && (ps[v].base != EMPTY ==> v == i)
  {
    if ps[i].base == EMPTY && i > 0 && ps[i - 1].base == EMPTY {
      VictimFromFirst(ps, i - 1);
    }
  }

  /** Unused entries behind the victim only; and if the victim is unused, all
      entries in front of it are in use. */
  lemma VictimIsFirstFree(ps: seq<Page>)
    requires |ps| >= 1 && EmptySuffix(ps)
    ensures var v := Victim(ps);
      && (forall j :: v < j < |ps| ==> ps[j].base == EMPTY)
      && (ps[v].base == EMPTY ==> forall j :: 0 <= j < v ==> ps[j].base != EMPTY)
      && (ps[v].base != EMPTY ==> v == |ps| - 1)
  {
    VictimFromFirst(ps, |ps| - 1);
  }

  /** Give entry v (clean) to page b; read the page in when `load`. */
  function Refill(g: Geo, o: Oracle, c: Cache, v: nat, b: nat, load: bool): (r: (Cache, bool))
    requires Struct(g, c) && v < |c.pages| && c.pages[v].lo >= c.pages[v].hi
    requires v == Victim(c.pages)
    requires Aligned(g.sz, b) && b < g.n
    ensures Struct(g, r.0)
    ensures |r.0.pages| == |c.pages| && |r.0.disk.sectors| == |c.disk.sectors|
  {
    VictimIsFirstFree(c.pages);
    var p := c.pages[v];
    if !load then (Cache(c.pages[v := p.(base := b)], c.disk), true)
    else
      var cnt := if g.sz < g.n - b then g.sz else g.n - b;
      var (d, got, ok) := DiskRead(o, c.disk, b, cnt);
      (Cache(c.pages[v := p.(base := if ok then b else EMPTY, data := Blit(p.data, 0, got))], d), ok)
  }

  // ----- access to a resident page -----

  /** Move entry k to the front. */
  function Touch<T>(s: seq<T>, k: nat): (r: seq<T>)
    requires k < |s|
    ensures |r| == |s| && r[0] == s[k]
    ensures forall i :: 0 <= i < k ==> r[i + 1] == s[i]
    ensures forall i :: 0 < i <= k ==> r[i] == s[i - 1]
    ensures forall i :: k < i < |s| ==> r[i] == s[i]
  {
    [s[k]] + s[..k] + s[k + 1..]
  }

  function Min(a: nat, b: nat): nat { if a < b then a else b }
  function Max(a: nat, b: nat): nat { if a > b then a else b }

  /** Entry p after sectors b were copied into it at offset off. */
  function Stored(p: Page, off: nat, b: seq<Sector>): Page
    requires off + |b| <= |p.data|
  {
    p.(data := Blit(p.data, off, b), lo := Min(off, p.lo), hi := Max(off + |b|, p.hi))
  }

  /** Copy `cur` sectors between the page at position k (from offset off) and the
      user buffer (from position at); then promote the page unless the access
      covers it wholly. Returns the page's new position last. */
  function Hit(g: Geo, c: Cache, buf: seq<Sector>, k: nat, off: nat, cur: nat, at: nat, write: bool)
    : (r: (Cache, seq<Sector>, nat))
    requires Struct(g, c) && k < |c.pages| && c.pages[k].base != EMPTY
    requires cur >= 1 && off + cur <= g.sz && at + cur <= |buf|
    requires c.pages[k].base + off + cur <= |c.disk.sectors|
    ensures Struct(g, r.0)
    ensures |r.0.pages| == |c.pages| && r.0.disk == c.disk
    ensures |r.1| == |buf| && (write ==> r.1 == buf)
    ensures r.2 < |c.pages| && r.0.pages[r.2].base == c.pages[k].base
  {
    var p := c.pages[k];
    var ps := if write then c.pages[k := Stored(p, off, buf[at..at + cur])] else c.pages;
    var buf' := if write then buf else Blit(buf, at, p.data[off..off + cur]);
    var whole := off == 0 && cur == g.sz;
    if !whole && k != 0 then (Cache(Touch(ps, k), c.disk), buf', 0)
    else (Cache(ps, c.disk), buf', k)
  }

  // ----- one iteration of the read/write loop -----

  /** State at the loop head: `done` sectors are finished, `p` is the position of
      the remembered entry (-1: NULL), `sb` is search_base. */
  datatype Loop = Loop(c: Cache, buf: seq<Sector>, done: nat, p: int, sb: nat)

  /** An iteration either goes on or leaves with failure; `torn` counts the sectors
      of a direct write that failed. */
  datatype StepResult = More(l: Loop) | Stop(c: Cache, buf: seq<Sector>, torn: nat)

  /** Whole request goes past the cache except where pages are resident. */
  predicate Direct(g: Geo, rq: Req) {
    !(rq.partial || rq.num < g.sz) && rq.aligned
  }

  function CurPage(g: Geo, rq: Req, done: nat): (b: nat)
  {
    PageOf(g.sz, rq.first + done)
  }

  function CurCount(g: Geo, rq: Req, done: nat): (cur: nat)
    requires done < rq.num
    ensures 1 <= cur <= g.sz && done + cur <= rq.num
    ensures rq.first + done + cur <= CurPage(g, rq, done) + g.sz
  {
    Min(rq.num - done, g.sz - (rq.first + done - CurPage(g, rq, done)))
  }

  /** Does chunk `done` cover its page wholly? */
  predicate Whole(g: Geo, rq: Req, done: nat)
    requires done < rq.num
  {
    rq.first + done == CurPage(g, rq, done) && CurCount(g, rq, done) == g.sz
  }

  /** The remembered entry and search_base after the search, if one is needed. */
  function Lookup(g: Geo, rq: Req, ps: seq<Page>, done: nat, p: int, sb: nat): (r: (int, nat))
    requires -1 <= p < |ps|
    ensures -1 <= r.0 < |ps|
  {
    var b := CurPage(g, rq, done);
    if b >= sb then
      var q := Search(ps, b);
      (q, if q >= 0 then ps[q].base + 1 else EMPTY)
    else (p, sb)
  }

  /** What makes one iteration well defined: the structure, the bounds check made
      on entry, and, for a direct request that will skip the search, a remembered
      entry that is not behind the current page. */
  ghost predicate Ready(g: Geo, rq: Req, l: Loop) {
    && Struct(g, l.c)
    && rq.first + rq.num <= g.n
    && l.done <= rq.num <= |l.buf|
    && -1 <= l.p < |l.c.pages|
    && (Direct(g, rq) && l.done < rq.num && CurPage(g, rq, l.done) < l.sb ==>
          if l.p < 0 then l.sb == EMPTY
          else l.c.pages[l.p].base != EMPTY && l.sb == l.c.pages[l.p].base + 1)
  }

  /** One iteration. `refresh` false: the loop as written. `refresh` true: the same
      loop with search_base set to the current page's base + 1 when an entry is
      given to that page. */
  function Step(g: Geo, o: Oracle, refresh: bool, rq: Req, l: Loop): (r: StepResult)
    requires Ready(g, rq, l) && l.done < rq.num
    ensures r.More? ==> Ready(g, rq, r.l) && l.done < r.l.done && |r.l.buf| == |l.buf|
    ensures r.Stop? ==> Struct(g, r.c) && |r.buf| == |l.buf| && l.done + r.torn <= rq.num
  {
    var first := rq.first + l.done;
    var b := CurPage(g, rq, l.done);
    var cur := CurCount(g, rq, l.done);
    var (p, sb) := Lookup(g, rq, l.c.pages, l.done, l.p, l.sb);
    if p >= 0 && l.c.pages[p].base == b then
      More(HitStep(g, rq, l.done, l.c, l.buf, p, sb))
    else if !Direct(g, rq) then
      var v := Victim(l.c.pages);
      var (c1, flushed) := FlushPage(g, o, l.c, v);
      if !flushed then Stop(c1, l.buf, 0)
      else
        FlushKeepsVictim(g, o, l.c, v);
        var (c2, loaded) := Refill(g, o, c1, v, b, !rq.write || !Whole(g, rq, l.done));
        if !loaded then Stop(c2, l.buf, 0)
        else More(HitStep(g, rq, l.done, c2, l.buf, v, if refresh then b + 1 else sb))
    else
      DirectStep(g, o, rq, l, p, sb)
  }

  lemma FlushKeepsVictim(g: Geo, o: Oracle, c: Cache, k: nat)
    requires Struct(g, c) && k == Victim(c.pages)
    ensures var r := FlushPage(g, o, c, k);
      && Victim(r.0.pages) == k
      && (r.1 ==> r.0.pages[k].lo >= r.0.pages[k].hi)
  {
    SameVictim(c.pages, FlushPage(g, o, c, k).0.pages, |c.pages| - 1);
  }

  lemma {:induction false} SameVictim(ps: seq<Page>, qs: seq<Page>, i: nat)
    requires i < |ps| == |qs|
    requires forall j :: 0 <= j < |ps| ==> ps[j].base == qs[j].base
    ensures VictimFrom(ps, i) == VictimFrom(qs, i)
  {
    if ps[i].base == EMPTY && i > 0 && ps[i - 1].base == EMPTY {
      SameVictim(ps, qs, i - 1);
    }
  }

  /** Transfer through the page at position k, then advance. */
  function HitStep(g: Geo, rq: Req, done: nat, c: Cache, buf: seq<Sector>, k: nat, sb: nat): (r: Loop)
    requires Struct(g, c) && rq.first + rq.num <= g.n
    requires done < rq.num <= |buf| && k < |c.pages|
    requires c.pages[k].base == CurPage(g, rq, done)
    requires Direct(g, rq) ==> sb == c.pages[k].base + 1
    ensures Ready(g, rq, r) && done < r.done && |r.buf| == |buf| && |r.c.disk.sectors| == |c.disk.sectors|
  {
    var (c', buf', k') := ChunkHit(g, rq, done, c, buf, k);
    Loop(c', buf', done + CurCount(g, rq, done), k', sb)
  }

  /** The access that chunk `done` makes to the page at position k. */
  function ChunkHit(g: Geo, rq: Req, done: nat, c: Cache, buf: seq<Sector>, k: nat): (Cache, seq<Sector>, nat)
    requires Struct(g, c) && rq.first + rq.num <= g.n
    requires done < rq.num <= |buf| && k < |c.pages|
    requires c.pages[k].base == CurPage(g, rq, done)
  {
    Hit(g, c, buf, k, rq.first + done - CurPage(g, rq, done), CurCount(g, rq, done), done, rq.write)
  }

  /** Transfer straight between the user buffer and the device, up to the
      remembered entry's page or the end of the disc, then advance. */
  function DirectStep(g: Geo, o: Oracle, rq: Req, l: Loop, p: int, sb: nat): (r: StepResult)
    requires Ready(g, rq, l) && l.done < rq.num && Direct(g, rq)
    requires (p, sb) == Lookup(g, rq, l.c.pages, l.done, l.p, l.sb)
    requires p >= 0 ==> l.c.pages[p].base != CurPage(g, rq, l.done)
    ensures r.More? ==> Ready(g, rq, r.l) && l.done < r.l.done && |r.l.buf| == |l.buf|
    ensures r.Stop? ==> Struct(g, r.c) && |r.buf| == |l.buf| && l.done + r.torn <= rq.num
  {
    var cur := DirectCount(g, rq, l, p, sb);
    var first := rq.first + l.done;
    var (c', buf', ok) := Bypass(o, l.c, l.buf, first, l.done, cur, rq.write);
    if ok then More(Loop(c', buf', l.done + cur, p, sb)) else Stop(c', buf', cur)
  }

  /** Sectors that can be transferred directly: up to the remembered entry's page,
      or to the end of the disc. */
  function DirectCount(g: Geo, rq: Req, l: Loop, p: int, sb: nat): (cur: nat)
    requires Ready(g, rq, l) && l.done < rq.num && Direct(g, rq)
    requires (p, sb) == Lookup(g, rq, l.c.pages, l.done, l.p, l.sb)
    requires p >= 0 ==> l.c.pages[p].base != CurPage(g, rq, l.done)
    ensures 1 <= cur <= rq.num - l.done
    ensures rq.first + l.done + cur <= if p >= 0 then l.c.pages[p].base else g.n
    ensures l.done + cur < rq.num ==> p >= 0 && rq.first + l.done + cur == l.c.pages[p].base
  {
    var first := rq.first + l.done;
    LookupAhead(g, rq, l);
    var limit := if p >= 0 then l.c.pages[p].base else g.n;
    assert limit > first by {
      if p >= 0 { AlignedGap(g.sz, CurPage(g, rq, l.done), limit); }
    }
    Min(rq.num - l.done, limit - first)
  }

  /** Transfer `cur` sectors between the device (from sector first) and the user
      buffer (from position at). */
  function Bypass(o: Oracle, c: Cache, buf: seq<Sector>, first: nat, at: nat, cur: nat, write: bool)
    : (r: (Cache, seq<Sector>, bool))
    requires first + cur <= |c.disk.sectors| && at + cur <= |buf|
    ensures r.0.pages == c.pages && |r.0.disk.sectors| == |c.disk.sectors| && |r.1| == |buf|
  {
    if write then
      var (d, ok) := DiskWrite(o, c.disk, first, buf[at..at + cur]);
      (Cache(c.pages, d), buf, ok)
    else
      var (d, got, ok) := DiskRead(o, c.disk, first, cur);
      (Cache(c.pages, d), Blit(buf, at, got), ok)
  }

  /** In a direct request the entry in hand never lies behind the current page. */
  lemma LookupAhead(g: Geo, rq: Req, l: Loop)
    requires Ready(g, rq, l) && l.done < rq.num && Direct(g, rq)
    ensures var (p, sb) := Lookup(g, rq, l.c.pages, l.done, l.p, l.sb);
      if p < 0 then sb == EMPTY
      else CurPage(g, rq, l.done) <= l.c.pages[p].base < EMPTY && sb == l.c.pages[p].base + 1
  {
    SearchAhead(l.c.pages, CurPage(g, rq, l.done), 0, -1);
  }

  lemma {:induction false} SearchAhead(ps: seq<Page>, b: nat, i: nat, best: int)
    requires i <= |ps| && -1 <= best < |ps|
    requires forall k :: 0 <= k < |ps| ==> ps[k].base <= EMPTY
    requires best >= 0 ==> b <= ps[best].base < EMPTY
    ensures var r := SearchFrom(ps, b, i, best); r >= 0 ==> b <= ps[r].base < EMPTY
    decreases |ps| - i
  {
    if i == |ps| || ps[i].base == EMPTY || ps[i].base == b {
    } else {
      SearchAhead(ps, b, i + 1, if ps[i].base > b && ps[i].base < MinSec(ps, best) then i else best);
    }
  }

  // ----- a whole request -----

  /** `finished` sectors were completed before the request returned. */
  datatype Outcome = Outcome(ok: bool, c: Cache, buf: seq<Sector>, finished: nat, torn: nat)

  function Run(g: Geo, o: Oracle, refresh: bool, rq: Req, l: Loop): (r: Outcome)
    requires Ready(g, rq, l)
    ensures Struct(g, r.c) && r.finished + r.torn <= rq.num && |r.buf| == |l.buf|
    ensures r.ok <==> r.finished == rq.num
    decreases rq.num - l.done
  {
    if l.done == rq.num then Outcome(true, l.c, l.buf, l.done, 0)
    else match Step(g, o, refresh, rq, l)
      case More(l') => Run(g, o, refresh, rq, l')
      case Stop(c, buf, torn) => Outcome(false, c, buf, l.done, torn)
  }

  /** The bounds check made before the loop. */
  predicate InBounds(g: Geo, rq: Req) {
    rq.first < g.n && rq.num <= g.n - rq.first
  }

  function Start(c: Cache, buf: seq<Sector>): Loop {
    Loop(c, buf, 0, -1, 0)
  }

  function ReadWrite(g: Geo, o: Oracle, refresh: bool, c: Cache, rq: Req, buf: seq<Sector>): (r: Outcome)
    requires Struct(g, c) && |buf| >= rq.num
    ensures Struct(g, r.c) && |r.buf| == |buf|
  {
    if InBounds(g, rq) then Run(g, o, refresh, rq, Start(c, buf))
    else Outcome(false, c, buf, 0, 0)
  }

  // ----- flush of the whole cache -----

  function FlushFrom(g: Geo, o: Oracle, c: Cache, i: nat): (r: (Cache, bool))
    requires Struct(g, c) && i <= |c.pages|
    ensures Struct(g, r.0)
    decreases |c.pages| - i
  {
    if i == |c.pages| || c.pages[i].base == EMPTY then (c, true)
    else
      var (c1, ok1) := FlushPage(g, o, c, i);
      var (c2, ok2) := FlushFrom(g, o, c1, i + 1);
      (c2, ok1 && ok2)
  }

  /** Write back every dirty entry, then flush the device. */
  function Flush(g: Geo, o: Oracle, c: Cache): (r: (Cache, bool))
    requires Struct(g, c)
    ensures Struct(g, r.0)
  {
    var (c1, ok1) := FlushFrom(g, o, c, 0);
    var (d, ok2) := DiskSync(o, c1.disk);
    (Cache(c1.pages, d), ok1 && ok2)
  }
}
