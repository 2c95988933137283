/** What a request asks of the device, and which pages it leaves behind: through the
    cache page by page, straight to the device, or nothing when all is resident. */
module Traffic {
  import opened Pages
  import opened Device
  import opened CacheModel
  import opened CacheInvariant
  import opened Transparency
  import opened StaleSearch
  import opened Requests
  import opened Recency

  /** Between the two states exactly the operations evs were asked for. */
  ghost predicate Asked(c: Cache, c': Cache, evs: seq<Event>) {
    c'.disk.log == c.disk.log + evs
  }

  // ----- through the cache -----

  /** One page, or what the disc has of it, is read; the request touches the page and
      does not overwrite all of it. */
  ghost predicate LoadsPage(g: Geo, rq: Req, first: nat, count: nat) {
    && Aligned(g.sz, first) && first < g.n && count == Min(g.sz, g.n - first)
    && first < rq.first + rq.num && rq.first < first + g.sz
    && !(rq.write && rq.first <= first && first + g.sz <= rq.first + rq.num)
  }

  /** Sectors of one page are written. */
  ghost predicate WritesInPage(g: Geo, first: nat, count: nat) {
    count >= 1 && exists b: nat :: Aligned(g.sz, b) && b <= first && first + count <= b + g.sz
  }

  ghost predicate PageTraffic(g: Geo, rq: Req, e: Event) {
    match e
    case ReadEvent(first, count) => LoadsPage(g, rq, first, count)
    case WriteEvent(first, count) => WritesInPage(g, first, count)
    case SyncEvent => false
  }

  /** Reads of whole pages, by increasing sector, and writes inside pages. */
  ghost predicate PageByPage(g: Geo, rq: Req, evs: seq<Event>) {
    && (forall i :: 0 <= i < |evs| ==> PageTraffic(g, rq, evs[i]))
    && (forall i, j :: 0 <= i < j < |evs| && evs[i].ReadEvent? && evs[j].ReadEvent? ==> evs[i].first < evs[j].first)
  }

  ghost predicate ReadsFrom(evs: seq<Event>, b: nat) {
    forall i :: 0 <= i < |evs| && evs[i].ReadEvent? ==> b <= evs[i].first
  }

  ghost predicate ReadsOnly(evs: seq<Event>, b: nat) {
    forall i :: 0 <= i < |evs| && evs[i].ReadEvent? ==> evs[i].first == b
  }

  lemma PageByPageJoins(g: Geo, rq: Req, evs: seq<Event>, more: seq<Event>, b: nat, b': nat)
    requires PageByPage(g, rq, evs) && PageByPage(g, rq, more) && ReadsOnly(evs, b) && ReadsFrom(more, b') && b < b'
    ensures PageByPage(g, rq, evs + more) && ReadsFrom(evs + more, b)
  {
  }

  /** The write-back of the victim, if it is dirty. */
  lemma VictimTraffic(g: Geo, o: Oracle, rq: Req, c: Cache, k: nat) returns (evs: seq<Event>)
    requires Struct(g, c) && k < |c.pages|
    ensures Asked(c, FlushPage(g, o, c, k).0, evs)
    ensures PageByPage(g, rq, evs) && (forall i :: 0 <= i < |evs| ==> !evs[i].ReadEvent?)
  {
    var p := c.pages[k];
    evs := [];
    if p.lo < p.hi {
      evs := [WriteEvent(p.base + p.lo, p.hi - p.lo)];
      assert Aligned(g.sz, p.base);
    }
  }

  /** The load of page b, if it is not overwritten. */
  lemma LoadTraffic(g: Geo, o: Oracle, rq: Req, c: Cache, done: nat) returns (evs: seq<Event>)
    requires Struct(g, c) && done < rq.num && rq.first + rq.num <= g.n && OnPage(g, rq, done)
    requires var v := Victim(c.pages); v < |c.pages| && c.pages[v].lo >= c.pages[v].hi
    ensures var b := CurPage(g, rq, done);
      && Asked(c, Refill(g, o, c, Victim(c.pages), b, !rq.write || !Whole(g, rq, done)).0, evs)
      && PageByPage(g, rq, evs) && ReadsOnly(evs, b)
  {
    var b := CurPage(g, rq, done);
    evs := [];
    if !rq.write || !Whole(g, rq, done) {
      evs := [ReadEvent(b, Min(g.sz, g.n - b))];
      OverwrittenIsWhole(g, rq, done);
    }
  }

  /** A page of which all is overwritten is accessed as a whole. */
  lemma OverwrittenIsWhole(g: Geo, rq: Req, done: nat)
    requires done < rq.num && OnPage(g, rq, done)
    ensures var b := CurPage(g, rq, done);
      rq.first <= b && b + g.sz <= rq.first + rq.num ==> Whole(g, rq, done)
  {
  }

  lemma AskedThen(c: Cache, c1: Cache, c2: Cache, evs: seq<Event>, more: seq<Event>)
    requires Asked(c, c1, evs) && Asked(c1, c2, more)
    ensures Asked(c, c2, evs + more)
  {
  }

  /** A hit asks for nothing; a miss asks for what eviction and load ask for. */
  lemma StepAsks(g: Geo, o: Oracle, refresh: bool, rq: Req, l: Loop)
    requires Ready(g, rq, l) && !Direct(g, rq) && l.done < rq.num
    ensures var b, v := CurPage(g, rq, l.done), Victim(l.c.pages);
      var p := Lookup(g, rq, l.c.pages, l.done, l.p, l.sb).0;
      var (c1, flushed) := FlushPage(g, o, l.c, v);
      var log := CacheAfter(Step(g, o, refresh, rq, l)).disk.log;
      if p >= 0 && l.c.pages[p].base == b then log == l.c.disk.log
      else if !flushed then log == c1.disk.log
      else
        && v == Victim(c1.pages) && c1.pages[v].lo >= c1.pages[v].hi
        && log == Refill(g, o, c1, v, b, !rq.write || !Whole(g, rq, l.done)).0.disk.log
  {
    FlushKeepsVictim(g, o, l.c, Victim(l.c.pages));
  }

  lemma AllocatingStep(g: Geo, o: Oracle, refresh: bool, rq: Req, l: Loop) returns (evs: seq<Event>)
    requires Ready(g, rq, l) && !Direct(g, rq) && l.done < rq.num && OnPage(g, rq, l.done)
    ensures Asked(l.c, CacheAfter(Step(g, o, refresh, rq, l)), evs)
    ensures PageByPage(g, rq, evs) && ReadsOnly(evs, CurPage(g, rq, l.done))
  {
    StepAsks(g, o, refresh, rq, l);
    var p := Lookup(g, rq, l.c.pages, l.done, l.p, l.sb).0;
    if p >= 0 && l.c.pages[p].base == CurPage(g, rq, l.done) {
      evs := [];
    } else {
      evs := MissTraffic(g, o, rq, l.c, l.done, CacheAfter(Step(g, o, refresh, rq, l)));
    }
  }

  lemma MissTraffic(g: Geo, o: Oracle, rq: Req, c: Cache, done: nat, c': Cache) returns (evs: seq<Event>)
    requires Struct(g, c) && done < rq.num && rq.first + rq.num <= g.n && OnPage(g, rq, done)
    requires var v := Victim(c.pages);
      var (c1, flushed) := FlushPage(g, o, c, v);
      if !flushed then c'.disk.log == c1.disk.log
      else
        && v == Victim(c1.pages) && c1.pages[v].lo >= c1.pages[v].hi
        && c'.disk.log == Refill(g, o, c1, v, CurPage(g, rq, done), !rq.write || !Whole(g, rq, done)).0.disk.log
    ensures Asked(c, c', evs) && PageByPage(g, rq, evs) && ReadsOnly(evs, CurPage(g, rq, done))
  {
    var (c1, flushed) := FlushPage(g, o, c, Victim(c.pages));
    evs := VictimTraffic(g, o, rq, c, Victim(c.pages));
    if flushed {
      var more := LoadTraffic(g, o, rq, c1, done);
      evs := evs + more;
    }
  }

  /** Page by page from page b on. */
  ghost predicate PageByPageFrom(g: Geo, rq: Req, done: nat, evs: seq<Event>) {
    PageByPage(g, rq, evs) && (done < rq.num ==> ReadsFrom(evs, CurPage(g, rq, done)))
  }

  lemma {:induction false} AllocatingRun(g: Geo, o: Oracle, refresh: bool, rq: Req, l: Loop) returns (evs: seq<Event>)
    requires Ready(g, rq, l) && !Direct(g, rq) && OnPage(g, rq, l.done)
    ensures Asked(l.c, Run(g, o, refresh, rq, l).c, evs) && PageByPageFrom(g, rq, l.done, evs)
    ensures l.done == rq.num ==> evs == []
    decreases rq.num - l.done
  {
    evs := [];
    if l.done < rq.num {
      evs := AllocatingStep(g, o, refresh, rq, l);
      var r := Step(g, o, refresh, rq, l);
      if r.More? {
        AllocatingAdvances(g, o, refresh, rq, l);
        var more := AllocatingRun(g, o, refresh, rq, r.l);
        AskedThen(l.c, r.l.c, Run(g, o, refresh, rq, r.l).c, evs, more);
        assert r.l.done == rq.num ==> more == [];
        TrafficGoesOn(g, rq, l.done, r.l.done, evs, more);
        evs := evs + more;
      }
    }
  }

  lemma AllocatingAdvances(g: Geo, o: Oracle, refresh: bool, rq: Req, l: Loop)
    requires Ready(g, rq, l) && !Direct(g, rq) && l.done < rq.num
    ensures var r := Step(g, o, refresh, rq, l);
      r.More? ==> r.l.done == l.done + CurCount(g, rq, l.done) && OnPage(g, rq, r.l.done)
    ensures Step(g, o, refresh, rq, l).More? && CurPage(g, rq, l.done) < LastPage(g, rq) ==>
      Step(g, o, refresh, rq, l).l.done < rq.num
    ensures Step(g, o, refresh, rq, l).More? && CurPage(g, rq, l.done) == LastPage(g, rq) ==>
      Step(g, o, refresh, rq, l).l.done == rq.num
    ensures CurPage(g, rq, l.done) <= LastPage(g, rq)
  {
    StepMoves(g, o, refresh, rq, l);
    ChunkFacts(g, rq, l.done);
  }

  lemma TrafficGoesOn(g: Geo, rq: Req, done: nat, done': nat, evs: seq<Event>, more: seq<Event>)
    requires done < rq.num && done' == done + CurCount(g, rq, done)
    requires PageByPage(g, rq, evs) && ReadsOnly(evs, CurPage(g, rq, done)) && PageByPageFrom(g, rq, done', more)
    requires done' == rq.num ==> more == []
    ensures PageByPageFrom(g, rq, done, evs + more)
  {
    ChunkFacts(g, rq, done);
    if done' < rq.num {
      PageByPageJoins(g, rq, evs, more, CurPage(g, rq, done), CurPage(g, rq, done'));
    }
    assert more == [] ==> evs + more == evs;
  }

  /** Some entry holds page b; it is the first in the list if `front`. */
  ghost predicate HeldPage(ps: seq<Page>, b: nat, front: bool) {
    exists i :: 0 <= i < |ps| && ps[i].base == b && (front ==> i == 0)
  }

  /** The request covers only a part of page b. */
  ghost predicate PartOf(g: Geo, rq: Req, b: nat) {
    !(rq.first <= b && b + g.sz <= rq.first + rq.num)
  }

  lemma StepHoldsPage(g: Geo, o: Oracle, refresh: bool, rq: Req, l: Loop)
    requires Ready(g, rq, l) && !Direct(g, rq) && l.done < rq.num && OnPage(g, rq, l.done)
    ensures var r := Step(g, o, refresh, rq, l);
      r.More? ==> HeldPage(r.l.c.pages, CurPage(g, rq, l.done), PartOf(g, rq, CurPage(g, rq, l.done)))
  {
    var r := Step(g, o, refresh, rq, l);
    if r.More? {
      StepHolds(g, o, refresh, rq, l);
      var k := Used(g, rq, l);
      WholeIsCovered(g, rq, l.done);
      var at := Place(Promotes(g, rq, l), k, k);
      assert at < |r.l.c.pages| && r.l.c.pages[at].base == CurPage(g, rq, l.done);
    }
  }

  lemma WholeIsCovered(g: Geo, rq: Req, done: nat)
    requires done < rq.num
    ensures Whole(g, rq, done) ==> !PartOf(g, rq, CurPage(g, rq, done))
  {
  }

  /** The page of the request's last sector is held, in front if it was accessed in part. */
  ghost predicate LastHeld(g: Geo, rq: Req, ps: seq<Page>)
    requires rq.num >= 1
  {
    var b := PageOf(g.sz, rq.first + rq.num - 1);
    HeldPage(ps, b, PartOf(g, rq, b))
  }

  lemma {:induction false} RunHoldsLast(g: Geo, o: Oracle, refresh: bool, rq: Req, l: Loop)
    requires Ready(g, rq, l) && !Direct(g, rq) && OnPage(g, rq, l.done) && l.done < rq.num
    ensures var r := Run(g, o, refresh, rq, l); r.ok ==> LastHeld(g, rq, r.c.pages)
    decreases rq.num - l.done
  {
    var r := Step(g, o, refresh, rq, l);
    if r.More? {
      AllocatingAdvances(g, o, refresh, rq, l);
      if r.l.done < rq.num {
        RunHoldsLast(g, o, refresh, rq, r.l);
      } else {
        StepHoldsPage(g, o, refresh, rq, l);
      }
    }
  }

  /** Main result: a request that is marked partial, is shorter than a page or comes with
      a misaligned buffer goes through the cache. Reads fetch whole pages it touches, in
      order, each once and none that it overwrites; writes evict. When it succeeds its
      last page is resident, in front if only a part of it was accessed. */
  lemma AllocatingTraffic(g: Geo, o: Oracle, refresh: bool, c: Cache, rq: Req, buf: seq<Sector>)
    returns (evs: seq<Event>)
    requires Struct(g, c) && |buf| >= rq.num
    requires rq.partial || rq.num < g.sz || !rq.aligned
    ensures var r := ReadWrite(g, o, refresh, c, rq, buf);
      && Asked(c, r.c, evs) && PageByPage(g, rq, evs)
      && (r.ok && rq.num >= 1 ==> LastHeld(g, rq, r.c.pages))
  {
    evs := [];
    if InBounds(g, rq) {
      var l := Start(c, buf);
      assert ReadWrite(g, o, refresh, c, rq, buf) == Run(g, o, refresh, rq, l);
      evs := AllocatingRun(g, o, refresh, rq, l);
      if rq.num >= 1 {
        RunHoldsLast(g, o, refresh, rq, l);
      }
    }
  }

  // ----- past the cache -----

  /** A transfer of the request's own kind, inside the request, of sectors that no
      resident page holds. */
  ghost predicate PassesBy(g: Geo, rq: Req, R: set<nat>, e: Event) {
    && (if rq.write then e.WriteEvent? else e.ReadEvent?)
    && e.count >= 1 && rq.first <= e.first && e.first + e.count <= rq.first + rq.num
    && forall x :: e.first <= x < e.first + e.count ==> PageOf(g.sz, x) !in R
  }

  ghost predicate Covered(evs: seq<Event>, x: nat) {
    exists i :: 0 <= i < |evs| && !evs[i].SyncEvent? && evs[i].first <= x < evs[i].first + evs[i].count
  }

  /** Transfers past the pages R from sector `from` on, one behind the other. */
  ghost predicate PastPages(g: Geo, rq: Req, R: set<nat>, from: nat, evs: seq<Event>) {
    && (forall i :: 0 <= i < |evs| ==> PassesBy(g, rq, R, evs[i]) && from <= evs[i].first)
    && (forall i, j :: 0 <= i < j < |evs| && !evs[i].SyncEvent? && !evs[j].SyncEvent? ==>
          evs[i].first + evs[i].count <= evs[j].first)
  }

  /** Exactly the sectors of the request from `from` on that no page holds. */
  ghost predicate AllBut(g: Geo, rq: Req, R: set<nat>, from: nat, evs: seq<Event>) {
    forall x: nat :: from <= x < rq.first + rq.num ==> (Covered(evs, x) <==> PageOf(g.sz, x) !in R)
  }

  lemma PastPagesJoin(g: Geo, rq: Req, R: set<nat>, from: nat, mid: nat, e: Event, more: seq<Event>)
    requires PassesBy(g, rq, R, e) && from <= e.first && e.first + e.count <= mid && PastPages(g, rq, R, mid, more)
    ensures PastPages(g, rq, R, from, [e] + more)
  {
  }

  lemma PastPagesLater(g: Geo, rq: Req, R: set<nat>, from: nat, mid: nat, more: seq<Event>)
    requires from <= mid && PastPages(g, rq, R, mid, more)
    ensures PastPages(g, rq, R, from, more)
  {
  }

  lemma CoveredFirst(e: Event, more: seq<Event>, x: nat)
    requires !e.SyncEvent?
    ensures Covered([e] + more, x) <==> e.first <= x < e.first + e.count || Covered(more, x)
  {
    if Covered(more, x) {
      var i :| 0 <= i < |more| && !more[i].SyncEvent? && more[i].first <= x < more[i].first + more[i].count;
      assert ([e] + more)[i + 1] == more[i];
    }
    if e.first <= x < e.first + e.count {
      assert ([e] + more)[0] == e;
    }
  }

  lemma NotCoveredBefore(g: Geo, rq: Req, R: set<nat>, mid: nat, evs: seq<Event>, x: nat)
    requires PastPages(g, rq, R, mid, evs) && x < mid
    ensures !Covered(evs, x)
  {
  }

  /** A transfer past the cache: the one operation asked for, up to the next page held. */
  lemma BypassAsks(g: Geo, o: Oracle, refresh: bool, rq: Req, l: Loop) returns (e: Event)
    requires Ready(g, rq, l) && l.done < rq.num && Bypasses(g, rq, l) && Inv(g, l.c) && SearchIsFresh(g, rq, l)
    ensures var r := Step(g, o, refresh, rq, l);
      && Asked(l.c, CacheAfter(r), [e]) && PassesBy(g, rq, Resident(l.c.pages), e)
      && e.first == rq.first + l.done && CacheAfter(r).pages == l.c.pages
      && (r.More? ==> e.first + e.count == rq.first + r.l.done)
  {
    var (p, sb) := Lookup(g, rq, l.c.pages, l.done, l.p, l.sb);
    var cur := DirectCount(g, rq, l, p, sb);
    RangeMissesPages(g, rq, l, cur);
    e := if rq.write then WriteEvent(rq.first + l.done, cur) else ReadEvent(rq.first + l.done, cur);
    OffPages(g, l.c.pages, rq.first + l.done, cur);
  }

  lemma OffPages(g: Geo, ps: seq<Page>, first: nat, n: nat)
    requires MissesPages(g, ps, first, n)
    ensures forall x :: first <= x < first + n ==> PageOf(g.sz, x) !in Resident(ps)
  {
  }

  /** Sectors of the chunk that a hit serves lie on its page, which is held. */
  lemma ChunkOnPage(g: Geo, rq: Req, done: nat, R: set<nat>)
    requires done < rq.num && CurPage(g, rq, done) in R
    ensures forall x :: rq.first + done <= x < rq.first + done + CurCount(g, rq, done) ==> PageOf(g.sz, x) in R
  {
    forall x | rq.first + done <= x < rq.first + done + CurCount(g, rq, done)
      ensures PageOf(g.sz, x) in R
    {
      PageOfUnique(g.sz, x, CurPage(g, rq, done));
    }
  }

  /** The events of a run past the cache: all of them pass the pages by, and if it ends
      well they are exactly the sectors that no page holds. */
  ghost predicate DirectEvents(g: Geo, rq: Req, R: set<nat>, done: nat, ok: bool, evs: seq<Event>) {
    PastPages(g, rq, R, rq.first + done, evs) && (ok ==> AllBut(g, rq, R, rq.first + done, evs))
  }

  lemma HitJoins(g: Geo, rq: Req, R: set<nat>, done: nat, done': nat, ok: bool, evs: seq<Event>)
    requires done < rq.num && done' == done + CurCount(g, rq, done) && CurPage(g, rq, done) in R
    requires DirectEvents(g, rq, R, done', ok, evs)
    ensures DirectEvents(g, rq, R, done, ok, evs)
  {
    PastPagesLater(g, rq, R, rq.first + done, rq.first + done', evs);
    ChunkOnPage(g, rq, done, R);
    forall x: nat | ok && rq.first + done <= x < rq.first + rq.num
      ensures Covered(evs, x) <==> PageOf(g.sz, x) !in R
    {
      if x < rq.first + done' {
        NotCoveredBefore(g, rq, R, rq.first + done', evs, x);
      }
    }
  }

  lemma BypassJoins(g: Geo, rq: Req, R: set<nat>, done: nat, done': nat, ok: bool, e: Event, more: seq<Event>)
    requires PassesBy(g, rq, R, e) && e.first == rq.first + done && e.first + e.count == rq.first + done'
    requires DirectEvents(g, rq, R, done', ok, more)
    ensures DirectEvents(g, rq, R, done, ok, [e] + more)
  {
    PastPagesJoin(g, rq, R, rq.first + done, rq.first + done', e, more);
    forall x: nat | ok && rq.first + done <= x < rq.first + rq.num
      ensures Covered([e] + more, x) <==> PageOf(g.sz, x) !in R
    {
      CoveredFirst(e, more, x);
      if x < rq.first + done' {
        NotCoveredBefore(g, rq, R, rq.first + done', more, x);
      }
    }
  }

  lemma {:induction false} DirectRun(g: Geo, o: Oracle, refresh: bool, rq: Req, l: Loop) returns (evs: seq<Event>)
    requires Ready(g, rq, l) && Direct(g, rq) && Inv(g, l.c) && SearchIsFresh(g, rq, l)
    ensures var r := Run(g, o, refresh, rq, l);
      Asked(l.c, r.c, evs) && DirectEvents(g, rq, Resident(l.c.pages), l.done, r.ok, evs)
    decreases rq.num - l.done
  {
    evs := [];
    if l.done < rq.num {
      StepKeeps(g, o, refresh, rq, l);
      var r, R := Step(g, o, refresh, rq, l), Resident(l.c.pages);
      if !Bypasses(g, rq, l) {
        HitCost(g, o, refresh, rq, l);
        DirectHitAsks(g, o, refresh, rq, l);
        evs := DirectRun(g, o, refresh, rq, r.l);
        HitJoins(g, rq, R, l.done, r.l.done, Run(g, o, refresh, rq, r.l).ok, evs);
      } else {
        var e := BypassAsks(g, o, refresh, rq, l);
        evs := [e];
        if r.More? {
          var more := DirectRun(g, o, refresh, rq, r.l);
          BypassJoins(g, rq, R, l.done, r.l.done, Run(g, o, refresh, rq, r.l).ok, e, more);
          AskedThen(l.c, r.l.c, Run(g, o, refresh, rq, r.l).c, [e], more);
          evs := [e] + more;
        }
      }
    }
  }

  lemma DirectHitAsks(g: Geo, o: Oracle, refresh: bool, rq: Req, l: Loop)
    requires Ready(g, rq, l) && l.done < rq.num && Direct(g, rq) && !Bypasses(g, rq, l)
    ensures var r := Step(g, o, refresh, rq, l);
      r.More? && r.l.c.disk == l.c.disk && r.l.done == l.done + CurCount(g, rq, l.done)
  {
    var (p, sb) := Lookup(g, rq, l.c.pages, l.done, l.p, l.sb);
    LookupAhead(g, rq, l);
    HitResident(g, rq, l.done, l.c, l.buf, p, sb);
  }

  /** Main result: a request that is not marked partial, is at least a page long and comes
      with an aligned buffer goes past the cache. It asks for transfers of its own kind
      only, inside the request and in order, and when it succeeds for exactly the sectors
      that no page held. */
  lemma DirectTraffic(g: Geo, o: Oracle, refresh: bool, c: Cache, rq: Req, buf: seq<Sector>) returns (evs: seq<Event>)
    requires Inv(g, c) && |buf| >= rq.num
    requires !rq.partial && rq.num >= g.sz && rq.aligned
    ensures var r := ReadWrite(g, o, refresh, c, rq, buf);
      Asked(c, r.c, evs) && DirectEvents(g, rq, Resident(c.pages), 0, r.ok, evs)
  {
    evs := [];
    if InBounds(g, rq) {
      var l := Start(c, buf);
      assert ReadWrite(g, o, refresh, c, rq, buf) == Run(g, o, refresh, rq, l);
      evs := DirectRun(g, o, refresh, rq, l);
    }
  }

  // ----- all resident -----

  /** Every page from position `done` of the request on is held. */
  ghost predicate AllHeld(g: Geo, rq: Req, ps: seq<Page>, done: nat) {
    forall x: nat :: rq.first + done <= x < rq.first + rq.num ==> PageOf(g.sz, x) in Resident(ps)
  }

  /** A held page is found, and the next one is searched for. */
  lemma HeldStep(g: Geo, o: Oracle, refresh: bool, rq: Req, l: Loop)
    requires Ready(g, rq, l) && l.done < rq.num && CurPage(g, rq, l.done) >= l.sb && AllHeld(g, rq, l.c.pages, l.done)
    ensures var r := Step(g, o, refresh, rq, l);
      && r.More? && r.l.c.disk == l.c.disk && AllHeld(g, rq, r.l.c.pages, r.l.done)
      && (r.l.done < rq.num ==> CurPage(g, rq, r.l.done) >= r.l.sb)
  {
    var b := CurPage(g, rq, l.done);
    assert PageOf(g.sz, rq.first + l.done) == b;
    HeldIsFound(l.c.pages, b);
    var (p, sb) := Lookup(g, rq, l.c.pages, l.done, l.p, l.sb);
    HitResident(g, rq, l.done, l.c, l.buf, p, sb);
    ChunkFacts(g, rq, l.done);
  }

  lemma HeldIsFound(ps: seq<Page>, b: nat)
    requires EmptySuffix(ps) && (forall k :: 0 <= k < |ps| ==> ps[k].base <= EMPTY) && b in Resident(ps)
    ensures var p := Search(ps, b); p >= 0 && ps[p].base == b
  {
    SearchIsNearest(ps, b);
    var i: nat :| i < |ps| && ps[i].base == b;
    assert Holder(ps, b) >= 0;
  }

  lemma {:induction false} HeldRun(g: Geo, o: Oracle, refresh: bool, rq: Req, l: Loop)
    requires Ready(g, rq, l) && AllHeld(g, rq, l.c.pages, l.done)
    requires l.done < rq.num ==> CurPage(g, rq, l.done) >= l.sb
    ensures var r := Run(g, o, refresh, rq, l); r.ok && r.c.disk == l.c.disk
    decreases rq.num - l.done
  {
    if l.done < rq.num {
      HeldStep(g, o, refresh, rq, l);
      HeldRun(g, o, refresh, rq, Step(g, o, refresh, rq, l).l);
    }
  }

  /** Main result: a request whose pages are all resident succeeds without the device. */
  lemma ResidentNeedsNoDevice(g: Geo, o: Oracle, refresh: bool, c: Cache, rq: Req, buf: seq<Sector>)
    requires Struct(g, c) && |buf| >= rq.num && rq.first < g.n && rq.first + rq.num <= g.n
    requires forall x: nat :: rq.first <= x < rq.first + rq.num ==> PageOf(g.sz, x) in Resident(c.pages)
    ensures var r := ReadWrite(g, o, refresh, c, rq, buf); r.ok && r.c.disk == c.disk
  {
    HeldRun(g, o, refresh, rq, Start(c, buf));
  }
}
