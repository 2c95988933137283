/** The guard is exact for what callers see: where it does not hold, some sound cache
    with the same list, on a device that never fails, answers a read with old data
    or loses a write. */
module Exactness {
  import opened Pages
  import opened Device
  import opened CacheModel
  import opened CacheInvariant
  import opened Transparency
  import opened StaleSearch
  import opened Requests
  import opened Recency
  import Runs

  // ----- the page that is held twice -----

  /** First page the walk brings in although another entry holds it. */
  ghost function ClashPage(g: Geo, rq: Req, w: Walk): nat
    requires WalkOk(g, rq, w) && !WalkNeverDuplicates(g, rq, w)
    decreases rq.num - w.done
  {
    if !WalkNoClash(g, rq, w) then CurPage(g, rq, w.done) else ClashPage(g, rq, WalkStep(g, rq, w))
  }

  /** It is resident from the start, lies ahead, and is not evicted on the way. */
  ghost predicate ClashIsAhead(g: Geo, rq: Req, w: Walk, b: nat)
    requires WalkOk(g, rq, w) && w.done < rq.num
  {
    && b in Resident(w.ps) && CurPage(g, rq, w.done) <= b && b < g.n
    && (WalkNoClash(g, rq, w) ==>
          && CurPage(g, rq, w.done) < b
          && (!WalkHits(g, rq, w) ==> w.ps[Victim(w.ps)].base != b))
  }

  lemma {:induction false} ClashAhead(g: Geo, rq: Req, w: Walk)
    requires WalkOk(g, rq, w) && Distinct(w.ps) && !WalkNeverDuplicates(g, rq, w)
    ensures w.done < rq.num && ClashIsAhead(g, rq, w, ClashPage(g, rq, w))
    decreases rq.num - w.done
  {
    if WalkNoClash(g, rq, w) {
      var w' := WalkStep(g, rq, w);
      if WalkHits(g, rq, w) {
        HitWalkStep(g, rq, w);
      } else {
        MissStep(g, rq, w);
      }
      ClashAhead(g, rq, w');
      ChunkFacts(g, rq, w.done);
    }
  }

  // ----- a cache that shows the difference -----

  const OLD: Sector := [0]
  const CACHED: Sector := [1]
  const SENT: Sector := [2]

  /** Page b dirty in the cache, everything else as on the device. */
  function TellTalePage(g: Geo, b: nat, p: Page): Page {
    if p.base == b && b < g.n then Page(p.slot, p.base, 0, Min(g.sz, g.n - b), seq(g.sz, _ => CACHED))
    else Page(p.slot, p.base, g.sz, 0, seq(g.sz, _ => OLD))
  }

  function TellTale(g: Geo, b: nat, ps: seq<Page>): (c: Cache)
    ensures |c.pages| == |ps| && forall i :: 0 <= i < |ps| ==> c.pages[i] == TellTalePage(g, b, ps[i])
    ensures |c.disk.sectors| == g.n && forall x :: 0 <= x < g.n ==> c.disk.sectors[x] == OLD
  {
    Cache(seq(|ps|, i requires 0 <= i < |ps| => TellTalePage(g, b, ps[i])), Disk(seq(g.n, _ => OLD), []))
  }

  lemma TellTaleSound(g: Geo, b: nat, ps: seq<Page>)
    requires ListOk(g, ps) && Distinct(ps) && g.n <= EMPTY && b < g.n
    ensures Inv(g, TellTale(g, b, ps)) && SameList(TellTale(g, b, ps).pages, ps)
  {
    var c := TellTale(g, b, ps);
    forall i | 0 <= i < |ps|
      ensures PageOk(g, g.n, c.pages[i]) && PageSound(g, c.disk, c.pages[i])
    {
    }
    forall i | 0 <= i < |ps| && c.pages[i].base == EMPTY
      ensures EmptyBehind(c.pages, i)
    {
      assert EmptyBehind(ps, i);
    }
    forall i | 0 <= i < |ps| && c.pages[i].base != EMPTY
      ensures NotBehind(c.pages, i)
    {
      assert NotBehind(ps, i);
    }
  }

  // ----- one iteration on a working device -----

  /** Entry v was given page b, the rest of the list is untouched; a clean victim
      leaves the device alone and takes over what is on it. */
  ghost predicate GivenAway(g: Geo, c: Cache, c2: Cache, v: nat, b: nat, load: bool) {
    && Struct(g, c2) && v < |c.pages| == |c2.pages| && c2.pages[v].base == b
    && (forall i :: 0 <= i < |c.pages| && i != v ==> c2.pages[i] == c.pages[i])
    && (c.pages[v].lo >= c.pages[v].hi ==>
          && c2.disk.sectors == c.disk.sectors && c2.pages[v].lo >= c2.pages[v].hi
          && (load ==> forall x :: b <= x < b + g.sz && x < g.n ==>
                At(c2.pages[v].data, x - b) == At(c.disk.sectors, x)))
  }

  lemma WorkingRefill(g: Geo, o: Oracle, rq: Req, l: Loop) returns (c2: Cache)
    requires Ready(g, rq, l) && !Direct(g, rq) && l.done < rq.num && DeviceNeverFails(o)
    requires var p := Lookup(g, rq, l.c.pages, l.done, l.p, l.sb).0;
      !(p >= 0 && l.c.pages[p].base == CurPage(g, rq, l.done))
    ensures GivenAway(g, l.c, c2, Victim(l.c.pages), CurPage(g, rq, l.done), !rq.write || !Whole(g, rq, l.done))
    ensures Step(g, o, false, rq, l) ==
      More(HitStep(g, rq, l.done, c2, l.buf, Victim(l.c.pages), Lookup(g, rq, l.c.pages, l.done, l.p, l.sb).1))
  {
    c2 := Given(g, o, l.c, CurPage(g, rq, l.done), !rq.write || !Whole(g, rq, l.done));
  }

  lemma Given(g: Geo, o: Oracle, c: Cache, b: nat, load: bool) returns (c2: Cache)
    requires Struct(g, c) && Aligned(g.sz, b) && b < g.n && DeviceNeverFails(o)
    ensures var v := Victim(c.pages);
      var (c1, ok1) := FlushPage(g, o, c, v);
      && ok1 && v == Victim(c1.pages) && c1.pages[v].lo >= c1.pages[v].hi
      && (c2, true) == Refill(g, o, c1, v, b, load)
      && GivenAway(g, c, c2, v, b, load)
  {
    var v := Victim(c.pages);
    var c1 := FlushPage(g, o, c, v).0;
    FlushKeepsVictim(g, o, c, v);
    c2 := Refill(g, o, c1, v, b, load).0;
    if c.pages[v].lo >= c.pages[v].hi && load {
      RefilledBy(g, o, c, v, b);
    }
  }

  /** Where entries other than the one accessed stand afterwards. */
  lemma OthersKept(g: Geo, rq: Req, done: nat, c: Cache, buf: seq<Sector>, k: nat, sb: nat)
    requires Struct(g, c) && rq.first + rq.num <= g.n
    requires done < rq.num <= |buf| && k < |c.pages|
    requires c.pages[k].base == CurPage(g, rq, done) && !Direct(g, rq)
    ensures var qs := HitStep(g, rq, done, c, buf, k, sb).c.pages;
      && |qs| == |c.pages|
      && forall j :: 0 <= j < |c.pages| && j != k ==> qs[Place(!Whole(g, rq, done), k, j)] == c.pages[j]
  {
    var off, cur := rq.first + done - CurPage(g, rq, done), CurCount(g, rq, done);
    var ps := if rq.write then c.pages[k := Stored(c.pages[k], off, buf[done..done + cur])] else c.pages;
    PlacesKept(c.pages, ps, k, !Whole(g, rq, done));
  }

  lemma PlacesKept(before: seq<Page>, ps: seq<Page>, k: nat, moved: bool)
    requires k < |before| == |ps| && forall j :: 0 <= j < |ps| && j != k ==> ps[j] == before[j]
    ensures var qs := if moved && k != 0 then Touch(ps, k) else ps;
      forall j :: 0 <= j < |ps| && j != k ==> qs[Place(moved, k, j)] == before[j]
  {
  }

  // ----- reads -----

  /** The device holds old data everywhere, and only page b may be dirty. */
  ghost predicate OnlyDirty(g: Geo, c: Cache, b: nat) {
    && (forall x :: 0 <= x < g.n ==> At(c.disk.sectors, x) == OLD)
    && (forall i :: 0 <= i < |c.pages| && c.pages[i].base != b ==> c.pages[i].lo >= c.pages[i].hi)
  }

  lemma ReadHitKeeps(g: Geo, rq: Req, done: nat, c: Cache, buf: seq<Sector>, k: nat, sb: nat, b: nat)
    requires Struct(g, c) && rq.first + rq.num <= g.n
    requires done < rq.num <= |buf| && k < |c.pages|
    requires c.pages[k].base == CurPage(g, rq, done) && !Direct(g, rq) && !rq.write
    requires OnlyDirty(g, c, b)
    ensures OnlyDirty(g, HitStep(g, rq, done, c, buf, k, sb).c, b)
  {
    TouchIndex(c.pages, k);
  }

  lemma TouchIndex(ps: seq<Page>, k: nat)
    requires k < |ps|
    ensures forall i :: 0 <= i < |ps| ==> Touch(ps, k)[i] == ps[if i == 0 then k else if i <= k then i - 1 else i]
  {
  }

  /** Before the clash a read leaves the device and the clean pages as they are. */
  lemma ReadStepKeeps(g: Geo, o: Oracle, rq: Req, l: Loop, b: nat)
    requires Ready(g, rq, l) && !Direct(g, rq) && !rq.write && l.done < rq.num && DeviceNeverFails(o)
    requires OnlyDirty(g, l.c, b)
    requires var p := Lookup(g, rq, l.c.pages, l.done, l.p, l.sb).0;
      !(p >= 0 && l.c.pages[p].base == CurPage(g, rq, l.done)) ==> l.c.pages[Victim(l.c.pages)].base != b
    ensures var r := Step(g, o, false, rq, l); r.More? && OnlyDirty(g, r.l.c, b)
  {
    var (p, sb) := Lookup(g, rq, l.c.pages, l.done, l.p, l.sb);
    if p >= 0 && l.c.pages[p].base == CurPage(g, rq, l.done) {
      ReadHitKeeps(g, rq, l.done, l.c, l.buf, p, sb, b);
      assert Step(g, o, false, rq, l) == More(HitStep(g, rq, l.done, l.c, l.buf, p, sb));
    } else {
      var c2 := WorkingRefill(g, o, rq, l);
      assert OnlyDirty(g, c2, b);
      ReadHitKeeps(g, rq, l.done, c2, l.buf, Victim(l.c.pages), sb, b);
    }
  }

  /** At the clash the read takes what is on the device. */
  lemma ReadClashes(g: Geo, o: Oracle, rq: Req, l: Loop, b: nat)
    requires Ready(g, rq, l) && !Direct(g, rq) && !rq.write && l.done < rq.num && DeviceNeverFails(o)
    requires OnlyDirty(g, l.c, b) && l.c.pages[Victim(l.c.pages)].base != b
    requires var p := Lookup(g, rq, l.c.pages, l.done, l.p, l.sb).0;
      !(p >= 0 && l.c.pages[p].base == CurPage(g, rq, l.done))
    ensures var r := Step(g, o, false, rq, l); r.More? && r.l.buf[l.done] == OLD
  {
    var c2 := WorkingRefill(g, o, rq, l);
    var v, x := Victim(l.c.pages), rq.first + l.done;
    assert At(l.c.disk.sectors, x) == OLD;
    assert At(c2.pages[v].data, x - CurPage(g, rq, l.done)) == OLD;
    FirstSectorRead(g, rq, l.done, c2, l.buf, v, Lookup(g, rq, l.c.pages, l.done, l.p, l.sb).1);
  }

  lemma FirstSectorRead(g: Geo, rq: Req, done: nat, c: Cache, buf: seq<Sector>, k: nat, sb: nat)
    requires Struct(g, c) && rq.first + rq.num <= g.n
    requires done < rq.num <= |buf| && k < |c.pages|
    requires c.pages[k].base == CurPage(g, rq, done) && !Direct(g, rq) && !rq.write
    ensures HitStep(g, rq, done, c, buf, k, sb).buf[done] == At(c.pages[k].data, rq.first + done - CurPage(g, rq, done))
  {
    var off, cur := rq.first + done - CurPage(g, rq, done), CurCount(g, rq, done);
    BlitIndex(buf, done, c.pages[k].data[off..off + cur]);
  }

  lemma StepKeepsBuffer(g: Geo, o: Oracle, rq: Req, l: Loop, i: nat)
    requires Ready(g, rq, l) && !Direct(g, rq) && l.done < rq.num && i < l.done
    ensures var r := Step(g, o, false, rq, l); (if r.More? then r.l.buf else r.buf)[i] == l.buf[i]
  {
    var r := Step(g, o, false, rq, l);
    var b, v := CurPage(g, rq, l.done), Victim(l.c.pages);
    var (p, sb) := Lookup(g, rq, l.c.pages, l.done, l.p, l.sb);
    if p >= 0 && l.c.pages[p].base == b {
      HitKeepsBuffer(g, rq, l.done, l.c, l.buf, p, sb, i);
    } else {
      var (c1, flushed) := FlushPage(g, o, l.c, v);
      if flushed {
        FlushKeepsVictim(g, o, l.c, v);
        var (c2, loaded) := Refill(g, o, c1, v, b, !rq.write || !Whole(g, rq, l.done));
        if loaded {
          HitKeepsBuffer(g, rq, l.done, c2, l.buf, v, sb, i);
        }
      }
    }
  }

  lemma HitKeepsBuffer(g: Geo, rq: Req, done: nat, c: Cache, buf: seq<Sector>, k: nat, sb: nat, i: nat)
    requires Struct(g, c) && rq.first + rq.num <= g.n
    requires i < done < rq.num <= |buf| && k < |c.pages|
    requires c.pages[k].base == CurPage(g, rq, done) && !Direct(g, rq)
    ensures HitStep(g, rq, done, c, buf, k, sb).buf[i] == buf[i]
  {
    var off, cur := rq.first + done - CurPage(g, rq, done), CurCount(g, rq, done);
    BlitIndex(buf, done, c.pages[k].data[off..off + cur]);
  }

  /** What was read stays in the buffer. */
  lemma {:induction false} RunKeepsBuffer(g: Geo, o: Oracle, rq: Req, l: Loop, i: nat)
    requires Ready(g, rq, l) && !Direct(g, rq) && i < l.done
    ensures Run(g, o, false, rq, l).buf[i] == l.buf[i]
    decreases rq.num - l.done
  {
    if l.done < rq.num {
      StepKeepsBuffer(g, o, rq, l, i);
      var r := Step(g, o, false, rq, l);
      if r.More? {
        RunKeepsBuffer(g, o, rq, r.l, i);
      }
    }
  }

  /** A read whose walk clashes returns old data for a sector of the clashing page. */
  lemma {:induction false} ReadReturnsOld(g: Geo, o: Oracle, rq: Req, l: Loop, w: Walk) returns (at: nat)
    requires Ready(g, rq, l) && !Direct(g, rq) && !rq.write && DeviceNeverFails(o)
    requires WalkOk(g, rq, w) && Follows(g, rq, l, w) && Distinct(w.ps) && !WalkNeverDuplicates(g, rq, w)
    requires OnlyDirty(g, l.c, ClashPage(g, rq, w))
    ensures l.done <= at < rq.num && CurPage(g, rq, at) == ClashPage(g, rq, w)
    ensures Run(g, o, false, rq, l).buf[at] == OLD
    decreases rq.num - l.done
  {
    ClashAhead(g, rq, w);
    if WalkNoClash(g, rq, w) {
      ReadGoesOn(g, o, rq, l, w, ClashPage(g, rq, w));
      var w' := NextWalk(g, rq, w);
      at := ReadReturnsOld(g, o, rq, Step(g, o, false, rq, l).l, w');
    } else {
      at := l.done;
      ReadClashesHere(g, o, rq, l, w);
    }
  }

  /** Up to the clash loop and walk go on side by side. */
  lemma ReadGoesOn(g: Geo, o: Oracle, rq: Req, l: Loop, w: Walk, b: nat)
    requires Ready(g, rq, l) && !Direct(g, rq) && !rq.write && DeviceNeverFails(o) && l.done < rq.num
    requires WalkOk(g, rq, w) && Follows(g, rq, l, w) && OnlyDirty(g, l.c, b)
    requires ClashIsAhead(g, rq, w, b) && WalkNoClash(g, rq, w)
    ensures var r := Step(g, o, false, rq, l);
      r.More? && OnlyDirty(g, r.l.c, b) && Follows(g, rq, r.l, WalkStep(g, rq, w))
  {
    StepFollows(g, o, rq, l, w);
    VictimIsElsewhere(g, rq, l, w, b);
    ReadStepKeeps(g, o, rq, l, b);
  }

  /** The page ahead is not the one that goes. */
  lemma VictimIsElsewhere(g: Geo, rq: Req, l: Loop, w: Walk, b: nat)
    requires Ready(g, rq, l) && l.done < rq.num && WalkOk(g, rq, w) && Follows(g, rq, l, w)
    requires ClashIsAhead(g, rq, w, b) && WalkNoClash(g, rq, w)
    ensures var p := Lookup(g, rq, l.c.pages, l.done, l.p, l.sb).0;
      !(p >= 0 && l.c.pages[p].base == CurPage(g, rq, l.done)) ==> l.c.pages[Victim(l.c.pages)].base != b
  {
    SameLookup(g, rq, l, w);
    SameVictim(l.c.pages, w.ps, |w.ps| - 1);
  }

  lemma ReadClashesHere(g: Geo, o: Oracle, rq: Req, l: Loop, w: Walk)
    requires Ready(g, rq, l) && !Direct(g, rq) && !rq.write && DeviceNeverFails(o) && l.done < rq.num
    requires WalkOk(g, rq, w) && Follows(g, rq, l, w) && Distinct(w.ps) && !WalkNoClash(g, rq, w)
    requires OnlyDirty(g, l.c, CurPage(g, rq, l.done)) && CurPage(g, rq, l.done) != EMPTY
    ensures Run(g, o, false, rq, l).buf[l.done] == OLD
  {
    var b := CurPage(g, rq, l.done);
    SameLookup(g, rq, l, w);
    SameVictim(l.c.pages, w.ps, |w.ps| - 1);
    ClashIsElsewhere(w.ps, Victim(w.ps), b);
    ReadClashes(g, o, rq, l, b);
    RunKeepsBuffer(g, o, rq, Step(g, o, false, rq, l).l, l.done);
  }

  /** A page held by another entry is not held by entry v. */
  lemma ClashIsElsewhere(ps: seq<Page>, v: nat, b: nat)
    requires v < |ps| && Distinct(ps) && b != EMPTY
    requires exists i :: 0 <= i < |ps| && i != v && ps[i].base == b
    ensures ps[v].base != b
  {
    var i :| 0 <= i < |ps| && i != v && ps[i].base == b;
    assert ps[v].base == b ==> NotBehind(ps, i) && NotBehind(ps, v);
  }

  // ----- writes -----

  /** Entry p holds page b as it was cached at first, all of it dirty. */
  predicate HoldsCached(g: Geo, p: Page, b: nat) {
    && b < g.n && p.base == b && p.lo == 0 && p.hi == Min(g.sz, g.n - b)
    && |p.data| == g.sz && forall k :: 0 <= k < g.sz ==> p.data[k] == CACHED
  }

  /** Every copy of page b holds what was cached. */
  ghost predicate AllCached(g: Geo, ps: seq<Page>, b: nat) {
    forall i :: 0 <= i < |ps| && ps[i].base == b ==> HoldsCached(g, ps[i], b)
  }

  lemma HitKeepsCached(g: Geo, rq: Req, done: nat, c: Cache, buf: seq<Sector>, k: nat, sb: nat, b: nat)
    requires Struct(g, c) && rq.first + rq.num <= g.n
    requires done < rq.num <= |buf| && k < |c.pages|
    requires c.pages[k].base == CurPage(g, rq, done) != b && !Direct(g, rq)
    requires AllCached(g, c.pages, b)
    ensures AllCached(g, HitStep(g, rq, done, c, buf, k, sb).c.pages, b)
  {
    var off, cur := rq.first + done - CurPage(g, rq, done), CurCount(g, rq, done);
    var ps := if rq.write then c.pages[k := Stored(c.pages[k], off, buf[done..done + cur])] else c.pages;
    assert AllCached(g, ps, b);
    TouchIndex(ps, k);
  }

  /** Before the clash no copy of page b changes. */
  lemma WriteStepKeeps(g: Geo, o: Oracle, rq: Req, l: Loop, b: nat)
    requires Ready(g, rq, l) && !Direct(g, rq) && l.done < rq.num && DeviceNeverFails(o)
    requires AllCached(g, l.c.pages, b) && CurPage(g, rq, l.done) != b
    ensures var r := Step(g, o, false, rq, l); r.More? && AllCached(g, r.l.c.pages, b)
  {
    var (p, sb) := Lookup(g, rq, l.c.pages, l.done, l.p, l.sb);
    if p >= 0 && l.c.pages[p].base == CurPage(g, rq, l.done) {
      HitKeepsCached(g, rq, l.done, l.c, l.buf, p, sb, b);
      assert Step(g, o, false, rq, l) == More(HitStep(g, rq, l.done, l.c, l.buf, p, sb));
    } else {
      var c2 := WorkingRefill(g, o, rq, l);
      HitKeepsCached(g, rq, l.done, c2, l.buf, Victim(l.c.pages), sb, b);
    }
  }

  ghost predicate FirstCopy(ps: seq<Page>, b: nat, j: nat) {
    forall t :: 0 <= t < j && t < |ps| ==> ps[t].base != b
  }

  ghost predicate LastCopy(ps: seq<Page>, b: nat, j: nat) {
    forall t :: j < t < |ps| ==> ps[t].base != b
  }

  /** Entry j is a stale copy of page b that a search meets first or a flush writes last. */
  ghost predicate StaleAtEnd(g: Geo, ps: seq<Page>, b: nat, j: nat) {
    j < |ps| && HoldsCached(g, ps[j], b) && (FirstCopy(ps, b, j) || LastCopy(ps, b, j))
  }

  /** The same while the loop goes on, past page b; entry j is not the tail. */
  ghost predicate StaleCopy(g: Geo, rq: Req, ps: seq<Page>, done: nat, b: nat, j: nat) {
    && StaleAtEnd(g, ps, b, j)
    && (done < rq.num ==> j < |ps| - 1 && b < CurPage(g, rq, done) == rq.first + done && FirstCopy(ps, b, j))
  }

  /** At the clash page b gets a second copy, and the first one stays stale. */
  lemma WriteClashes(g: Geo, o: Oracle, rq: Req, l: Loop, b: nat) returns (j: nat)
    requires Ready(g, rq, l) && !Direct(g, rq) && l.done < rq.num && DeviceNeverFails(o)
    requires AllCached(g, l.c.pages, b) && CurPage(g, rq, l.done) == b == rq.first + l.done && b != EMPTY
    requires Distinct(l.c.pages)
    requires var p := Lookup(g, rq, l.c.pages, l.done, l.p, l.sb).0; !(p >= 0 && l.c.pages[p].base == b)
    requires exists i :: 0 <= i < |l.c.pages| && i != Victim(l.c.pages) && l.c.pages[i].base == b
    ensures var r := Step(g, o, false, rq, l); r.More? && StaleCopy(g, rq, r.l.c.pages, r.l.done, b, j)
  {
    var v, sb := Victim(l.c.pages), Lookup(g, rq, l.c.pages, l.done, l.p, l.sb).1;
    var i: nat :| i < |l.c.pages| && i != v && l.c.pages[i].base == b;
    VictimIsFirstFree(l.c.pages);
    assert HoldsCached(g, l.c.pages[i], b);
    var c2 := WorkingRefill(g, o, rq, l);
    OnlyTwoCopies(l.c.pages, c2.pages, i, v, b);
    j := SecondCopyHit(g, rq, l.done, c2, l.buf, v, sb, i);
  }

  lemma OnlyTwoCopies(ps: seq<Page>, qs: seq<Page>, i: nat, v: nat, b: nat)
    requires Distinct(ps) && i < |ps| == |qs| && ps[i].base == b != EMPTY
    requires forall t :: 0 <= t < |ps| && t != v ==> qs[t] == ps[t]
    ensures forall t :: 0 <= t < |ps| && t != v && t != i ==> qs[t].base != b
  {
    forall t | 0 <= t < |ps| && t != v && t != i
      ensures qs[t].base != b
    {
      assert NotBehind(ps, i);
      assert ps[t].base != EMPTY ==> NotBehind(ps, t);
    }
  }

  /** Entry k is the second copy of page b, entry i in front of it the stale one. A
      whole page stays behind it; a part of one ends the request. */
  lemma SecondCopyHit(g: Geo, rq: Req, done: nat, c: Cache, buf: seq<Sector>, k: nat, sb: nat, i: nat) returns (j: nat)
    requires Struct(g, c) && rq.first + rq.num <= g.n
    requires done < rq.num <= |buf| && i < k < |c.pages| && !Direct(g, rq)
    requires c.pages[k].base == CurPage(g, rq, done) == rq.first + done
    requires HoldsCached(g, c.pages[i], CurPage(g, rq, done))
    requires forall t :: 0 <= t < |c.pages| && t != k && t != i ==> c.pages[t].base != CurPage(g, rq, done)
    ensures var l' := HitStep(g, rq, done, c, buf, k, sb);
      StaleCopy(g, rq, l'.c.pages, l'.done, CurPage(g, rq, done), j)
  {
    var l', b, moved := HitStep(g, rq, done, c, buf, k, sb), CurPage(g, rq, done), !Whole(g, rq, done);
    OthersKept(g, rq, done, c, buf, k, sb);
    HitPlaces(g, rq, done, c, buf, k, sb);
    LastOrWhole(g, rq, done);
    j := Place(moved, k, i);
    if moved {
      LastStays(c.pages, l'.c.pages, k, i, b);
    } else {
      FirstStays(c.pages, l'.c.pages, false, k, i, b);
    }
  }

  /** What is at position t of the list afterwards was at one position before. */
  function Whence(moved: bool, k: nat, t: nat): (u: nat)
    ensures Place(moved, k, u) == t
  {
    if !moved then t else if t == 0 then k else if t <= k then t - 1 else t
  }

  lemma FirstStays(ps: seq<Page>, qs: seq<Page>, moved: bool, k: nat, j: nat, b: nat)
    requires k < |ps| == |qs| && j < |ps| && j != k && FirstCopy(ps, b, j)
    requires forall t :: 0 <= t < |ps| ==> SameEntry(qs[Place(moved, k, t)], ps[t])
    requires !moved || ps[k].base != b
    ensures FirstCopy(qs, b, Place(moved, k, j))
  {
    forall t | 0 <= t < Place(moved, k, j) && t < |qs|
      ensures qs[t].base != b
    {
      assert SameEntry(qs[Place(moved, k, Whence(moved, k, t))], ps[Whence(moved, k, t)]);
    }
  }

  lemma LastStays(ps: seq<Page>, qs: seq<Page>, k: nat, j: nat, b: nat)
    requires j < k < |ps| == |qs|
    requires forall t :: 0 <= t < |ps| ==> SameEntry(qs[Place(true, k, t)], ps[t])
    requires forall t :: 0 <= t < |ps| && t != k && t != j ==> ps[t].base != b
    ensures LastCopy(qs, b, Place(true, k, j))
  {
    forall t | Place(true, k, j) < t < |qs|
      ensures qs[t].base != b
    {
      assert SameEntry(qs[Place(true, k, Whence(true, k, t))], ps[Whence(true, k, t)]);
    }
  }

  /** An access to a later page through entry k. */
  lemma HitLeavesStale(g: Geo, rq: Req, done: nat, c: Cache, buf: seq<Sector>, k: nat, sb: nat, i: nat, b: nat)
    returns (j: nat)
    requires Struct(g, c) && rq.first + rq.num <= g.n
    requires done < rq.num <= |buf| && k < |c.pages| && !Direct(g, rq)
    requires c.pages[k].base == CurPage(g, rq, done) == rq.first + done && b < CurPage(g, rq, done)
    requires i < |c.pages| - 1 && HoldsCached(g, c.pages[i], b) && FirstCopy(c.pages, b, i)
    ensures var l' := HitStep(g, rq, done, c, buf, k, sb); StaleCopy(g, rq, l'.c.pages, l'.done, b, j)
  {
    var l', moved := HitStep(g, rq, done, c, buf, k, sb), !Whole(g, rq, done);
    OthersKept(g, rq, done, c, buf, k, sb);
    HitPlaces(g, rq, done, c, buf, k, sb);
    LastOrWhole(g, rq, done);
    j := Place(moved, k, i);
    FirstStays(c.pages, l'.c.pages, moved, k, i, b);
  }

  /** Behind the first chunk, only the last one may cover its page in part. */
  lemma LastOrWhole(g: Geo, rq: Req, done: nat)
    requires done < rq.num
    ensures var next := done + CurCount(g, rq, done);
      next < rq.num ==>
        && CurPage(g, rq, next) == rq.first + next == CurPage(g, rq, done) + g.sz
        && (rq.first + done == CurPage(g, rq, done) ==> Whole(g, rq, done))
  {
    ChunkFacts(g, rq, done);
  }

  /** Later iterations leave the stale copy where it is: it is neither the victim nor
      the page accessed. */
  lemma StaleStep(g: Geo, o: Oracle, rq: Req, l: Loop, b: nat, j: nat) returns (j': nat)
    requires Ready(g, rq, l) && !Direct(g, rq) && l.done < rq.num && DeviceNeverFails(o)
    requires StaleCopy(g, rq, l.c.pages, l.done, b, j) && b != EMPTY
    ensures var r := Step(g, o, false, rq, l); r.More? && StaleCopy(g, rq, r.l.c.pages, r.l.done, b, j')
  {
    var (p, sb) := Lookup(g, rq, l.c.pages, l.done, l.p, l.sb);
    if p >= 0 && l.c.pages[p].base == CurPage(g, rq, l.done) {
      j' := HitLeavesStale(g, rq, l.done, l.c, l.buf, p, sb, j, b);
      assert Step(g, o, false, rq, l) == More(HitStep(g, rq, l.done, l.c, l.buf, p, sb));
    } else {
      var v := Victim(l.c.pages);
      VictimIsFirstFree(l.c.pages);
      var c2 := WorkingRefill(g, o, rq, l);
      j' := HitLeavesStale(g, rq, l.done, c2, l.buf, v, sb, j, b);
    }
  }

  lemma {:induction false} StaleStays(g: Geo, o: Oracle, rq: Req, l: Loop, b: nat, j: nat) returns (j': nat)
    requires Ready(g, rq, l) && !Direct(g, rq) && DeviceNeverFails(o)
    requires StaleCopy(g, rq, l.c.pages, l.done, b, j) && b != EMPTY
    ensures StaleAtEnd(g, Run(g, o, false, rq, l).c.pages, b, j')
    decreases rq.num - l.done
  {
    j' := j;
    if l.done < rq.num {
      j' := StaleStep(g, o, rq, l, b, j);
      j' := StaleStays(g, o, rq, Step(g, o, false, rq, l).l, b, j');
    }
  }

  /** A write whose walk clashes leaves a stale copy of a page it wrote, where a search
      or the next flush finds it. */
  lemma {:induction false} WriteLeavesStale(g: Geo, o: Oracle, rq: Req, l: Loop, w: Walk) returns (at: nat, j: nat)
    requires Ready(g, rq, l) && !Direct(g, rq) && DeviceNeverFails(o)
    requires WalkOk(g, rq, w) && Follows(g, rq, l, w) && Distinct(w.ps) && !WalkNeverDuplicates(g, rq, w)
    requires Fresh(g, rq, w) || rq.first + w.done == CurPage(g, rq, w.done)
    requires AllCached(g, l.c.pages, ClashPage(g, rq, w))
    ensures l.done <= at < rq.num && rq.first + at == ClashPage(g, rq, w)
    ensures StaleAtEnd(g, Run(g, o, false, rq, l).c.pages, ClashPage(g, rq, w), j)
    decreases rq.num - l.done
  {
    var b := ClashPage(g, rq, w);
    ClashAhead(g, rq, w);
    StepFollows(g, o, rq, l, w);
    SameLookup(g, rq, l, w);
    SameVictim(l.c.pages, w.ps, |w.ps| - 1);
    var r := Step(g, o, false, rq, l);
    if WalkNoClash(g, rq, w) {
      WriteStepKeeps(g, o, rq, l, b);
      var w' := NextWalk(g, rq, w);
      at, j := WriteLeavesStale(g, o, rq, r.l, w');
    } else {
      at := l.done;
      ClashNotFresh(g, rq, w);
      SameDistinct(l.c.pages, w.ps);
      j := WriteClashes(g, o, rq, l, b);
      j := StaleStays(g, o, rq, r.l, b, j);
    }
  }

  lemma SameDistinct(ps: seq<Page>, qs: seq<Page>)
    requires SameList(ps, qs) && Distinct(qs)
    ensures Distinct(ps)
  {
    forall i | 0 <= i < |ps| && ps[i].base != EMPTY
      ensures NotBehind(ps, i)
    {
      assert NotBehind(qs, i);
    }
  }

  lemma NextWalk(g: Geo, rq: Req, w: Walk) returns (w': Walk)
    requires WalkOk(g, rq, w) && Distinct(w.ps) && w.done < rq.num && WalkNoClash(g, rq, w)
    ensures w' == WalkStep(g, rq, w) && Distinct(w'.ps)
    ensures w'.done < rq.num ==> rq.first + w'.done == CurPage(g, rq, w'.done)
  {
    w' := WalkStep(g, rq, w);
    if WalkHits(g, rq, w) {
      HitWalkStep(g, rq, w);
    } else {
      MissStep(g, rq, w);
    }
    LastOrWhole(g, rq, w.done);
  }

  /** A search that is due finds the page if it is resident: no clash. */
  lemma ClashNotFresh(g: Geo, rq: Req, w: Walk)
    requires WalkOk(g, rq, w) && w.done < rq.num && !WalkNoClash(g, rq, w)
    ensures !Fresh(g, rq, w)
  {
    if Fresh(g, rq, w) {
      FreshLookup(g, rq, w);
    }
  }

  // ----- what a stale copy does -----

  lemma FlushPageMisses(g: Geo, o: Oracle, c: Cache, i: nat, b: nat, x: nat)
    requires Struct(g, c) && i < |c.pages| && c.pages[i].base != b
    requires Aligned(g.sz, b) && b <= x < b + g.sz && x < g.n
    ensures FlushPage(g, o, c, i).0.disk.sectors[x] == c.disk.sectors[x]
  {
    var p := c.pages[i];
    if p.lo < p.hi {
      if p.base < b {
        AlignedGap(g.sz, p.base, b);
      } else {
        AlignedGap(g.sz, b, p.base);
      }
    }
  }

  /** Entries that hold other pages do not write sector x. */
  lemma {:induction false} FlushFromMisses(g: Geo, o: Oracle, c: Cache, i: nat, b: nat, x: nat)
    requires Struct(g, c) && i <= |c.pages| && Aligned(g.sz, b) && b <= x < b + g.sz && x < g.n
    requires forall t :: i <= t < |c.pages| ==> c.pages[t].base != b
    ensures FlushFrom(g, o, c, i).0.disk.sectors[x] == c.disk.sectors[x]
    decreases |c.pages| - i
  {
    if i < |c.pages| && c.pages[i].base != EMPTY {
      FlushPageMisses(g, o, c, i, b, x);
      var c1 := FlushPage(g, o, c, i).0;
      assert forall t :: i < t < |c.pages| ==> c1.pages[t] == c.pages[t];
      FlushFromMisses(g, o, c1, i + 1, b, x);
    }
  }

  /** The last copy of a page in the list is what a flush leaves on the device. */
  lemma {:induction false} LastCopyStored(g: Geo, o: Oracle, c: Cache, i: nat, j: nat, b: nat, x: nat)
    requires Struct(g, c) && i <= j < |c.pages| && DeviceNeverFails(o)
    requires HoldsCached(g, c.pages[j], b) && LastCopy(c.pages, b, j) && b <= x < b + g.sz && x < g.n
    ensures FlushFrom(g, o, c, i).0.disk.sectors[x] == CACHED
    decreases j - i
  {
    assert c.pages[i].base != EMPTY;
    var c1 := FlushPage(g, o, c, i).0;
    assert forall t :: i < t < |c.pages| ==> c1.pages[t] == c.pages[t];
    if i < j {
      LastCopyStored(g, o, c1, i + 1, j, b, x);
    } else {
      assert c.pages[j].data[x - b] == CACHED;
      FlushFromMisses(g, o, c1, i + 1, b, x);
    }
  }

  /** A stale copy shows: at once, or on the device after a flush. */
  lemma StaleShows(g: Geo, o: Oracle, c: Cache, b: nat, j: nat)
    requires Struct(g, c) && StaleAtEnd(g, c.pages, b, j) && DeviceNeverFails(o)
    ensures View(g, c, b) == CACHED || Flush(g, o, c).0.disk.sectors[b] == CACHED
  {
    if FirstCopy(c.pages, b, j) {
      FirstCopyShows(g, c, b, j);
    } else {
      LastCopyStored(g, o, c, 0, j, b, b);
    }
  }

  lemma FirstCopyShows(g: Geo, c: Cache, b: nat, j: nat)
    requires Struct(g, c) && j < |c.pages| && HoldsCached(g, c.pages[j], b) && FirstCopy(c.pages, b, j)
    ensures View(g, c, b) == CACHED
  {
    PageOfUnique(g.sz, b, b);
    var h := Holder(c.pages, b);
    assert h == j;
    assert At(c.pages[j].data, 0) == CACHED;
  }

  // ----- the guard and transparency -----

  /** Every sound cache with this list, on a device that never fails, serves the
      request as a flat array would. */
  ghost predicate AlwaysTransparent(g: Geo, rq: Req, ps: seq<Page>) {
    forall o: Oracle, c: Cache, buf: seq<Sector> ::
      Inv(g, c) && SameList(c.pages, ps) && DeviceNeverFails(o) && |buf| >= rq.num ==>
        Transparent(g, o, c, rq, buf, ReadWrite(g, o, false, c, rq, buf))
  }

  /** What a flat array would hold in sector x after the request. */
  ghost function Flat(g: Geo, c: Cache, rq: Req, buf: seq<Sector>, x: nat): Sector {
    if rq.write && rq.first <= x < rq.first + rq.num then At(buf, x - rq.first) else View(g, c, x)
  }

  /** The request as its caller sees it: it succeeds, a read returns what the array
      holds, and the cache afterwards shows, and a flush stores, what the array holds. */
  ghost predicate Served(g: Geo, o: Oracle, c: Cache, rq: Req, buf: seq<Sector>, r: Outcome)
    requires Struct(g, r.c)
  {
    && r.ok
    && (!rq.write ==> forall i :: 0 <= i < rq.num ==> At(r.buf, i) == View(g, c, rq.first + i))
    && forall x :: 0 <= x < g.n ==>
         View(g, r.c, x) == Flat(g, c, rq, buf, x) == At(Flush(g, o, r.c).0.disk.sectors, x)
  }

  /** So is every request on such a cache and device. */
  ghost predicate AlwaysServed(g: Geo, rq: Req, ps: seq<Page>) {
    forall o: Oracle, c: Cache, buf: seq<Sector> ::
      Inv(g, c) && SameList(c.pages, ps) && DeviceNeverFails(o) && |buf| >= rq.num ==>
        Served(g, o, c, rq, buf, ReadWrite(g, o, false, c, rq, buf))
  }

  function AlwaysWorks(): (o: Oracle)
    ensures DeviceNeverFails(o)
  {
    (_: nat) => Verdict(true, (_: nat) => OLD)
  }

  /** A transparent request is served in what its caller sees, too. */
  lemma TransparentIsServed(g: Geo, o: Oracle, c: Cache, rq: Req, buf: seq<Sector>, r: Outcome)
    requires InBounds(g, rq) && DeviceNeverFails(o) && |buf| >= rq.num && Struct(g, r.c)
    requires Transparent(g, o, c, rq, buf, r)
    ensures Served(g, o, c, rq, buf, r)
  {
    FlushStoresView(g, o, r.c);
    TransparentShows(g, o, c, rq, buf, r);
  }

  lemma FlushStoresView(g: Geo, o: Oracle, c: Cache)
    requires Inv(g, c) && DeviceNeverFails(o)
    ensures forall x :: 0 <= x < g.n ==> At(Flush(g, o, c).0.disk.sectors, x) == View(g, c, x)
  {
    Runs.FlushKeeps(g, o, c);
    Runs.FlushLogged(g, o, c);
    assert Flush(g, o, c).1;
  }

  lemma TransparentShows(g: Geo, o: Oracle, c: Cache, rq: Req, buf: seq<Sector>, r: Outcome)
    requires InBounds(g, rq) && DeviceNeverFails(o) && |buf| >= rq.num
    requires Transparent(g, o, c, rq, buf, r)
    ensures r.ok && forall x :: 0 <= x < g.n ==> View(g, r.c, x) == Flat(g, c, rq, buf, x)
    ensures !rq.write ==> forall i :: 0 <= i < rq.num ==> At(r.buf, i) == View(g, c, rq.first + i)
  {
  }

  /** The telltale cache is ready for the request. */
  lemma TellTaleStart(g: Geo, rq: Req, ps: seq<Page>, b: nat, buf: seq<Sector>)
    requires WalkOk(g, rq, Begin(ps)) && Distinct(ps) && b < g.n && rq.num <= |buf|
    ensures var c := TellTale(g, b, ps);
      && Inv(g, c) && SameList(c.pages, ps) && Ready(g, rq, Start(c, buf)) && Follows(g, rq, Start(c, buf), Begin(ps))
      && OnlyDirty(g, c, b) && AllCached(g, c.pages, b)
  {
    TellTaleSound(g, b, ps);
  }

  lemma UnguardedRead(g: Geo, rq: Req, ps: seq<Page>)
    requires WalkOk(g, rq, Begin(ps)) && Distinct(ps) && rq.num >= 1 && !rq.write
    requires !WalkNeverDuplicates(g, rq, Begin(ps))
    ensures !AlwaysServed(g, rq, ps)
  {
    var o, buf := AlwaysWorks(), seq(rq.num, _ => SENT);
    var b, at := ReadShowsOld(g, o, rq, ps, buf);
    var c := TellTale(g, b, ps);
    var r := ReadWrite(g, o, false, c, rq, buf);
    CachedNotRead(g, o, rq, ps, buf, b, r, at);
  }

  lemma CachedNotRead(g: Geo, o: Oracle, rq: Req, ps: seq<Page>, buf: seq<Sector>, b: nat, r: Outcome, at: nat)
    requires ListOk(g, ps) && Distinct(ps) && InBounds(g, rq) && g.n <= EMPTY && b in Resident(ps)
    requires Struct(g, r.c) && !rq.write && at < rq.num && CurPage(g, rq, at) == b < g.n && At(r.buf, at) == OLD
    ensures !Served(g, o, TellTale(g, b, ps), rq, buf, r)
  {
    TellTaleView(g, b, ps, rq.first + at);
    NotServedRead(g, o, TellTale(g, b, ps), rq, buf, r, at);
  }

  lemma NotServedRead(g: Geo, o: Oracle, c: Cache, rq: Req, buf: seq<Sector>, r: Outcome, at: nat)
    requires Struct(g, r.c) && !rq.write && at < rq.num
    requires At(r.buf, at) != View(g, c, rq.first + at)
    ensures !Served(g, o, c, rq, buf, r)
  {
  }

  lemma ReadShowsOld(g: Geo, o: Oracle, rq: Req, ps: seq<Page>, buf: seq<Sector>) returns (b: nat, at: nat)
    requires WalkOk(g, rq, Begin(ps)) && Distinct(ps) && rq.num >= 1 && !rq.write
    requires !WalkNeverDuplicates(g, rq, Begin(ps)) && DeviceNeverFails(o) && |buf| >= rq.num
    ensures InBounds(g, rq) && b in Resident(ps) && at < rq.num && CurPage(g, rq, at) == b < g.n
    ensures var c := TellTale(g, b, ps);
      Inv(g, c) && SameList(c.pages, ps) && At(ReadWrite(g, o, false, c, rq, buf).buf, at) == OLD
  {
    var w := Begin(ps);
    b := ClashPage(g, rq, w);
    ClashAhead(g, rq, w);
    TellTaleStart(g, rq, ps, b, buf);
    var c := TellTale(g, b, ps);
    at := ReadReturnsOld(g, o, rq, Start(c, buf), w);
    assert InBounds(g, rq);
  }

  /** The clashing page reads as what is cached. */
  lemma TellTaleView(g: Geo, b: nat, ps: seq<Page>, x: nat)
    requires ListOk(g, ps) && Distinct(ps) && g.n <= EMPTY && b in Resident(ps) && x < g.n && PageOf(g.sz, x) == b < g.n
    ensures View(g, TellTale(g, b, ps), x) == CACHED
  {
    TellTaleSound(g, b, ps);
    var i: nat :| i < |ps| && ps[i].base == b;
    ViewIn(g, TellTale(g, b, ps), i, x);
  }

  lemma UnguardedWrite(g: Geo, rq: Req, ps: seq<Page>)
    requires WalkOk(g, rq, Begin(ps)) && Distinct(ps) && rq.num >= 1 && rq.write
    requires !WalkNeverDuplicates(g, rq, Begin(ps))
    ensures !AlwaysServed(g, rq, ps)
  {
    var o, buf := AlwaysWorks(), seq(rq.num, _ => SENT);
    var b, at := WriteIsLost(g, o, rq, ps, buf);
    var c := TellTale(g, b, ps);
    assert Flat(g, c, rq, buf, b) == buf[at] == SENT;
    assert !Served(g, o, c, rq, buf, ReadWrite(g, o, false, c, rq, buf));
  }

  /** What was cached for sector b shows again after the write, at once or on the
      device after a flush. */
  lemma WriteIsLost(g: Geo, o: Oracle, rq: Req, ps: seq<Page>, buf: seq<Sector>) returns (b: nat, at: nat)
    requires WalkOk(g, rq, Begin(ps)) && Distinct(ps) && rq.num >= 1 && rq.write
    requires !WalkNeverDuplicates(g, rq, Begin(ps)) && DeviceNeverFails(o) && |buf| >= rq.num
    ensures at < rq.num && rq.first + at == b < g.n
    ensures var c := TellTale(g, b, ps);
      && Inv(g, c) && SameList(c.pages, ps)
      && var end := ReadWrite(g, o, false, c, rq, buf).c;
         View(g, end, b) == CACHED || Flush(g, o, end).0.disk.sectors[b] == CACHED
  {
    var w := Begin(ps);
    b := ClashPage(g, rq, w);
    ClashAhead(g, rq, w);
    TellTaleStart(g, rq, ps, b, buf);
    var c := TellTale(g, b, ps);
    var j;
    at, j := WriteLeavesStale(g, o, rq, Start(c, buf), w);
    StaleShows(g, o, Run(g, o, false, rq, Start(c, buf)).c, b, j);
    assert InBounds(g, rq);
  }

  lemma GuardedIsTransparent(g: Geo, rq: Req, ps: seq<Page>)
    requires WalkOk(g, rq, Begin(ps)) && Distinct(ps) && WalkNeverDuplicates(g, rq, Begin(ps))
    ensures AlwaysTransparent(g, rq, ps)
  {
    forall o: Oracle, c: Cache, buf: seq<Sector> |
      Inv(g, c) && SameList(c.pages, ps) && DeviceNeverFails(o) && |buf| >= rq.num
      ensures Transparent(g, o, c, rq, buf, ReadWrite(g, o, false, c, rq, buf))
    {
      SafeWalkSafeRun(g, o, rq, Start(c, buf), Begin(ps));
      SafeRequest(g, o, false, c, rq, buf);
    }
  }

  lemma AlwaysTransparentIsServed(g: Geo, rq: Req, ps: seq<Page>)
    requires AlwaysTransparent(g, rq, ps) && InBounds(g, rq)
    ensures AlwaysServed(g, rq, ps)
  {
    forall o: Oracle, c: Cache, buf: seq<Sector> |
      Inv(g, c) && SameList(c.pages, ps) && DeviceNeverFails(o) && |buf| >= rq.num
      ensures Served(g, o, c, rq, buf, ReadWrite(g, o, false, c, rq, buf))
    {
      TransparentIsServed(g, o, c, rq, buf, ReadWrite(g, o, false, c, rq, buf));
    }
  }

  /** Main theorem: for an allocating request the guard holds of a list if and only
      if every sound cache with that list, on a device that never fails, serves the
      request as a flat array would; and if and only if its caller sees no difference
      in what is read, in what the cache shows afterwards and in what a flush stores. */
  lemma GuardIsTransparency(g: Geo, rq: Req, ps: seq<Page>)
    requires WalkOk(g, rq, Begin(ps)) && InBounds(g, rq) && Distinct(ps) && rq.num >= 1
    ensures Guard(g, rq, ps) <==> AlwaysTransparent(g, rq, ps)
    ensures Guard(g, rq, ps) <==> AlwaysServed(g, rq, ps)
  {
    GuardIsExact(g, rq, ps);
    if Guard(g, rq, ps) {
      GuardedIsTransparent(g, rq, ps);
    } else if rq.write {
      UnguardedWrite(g, rq, ps);
    } else {
      UnguardedRead(g, rq, ps);
    }
    if AlwaysTransparent(g, rq, ps) {
      AlwaysTransparentIsServed(g, rq, ps);
    }
  }
}
