/** What requests do to the recency list: scan resistance, the number of device
    transfers of a direct request, and least-recent-use order. */
module Recency {
  import opened Pages
  import opened Device
  import opened CacheModel
  import opened CacheInvariant
  import opened Transparency
  import opened StaleSearch
  import opened Runs

  // ----- where one iteration moves an entry -----

  /** Position of entry j after entry k was moved to the front (if `moved`). */
  function Place(moved: bool, k: nat, j: nat): nat {
    if !moved then j else if j == k then 0 else if j < k then j + 1 else j
  }

  ghost predicate SameEntry(p: Page, q: Page) {
    p.slot == q.slot && p.base == q.base
  }

  /** The iteration goes past the cache. */
  ghost predicate Bypasses(g: Geo, rq: Req, l: Loop)
    requires Ready(g, rq, l) && l.done < rq.num
  {
    var p := Lookup(g, rq, l.c.pages, l.done, l.p, l.sb).0;
    Direct(g, rq) && !(p >= 0 && l.c.pages[p].base == CurPage(g, rq, l.done))
  }

  /** The entry the iteration goes through, when it does not go past the cache. */
  ghost function Used(g: Geo, rq: Req, l: Loop): (k: nat)
    requires Ready(g, rq, l) && l.done < rq.num && !Bypasses(g, rq, l)
    ensures k < |l.c.pages|
  {
    var p := Lookup(g, rq, l.c.pages, l.done, l.p, l.sb).0;
    if p >= 0 && l.c.pages[p].base == CurPage(g, rq, l.done) then p else Victim(l.c.pages)
  }

  ghost predicate Promotes(g: Geo, rq: Req, l: Loop)
    requires Ready(g, rq, l) && l.done < rq.num
  {
    !Bypasses(g, rq, l) && !Whole(g, rq, l.done)
  }

  function ListAfter(r: StepResult): seq<Page> {
    CacheAfter(r).pages
  }

  /** List qs after an iteration that goes on: every slot is kept, only the entry in
      use moves, and only it may hold another page. */
  ghost predicate MovedOnly(ps: seq<Page>, qs: seq<Page>, moved: bool, k: nat) {
    && |qs| == |ps| && k < |ps|
    && forall j :: 0 <= j < |ps| ==>
         && qs[Place(moved, k, j)].slot == ps[j].slot
         && (j != k ==> qs[Place(moved, k, j)].base == ps[j].base)
  }

  lemma StepMoves(g: Geo, o: Oracle, refresh: bool, rq: Req, l: Loop)
    requires Ready(g, rq, l) && l.done < rq.num
    ensures var r := Step(g, o, refresh, rq, l);
      if Bypasses(g, rq, l) then ListAfter(r) == l.c.pages
      else
        && (r.More? ==> r.l.done == l.done + CurCount(g, rq, l.done))
        && MovedOnly(l.c.pages, ListAfter(r), r.More? && Promotes(g, rq, l), Used(g, rq, l))
  {
    var b := CurPage(g, rq, l.done);
    var (p, sb) := Lookup(g, rq, l.c.pages, l.done, l.p, l.sb);
    if p >= 0 && l.c.pages[p].base == b {
      if Direct(g, rq) { LookupAhead(g, rq, l); }
      HitMoves(g, rq, l.done, l.c, l.buf, p, sb, l.c.pages);
    } else if !Direct(g, rq) {
      RefillMoves(g, o, refresh, rq, l);
    }
  }

  lemma RefillMoves(g: Geo, o: Oracle, refresh: bool, rq: Req, l: Loop)
    requires Ready(g, rq, l) && l.done < rq.num && !Direct(g, rq)
    requires var p := Lookup(g, rq, l.c.pages, l.done, l.p, l.sb).0;
      !(p >= 0 && l.c.pages[p].base == CurPage(g, rq, l.done))
    ensures var r := Step(g, o, refresh, rq, l);
      && (r.More? ==> r.l.done == l.done + CurCount(g, rq, l.done))
      && MovedOnly(l.c.pages, ListAfter(r), r.More? && Promotes(g, rq, l), Victim(l.c.pages))
  {
    var b, v := CurPage(g, rq, l.done), Victim(l.c.pages);
    var sb := Lookup(g, rq, l.c.pages, l.done, l.p, l.sb).1;
    var (c1, flushed) := FlushPage(g, o, l.c, v);
    if flushed {
      FlushKeepsVictim(g, o, l.c, v);
      var (c2, loaded) := Refill(g, o, c1, v, b, !rq.write || !Whole(g, rq, l.done));
      assert MovedOnly(l.c.pages, c2.pages, false, v);
      if loaded {
        HitMoves(g, rq, l.done, c2, l.buf, v, if refresh then b + 1 else sb, l.c.pages);
      }
    }
  }

  lemma HitMoves(g: Geo, rq: Req, done: nat, c: Cache, buf: seq<Sector>, k: nat, sb: nat, ps: seq<Page>)
    requires Struct(g, c) && rq.first + rq.num <= g.n && done < rq.num <= |buf| && k < |c.pages|
    requires c.pages[k].base == CurPage(g, rq, done)
    requires Direct(g, rq) ==> sb == c.pages[k].base + 1
    requires MovedOnly(ps, c.pages, false, k)
    ensures var l' := HitStep(g, rq, done, c, buf, k, sb);
      && l'.done == done + CurCount(g, rq, done)
      && MovedOnly(ps, l'.c.pages, !Whole(g, rq, done), k)
  {
    HitPlaces(g, rq, done, c, buf, k, sb);
    MovedThen(ps, c.pages, HitStep(g, rq, done, c, buf, k, sb).c.pages, !Whole(g, rq, done), k);
  }

  lemma MovedThen(ps: seq<Page>, mid: seq<Page>, qs: seq<Page>, moved: bool, k: nat)
    requires MovedOnly(ps, mid, false, k) && |qs| == |mid|
    requires forall j :: 0 <= j < |mid| ==> SameEntry(qs[Place(moved, k, j)], mid[j])
    ensures MovedOnly(ps, qs, moved, k)
  {
    assert forall j :: 0 <= j < |ps| ==> mid[Place(false, k, j)] == mid[j];
  }

  lemma HitPlaces(g: Geo, rq: Req, done: nat, c: Cache, buf: seq<Sector>, k: nat, sb: nat)
    requires Struct(g, c) && rq.first + rq.num <= g.n && done < rq.num <= |buf| && k < |c.pages|
    requires c.pages[k].base == CurPage(g, rq, done)
    requires Direct(g, rq) ==> sb == c.pages[k].base + 1
    ensures var l' := HitStep(g, rq, done, c, buf, k, sb);
      && |l'.c.pages| == |c.pages| && l'.done == done + CurCount(g, rq, done)
      && forall j :: 0 <= j < |c.pages| ==> SameEntry(l'.c.pages[Place(!Whole(g, rq, done), k, j)], c.pages[j])
  {
    HitKeepsPlaces(g, c, buf, k, rq.first + done - CurPage(g, rq, done), CurCount(g, rq, done), done, rq.write);
  }

  lemma HitKeepsPlaces(g: Geo, c: Cache, buf: seq<Sector>, k: nat, off: nat, cur: nat, at: nat, write: bool)
    requires Struct(g, c) && k < |c.pages| && c.pages[k].base != EMPTY
    requires cur >= 1 && off + cur <= g.sz && at + cur <= |buf|
    requires c.pages[k].base + off + cur <= |c.disk.sectors|
    ensures var qs, moved := Hit(g, c, buf, k, off, cur, at, write).0.pages, !(off == 0 && cur == g.sz);
      |qs| == |c.pages| && forall j :: 0 <= j < |c.pages| ==> SameEntry(qs[Place(moved, k, j)], c.pages[j])
  {
    var ps := if write then c.pages[k := Stored(c.pages[k], off, buf[at..at + cur])] else c.pages;
    PlacesOf(c.pages, ps, k, !(off == 0 && cur == g.sz));
  }

  /** Changing the data of entry k and perhaps moving it to the front keeps what
      every entry holds. */
  lemma PlacesOf(before: seq<Page>, ps: seq<Page>, k: nat, moved: bool)
    requires k < |before| == |ps| && forall j :: 0 <= j < |ps| ==> SameEntry(ps[j], before[j])
    ensures var qs := if moved && k != 0 then Touch(ps, k) else ps;
      forall j :: 0 <= j < |ps| ==> SameEntry(qs[Place(moved, k, j)], before[j])
  {
  }

  // ----- scan resistance -----

  /** The occupied entries among the first n of ps are still there, each holding
      its page, at positions below m of qs. */
  ghost predicate StillHeld(ps: seq<Page>, n: int, qs: seq<Page>, m: int) {
    forall i :: 0 <= i < n && i < |ps| && ps[i].base != EMPTY ==>
      exists j :: 0 <= j < m && j < |qs| && SameEntry(qs[j], ps[i])
  }

  /** Every chunk after the first starts on a page boundary. */
  ghost predicate OnPage(g: Geo, rq: Req, done: nat) {
    0 < done < rq.num ==> rq.first + done == CurPage(g, rq, done)
  }

  /** The next chunk starts on a page boundary; one that started there and is not
      the last promotes nothing. */
  ghost predicate LeadsOnPage(g: Geo, rq: Req, l: Loop, r: StepResult)
    requires Ready(g, rq, l) && l.done < rq.num
  {
    r.More? ==>
      && OnPage(g, rq, r.l.done)
      && (r.l.done < rq.num && rq.first + l.done == CurPage(g, rq, l.done) ==> !Promotes(g, rq, l))
  }

  lemma StepOnPage(g: Geo, o: Oracle, refresh: bool, rq: Req, l: Loop)
    requires Ready(g, rq, l) && l.done < rq.num
    ensures LeadsOnPage(g, rq, l, Step(g, o, refresh, rq, l))
  {
    if Bypasses(g, rq, l) {
      BypassOnPage(g, o, refresh, rq, l);
    } else {
      StepMoves(g, o, refresh, rq, l);
      ChunkLeadsOnPage(g, rq, l, Step(g, o, refresh, rq, l));
    }
  }

  lemma ChunkLeadsOnPage(g: Geo, rq: Req, l: Loop, r: StepResult)
    requires Ready(g, rq, l) && l.done < rq.num
    requires r.More? ==> r.l.done == l.done + CurCount(g, rq, l.done)
    ensures LeadsOnPage(g, rq, l, r)
  {
    ChunkFacts(g, rq, l.done);
  }

  lemma BypassOnPage(g: Geo, o: Oracle, refresh: bool, rq: Req, l: Loop)
    requires Ready(g, rq, l) && l.done < rq.num && Bypasses(g, rq, l)
    ensures var r := Step(g, o, refresh, rq, l); r.More? ==> OnPage(g, rq, r.l.done)
  {
    var (p, sb) := Lookup(g, rq, l.c.pages, l.done, l.p, l.sb);
    var cur := DirectCount(g, rq, l, p, sb);
    if l.done + cur < rq.num {
      PageOfUnique(g.sz, l.c.pages[p].base, l.c.pages[p].base);
    }
  }

  /** A refill takes an unused entry or the tail. */
  lemma UsedIsTailOrHit(g: Geo, rq: Req, l: Loop, j: nat)
    requires Ready(g, rq, l) && l.done < rq.num && !Bypasses(g, rq, l)
    requires j < |l.c.pages| - 1 && l.c.pages[j].base != EMPTY && j == Used(g, rq, l)
    ensures j == Lookup(g, rq, l.c.pages, l.done, l.p, l.sb).0 && l.c.pages[j].base == CurPage(g, rq, l.done)
  {
    VictimIsFirstFree(l.c.pages);
  }

  /** An occupied entry other than the tail survives the iteration, at most one
      position further back, and in place unless something was promoted. */
  lemma EntrySurvives(g: Geo, o: Oracle, refresh: bool, rq: Req, l: Loop, j: nat) returns (j': nat)
    requires Ready(g, rq, l) && l.done < rq.num
    requires j < |l.c.pages| - 1 && l.c.pages[j].base != EMPTY
    ensures var r := Step(g, o, refresh, rq, l);
      && j' < |ListAfter(r)| && SameEntry(ListAfter(r)[j'], l.c.pages[j])
      && (r.More? ==> j' <= j + 1)
      && (r.Stop? || !Promotes(g, rq, l) ==> j' == j)
  {
    var r := Step(g, o, refresh, rq, l);
    StepMoves(g, o, refresh, rq, l);
    if Bypasses(g, rq, l) || r.Stop? {
      j' := j;
      if r.Stop? && !Bypasses(g, rq, l) && j == Used(g, rq, l) {
        UsedIsTailOrHit(g, rq, l, j);
      }
    } else {
      j' := Place(Promotes(g, rq, l), Used(g, rq, l), j);
      if j == Used(g, rq, l) {
        UsedIsTailOrHit(g, rq, l, j);
        StepHolds(g, o, refresh, rq, l);
      }
    }
  }

  /** After an iteration through the cache its entry holds the current page. */
  lemma StepHolds(g: Geo, o: Oracle, refresh: bool, rq: Req, l: Loop)
    requires Ready(g, rq, l) && l.done < rq.num && !Bypasses(g, rq, l)
    ensures var r := Step(g, o, refresh, rq, l);
      r.More? ==>
        && |r.l.c.pages| == |l.c.pages|
        && r.l.c.pages[Place(Promotes(g, rq, l), Used(g, rq, l), Used(g, rq, l))].base == CurPage(g, rq, l.done)
  {
  }

  lemma StepSurvivors(g: Geo, o: Oracle, refresh: bool, rq: Req, l: Loop, ps: seq<Page>, n: int)
    requires Ready(g, rq, l) && l.done < rq.num && OnPage(g, rq, l.done)
    requires n <= |l.c.pages| - 2
    requires if l.done == 0 then l.c.pages == ps else StillHeld(ps, n, l.c.pages, |l.c.pages| - 1)
    ensures var r := Step(g, o, refresh, rq, l);
      && StillHeld(ps, n, ListAfter(r), |ListAfter(r)|)
      && |ListAfter(r)| == |l.c.pages|
      && (r.More? && r.l.done < rq.num ==> StillHeld(ps, n, ListAfter(r), |ListAfter(r)| - 1))
  {
    var r := Step(g, o, refresh, rq, l);
    StepMoves(g, o, refresh, rq, l);
    StepOnPage(g, o, refresh, rq, l);
    forall i | 0 <= i < n && i < |ps| && ps[i].base != EMPTY
      ensures exists j :: 0 <= j < |ListAfter(r)| && SameEntry(ListAfter(r)[j], ps[i])
                && (r.More? && r.l.done < rq.num ==> j < |ListAfter(r)| - 1)
    {
      var j: nat;
      if l.done == 0 {
        j := i;
      } else {
        j :| 0 <= j < |l.c.pages| - 1 && j < |l.c.pages| && SameEntry(l.c.pages[j], ps[i]);
      }
      var j' := EntrySurvives(g, o, refresh, rq, l, j);
      assert SameEntry(ListAfter(r)[j'], ps[i]);
    }
  }

  lemma {:induction false} RunSurvivors(g: Geo, o: Oracle, refresh: bool, rq: Req, l: Loop, ps: seq<Page>, n: int)
    requires Ready(g, rq, l) && OnPage(g, rq, l.done) && n <= |l.c.pages| - 2
    requires if l.done == 0 then l.c.pages == ps else StillHeld(ps, n, l.c.pages, |l.c.pages|)
    requires 0 < l.done < rq.num ==> StillHeld(ps, n, l.c.pages, |l.c.pages| - 1)
    ensures var qs := Run(g, o, refresh, rq, l).c.pages; StillHeld(ps, n, qs, |qs|)
    decreases rq.num - l.done
  {
    if l.done < rq.num {
      StepSurvivors(g, o, refresh, rq, l, ps, n);
      StepOnPage(g, o, refresh, rq, l);
      var r := Step(g, o, refresh, rq, l);
      if r.More? {
        RunSurvivors(g, o, refresh, rq, r.l, ps, n);
      }
    } else {
      assert l.done == 0 ==> forall i :: 0 <= i < |ps| ==> SameEntry(l.c.pages[i], ps[i]);
    }
  }

  /** Scan resistance: a request of any length, whatever the device does, takes the
      page away from at most the two least recently used entries. */
  lemma AtMostTwoReassigned(g: Geo, o: Oracle, refresh: bool, c: Cache, rq: Req, buf: seq<Sector>)
    requires Struct(g, c) && |buf| >= rq.num
    ensures var qs := ReadWrite(g, o, refresh, c, rq, buf).c.pages;
      StillHeld(c.pages, |c.pages| - 2, qs, |qs|)
  {
    if InBounds(g, rq) {
      RunSurvivors(g, o, refresh, rq, Start(c, buf), c.pages, |c.pages| - 2);
    } else {
      assert forall i :: 0 <= i < |c.pages| ==> SameEntry(c.pages[i], c.pages[i]);
    }
  }

  // ----- requests made of whole pages -----

  /** From chunk `done` on, every chunk covers its page. */
  ghost predicate WholePages(g: Geo, rq: Req, done: nat) {
    done < rq.num ==> rq.first + done == CurPage(g, rq, done) && Aligned(g.sz, rq.first + rq.num)
  }

  lemma WholeChunk(g: Geo, rq: Req, done: nat)
    requires done < rq.num && WholePages(g, rq, done)
    ensures Whole(g, rq, done)
  {
    AlignedGap(g.sz, rq.first + done, rq.first + rq.num);
  }

  /** The list order is untouched and only the tail may have lost its page. */
  ghost predicate OnlyTailChanged(ps: seq<Page>, qs: seq<Page>) {
    && |qs| == |ps|
    && forall j :: 0 <= j < |ps| ==>
         && qs[j].slot == ps[j].slot
         && (j < |ps| - 1 && ps[j].base != EMPTY ==> qs[j].base == ps[j].base)
  }

  lemma WholeStep(g: Geo, o: Oracle, refresh: bool, rq: Req, l: Loop)
    requires Ready(g, rq, l) && l.done < rq.num && WholePages(g, rq, l.done)
    ensures var r := Step(g, o, refresh, rq, l);
      && OnlyTailChanged(l.c.pages, ListAfter(r))
      && (r.More? ==> WholePages(g, rq, r.l.done))
  {
    var r := Step(g, o, refresh, rq, l);
    WholeChunk(g, rq, l.done);
    StepMoves(g, o, refresh, rq, l);
    StepOnPage(g, o, refresh, rq, l);
    if !Bypasses(g, rq, l) {
      SlotsInPlace(l.c.pages, ListAfter(r), Used(g, rq, l));
    }
    forall j | 0 <= j < |l.c.pages| - 1 && l.c.pages[j].base != EMPTY
      ensures ListAfter(r)[j].base == l.c.pages[j].base
    {
      var j' := EntrySurvives(g, o, refresh, rq, l, j);
    }
  }

  lemma SlotsInPlace(ps: seq<Page>, qs: seq<Page>, k: nat)
    requires MovedOnly(ps, qs, false, k)
    ensures |qs| == |ps| && forall j :: 0 <= j < |ps| ==> qs[j].slot == ps[j].slot
  {
    assert forall j :: 0 <= j < |ps| ==> qs[Place(false, k, j)] == qs[j];
  }

  lemma {:induction false} WholeRun(g: Geo, o: Oracle, refresh: bool, rq: Req, l: Loop)
    requires Ready(g, rq, l) && WholePages(g, rq, l.done)
    ensures OnlyTailChanged(l.c.pages, Run(g, o, refresh, rq, l).c.pages)
    decreases rq.num - l.done
  {
    if l.done < rq.num {
      WholeStep(g, o, refresh, rq, l);
      var r := Step(g, o, refresh, rq, l);
      if r.More? {
        WholeRun(g, o, refresh, rq, r.l);
      }
    }
  }

  /** A request made only of whole pages leaves the list order as it was and takes
      the page away from at most the tail. */
  lemma WholePagesTakeOnlyTail(g: Geo, o: Oracle, refresh: bool, c: Cache, rq: Req, buf: seq<Sector>)
    requires Struct(g, c) && |buf| >= rq.num
    requires Aligned(g.sz, rq.first) && Aligned(g.sz, rq.first + rq.num)
    ensures OnlyTailChanged(c.pages, ReadWrite(g, o, refresh, c, rq, buf).c.pages)
  {
    if InBounds(g, rq) {
      PageOfUnique(g.sz, rq.first, rq.first);
      WholeRun(g, o, refresh, rq, Start(c, buf));
    }
  }

  // ----- cost of a direct request -----

  /** Resident pages from b on that the request crosses. */
  ghost function Crossed(ps: seq<Page>, b: nat, last: nat): set<nat> {
    set y | y in Resident(ps) && b <= y <= last
  }

  /** Device transfers a run from here still issues. */
  ghost function Cost(g: Geo, o: Oracle, refresh: bool, rq: Req, l: Loop): int
    requires Ready(g, rq, l)
  {
    |Run(g, o, refresh, rq, l).c.disk.log| - |l.c.disk.log|
  }

  lemma CostStep(g: Geo, o: Oracle, refresh: bool, rq: Req, l: Loop)
    requires Ready(g, rq, l) && l.done < rq.num
    ensures var r := Step(g, o, refresh, rq, l);
      Cost(g, o, refresh, rq, l) ==
        if r.More? then |r.l.c.disk.log| - |l.c.disk.log| + Cost(g, o, refresh, rq, r.l)
        else |r.c.disk.log| - |l.c.disk.log|
  {
  }

  /** One transfer more than the pages crossed, or no more than those when the run
      starts at one of them. */
  lemma {:induction false} DirectRunCost(g: Geo, o: Oracle, refresh: bool, rq: Req, l: Loop)
    requires Ready(g, rq, l) && Direct(g, rq) && l.done < rq.num
    ensures var k := |Crossed(l.c.pages, CurPage(g, rq, l.done), LastPage(g, rq))|;
      Cost(g, o, refresh, rq, l) <= if Bypasses(g, rq, l) then k + 1 else k
    decreases rq.num - l.done
  {
    var r := Step(g, o, refresh, rq, l);
    if r.More? && r.l.done < rq.num {
      DirectRunCost(g, o, refresh, rq, r.l);
    }
    if Bypasses(g, rq, l) {
      CostAtBypass(g, o, refresh, rq, l);
    } else {
      CostAtHit(g, o, refresh, rq, l);
    }
  }

  lemma CostAtBypass(g: Geo, o: Oracle, refresh: bool, rq: Req, l: Loop)
    requires Ready(g, rq, l) && l.done < rq.num && Bypasses(g, rq, l)
    requires var r := Step(g, o, refresh, rq, l);
      r.More? && r.l.done < rq.num && !Bypasses(g, rq, r.l) ==>
        Cost(g, o, refresh, rq, r.l) <= |Crossed(r.l.c.pages, CurPage(g, rq, r.l.done), LastPage(g, rq))|
    ensures Cost(g, o, refresh, rq, l) <= |Crossed(l.c.pages, CurPage(g, rq, l.done), LastPage(g, rq))| + 1
  {
    var r := Step(g, o, refresh, rq, l);
    CostStep(g, o, refresh, rq, l);
    BypassCost(g, o, refresh, rq, l);
    if r.More? && r.l.done < rq.num {
      SubsetCard(Crossed(l.c.pages, CurPage(g, rq, r.l.done), LastPage(g, rq)),
                 Crossed(l.c.pages, CurPage(g, rq, l.done), LastPage(g, rq)));
    }
  }

  lemma CostAtHit(g: Geo, o: Oracle, refresh: bool, rq: Req, l: Loop)
    requires Ready(g, rq, l) && l.done < rq.num && Direct(g, rq) && !Bypasses(g, rq, l)
    requires var r := Step(g, o, refresh, rq, l);
      r.More? && r.l.done < rq.num ==>
        Cost(g, o, refresh, rq, r.l) <= |Crossed(r.l.c.pages, CurPage(g, rq, r.l.done), LastPage(g, rq))| + 1
    ensures Cost(g, o, refresh, rq, l) <= |Crossed(l.c.pages, CurPage(g, rq, l.done), LastPage(g, rq))|
  {
    CostStep(g, o, refresh, rq, l);
    HitCost(g, o, refresh, rq, l);
    HitLeavesFewer(g, rq, l, Step(g, o, refresh, rq, l).l);
  }

  lemma HitLeavesFewer(g: Geo, rq: Req, l: Loop, l': Loop)
    requires l.done < rq.num && CurPage(g, rq, l.done) in Resident(l.c.pages)
    requires Resident(l'.c.pages) == Resident(l.c.pages)
    requires l'.done < rq.num ==> CurPage(g, rq, l'.done) == CurPage(g, rq, l.done) + g.sz
    ensures var k := |Crossed(l.c.pages, CurPage(g, rq, l.done), LastPage(g, rq))|;
      && 1 <= k
      && (l'.done < rq.num ==> |Crossed(l'.c.pages, CurPage(g, rq, l'.done), LastPage(g, rq))| + 1 <= k)
  {
    var b, last := CurPage(g, rq, l.done), LastPage(g, rq);
    ChunkFacts(g, rq, l.done);
    CrossedShrinks(g, l.c.pages, b, last);
    assert Crossed(l'.c.pages, b + g.sz, last) == Crossed(l.c.pages, b + g.sz, last);
  }

  lemma CrossedShrinks(g: Geo, ps: seq<Page>, b: nat, last: nat)
    requires b in Resident(ps) && b <= last
    ensures |Crossed(ps, b + g.sz, last)| + 1 <= |Crossed(ps, b, last)|
  {
    SubsetCard(Crossed(ps, b + g.sz, last), Crossed(ps, b, last) - {b});
  }

  lemma SubsetCard(s: set<nat>, t: set<nat>)
    requires s <= t
    ensures |s| <= |t|
    decreases t
  {
    if x :| x in t {
      SubsetCard(s - {x}, t - {x});
    }
  }

  /** A bypass is one transfer; what is left starts at a resident page. */
  lemma BypassCost(g: Geo, o: Oracle, refresh: bool, rq: Req, l: Loop)
    requires Ready(g, rq, l) && l.done < rq.num && Bypasses(g, rq, l)
    ensures var r := Step(g, o, refresh, rq, l);
      && ListAfter(r) == l.c.pages
      && (if r.More? then |r.l.c.disk.log| else |r.c.disk.log|) == |l.c.disk.log| + 1
      && (r.More? && r.l.done < rq.num ==> !Bypasses(g, rq, r.l) && CurPage(g, rq, l.done) <= CurPage(g, rq, r.l.done))
  {
    var (p, sb) := Lookup(g, rq, l.c.pages, l.done, l.p, l.sb);
    LookupAhead(g, rq, l);
    var r := Step(g, o, refresh, rq, l);
    if r.More? && r.l.done < rq.num {
      var s := l.c.pages[p].base;
      PageOfUnique(g.sz, s, s);
    }
  }

  /** A hit costs no transfer and leaves its page behind. */
  lemma HitCost(g: Geo, o: Oracle, refresh: bool, rq: Req, l: Loop)
    requires Ready(g, rq, l) && l.done < rq.num && Direct(g, rq) && !Bypasses(g, rq, l)
    ensures var r := Step(g, o, refresh, rq, l);
      var b := CurPage(g, rq, l.done);
      && r.More? && |r.l.c.disk.log| == |l.c.disk.log|
      && Resident(r.l.c.pages) == Resident(l.c.pages)
      && b in Resident(l.c.pages)
      && (r.l.done < rq.num ==> CurPage(g, rq, r.l.done) == b + g.sz)
  {
    var (p, sb) := Lookup(g, rq, l.c.pages, l.done, l.p, l.sb);
    LookupAhead(g, rq, l);
    ChunkFacts(g, rq, l.done);
    HitResident(g, rq, l.done, l.c, l.buf, p, sb);
  }

  lemma HitResident(g: Geo, rq: Req, done: nat, c: Cache, buf: seq<Sector>, k: nat, sb: nat)
    requires Struct(g, c) && rq.first + rq.num <= g.n && done < rq.num <= |buf| && k < |c.pages|
    requires c.pages[k].base == CurPage(g, rq, done)
    requires Direct(g, rq) ==> sb == c.pages[k].base + 1
    ensures var l' := HitStep(g, rq, done, c, buf, k, sb);
      Resident(l'.c.pages) == Resident(c.pages) && l'.c.disk == c.disk && l'.done == done + CurCount(g, rq, done)
    ensures CurPage(g, rq, done) in Resident(c.pages)
  {
    HitPlaces(g, rq, done, c, buf, k, sb);
    SamePlacesResident(c.pages, HitStep(g, rq, done, c, buf, k, sb).c.pages, !Whole(g, rq, done), k);
  }

  lemma SamePlacesResident(ps: seq<Page>, qs: seq<Page>, moved: bool, k: nat)
    requires |qs| == |ps| && k < |ps|
    requires forall j :: 0 <= j < |ps| ==> SameEntry(qs[Place(moved, k, j)], ps[j])
    ensures Resident(qs) == Resident(ps)
  {
    forall i | 0 <= i < |qs|
      ensures exists j :: 0 <= j < |ps| && SameEntry(qs[i], ps[j])
    {
      var j := if !moved then i else if i == 0 then k else if i <= k then i - 1 else i;
      assert Place(moved, k, j) == i;
      assert SameEntry(qs[i], ps[j]);
    }
  }

  /** A direct request crossing k resident pages issues at most k + 1 device
      transfers. */
  lemma DirectRequestCost(g: Geo, o: Oracle, refresh: bool, c: Cache, rq: Req, buf: seq<Sector>)
    requires Struct(g, c) && |buf| >= rq.num >= 1 && rq.first < g.n && rq.first + rq.num <= g.n
    requires !rq.partial && rq.num >= g.sz && rq.aligned
    ensures |ReadWrite(g, o, refresh, c, rq, buf).c.disk.log| - |c.disk.log|
         <= |Crossed(c.pages, CurPage(g, rq, 0), LastPage(g, rq))| + 1
  {
    DirectRunCost(g, o, refresh, rq, Start(c, buf));
  }

  // ----- the list is in order of last promoting access -----

  function Slots(ps: seq<Page>): (r: seq<nat>)
    ensures |r| == |ps| && forall i :: 0 <= i < |ps| ==> r[i] == ps[i].slot
  {
    seq(|ps|, i requires 0 <= i < |ps| => ps[i].slot)
  }

  ghost predicate NoRepeats(s: seq<nat>) {
    forall i, j :: 0 <= i < j < |s| ==> s[i] != s[j]
  }

  function IndexOf(s: seq<nat>, x: nat): (k: nat)
    requires x in s
    ensures k < |s| && s[k] == x
  {
    if s[0] == x then 0 else 1 + IndexOf(s[1..], x)
  }

  lemma IndexIs(s: seq<nat>, k: nat)
    requires NoRepeats(s) && k < |s|
    ensures IndexOf(s, s[k]) == k
  {
    var j := IndexOf(s, s[k]);
    assert s[j] == s[k];
  }

  function MoveToFront(s: seq<nat>, x: nat): (r: seq<nat>)
    requires x in s
    ensures |r| == |s|
  {
    Touch(s, IndexOf(s, x))
  }

  lemma TouchNoRepeats(s: seq<nat>, k: nat)
    requires NoRepeats(s) && k < |s|
    ensures NoRepeats(Touch(s, k)) && forall x :: x in Touch(s, k) ==> x in s
  {
    var r := Touch(s, k);
    assert forall i :: 0 <= i < |s| ==> r[i] == if i == 0 then s[k] else if i <= k then s[i - 1] else s[i];
  }

  lemma MoveToFrontOrder(s: seq<nat>, u: nat)
    requires NoRepeats(s) && u in s
    ensures var r := MoveToFront(s, u);
      && NoRepeats(r)
      && (forall x :: x in r <==> x in s)
      && (forall x, y :: x in s && y in s && x != y ==>
            (IndexOf(r, x) < IndexOf(r, y) <==> x == u || (y != u && IndexOf(s, x) < IndexOf(s, y))))
  {
    var k := IndexOf(s, u);
    var r := MoveToFront(s, u);
    TouchNoRepeats(s, k);
    forall x | x in s
      ensures x in r && IndexOf(r, x) == Place(true, k, IndexOf(s, x))
    {
      PlacedAt(s, k, x);
    }
    IndexIs(s, k);
  }

  lemma PlacedAt(s: seq<nat>, k: nat, x: nat)
    requires k < |s| && x in s && NoRepeats(Touch(s, k))
    ensures x in Touch(s, k) && IndexOf(Touch(s, k), x) == Place(true, k, IndexOf(s, x))
  {
    var j := IndexOf(s, x);
    assert Touch(s, k)[Place(true, k, j)] == s[j];
    IndexIs(Touch(s, k), Place(true, k, j));
  }

  /** The list after promoting each of `us` in turn. */
  function PromoteAll(s: seq<nat>, us: seq<nat>): (r: seq<nat>)
    ensures |r| == |s|
    decreases |us|
  {
    if us == [] then s
    else
      var r := PromoteAll(s, us[..|us| - 1]);
      var u := us[|us| - 1];
      if u in r then MoveToFront(r, u) else r
  }

  /** When x was last promoted; -1 if never. */
  function LastUse(us: seq<nat>, x: nat): (t: int)
    ensures -1 <= t < |us|
    decreases |us|
  {
    if us == [] then -1
    else if us[|us| - 1] == x then |us| - 1
    else LastUse(us[..|us| - 1], x)
  }

  /** Splicing entries to the front one by one keeps the list sorted by last use,
      unused entries behind in their first order. */
  lemma {:induction false} OrderIsLastUse(s: seq<nat>, us: seq<nat>, x: nat, y: nat)
    requires NoRepeats(s) && x in s && y in s && x != y
    ensures var r := PromoteAll(s, us);
      && NoRepeats(r) && x in r && y in r
      && (IndexOf(r, x) < IndexOf(r, y) <==>
            LastUse(us, x) > LastUse(us, y) || (LastUse(us, x) == LastUse(us, y) && IndexOf(s, x) < IndexOf(s, y)))
    decreases |us|
  {
    if us != [] {
      var vs, u := us[..|us| - 1], us[|us| - 1];
      OrderIsLastUse(s, vs, x, y);
      var r := PromoteAll(s, vs);
      if u in r {
        MoveToFrontOrder(r, u);
      }
      LastUsesDiffer(vs, x, y);
    }
  }

  lemma {:induction false} LastUsesDiffer(us: seq<nat>, x: nat, y: nat)
    requires x != y
    ensures LastUse(us, x) == LastUse(us, y) ==> LastUse(us, x) == -1
    decreases |us|
  {
    if us != [] {
      LastUsesDiffer(us[..|us| - 1], x, y);
    }
  }

  lemma {:induction false} PromoteConcat(s: seq<nat>, us: seq<nat>, vs: seq<nat>)
    ensures PromoteAll(s, us + vs) == PromoteAll(PromoteAll(s, us), vs)
    decreases |vs|
  {
    if vs == [] {
      assert us + vs == us;
    } else {
      var ws := vs[..|vs| - 1];
      assert (us + vs)[..|us + vs| - 1] == us + ws;
      PromoteConcat(s, us, ws);
    }
  }

  /** Slots promoted by a run, in order. */
  ghost function Uses(g: Geo, o: Oracle, refresh: bool, rq: Req, l: Loop): seq<nat>
    requires Ready(g, rq, l)
    decreases rq.num - l.done
  {
    if l.done == rq.num then []
    else
      var r := Step(g, o, refresh, rq, l);
      if r.Stop? then []
      else (if Promotes(g, rq, l) then [l.c.pages[Used(g, rq, l)].slot] else []) + Uses(g, o, refresh, rq, r.l)
  }

  lemma MovedSlots(ps: seq<Page>, qs: seq<Page>, moved: bool, k: nat)
    requires MovedOnly(ps, qs, moved, k) && NoRepeats(Slots(ps))
    ensures Slots(qs) == if moved then MoveToFront(Slots(ps), ps[k].slot) else Slots(ps)
  {
    var s, t := Slots(ps), Slots(qs);
    IndexIs(s, k);
    assert forall j :: 0 <= j < |s| ==> t[Place(moved, k, j)] == s[j];
    if moved {
      SamePlaces(s, t, Touch(s, k), k);
    } else {
      assert forall j :: 0 <= j < |s| ==> Place(false, k, j) == j;
    }
  }

  lemma SamePlaces(s: seq<nat>, t: seq<nat>, r: seq<nat>, k: nat)
    requires |t| == |r| == |s| && k < |s|
    requires forall j :: 0 <= j < |s| ==> t[Place(true, k, j)] == s[j]
    requires r == Touch(s, k)
    ensures t == r
  {
    forall i | 0 <= i < |s|
      ensures t[i] == r[i]
    {
      var j := if i == 0 then k else if i <= k then i - 1 else i;
      assert Place(true, k, j) == i;
    }
  }

  lemma {:induction false} RunPromotes(g: Geo, o: Oracle, refresh: bool, rq: Req, l: Loop)
    requires Ready(g, rq, l) && NoRepeats(Slots(l.c.pages))
    ensures Slots(Run(g, o, refresh, rq, l).c.pages) == PromoteAll(Slots(l.c.pages), Uses(g, o, refresh, rq, l))
    decreases rq.num - l.done
  {
    if l.done < rq.num {
      StepPromotes(g, o, refresh, rq, l);
      var r := Step(g, o, refresh, rq, l);
      if r.More? {
        RunPromotes(g, o, refresh, rq, r.l);
        var u := if Promotes(g, rq, l) then [l.c.pages[Used(g, rq, l)].slot] else [];
        PromoteConcat(Slots(l.c.pages), u, Uses(g, o, refresh, rq, r.l));
      }
    }
  }

  lemma StepPromotes(g: Geo, o: Oracle, refresh: bool, rq: Req, l: Loop)
    requires Ready(g, rq, l) && l.done < rq.num && NoRepeats(Slots(l.c.pages))
    ensures var r := Step(g, o, refresh, rq, l);
      var u := if r.More? && Promotes(g, rq, l) then [l.c.pages[Used(g, rq, l)].slot] else [];
      Slots(ListAfter(r)) == PromoteAll(Slots(l.c.pages), u) && NoRepeats(Slots(ListAfter(r)))
  {
    var r := Step(g, o, refresh, rq, l);
    StepMoves(g, o, refresh, rq, l);
    if !Bypasses(g, rq, l) {
      var k := Used(g, rq, l);
      var moved := r.More? && Promotes(g, rq, l);
      MovedSlots(l.c.pages, ListAfter(r), moved, k);
      if moved {
        MoveToFrontOrder(Slots(l.c.pages), l.c.pages[k].slot);
        assert PromoteAll(Slots(l.c.pages), [l.c.pages[k].slot][..0]) == Slots(l.c.pages);
      }
    }
  }

  /** Slots promoted along a run of operations. */
  ghost function AllUses(o: Oracle, refresh: bool, g: Geo, c: Cache, ops: seq<Op>): seq<nat>
    requires Inv(g, c) && MayRunAll(o, refresh, g, c, ops)
    decreases |ops|
  {
    if ops == [] then []
    else
      var r := Exec(o, refresh, g, c, ops[0]);
      OpUses(o, refresh, g, c, ops[0]) + AllUses(o, refresh, r.g, r.c, ops[1..])
  }

  ghost function OpUses(o: Oracle, refresh: bool, g: Geo, c: Cache, op: Op): seq<nat>
    requires Inv(g, c) && MayRun(refresh, g, c, op)
  {
    if op.Access? && InBounds(g, op.rq) then Uses(g, o, refresh, op.rq, Start(c, op.buf)) else []
  }

  lemma ExecPromotes(o: Oracle, refresh: bool, g: Geo, c: Cache, op: Op)
    requires Inv(g, c) && MayRun(refresh, g, c, op) && NoRepeats(Slots(c.pages))
    ensures Slots(Exec(o, refresh, g, c, op).c.pages) == PromoteAll(Slots(c.pages), OpUses(o, refresh, g, c, op))
  {
    match op
    case Access(rq, buf) =>
      if InBounds(g, rq) {
        RunPromotes(g, o, refresh, rq, Start(c, buf));
      }
    case FlushAll => FlushKeepsSlots(g, o, c);
    case Narrow(n) =>
  }

  lemma FlushKeepsSlots(g: Geo, o: Oracle, c: Cache)
    requires Inv(g, c)
    ensures Slots(Flush(g, o, c).0.pages) == Slots(c.pages)
  {
    FlushFromKeeps(g, o, c, 0);
  }

  lemma {:induction false} PromotedNoRepeats(s: seq<nat>, us: seq<nat>)
    requires NoRepeats(s)
    ensures NoRepeats(PromoteAll(s, us)) && forall x :: x in PromoteAll(s, us) <==> x in s
    decreases |us|
  {
    if us != [] {
      PromotedNoRepeats(s, us[..|us| - 1]);
      if us[|us| - 1] in s {
        MoveToFrontOrder(PromoteAll(s, us[..|us| - 1]), us[|us| - 1]);
      }
    }
  }

  /** After any run the list is the initial one with the promoting accesses applied,
      and flushes, size changes and whole-page accesses leave it alone. */
  lemma {:induction false} ListFollowsUses(o: Oracle, refresh: bool, e: End, ops: seq<Op>)
    requires Inv(e.g, e.c) && MayRunAll(o, refresh, e.g, e.c, ops) && NoRepeats(Slots(e.c.pages))
    ensures Slots(Finish(o, refresh, e, ops).c.pages) ==
      PromoteAll(Slots(e.c.pages), AllUses(o, refresh, e.g, e.c, ops))
    decreases |ops|
  {
    if ops != [] {
      var r := Exec(o, refresh, e.g, e.c, ops[0]);
      var s, us := Slots(e.c.pages), OpUses(o, refresh, e.g, e.c, ops[0]);
      ExecPromotes(o, refresh, e.g, e.c, ops[0]);
      PromotedNoRepeats(s, us);
      ListFollowsUses(o, refresh, End(r.g, r.c, Learn(e.k, ops[0], r)), ops[1..]);
      PromoteConcat(s, us, AllUses(o, refresh, r.g, r.c, ops[1..]));
    }
  }

  /** Least recently used eviction from list ps, when the slots stood as in s at first
      and `us` were promoted since: a free entry is used first, the one nearest the
      front; when none is free, every other entry i was promoted after the victim, or
      neither was ever promoted and i stood ahead at first. */
  ghost predicate EvictsLeastRecent(s: seq<nat>, us: seq<nat>, ps: seq<Page>, i: nat)
    requires i < |ps|
  {
    var v := Victim(ps);
    if ps[v].base == EMPTY then i < v ==> ps[i].base != EMPTY
    else
      && (forall j :: 0 <= j < |ps| ==> ps[j].base != EMPTY)
      && ps[i].slot in s && ps[v].slot in s
      && (|| LastUse(us, ps[i].slot) > LastUse(us, ps[v].slot)
          || (&& LastUse(us, ps[i].slot) == LastUse(us, ps[v].slot) == -1
              && IndexOf(s, ps[i].slot) < IndexOf(s, ps[v].slot)))
  }

  lemma VictimOfPromoted(s: seq<nat>, us: seq<nat>, ps: seq<Page>, i: nat)
    requires NoRepeats(s) && Slots(ps) == PromoteAll(s, us) && EmptySuffix(ps)
    requires i < |ps| && i != Victim(ps)
    ensures EvictsLeastRecent(s, us, ps, i)
  {
    var v := Victim(ps);
    VictimIsFirstFree(ps);
    if ps[v].base != EMPTY {
      assert forall j :: 0 <= j < |ps| ==> ps[j].base != EMPTY;
      AheadIsMoreRecent(s, us, i, v);
      assert Slots(ps)[i] == ps[i].slot && Slots(ps)[v] == ps[v].slot;
    }
  }

  /** Of two slots the one ahead was promoted later, or neither ever was. */
  lemma AheadIsMoreRecent(s: seq<nat>, us: seq<nat>, i: nat, v: nat)
    requires NoRepeats(s) && i < v < |s|
    ensures var r := PromoteAll(s, us);
      && r[i] in s && r[v] in s
      && (|| LastUse(us, r[i]) > LastUse(us, r[v])
          || (LastUse(us, r[i]) == LastUse(us, r[v]) == -1 && IndexOf(s, r[i]) < IndexOf(s, r[v])))
  {
    var r := PromoteAll(s, us);
    PromotedNoRepeats(s, us);
    IndexIs(r, i);
    IndexIs(r, v);
    OrderIsLastUse(s, us, r[i], r[v]);
    LastUsesDiffer(us, r[i], r[v]);
  }

  // ----- inside a request -----

  /** The loop gets through n iterations from l. */
  ghost predicate Reaches(g: Geo, o: Oracle, refresh: bool, rq: Req, l: Loop, n: nat)
    requires Ready(g, rq, l)
    decreases n
  {
    n > 0 ==>
      && l.done < rq.num
      && var r := Step(g, o, refresh, rq, l);
         r.More? && Reaches(g, o, refresh, rq, r.l, n - 1)
  }

  /** Loop state after n iterations, and the slots they promoted. */
  ghost function After(g: Geo, o: Oracle, refresh: bool, rq: Req, l: Loop, n: nat): (r: (Loop, seq<nat>))
    requires Ready(g, rq, l) && Reaches(g, o, refresh, rq, l, n)
    ensures Ready(g, rq, r.0)
    decreases n
  {
    if n == 0 then (l, [])
    else
      var (l', us) := After(g, o, refresh, rq, Step(g, o, refresh, rq, l).l, n - 1);
      (l', (if Promotes(g, rq, l) then [l.c.pages[Used(g, rq, l)].slot] else []) + us)
  }

  lemma {:induction false} IterationsPromote(g: Geo, o: Oracle, refresh: bool, rq: Req, l: Loop, n: nat)
    requires Ready(g, rq, l) && Reaches(g, o, refresh, rq, l, n) && NoRepeats(Slots(l.c.pages))
    ensures var (l', us) := After(g, o, refresh, rq, l, n);
      Slots(l'.c.pages) == PromoteAll(Slots(l.c.pages), us)
    decreases n
  {
    if n > 0 {
      StepPromotes(g, o, refresh, rq, l);
      var l1 := Step(g, o, refresh, rq, l).l;
      IterationsPromote(g, o, refresh, rq, l1, n - 1);
      var u := if Promotes(g, rq, l) then [l.c.pages[Used(g, rq, l)].slot] else [];
      PromoteConcat(Slots(l.c.pages), u, After(g, o, refresh, rq, l1, n - 1).1);
    }
  }

  /** Main theorem on eviction: after any run of operations and any number of
      iterations of the next request, the entry that a refill would take is an unused
      one or the least recently promoted one, all promotions up to there counted. */
  lemma VictimIsLeastRecent(o: Oracle, refresh: bool, e: End, ops: seq<Op>, rq: Req, buf: seq<Sector>, n: nat, i: nat)
    requires Inv(e.g, e.c) && MayRunAll(o, refresh, e.g, e.c, ops) && NoRepeats(Slots(e.c.pages))
    requires var f := Finish(o, refresh, e, ops);
      && InBounds(f.g, rq) && |buf| >= rq.num
      && Reaches(f.g, o, refresh, rq, Start(f.c, buf), n)
      && var ps := After(f.g, o, refresh, rq, Start(f.c, buf), n).0.c.pages; i < |ps| && i != Victim(ps)
    ensures var f := Finish(o, refresh, e, ops);
      var (l, us) := After(f.g, o, refresh, rq, Start(f.c, buf), n);
      EvictsLeastRecent(Slots(e.c.pages), AllUses(o, refresh, e.g, e.c, ops) + us, l.c.pages, i)
  {
    var f := Finish(o, refresh, e, ops);
    var s, us := Slots(e.c.pages), AllUses(o, refresh, e.g, e.c, ops);
    var (l, vs) := After(f.g, o, refresh, rq, Start(f.c, buf), n);
    ListFollowsUses(o, refresh, e, ops);
    PromotedNoRepeats(s, us);
    IterationsPromote(f.g, o, refresh, rq, Start(f.c, buf), n);
    PromoteConcat(s, us, vs);
    VictimOfPromoted(s, us + vs, l.c.pages, i);
  }
}
