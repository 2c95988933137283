/** Whole requests: when the cached disc is transparent, and when it is not. */
module Requests {
  import opened Pages
  import opened Device
  import opened CacheModel
  import opened CacheInvariant
  import opened Transparency
  import opened StaleSearch

  // ----- which runs never duplicate a page -----

  /** A direct request refills no entry. */
  lemma {:induction false} DirectNeverDuplicates(g: Geo, o: Oracle, refresh: bool, rq: Req, l: Loop)
    requires Ready(g, rq, l) && Direct(g, rq)
    ensures NeverDuplicates(g, o, refresh, rq, l)
    decreases rq.num - l.done
  {
    if l.done < rq.num {
      var r := Step(g, o, refresh, rq, l);
      if r.More? {
        DirectNeverDuplicates(g, o, refresh, rq, r.l);
      }
    }
  }

  function Tags(ps: seq<Page>): (ts: seq<(nat, nat)>)
    ensures |ts| == |ps| && forall i :: 0 <= i < |ps| ==> ts[i] == (ps[i].slot, ps[i].base)
  {
    seq(|ps|, i requires 0 <= i < |ps| => (ps[i].slot, ps[i].base))
  }

  /** Which entry holds which page, wherever it stands in the list. */
  function Holdings(ps: seq<Page>): multiset<(nat, nat)> {
    multiset(Tags(ps))
  }

  ghost predicate SameHoldings(ps: seq<Page>, qs: seq<Page>) {
    Holdings(ps) == Holdings(qs)
  }

  lemma TouchHoldings(ps: seq<Page>, k: nat)
    requires k < |ps|
    ensures SameHoldings(ps, Touch(ps, k))
  {
    var ts := Tags(ps);
    assert Tags(Touch(ps, k)) == [ts[k]] + ts[..k] + ts[k + 1..];
    assert ts == ts[..k] + [ts[k]] + ts[k + 1..];
  }

  lemma HitHoldings(g: Geo, c: Cache, buf: seq<Sector>, k: nat, off: nat, cur: nat, at: nat, write: bool)
    requires Struct(g, c) && k < |c.pages| && c.pages[k].base != EMPTY
    requires cur >= 1 && off + cur <= g.sz && at + cur <= |buf|
    requires c.pages[k].base + off + cur <= |c.disk.sectors|
    ensures SameHoldings(c.pages, Hit(g, c, buf, k, off, cur, at, write).0.pages)
  {
    var ps := if write then c.pages[k := Stored(c.pages[k], off, buf[at..at + cur])] else c.pages;
    assert Tags(ps) == Tags(c.pages);
    TouchHoldings(ps, k);
  }

  /** A direct request refills no entry: every entry holds at the end the page it
      held at the start. */
  lemma {:induction false} DirectRefillsNothing(g: Geo, o: Oracle, refresh: bool, rq: Req, l: Loop)
    requires Ready(g, rq, l) && !rq.partial && rq.num >= g.sz && rq.aligned
    ensures SameHoldings(l.c.pages, Run(g, o, refresh, rq, l).c.pages)
    decreases rq.num - l.done
  {
    if l.done < rq.num {
      DirectStepHoldings(g, o, refresh, rq, l);
      var r := Step(g, o, refresh, rq, l);
      if r.More? {
        DirectRefillsNothing(g, o, refresh, rq, r.l);
      }
    }
  }

  lemma DirectStepHoldings(g: Geo, o: Oracle, refresh: bool, rq: Req, l: Loop)
    requires Ready(g, rq, l) && Direct(g, rq) && l.done < rq.num
    ensures SameHoldings(l.c.pages, CacheAfter(Step(g, o, refresh, rq, l)).pages)
  {
    var (p, sb) := Lookup(g, rq, l.c.pages, l.done, l.p, l.sb);
    if p >= 0 && l.c.pages[p].base == CurPage(g, rq, l.done) {
      LookupAhead(g, rq, l);
      HitStepHoldings(g, rq, l.done, l.c, l.buf, p, sb);
      assert Step(g, o, refresh, rq, l) == More(HitStep(g, rq, l.done, l.c, l.buf, p, sb));
    } else {
      assert CacheAfter(DirectStep(g, o, rq, l, p, sb)).pages == l.c.pages;
    }
  }

  lemma HitStepHoldings(g: Geo, rq: Req, done: nat, c: Cache, buf: seq<Sector>, k: nat, sb: nat)
    requires Struct(g, c) && rq.first + rq.num <= g.n
    requires done < rq.num <= |buf| && k < |c.pages|
    requires c.pages[k].base == CurPage(g, rq, done)
    requires Direct(g, rq) ==> sb == c.pages[k].base + 1
    ensures SameHoldings(c.pages, HitStep(g, rq, done, c, buf, k, sb).c.pages)
  {
    ChunkHitHoldings(g, rq, done, c, buf, k);
  }

  lemma ChunkHitHoldings(g: Geo, rq: Req, done: nat, c: Cache, buf: seq<Sector>, k: nat)
    requires Struct(g, c) && rq.first + rq.num <= g.n
    requires done < rq.num <= |buf| && k < |c.pages|
    requires c.pages[k].base == CurPage(g, rq, done)
    ensures SameHoldings(c.pages, ChunkHit(g, rq, done, c, buf, k).0.pages)
  {
    var off, cur := rq.first + done - CurPage(g, rq, done), CurCount(g, rq, done);
    assert off + cur <= g.sz && c.pages[k].base + off == rq.first + done;
    HitHoldings(g, c, buf, k, off, cur, done, rq.write);
  }

  /** With the search refreshed after every refill it is due at every loop head. */
  lemma {:induction false} RefreshedNeverDuplicates(g: Geo, o: Oracle, rq: Req, l: Loop)
    requires Ready(g, rq, l) && Inv(g, l.c) && !Direct(g, rq)
    requires l.done < rq.num ==> CurPage(g, rq, l.done) >= l.sb
    ensures NeverDuplicates(g, o, true, rq, l)
    decreases rq.num - l.done
  {
    if l.done < rq.num {
      SearchIsNearest(l.c.pages, CurPage(g, rq, l.done));
      StepKeeps(g, o, true, rq, l);
      var r := Step(g, o, true, rq, l);
      if r.More? {
        RefreshedStep(g, o, rq, l);
        RefreshedNeverDuplicates(g, o, rq, r.l);
      }
    }
  }

  lemma RefreshedStep(g: Geo, o: Oracle, rq: Req, l: Loop)
    requires Ready(g, rq, l) && !Direct(g, rq) && l.done < rq.num && CurPage(g, rq, l.done) >= l.sb
    ensures var r := Step(g, o, true, rq, l);
      r.More? && r.l.done < rq.num ==> CurPage(g, rq, r.l.done) >= r.l.sb
  {
    ChunkFacts(g, rq, l.done);
  }

  // ----- the loop as written follows its walk over the list -----

  ghost predicate SameList(ps: seq<Page>, qs: seq<Page>) {
    |ps| == |qs| && forall i :: 0 <= i < |ps| ==> ps[i].base == qs[i].base && ps[i].slot == qs[i].slot
  }

  lemma {:induction false} SameSearch(ps: seq<Page>, qs: seq<Page>, b: nat, i: nat, best: int)
    requires SameList(ps, qs) && i <= |ps| && -1 <= best < |ps|
    ensures SearchFrom(ps, b, i, best) == SearchFrom(qs, b, i, best)
    decreases |ps| - i
  {
    if i == |ps| || ps[i].base == EMPTY || ps[i].base == b {
    } else {
      SameSearch(ps, qs, b, i + 1, if ps[i].base > b && ps[i].base < MinSec(ps, best) then i else best);
    }
  }

  ghost predicate Follows(g: Geo, rq: Req, l: Loop, w: Walk) {
    SameList(l.c.pages, w.ps) && l.done == w.done && l.p == w.p && l.sb == w.sb
  }

  lemma SameLookup(g: Geo, rq: Req, l: Loop, w: Walk)
    requires Follows(g, rq, l, w) && -1 <= l.p < |w.ps| && l.done < rq.num
    ensures Lookup(g, rq, l.c.pages, l.done, l.p, l.sb) == Lookup(g, rq, w.ps, w.done, w.p, w.sb)
  {
    SameSearch(l.c.pages, w.ps, CurPage(g, rq, l.done), 0, -1);
  }

  lemma SameAdvance(g: Geo, rq: Req, done: nat, c: Cache, buf: seq<Sector>, k: nat, sb: nat, ps: seq<Page>)
    requires Struct(g, c) && rq.first + rq.num <= g.n && done < rq.num <= |buf| && k < |c.pages|
    requires c.pages[k].base == CurPage(g, rq, done) && !Direct(g, rq)
    requires SameList(c.pages, ps) && ListOk(g, ps)
    ensures Follows(g, rq, HitStep(g, rq, done, c, buf, k, sb), Advance(g, rq, ps, k, done, sb))
  {
  }

  lemma StepFollows(g: Geo, o: Oracle, rq: Req, l: Loop, w: Walk)
    requires Ready(g, rq, l) && !Direct(g, rq) && l.done < rq.num
    requires WalkOk(g, rq, w) && Follows(g, rq, l, w)
    ensures var r := Step(g, o, false, rq, l); r.More? ==> Follows(g, rq, r.l, WalkStep(g, rq, w))
    ensures NoClash(g, rq, l) == WalkNoClash(g, rq, w)
  {
    var b := CurPage(g, rq, l.done);
    SameLookup(g, rq, l, w);
    var (p, sb) := Lookup(g, rq, l.c.pages, l.done, l.p, l.sb);
    var v := Victim(l.c.pages);
    SameVictim(l.c.pages, w.ps, |w.ps| - 1);
    if p >= 0 && l.c.pages[p].base == b {
      SameAdvance(g, rq, l.done, l.c, l.buf, p, sb, w.ps);
    } else {
      RefillFollows(g, o, rq, l, w);
    }
  }

  lemma RefillFollows(g: Geo, o: Oracle, rq: Req, l: Loop, w: Walk)
    requires Ready(g, rq, l) && !Direct(g, rq) && l.done < rq.num
    requires WalkOk(g, rq, w) && Follows(g, rq, l, w) && !WalkHits(g, rq, w)
    requires Lookup(g, rq, l.c.pages, l.done, l.p, l.sb) == Lookup(g, rq, w.ps, w.done, w.p, w.sb)
    requires Victim(w.ps) == Victim(l.c.pages)
    ensures var r := Step(g, o, false, rq, l); r.More? ==> Follows(g, rq, r.l, WalkStep(g, rq, w))
  {
    var b := CurPage(g, rq, l.done);
    var sb := Lookup(g, rq, l.c.pages, l.done, l.p, l.sb).1;
    var v := Victim(l.c.pages);
    var (c1, flushed) := FlushPage(g, o, l.c, v);
    if flushed {
      FlushKeepsVictim(g, o, l.c, v);
      var (c2, loaded) := Refill(g, o, c1, v, b, !rq.write || !Whole(g, rq, l.done));
      if loaded {
        RefilledOk(g, w.ps, b);
        SameAdvance(g, rq, l.done, c2, l.buf, v, sb, w.ps[v := w.ps[v].(base := b)]);
      }
    }
  }

  lemma {:induction false} SafeWalkSafeRun(g: Geo, o: Oracle, rq: Req, l: Loop, w: Walk)
    requires Ready(g, rq, l) && !Direct(g, rq)
    requires WalkOk(g, rq, w) && Follows(g, rq, l, w)
    ensures WalkNeverDuplicates(g, rq, w) ==> NeverDuplicates(g, o, false, rq, l)
    ensures Run(g, o, false, rq, l).ok && NeverDuplicates(g, o, false, rq, l) ==> WalkNeverDuplicates(g, rq, w)
    decreases rq.num - l.done
  {
    if l.done < rq.num {
      StepFollows(g, o, rq, l, w);
      var r := Step(g, o, false, rq, l);
      if r.More? {
        SafeWalkSafeRun(g, o, rq, r.l, WalkStep(g, rq, w));
      }
    }
  }

  // ----- theorems about one request -----

  /** The request keeps the invariant. Out of bounds it is refused and changes nothing.
      Otherwise it succeeds exactly when the device accepts every operation it is asked
      for, its finished sectors are transferred, only the chunk of a failed direct
      transfer is in doubt, and nothing else changes. */
  ghost predicate Transparent(g: Geo, o: Oracle, c: Cache, rq: Req, buf: seq<Sector>, r: Outcome) {
    && Inv(g, r.c)
    && (!(rq.first < g.n && rq.first + rq.num <= g.n) ==> r == Outcome(false, c, buf, 0, 0))
    && (rq.first < g.n && rq.first + rq.num <= g.n ==>
          && r.finished + r.torn <= rq.num && (r.ok <==> r.finished == rq.num)
          && Logged(o, c, r.c, r.ok) && InDoubt(g, rq, r.c.pages, r.finished, r.torn))
    && Effect(g, rq, c, buf, r.c, r.buf, 0, r.finished, r.finished + r.torn)
  }

  lemma SafeRequest(g: Geo, o: Oracle, refresh: bool, c: Cache, rq: Req, buf: seq<Sector>)
    requires Inv(g, c) && |buf| >= rq.num
    requires InBounds(g, rq) ==> NeverDuplicates(g, o, refresh, rq, Start(c, buf))
    ensures Transparent(g, o, c, rq, buf, ReadWrite(g, o, refresh, c, rq, buf))
  {
    if InBounds(g, rq) {
      RunKeeps(g, o, refresh, rq, Start(c, buf));
      RunLogged(g, o, refresh, rq, Start(c, buf));
    }
  }

  /** Every direct request, loop as written: not marked partial, at least a page long,
      aligned buffer. */
  lemma DirectRequestTransparent(g: Geo, o: Oracle, refresh: bool, c: Cache, rq: Req, buf: seq<Sector>)
    requires Inv(g, c) && |buf| >= rq.num
    requires !rq.partial && rq.num >= g.sz && rq.aligned
    ensures Transparent(g, o, c, rq, buf, ReadWrite(g, o, refresh, c, rq, buf))
  {
    if InBounds(g, rq) {
      DirectNeverDuplicates(g, o, refresh, rq, Start(c, buf));
    }
    SafeRequest(g, o, refresh, c, rq, buf);
  }

  /** Every request, loop with the search refreshed after a refill. */
  lemma RefreshedRequestTransparent(g: Geo, o: Oracle, c: Cache, rq: Req, buf: seq<Sector>)
    requires Inv(g, c) && |buf| >= rq.num
    ensures Transparent(g, o, c, rq, buf, ReadWrite(g, o, true, c, rq, buf))
  {
    if InBounds(g, rq) {
      if Direct(g, rq) {
        DirectNeverDuplicates(g, o, true, rq, Start(c, buf));
      } else {
        RefreshedNeverDuplicates(g, o, rq, Start(c, buf));
      }
    }
    SafeRequest(g, o, true, c, rq, buf);
  }

  /** What a caller must check before handing a request to the loop as written. */
  ghost predicate Permitted(g: Geo, c: Cache, rq: Req) {
    |c.pages| >= 1 && rq.num >= 1 && InBounds(g, rq) && !Direct(g, rq) ==> Guard(g, rq, c.pages)
  }

  lemma InvGivesWalk(g: Geo, c: Cache, rq: Req)
    requires Inv(g, c) && InBounds(g, rq) && !Direct(g, rq)
    ensures WalkOk(g, rq, Begin(c.pages))
  {
  }

  /** Every permitted request, loop as written. */
  lemma PermittedRequestTransparent(g: Geo, o: Oracle, c: Cache, rq: Req, buf: seq<Sector>)
    requires Inv(g, c) && |buf| >= rq.num && Permitted(g, c, rq)
    ensures Transparent(g, o, c, rq, buf, ReadWrite(g, o, false, c, rq, buf))
  {
    if InBounds(g, rq) {
      if Direct(g, rq) {
        DirectNeverDuplicates(g, o, false, rq, Start(c, buf));
      } else if rq.num >= 1 {
        InvGivesWalk(g, c, rq);
        GuardIsExact(g, rq, c.pages);
        SafeWalkSafeRun(g, o, rq, Start(c, buf), Begin(c.pages));
      }
    }
    SafeRequest(g, o, false, c, rq, buf);
  }

  // ----- and no others: the guard is exact -----

  /** The loop as written passes through a state in which two entries hold one page. */
  ghost predicate ReachesDuplicate(g: Geo, o: Oracle, rq: Req, l: Loop)
    requires Ready(g, rq, l)
    decreases rq.num - l.done
  {
    || !Distinct(l.c.pages)
    || (l.done < rq.num
        && var r := Step(g, o, false, rq, l);
           r.More? && ReachesDuplicate(g, o, rq, r.l))
  }

  lemma ClashDuplicates(g: Geo, o: Oracle, rq: Req, l: Loop)
    requires Ready(g, rq, l) && Inv(g, l.c) && l.done < rq.num && !NoClash(g, rq, l)
    ensures var r := Step(g, o, false, rq, l); r.More? ==> !Distinct(r.l.c.pages)
  {
    var r := Step(g, o, false, rq, l);
    if r.More? {
      var b, v := CurPage(g, rq, l.done), Victim(l.c.pages);
      var i :| 0 <= i < |l.c.pages| && i != v && l.c.pages[i].base == b;
      FlushPageKeeps(g, o, l.c, v);
      FlushKeepsVictim(g, o, l.c, v);
      var c1 := FlushPage(g, o, l.c, v).0;
      var c2 := Refill(g, o, c1, v, b, !rq.write || !Whole(g, rq, l.done)).0;
      assert c2.pages[i].base == b == c2.pages[v].base;
      HitKeepsBases(g, rq, l.done, c2, l.buf, v, i);
    }
  }

  /** A hit moves entries but keeps what they hold. */
  lemma HitKeepsBases(g: Geo, rq: Req, done: nat, c: Cache, buf: seq<Sector>, k: nat, i: nat)
    requires Struct(g, c) && rq.first + rq.num <= g.n && done < rq.num <= |buf| && k < |c.pages|
    requires c.pages[k].base == CurPage(g, rq, done) && !Direct(g, rq)
    requires i < |c.pages| && i != k && c.pages[i].base == c.pages[k].base
    ensures forall sb: nat :: !Distinct(HitStep(g, rq, done, c, buf, k, sb).c.pages)
  {
    forall sb: nat
      ensures !Distinct(HitStep(g, rq, done, c, buf, k, sb).c.pages)
    {
      var qs := HitStep(g, rq, done, c, buf, k, sb).c.pages;
      var moved := !Whole(g, rq, done) && k != 0;
      var k' := if moved then 0 else k;
      var i' := if moved && i < k then i + 1 else i;
      assert qs[k'].base == c.pages[k].base && qs[i'].base == c.pages[i].base && i' != k';
    }
  }

  lemma SafeStepInv(g: Geo, o: Oracle, rq: Req, l: Loop)
    requires Ready(g, rq, l) && Inv(g, l.c) && !Direct(g, rq) && l.done < rq.num && NoClash(g, rq, l)
    ensures var r := Step(g, o, false, rq, l); r.More? ==> Inv(g, r.l.c)
  {
    StepKeeps(g, o, false, rq, l);
  }

  lemma {:induction false} SafeHasNoDuplicate(g: Geo, o: Oracle, rq: Req, l: Loop)
    requires Ready(g, rq, l) && Inv(g, l.c) && !Direct(g, rq)
    requires NeverDuplicates(g, o, false, rq, l)
    ensures !ReachesDuplicate(g, o, rq, l)
    decreases rq.num - l.done
  {
    if l.done < rq.num {
      var r := Step(g, o, false, rq, l);
      if r.More? {
        SafeStepInv(g, o, rq, l);
        SafeHasNoDuplicate(g, o, rq, r.l);
      }
    }
  }

  lemma {:induction false} NoDuplicateIsSafe(g: Geo, o: Oracle, rq: Req, l: Loop)
    requires Ready(g, rq, l) && Inv(g, l.c) && !Direct(g, rq)
    requires Run(g, o, false, rq, l).ok && !ReachesDuplicate(g, o, rq, l)
    ensures NeverDuplicates(g, o, false, rq, l)
    decreases rq.num - l.done
  {
    if l.done < rq.num {
      var r := Step(g, o, false, rq, l);
      assert r.More? && !ReachesDuplicate(g, o, rq, r.l);
      if !NoClash(g, rq, l) {
        ClashDuplicates(g, o, rq, l);
      } else {
        SafeStepInv(g, o, rq, l);
        NoDuplicateIsSafe(g, o, rq, r.l);
      }
    }
  }

  /** The loop as written, allocating request: the guard rules out a duplicated
      page whatever the device does, and every request that completes without
      satisfying the guard has duplicated one. */
  lemma DuplicatesUnlessPermitted(g: Geo, o: Oracle, c: Cache, rq: Req, buf: seq<Sector>)
    requires Inv(g, c) && |buf| >= rq.num >= 1 && InBounds(g, rq) && !Direct(g, rq)
    ensures Guard(g, rq, c.pages) ==> !ReachesDuplicate(g, o, rq, Start(c, buf))
    ensures ReadWrite(g, o, false, c, rq, buf).ok ==>
      (Guard(g, rq, c.pages) <==> !ReachesDuplicate(g, o, rq, Start(c, buf)))
  {
    InvGivesWalk(g, c, rq);
    GuardIsExact(g, rq, c.pages);
    SafeWalkSafeRun(g, o, rq, Start(c, buf), Begin(c.pages));
    var l := Start(c, buf);
    if NeverDuplicates(g, o, false, rq, l) {
      SafeHasNoDuplicate(g, o, rq, l);
    } else if ReadWrite(g, o, false, c, rq, buf).ok && !ReachesDuplicate(g, o, rq, l) {
      NoDuplicateIsSafe(g, o, rq, l);
    }
  }

  // ----- a duplicated page is visible -----

  ghost predicate DeviceNeverFails(o: Oracle) {
    forall i: nat :: o(i).ok
  }

  /** Where an iteration leads that transfers one sector x of page b through entry v,
      clean before, the device working. */
  ghost predicate Refilled(rq: Req, l: Loop, l': Loop, b: nat, v: nat) {
    var x := rq.first + l.done;
    && b <= x && |l'.c.pages| == |l.c.pages| && |l'.buf| == |l.buf| && l'.done == l.done + 1 && l'.p == 0
    && l'.c.disk.sectors == l.c.disk.sectors
    && v < |l.c.pages| && l'.c.pages[0].base == b
    && (if rq.write then At(l'.c.pages[0].data, x - b) == At(l.buf, l.done)
        else At(l'.buf, l.done) == At(l.c.disk.sectors, x))
    && (forall i :: 0 <= i < v ==> l'.c.pages[i + 1] == l.c.pages[i])
    && (forall i :: v < i < |l.c.pages| ==> l'.c.pages[i] == l.c.pages[i])
  }

  lemma RefillRun(g: Geo, o: Oracle, rq: Req, l: Loop) returns (l': Loop)
    requires Ready(g, rq, l) && !Direct(g, rq) && l.done < rq.num && DeviceNeverFails(o)
    requires !Whole(g, rq, l.done) && CurCount(g, rq, l.done) == 1
    requires l.c.pages[Victim(l.c.pages)].lo >= l.c.pages[Victim(l.c.pages)].hi
    requires var p := Lookup(g, rq, l.c.pages, l.done, l.p, l.sb).0;
      !(p >= 0 && l.c.pages[p].base == CurPage(g, rq, l.done))
    ensures Ready(g, rq, l') && Run(g, o, false, rq, l) == Run(g, o, false, rq, l')
    ensures Refilled(rq, l, l', CurPage(g, rq, l.done), Victim(l.c.pages))
    ensures l'.sb == Lookup(g, rq, l.c.pages, l.done, l.p, l.sb).1
  {
    var b, v := CurPage(g, rq, l.done), Victim(l.c.pages);
    var c2 := Refill(g, o, l.c, v, b, true).0;
    l' := HitStep(g, rq, l.done, c2, l.buf, v, Lookup(g, rq, l.c.pages, l.done, l.p, l.sb).1);
    RefillStep(g, o, rq, l, l');
    RefilledBy(g, o, l.c, v, b);
    OneSectorFills(g, rq, l, l', c2, b, v);
  }

  lemma OneSectorFills(g: Geo, rq: Req, l: Loop, l': Loop, c2: Cache, b: nat, v: nat)
    requires Ready(g, rq, l) && !Direct(g, rq) && l.done < rq.num && CurCount(g, rq, l.done) == 1 && g.sz >= 2
    requires b == CurPage(g, rq, l.done) && Struct(g, c2) && v < |l.c.pages| == |c2.pages|
    requires c2.disk.sectors == l.c.disk.sectors && c2.pages == l.c.pages[v := c2.pages[v]] && c2.pages[v].base == b
    requires At(c2.pages[v].data, rq.first + l.done - b) == At(l.c.disk.sectors, rq.first + l.done)
    requires (l'.c, l'.buf, l'.p) == Hit(g, c2, l.buf, v, rq.first + l.done - b, 1, l.done, rq.write)
    requires l'.done == l.done + 1
    ensures Refilled(rq, l, l', b, v)
  {
    OneSectorHit(c2, l.buf, v, rq.first + l.done - b, l.done, rq.write, g);
    MovedIsRefilled(rq, l, l', c2, b, v);
  }

  lemma RefillStep(g: Geo, o: Oracle, rq: Req, l: Loop, l': Loop)
    requires Ready(g, rq, l) && !Direct(g, rq) && l.done < rq.num && DeviceNeverFails(o)
    requires !Whole(g, rq, l.done)
    requires l.c.pages[Victim(l.c.pages)].lo >= l.c.pages[Victim(l.c.pages)].hi
    requires var p := Lookup(g, rq, l.c.pages, l.done, l.p, l.sb).0;
      !(p >= 0 && l.c.pages[p].base == CurPage(g, rq, l.done))
    requires var v := Victim(l.c.pages);
      var c2 := Refill(g, o, l.c, v, CurPage(g, rq, l.done), true).0;
      c2.pages[v].base == CurPage(g, rq, l.done) ==>
        l' == HitStep(g, rq, l.done, c2, l.buf, v, Lookup(g, rq, l.c.pages, l.done, l.p, l.sb).1)
    ensures Step(g, o, false, rq, l) == More(l')
  {
    FlushKeepsVictim(g, o, l.c, Victim(l.c.pages));
  }

  /** A working device fills the victim with page b and changes nothing else. */
  lemma RefilledBy(g: Geo, o: Oracle, c: Cache, v: nat, b: nat)
    requires Struct(g, c) && v < |c.pages| && c.pages[v].lo >= c.pages[v].hi && v == Victim(c.pages)
    requires Aligned(g.sz, b) && b < g.n && DeviceNeverFails(o)
    ensures var c2 := Refill(g, o, c, v, b, true).0;
      && c2.disk.sectors == c.disk.sectors && c2.pages == c.pages[v := c2.pages[v]] && c2.pages[v].base == b
      && forall x :: b <= x < b + g.sz && x < g.n ==> At(c2.pages[v].data, x - b) == At(c.disk.sectors, x)
  {
    var cnt := if g.sz < g.n - b then g.sz else g.n - b;
    BlitIndex(c.pages[v].data, 0, DiskRead(o, c.disk, b, cnt).1);
  }

  lemma MovedIsRefilled(rq: Req, l: Loop, l': Loop, c2: Cache, b: nat, v: nat)
    requires b <= rq.first + l.done && v < |l.c.pages| && l'.done == l.done + 1 && l'.p == 0 && |l'.buf| == |l.buf|
    requires c2.disk.sectors == l.c.disk.sectors == l'.c.disk.sectors
    requires |l'.c.pages| == |c2.pages| == |l.c.pages| && c2.pages == l.c.pages[v := c2.pages[v]]
    requires l'.c.pages[0].base == c2.pages[v].base == b
    requires forall i :: 0 <= i < v ==> l'.c.pages[i + 1] == c2.pages[i]
    requires forall i :: v < i < |c2.pages| ==> l'.c.pages[i] == c2.pages[i]
    requires var x := rq.first + l.done;
      && At(c2.pages[v].data, x - b) == At(l.c.disk.sectors, x)
      && if rq.write then At(l'.c.pages[0].data, x - b) == At(l.buf, l.done)
         else At(l'.buf, l.done) == At(c2.pages[v].data, x - b)
    ensures Refilled(rq, l, l', b, v)
  {
    assert forall i :: 0 <= i < |c2.pages| && i != v ==> c2.pages[i] == l.c.pages[i];
  }

  lemma OneSectorHit(c: Cache, buf: seq<Sector>, k: nat, off: nat, at: nat, write: bool, g: Geo)
    requires Struct(g, c) && k < |c.pages| && c.pages[k].base != EMPTY && g.sz >= 2
    requires off + 1 <= g.sz && at + 1 <= |buf|
    requires c.pages[k].base + off + 1 <= |c.disk.sectors|
    ensures var (c', buf', k') := Hit(g, c, buf, k, off, 1, at, write);
      && k' == 0 && c'.disk == c.disk && c'.pages[0].base == c.pages[k].base
      && (if write then At(c'.pages[0].data, off) == At(buf, at) else At(buf', at) == At(c.pages[k].data, off))
      && (forall i :: 0 <= i < k ==> c'.pages[i + 1] == c.pages[i])
      && (forall i :: k < i < |c.pages| ==> c'.pages[i] == c.pages[i])
  {
    if write {
      BlitIndex(c.pages[k].data, off, buf[at..at + 1]);
    } else {
      BlitIndex(buf, at, c.pages[k].data[off..off + 1]);
    }
  }

  /** An unused cache of at least three entries. */
  ghost predicate Unused(g: Geo, c: Cache) {
    Struct(g, c) && |c.pages| >= 3 && NoneInUse(c.pages)
  }

  lemma FirstFree(ps: seq<Page>, k: nat)
    requires k < |ps| && EmptySuffix(ps)
    requires (forall i :: 0 <= i < k ==> ps[i].base != EMPTY) && ps[k].base == EMPTY
    ensures Victim(ps) == k
  {
    VictimIsFirstFree(ps);
    assert ps[|ps| - 1].base == EMPTY;
  }

  /** One sector left, in page b of two sectors or more: a partial chunk. */
  lemma OneSectorLeft(g: Geo, rq: Req, done: nat, b: nat)
    requires done + 1 == rq.num && g.sz >= 2 && Aligned(g.sz, b) && b <= rq.first + done < b + g.sz
    ensures CurPage(g, rq, done) == b && CurCount(g, rq, done) == 1 && !Whole(g, rq, done)
  {
    PageOfUnique(g.sz, rq.first + done, b);
  }

  /** Writing one sector at the start of page b into an unused cache. */
  lemma FirstWrite(g: Geo, o: Oracle, c: Cache, rq: Req, buf: seq<Sector>)
    requires Unused(g, c) && DeviceNeverFails(o) && g.sz >= 2 && |buf| == 1
    requires rq.num == 1 && rq.write && Aligned(g.sz, rq.first) && rq.first < g.n
    ensures var r := ReadWrite(g, o, false, c, rq, buf);
      && r.ok && r.c.disk.sectors == c.disk.sectors && |r.c.pages| == |c.pages|
      && r.c.pages[0].base == rq.first && View(g, r.c, rq.first) == buf[0]
      && forall i :: 0 < i < |r.c.pages| ==> r.c.pages[i] == c.pages[i]
  {
    var l := Start(c, buf);
    OneSectorLeft(g, rq, 0, rq.first);
    SearchIsNearest(c.pages, rq.first);
    FirstFree(c.pages, 0);
    var l' := RefillRun(g, o, rq, l);
    PageOfUnique(g.sz, rq.first, rq.first);
  }

  /** Reading the sector before and the sector just written: the second chunk skips
      the search and loads the page again. */
  lemma SecondRead(g: Geo, o: Oracle, w: Cache, rq: Req, a: nat, buf: seq<Sector>)
    requires Struct(g, w) && |w.pages| >= 3 && DeviceNeverFails(o) && g.sz >= 3 && |buf| == 2
    requires rq.num == 2 && !rq.write && Aligned(g.sz, a) && rq.first == a + g.sz - 1 && rq.first + 2 <= g.n
    requires w.pages[0].base == a + g.sz && forall i :: 0 < i < |w.pages| ==> w.pages[i].base == EMPTY
    ensures var r := ReadWrite(g, o, false, w, rq, buf); r.ok && r.buf[1] == w.disk.sectors[a + g.sz]
  {
    var l := Start(w, buf);
    PageOfUnique(g.sz, rq.first, a);
    SearchIsNearest(w.pages, a);
    FirstFree(w.pages, 1);
    var l1 := RefillRun(g, o, rq, l);
    assert l1.c.pages[1] == w.pages[0] && l1.c.pages[2] == w.pages[2];
    SecondChunk(g, o, rq, a, l1);
  }

  lemma SecondChunk(g: Geo, o: Oracle, rq: Req, a: nat, l: Loop)
    requires Ready(g, rq, l) && |l.c.pages| >= 3 && DeviceNeverFails(o) && g.sz >= 3 && |l.buf| == 2
    requires rq.num == 2 && !rq.write && Aligned(g.sz, a) && rq.first == a + g.sz - 1
    requires l.done == 1 && l.p == 0 && l.c.pages[0].base == a && l.sb == a + g.sz + 1
    requires l.c.pages[1].base != EMPTY && l.c.pages[2].base == EMPTY
    ensures var r := Run(g, o, false, rq, l); r.ok && r.buf[1] == l.c.disk.sectors[a + g.sz]
  {
    AlignedNext(g.sz, a);
    OneSectorLeft(g, rq, 1, a + g.sz);
    FirstFree(l.c.pages, 2);
    var l2 := RefillRun(g, o, rq, l);
  }

  /** The failing family is visible to a caller: for every page size of three or
      more, every disc and every page start b but the first, write sector b through
      an unused cache, then read sectors b-1 and b. No transfer fails, the write is
      acknowledged and the view holds it, yet the loop as written returns what the
      device held before. */
  lemma StaleRead(g: Geo, o: Oracle, c: Cache, a: nat, new': seq<Sector>, buf: seq<Sector>)
    requires Unused(g, c) && DeviceNeverFails(o) && g.sz >= 3 && |new'| == 1 && |buf| == 2
    requires Aligned(g.sz, a) && a + g.sz < g.n
    ensures var b := a + g.sz;
      var w := ReadWrite(g, o, false, c, Req(b, 1, false, true, true), new');
      var r := ReadWrite(g, o, false, w.c, Req(b - 1, 2, false, true, false), buf);
      && w.ok && View(g, w.c, b) == new'[0]
      && r.ok && r.buf[1] == c.disk.sectors[b]
  {
    AlignedNext(g.sz, a);
    var wq, rq := Req(a + g.sz, 1, false, true, true), Req(a + g.sz - 1, 2, false, true, false);
    FirstWrite(g, o, c, wq, new');
    SecondRead(g, o, ReadWrite(g, o, false, c, wq, new').c, rq, a, buf);
  }
}
