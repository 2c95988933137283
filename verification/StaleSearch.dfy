/** When does the loop as written give one page to two entries? Its remembered
    search result can be stale after an allocating miss: search_base still points
    behind the old successor. Only which entry holds which page matters for this,
    so the question is answered on the recency list alone; the answer, a condition
    on the list and the request, is exact. */
module StaleSearch {
  import opened Pages
  import opened CacheModel
  import opened CacheInvariant

  // ----- the loop seen through the recency list -----

  /** Loop head of an allocating request: the list, and the loop's own variables. */
  datatype Walk = Walk(ps: seq<Page>, done: nat, p: int, sb: nat)

  ghost predicate ListOk(g: Geo, ps: seq<Page>) {
    && |ps| >= 1
    && EmptySuffix(ps)
    && forall i :: 0 <= i < |ps| ==> ps[i].base <= EMPTY && (ps[i].base != EMPTY ==> Aligned(g.sz, ps[i].base))
  }

  ghost predicate WalkOk(g: Geo, rq: Req, w: Walk) {
    && ListOk(g, w.ps) && !Direct(g, rq)
    && rq.first + rq.num <= g.n <= EMPTY
    && w.done <= rq.num && -1 <= w.p < |w.ps|
  }

  lemma RefilledOk(g: Geo, ps: seq<Page>, b: nat)
    requires ListOk(g, ps) && Aligned(g.sz, b) && b < EMPTY
    ensures ListOk(g, ps[Victim(ps) := ps[Victim(ps)].(base := b)])
  {
    VictimIsFirstFree(ps);
  }

  lemma TouchedOk(g: Geo, ps: seq<Page>, k: nat)
    requires ListOk(g, ps) && k < |ps| && ps[k].base != EMPTY
    ensures ListOk(g, Touch(ps, k))
  {
    var qs := Touch(ps, k);
    assert forall i :: 0 <= i <= k ==> ps[i].base != EMPTY;
    assert forall i :: 0 <= i <= k ==> qs[i].base != EMPTY;
  }

  function Advance(g: Geo, rq: Req, ps: seq<Page>, k: nat, done: nat, sb: nat): (w: Walk)
    requires done < rq.num && k < |ps|
    requires ListOk(g, ps) && ps[k].base != EMPTY
    ensures ListOk(g, w.ps) && |w.ps| == |ps| && -1 <= w.p < |w.ps| && done < w.done <= rq.num
  {
    TouchedOk(g, ps, k);
    var done' := done + CurCount(g, rq, done);
    if !Whole(g, rq, done) && k != 0 then Walk(Touch(ps, k), done', 0, sb) else Walk(ps, done', k, sb)
  }

  /** One iteration of the loop as written when the device does not fail. */
  function WalkStep(g: Geo, rq: Req, w: Walk): (w': Walk)
    requires WalkOk(g, rq, w) && w.done < rq.num
    ensures WalkOk(g, rq, w') && w.done < w'.done
  {
    var b := CurPage(g, rq, w.done);
    var (p, sb) := Lookup(g, rq, w.ps, w.done, w.p, w.sb);
    if p >= 0 && w.ps[p].base == b then Advance(g, rq, w.ps, p, w.done, sb)
    else
      var v := Victim(w.ps);
      RefilledOk(g, w.ps, b);
      Advance(g, rq, w.ps[v := w.ps[v].(base := b)], v, w.done, sb)
  }

  ghost predicate WalkHits(g: Geo, rq: Req, w: Walk)
    requires WalkOk(g, rq, w) && w.done < rq.num
  {
    var p := Lookup(g, rq, w.ps, w.done, w.p, w.sb).0;
    p >= 0 && w.ps[p].base == CurPage(g, rq, w.done)
  }

  ghost predicate WalkNoClash(g: Geo, rq: Req, w: Walk)
    requires WalkOk(g, rq, w) && w.done < rq.num
  {
    || WalkHits(g, rq, w)
    || forall i :: 0 <= i < |w.ps| && i != Victim(w.ps) ==> w.ps[i].base != CurPage(g, rq, w.done)
  }

  ghost predicate WalkNeverDuplicates(g: Geo, rq: Req, w: Walk)
    requires WalkOk(g, rq, w)
    decreases rq.num - w.done
  {
    w.done < rq.num ==> WalkNoClash(g, rq, w) && WalkNeverDuplicates(g, rq, WalkStep(g, rq, w))
  }

  lemma NeverDuplicatesStep(g: Geo, rq: Req, w: Walk)
    requires WalkOk(g, rq, w) && w.done < rq.num && WalkNoClash(g, rq, w)
    ensures WalkNeverDuplicates(g, rq, w) <==> WalkNeverDuplicates(g, rq, WalkStep(g, rq, w))
  {
  }

  // ----- resident pages -----

  ghost function Resident(ps: seq<Page>): set<nat> {
    set i | 0 <= i < |ps| && ps[i].base != EMPTY :: ps[i].base
  }

  lemma ResidentTouch(ps: seq<Page>, k: nat)
    requires k < |ps|
    ensures Resident(Touch(ps, k)) == Resident(ps)
  {
    var qs := Touch(ps, k);
    forall i | 0 <= i < |ps|
      ensures ps[i] in qs
    {
      var j := if i == k then 0 else if i < k then i + 1 else i;
      assert qs[j] == ps[i];
    }
  }

  lemma ResidentRefill(ps: seq<Page>, v: nat, b: nat)
    requires v < |ps| && Distinct(ps) && b != EMPTY
    ensures Resident(ps[v := ps[v].(base := b)]) == Resident(ps) - {ps[v].base} + {b}
  {
    var qs := ps[v := ps[v].(base := b)];
    assert qs[v].base == b;
    forall x | x in Resident(ps) - {ps[v].base}
      ensures x in Resident(qs)
    {
      var i :| 0 <= i < |ps| && ps[i].base == x;
      assert qs[i].base == x;
    }
  }

  /** The pages of R form a prefix of the pages from a to last. */
  ghost predicate PrefixFrom(g: Geo, R: set<nat>, a: nat, last: nat) {
    forall x, y :: a <= x < y <= last && Aligned(g.sz, x) && y in R ==> x in R
  }

  // ----- chunks and pages of a request -----

  /** Last page the request touches. */
  function LastPage(g: Geo, rq: Req): nat
    requires rq.num >= 1
  {
    PageOf(g.sz, rq.first + rq.num - 1)
  }

  lemma ChunkFacts(g: Geo, rq: Req, done: nat)
    requires done < rq.num
    ensures var b, cur, last := CurPage(g, rq, done), CurCount(g, rq, done), LastPage(g, rq);
      && b <= last
      && (b == last ==> done + cur == rq.num)
      && (b < last ==> done + cur < rq.num && CurPage(g, rq, done + cur) == b + g.sz <= last
                       && rq.first + done + cur == b + g.sz)
      && (b < last && rq.first + done == b ==> Whole(g, rq, done))
  {
    var b, cur, last := CurPage(g, rq, done), CurCount(g, rq, done), LastPage(g, rq);
    var z := rq.first + rq.num - 1;
    if last < b {
      AlignedGap(g.sz, last, b);
    } else if b < last {
      AlignedGap(g.sz, b, last);
      AlignedNext(g.sz, b);
      PageOfUnique(g.sz, b + g.sz, b + g.sz);
    }
  }

  // ----- what one iteration does to the list -----

  lemma MissStep(g: Geo, rq: Req, w: Walk)
    requires WalkOk(g, rq, w) && w.done < rq.num && Distinct(w.ps) && !WalkHits(g, rq, w)
    ensures var w' := WalkStep(g, rq, w);
      var b, v := CurPage(g, rq, w.done), Victim(w.ps);
      && Resident(w'.ps) == Resident(w.ps) - {w.ps[v].base} + {b}
      && w'.done == w.done + CurCount(g, rq, w.done)
      && w'.sb == Lookup(g, rq, w.ps, w.done, w.p, w.sb).1
      && 0 <= w'.p && w'.ps[w'.p].base == b
      && (Whole(g, rq, w.done) ==> w'.ps == w.ps[v := w.ps[v].(base := b)])
      && (WalkNoClash(g, rq, w) ==> Distinct(w'.ps))
  {
    var b, v := CurPage(g, rq, w.done), Victim(w.ps);
    var qs := w.ps[v := w.ps[v].(base := b)];
    ResidentRefill(w.ps, v, b);
    ResidentTouch(qs, v);
    if WalkNoClash(g, rq, w) {
      assert Distinct(qs);
      DistinctTouch(qs, v);
    }
  }

  lemma HitWalkStep(g: Geo, rq: Req, w: Walk)
    requires WalkOk(g, rq, w) && w.done < rq.num && Distinct(w.ps) && WalkHits(g, rq, w)
    ensures var w' := WalkStep(g, rq, w);
      && Resident(w'.ps) == Resident(w.ps)
      && w'.done == w.done + CurCount(g, rq, w.done)
      && w'.sb == Lookup(g, rq, w.ps, w.done, w.p, w.sb).1
      && (Whole(g, rq, w.done) ==> w'.ps == w.ps)
      && Distinct(w'.ps)
      && CurPage(g, rq, w.done) in Resident(w.ps)
  {
    var p := Lookup(g, rq, w.ps, w.done, w.p, w.sb).0;
    ResidentTouch(w.ps, p);
    DistinctTouch(w.ps, p);
  }

  lemma DistinctTouch(ps: seq<Page>, k: nat)
    requires Distinct(ps) && k < |ps|
    ensures Distinct(Touch(ps, k))
  {
    var qs := Touch(ps, k);
    assert forall i :: 0 <= i < |ps| ==> qs[i] == if i == 0 then ps[k] else if i <= k then ps[i - 1] else ps[i];
  }

  /** The search at the loop head is due. */
  ghost predicate Fresh(g: Geo, rq: Req, w: Walk) {
    w.done < rq.num ==> CurPage(g, rq, w.done) >= w.sb
  }

  /** What a due search says about the resident pages. */
  lemma FreshLookup(g: Geo, rq: Req, w: Walk)
    requires WalkOk(g, rq, w) && w.done < rq.num && Fresh(g, rq, w)
    ensures var b := CurPage(g, rq, w.done);
      var (p, sb) := Lookup(g, rq, w.ps, w.done, w.p, w.sb);
      && (WalkHits(g, rq, w) <==> b in Resident(w.ps))
      && (WalkHits(g, rq, w) ==> sb == b + 1)
      && (p < 0 ==> sb == EMPTY && forall y :: y in Resident(w.ps) ==> y < b)
      && (p >= 0 ==>
            && sb - 1 in Resident(w.ps) && b <= sb - 1
            && forall y :: y in Resident(w.ps) && b <= y ==> sb - 1 <= y)
  {
    SearchIsNearest(w.ps, CurPage(g, rq, w.done));
  }

  /** No page the request has yet to touch is resident. */
  ghost predicate Clear(g: Geo, rq: Req, w: Walk)
    requires w.done <= rq.num
  {
    w.done < rq.num ==> forall y :: CurPage(g, rq, w.done) <= y <= LastPage(g, rq) ==> y !in Resident(w.ps)
  }

  lemma HitIsResident(g: Geo, rq: Req, w: Walk)
    requires WalkOk(g, rq, w) && w.done < rq.num && WalkHits(g, rq, w)
    ensures CurPage(g, rq, w.done) in Resident(w.ps)
  {
  }

  lemma {:induction false} ClearIsSafe(g: Geo, rq: Req, w: Walk)
    requires WalkOk(g, rq, w) && Distinct(w.ps) && Clear(g, rq, w)
    ensures WalkNeverDuplicates(g, rq, w)
    decreases rq.num - w.done
  {
    if w.done < rq.num {
      ChunkFacts(g, rq, w.done);
      if WalkHits(g, rq, w) {
        HitIsResident(g, rq, w);
      }
      MissStep(g, rq, w);
      assert WalkNoClash(g, rq, w) by {
        assert CurPage(g, rq, w.done) !in Resident(w.ps);
      }
      ClearIsSafe(g, rq, WalkStep(g, rq, w));
    }
  }

  /** When the resident pages form a prefix of the pages still to be touched, no
      page is duplicated. */
  lemma {:induction false} PrefixIsSafe(g: Geo, rq: Req, w: Walk)
    requires WalkOk(g, rq, w) && Distinct(w.ps) && Fresh(g, rq, w)
    requires w.done < rq.num ==> PrefixFrom(g, Resident(w.ps), CurPage(g, rq, w.done), LastPage(g, rq))
    ensures WalkNeverDuplicates(g, rq, w)
    decreases rq.num - w.done
  {
    if w.done < rq.num {
      ChunkFacts(g, rq, w.done);
      FreshLookup(g, rq, w);
      if WalkHits(g, rq, w) {
        HitWalkStep(g, rq, w);
        PrefixIsSafe(g, rq, WalkStep(g, rq, w));
      } else {
        ClearIsSafe(g, rq, w);
      }
    }
  }

  // ----- once the victim is no page of the rest of the request -----

  /** The chunk starts on a page boundary, and the entry the next refill takes is
      unused or holds a page already passed. */
  ghost predicate Settled(g: Geo, rq: Req, w: Walk)
    requires WalkOk(g, rq, w) && w.done < rq.num
  {
    var b := CurPage(g, rq, w.done);
    var e := w.ps[Victim(w.ps)].base;
    rq.first + w.done == b && (e == EMPTY || e < b)
  }

  /** After a refill in place the victim stays harmless: it is unused or it is the
      entry just filled. */
  lemma VictimAfterRefill(ps: seq<Page>, b: nat)
    requires |ps| >= 1 && EmptySuffix(ps) && b != EMPTY
    ensures var qs := ps[Victim(ps) := ps[Victim(ps)].(base := b)];
      qs[Victim(qs)].base == EMPTY || qs[Victim(qs)].base == b
  {
    VictimIsFirstFree(ps);
    var v := Victim(ps);
    var qs := ps[v := ps[v].(base := b)];
    if v < |ps| - 1 {
      assert qs[|qs| - 1].base == EMPTY;
      VictimIsFirstFree(qs);
    }
  }

  /** The search is skipped on behalf of successor page S; nothing lies between. */
  ghost predicate Skipping(g: Geo, rq: Req, w: Walk, S: nat)
    requires WalkOk(g, rq, w) && w.done < rq.num
  {
    var b := CurPage(g, rq, w.done);
    && Settled(g, rq, w)
    && w.sb == S + 1 && b <= S <= LastPage(g, rq) && Aligned(g.sz, S)
    && w.p >= 0 && w.ps[w.p].base < b
    && forall y :: b <= y < S ==> y !in Resident(w.ps)
  }

  /** A skipped iteration before S: the page is filled in place and nothing
      relevant changes. */
  lemma SkipStep(g: Geo, rq: Req, w: Walk, S: nat)
    requires WalkOk(g, rq, w) && w.done < rq.num && Distinct(w.ps) && Skipping(g, rq, w, S)
    requires CurPage(g, rq, w.done) < S || S !in Resident(w.ps)
    ensures WalkNoClash(g, rq, w)
    ensures var b := CurPage(g, rq, w.done);
      var w' := WalkStep(g, rq, w);
      && Distinct(w'.ps)
      && (forall y :: y > b && y <= EMPTY - 1 ==> (y in Resident(w'.ps) <==> y in Resident(w.ps)))
      && (w'.done < rq.num ==> Settled(g, rq, w') && CurPage(g, rq, w'.done) == b + g.sz)
      && (b < S ==> w'.done < rq.num && Skipping(g, rq, w', S))
      && w'.sb == S + 1
  {
    var b := CurPage(g, rq, w.done);
    ChunkFacts(g, rq, w.done);
    MissStep(g, rq, w);
    assert b !in Resident(w.ps);
    if b < LastPage(g, rq) {
      VictimAfterRefill(w.ps, b);
    }
    if b < S {
      AlignedGap(g.sz, b, S);
    }
  }

  /** The successor is still resident when the loop reaches it unsearched: it is
      given to a second entry. */
  lemma {:induction false} SkippingIntoPage(g: Geo, rq: Req, w: Walk, S: nat)
    requires WalkOk(g, rq, w) && w.done < rq.num && Distinct(w.ps) && Skipping(g, rq, w, S)
    requires S in Resident(w.ps)
    ensures !WalkNeverDuplicates(g, rq, w)
    decreases rq.num - w.done
  {
    if CurPage(g, rq, w.done) < S {
      SkipStep(g, rq, w, S);
      SkippingIntoPage(g, rq, WalkStep(g, rq, w), S);
    } else {
      var i :| 0 <= i < |w.ps| && w.ps[i].base != EMPTY && w.ps[i].base == S;
      assert i != Victim(w.ps);
      assert !WalkNoClash(g, rq, w);
    }
  }

  /** Searching again, with a harmless victim: safe exactly when the resident pages
      form a prefix. */
  lemma {:induction false} SettledFresh(g: Geo, rq: Req, w: Walk)
    requires WalkOk(g, rq, w) && w.done < rq.num && Distinct(w.ps) && Fresh(g, rq, w) && Settled(g, rq, w)
    ensures WalkNeverDuplicates(g, rq, w) <==> PrefixFrom(g, Resident(w.ps), CurPage(g, rq, w.done), LastPage(g, rq))
    decreases rq.num - w.done
  {
    var R, b, last := Resident(w.ps), CurPage(g, rq, w.done), LastPage(g, rq);
    ChunkFacts(g, rq, w.done);
    if PrefixFrom(g, R, b, last) {
      PrefixIsSafe(g, rq, w);
    } else {
      assert b < last;
      var w' := WalkStep(g, rq, w);
      if b in R {
        HitAtPage(g, rq, w);
        ResidentAligned(g, w.ps);
        PrefixShift(g, R, b, last);
        SettledFresh(g, rq, w');
      } else {
        SettledMiss(g, rq, w);
      }
    }
  }

  lemma SettledMiss(g: Geo, rq: Req, w: Walk)
    requires WalkOk(g, rq, w) && w.done < rq.num && Distinct(w.ps) && Fresh(g, rq, w) && Settled(g, rq, w)
    requires CurPage(g, rq, w.done) !in Resident(w.ps)
    requires !PrefixFrom(g, Resident(w.ps), CurPage(g, rq, w.done), LastPage(g, rq))
    ensures !WalkNeverDuplicates(g, rq, w)
  {
    MissThenSkip(g, rq, w);
    NeverDuplicatesStep(g, rq, w);
    var w' := WalkStep(g, rq, w);
    SkippingIntoPage(g, rq, w', w'.sb - 1);
  }

  lemma PrefixShift(g: Geo, R: set<nat>, b: nat, last: nat)
    requires b in R && Aligned(g.sz, b) && forall y :: y in R ==> Aligned(g.sz, y)
    ensures PrefixFrom(g, R, b, last) <==> PrefixFrom(g, R, b + g.sz, last)
  {
    forall x, y | b <= x < y <= last && Aligned(g.sz, x) && y in R && PrefixFrom(g, R, b + g.sz, last)
      ensures x in R
    {
      if x > b {
        AlignedGap(g.sz, b, x);
      }
    }
  }

  lemma ResidentAligned(g: Geo, ps: seq<Page>)
    requires ListOk(g, ps)
    ensures forall y :: y in Resident(ps) ==> Aligned(g.sz, y) && y < EMPTY
  {
  }

  /** A searched miss with a resident page ahead: the next iterations skip the
      search up to that page. */
  lemma MissThenSkip(g: Geo, rq: Req, w: Walk)
    requires WalkOk(g, rq, w) && w.done < rq.num && Distinct(w.ps) && Fresh(g, rq, w)
    requires rq.first + w.done == CurPage(g, rq, w.done) && CurPage(g, rq, w.done) !in Resident(w.ps)
    requires exists y :: y in Resident(w.ps) && CurPage(g, rq, w.done) <= y <= LastPage(g, rq)
    ensures WalkNoClash(g, rq, w)
    ensures var w' := WalkStep(g, rq, w);
      var S := w'.sb - 1;
      && S in Resident(w.ps) && w'.done < rq.num && Distinct(w'.ps)
      && Resident(w'.ps) == Resident(w.ps) - {w.ps[Victim(w.ps)].base} + {CurPage(g, rq, w.done)}
      && CurPage(g, rq, w.done) < S
      && Skipping(g, rq, w', S)
      && forall y :: y in Resident(w.ps) && CurPage(g, rq, w.done) <= y ==> S <= y
  {
    var S := NearestAhead(g, rq, w);
    ChunkFacts(g, rq, w.done);
    MissStep(g, rq, w);
    VictimAfterRefill(w.ps, CurPage(g, rq, w.done));
  }

  lemma PrefixSame(g: Geo, R: set<nat>, Q: set<nat>, a: nat, last: nat)
    requires forall y :: a <= y <= last ==> (y in R <==> y in Q)
    ensures PrefixFrom(g, R, a, last) <==> PrefixFrom(g, Q, a, last)
  {
  }

  /** The successor was evicted before the loop reaches it: from the page after it
      the loop searches again. */
  lemma {:induction false} SkippingPastPage(g: Geo, rq: Req, w: Walk, S: nat)
    requires WalkOk(g, rq, w) && w.done < rq.num && Distinct(w.ps) && Skipping(g, rq, w, S)
    requires S !in Resident(w.ps)
    ensures WalkNeverDuplicates(g, rq, w) <==> PrefixFrom(g, Resident(w.ps), S + g.sz, LastPage(g, rq))
    decreases rq.num - w.done
  {
    var b, last := CurPage(g, rq, w.done), LastPage(g, rq);
    SkipStep(g, rq, w, S);
    ChunkFacts(g, rq, w.done);
    ResidentAligned(g, w.ps);
    var w' := WalkStep(g, rq, w);
    ResidentAligned(g, w'.ps);
    PrefixSame(g, Resident(w.ps), Resident(w'.ps), S + g.sz, last);
    if b < S {
      SkippingPastPage(g, rq, w', S);
    } else if w'.done < rq.num {
      SettledFresh(g, rq, w');
    }
  }

  // ----- the exact condition -----

  /** S is the first resident page behind a gap. */
  ghost predicate FirstAfterGap(g: Geo, R: set<nat>, a: nat, last: nat, S: nat) {
    S in R && a < S <= last && PrefixFrom(g, R, a, S - 1) && !PrefixFrom(g, R, a, S)
  }

  /** Pages a..last may be accessed in order when R is resident and the request
      evicts E: either the resident ones form a prefix, or the first one behind the
      gap is among the evicted and behind it the prefix rule holds again. */
  ghost predicate Allowed(g: Geo, R: set<nat>, E: set<nat>, a: nat, last: nat) {
    || PrefixFrom(g, R, a, last)
    || exists S: nat :: FirstAfterGap(g, R, a, last, S) && S in E && PrefixFrom(g, R - E, S + g.sz, last)
  }

  lemma AllowedShift(g: Geo, R: set<nat>, E: set<nat>, b: nat, last: nat)
    requires b in R && Aligned(g.sz, b) && forall y :: y in R ==> Aligned(g.sz, y)
    ensures Allowed(g, R, E, b, last) <==> Allowed(g, R, E, b + g.sz, last)
  {
    PrefixShift(g, R, b, last);
    forall S | S in R && S > b
      ensures FirstAfterGap(g, R, b, last, S) <==> FirstAfterGap(g, R, b + g.sz, last, S)
    {
      PrefixShift(g, R, b, S - 1);
      PrefixShift(g, R, b, S);
      AlignedGap(g.sz, b, S);
    }
  }

  /** With page b missing, the first page behind the gap is the lowest resident one. */
  lemma AllowedAtGap(g: Geo, R: set<nat>, E: set<nat>, b: nat, last: nat, S: nat)
    requires Aligned(g.sz, b) && b !in R && S in R && b < S <= last
    requires forall y :: y in R && b <= y ==> S <= y
    ensures Allowed(g, R, E, b, last) <==> S in E && PrefixFrom(g, R - E, S + g.sz, last)
  {
    assert !PrefixFrom(g, R, b, last);
    assert FirstAfterGap(g, R, b, last, S);
    forall T | FirstAfterGap(g, R, b, last, T)
      ensures T == S
    {
    }
  }

  /** Searching at a page boundary, any victim. */
  lemma {:induction false} FreshAtPage(g: Geo, rq: Req, w: Walk)
    requires WalkOk(g, rq, w) && w.done < rq.num && Distinct(w.ps) && Fresh(g, rq, w)
    requires rq.first + w.done == CurPage(g, rq, w.done)
    ensures SafeIfAllowed(g, rq, w)
    decreases rq.num - w.done
  {
    var R, b, last := Resident(w.ps), CurPage(g, rq, w.done), LastPage(g, rq);
    ChunkFacts(g, rq, w.done);
    if PrefixFrom(g, R, b, last) {
      PrefixIsSafe(g, rq, w);
    } else if b in R {
      assert b < last;
      HitAtPage(g, rq, w);
      FreshAtPage(g, rq, WalkStep(g, rq, w));
      SafeIfAllowedShifts(g, rq, w);
    } else {
      MissAtPage(g, rq, w);
    }
  }

  /** At a page boundary, searching: the walk is safe exactly when the pages allow it. */
  ghost predicate SafeIfAllowed(g: Geo, rq: Req, w: Walk)
    requires WalkOk(g, rq, w) && w.done < rq.num
  {
    WalkNeverDuplicates(g, rq, w) ==
      Allowed(g, Resident(w.ps), {w.ps[Victim(w.ps)].base}, CurPage(g, rq, w.done), LastPage(g, rq))
  }

  lemma SafeIfAllowedShifts(g: Geo, rq: Req, w: Walk)
    requires WalkOk(g, rq, w) && w.done < rq.num
    requires WalkNeverDuplicates(g, rq, w) == WalkNeverDuplicates(g, rq, WalkStep(g, rq, w))
    requires AtNextPage(g, rq, w, WalkStep(g, rq, w)) && SafeIfAllowed(g, rq, WalkStep(g, rq, w))
    requires AllowedShifts(g, Resident(w.ps), CurPage(g, rq, w.done), LastPage(g, rq))
    ensures SafeIfAllowed(g, rq, w)
  {
    ShiftedBack(g, WalkNeverDuplicates(g, rq, w), Resident(w.ps), {w.ps[Victim(w.ps)].base},
                CurPage(g, rq, w.done), LastPage(g, rq));
  }

  lemma ShiftedBack(g: Geo, safe: bool, R: set<nat>, E: set<nat>, b: nat, last: nat)
    requires AllowedShifts(g, R, b, last) && safe == Allowed(g, R, E, b + g.sz, last)
    ensures safe == Allowed(g, R, E, b, last)
  {
  }

  lemma HitAtPage(g: Geo, rq: Req, w: Walk)
    requires WalkOk(g, rq, w) && w.done < rq.num && Distinct(w.ps) && Fresh(g, rq, w)
    requires rq.first + w.done == CurPage(g, rq, w.done) < LastPage(g, rq)
    requires CurPage(g, rq, w.done) in Resident(w.ps)
    ensures WalkNeverDuplicates(g, rq, w) == WalkNeverDuplicates(g, rq, WalkStep(g, rq, w))
    ensures AtNextPage(g, rq, w, WalkStep(g, rq, w))
    ensures AllowedShifts(g, Resident(w.ps), CurPage(g, rq, w.done), LastPage(g, rq))
  {
    ChunkFacts(g, rq, w.done);
    FreshLookup(g, rq, w);
    HitWalkStep(g, rq, w);
    NeverDuplicatesStep(g, rq, w);
    AllowedShiftsAll(g, w.ps, CurPage(g, rq, w.done), LastPage(g, rq));
  }

  /** The list is as before, the loop at the start of the next page and searching. */
  ghost predicate AtNextPage(g: Geo, rq: Req, w: Walk, w': Walk) {
    var b := CurPage(g, rq, w.done);
    && w'.done < rq.num && w'.ps == w.ps && CurPage(g, rq, w'.done) == b + g.sz
    && Fresh(g, rq, w') && rq.first + w'.done == b + g.sz
  }

  ghost predicate AllowedShifts(g: Geo, R: set<nat>, b: nat, last: nat) {
    forall E: set<nat> :: Allowed(g, R, E, b, last) <==> Allowed(g, R, E, b + g.sz, last)
  }

  lemma AllowedShiftsAll(g: Geo, ps: seq<Page>, b: nat, last: nat)
    requires b in Resident(ps) && forall i :: 0 <= i < |ps| && ps[i].base != EMPTY ==> Aligned(g.sz, ps[i].base)
    ensures AllowedShifts(g, Resident(ps), b, last)
  {
    forall E: set<nat>
      ensures Allowed(g, Resident(ps), E, b, last) <==> Allowed(g, Resident(ps), E, b + g.sz, last)
    {
      AllowedShift(g, Resident(ps), E, b, last);
    }
  }

  lemma MissAtPage(g: Geo, rq: Req, w: Walk)
    requires WalkOk(g, rq, w) && w.done < rq.num && Distinct(w.ps) && Fresh(g, rq, w)
    requires rq.first + w.done == CurPage(g, rq, w.done)
    requires CurPage(g, rq, w.done) !in Resident(w.ps)
    requires !PrefixFrom(g, Resident(w.ps), CurPage(g, rq, w.done), LastPage(g, rq))
    ensures SafeIfAllowed(g, rq, w)
  {
    var R, e := Resident(w.ps), w.ps[Victim(w.ps)].base;
    var b, last := CurPage(g, rq, w.done), LastPage(g, rq);
    MissThenSkip(g, rq, w);
    NeverDuplicatesStep(g, rq, w);
    var w' := WalkStep(g, rq, w);
    var S := w'.sb - 1;
    AllowedAtGap(g, R, {e}, b, last, S);
    SkipDecides(g, rq, w', S, R, e, b);
  }

  /** From a skipped search up to S, page e having made room for page b. */
  lemma SkipDecides(g: Geo, rq: Req, w: Walk, S: nat, R: set<nat>, e: nat, b: nat)
    requires WalkOk(g, rq, w) && w.done < rq.num && Distinct(w.ps) && Skipping(g, rq, w, S)
    requires Resident(w.ps) == R - {e} + {b} && b < S && S in R
    ensures WalkNeverDuplicates(g, rq, w) == (S in {e} && PrefixFrom(g, R - {e}, S + g.sz, LastPage(g, rq)))
  {
    if S == e {
      SkippingPastPage(g, rq, w, S);
      PrefixSame(g, R - {e}, Resident(w.ps), S + g.sz, LastPage(g, rq));
    } else {
      SkippingIntoPage(g, rq, w, S);
    }
  }

  // ----- from the start of the request -----

  function Begin(ps: seq<Page>): Walk {
    Walk(ps, 0, -1, 0)
  }

  /** The list after a first access to page b: promoted, since the access is partial. */
  function AfterPartialRefill(ps: seq<Page>, b: nat): (qs: seq<Page>)
    requires |ps| >= 1
    ensures |qs| == |ps|
  {
    var v := Victim(ps);
    Touch(ps[v := ps[v].(base := b)], v)
  }

  /** Pages (or EMPTY for a free slot) the request takes slots from before it can
      run into a resident page. A partial first page is promoted, so the victim
      behind it is another one. */
  function Displaced(g: Geo, rq: Req, ps: seq<Page>): set<nat>
    requires |ps| >= 1 && rq.num >= 1
  {
    var b := CurPage(g, rq, 0);
    var h := Holder(ps, b);
    if Whole(g, rq, 0) then {ps[Victim(ps)].base}
    else if h >= 0 then
      var qs := Touch(ps, h);
      {qs[Victim(qs)].base}
    else
      var qs := AfterPartialRefill(ps, b);
      {ps[Victim(ps)].base, qs[Victim(qs)].base}
  }

  /** A caller can decide this from the recency list and the request alone. */
  ghost predicate Guard(g: Geo, rq: Req, ps: seq<Page>)
    requires |ps| >= 1 && rq.num >= 1
  {
    Allowed(g, Resident(ps), Displaced(g, rq, ps), CurPage(g, rq, 0), LastPage(g, rq))
  }

  /** Main result of this module: an allocating request never gives a page to two
      entries if and only if the guard holds of the list it starts from. */
  lemma GuardIsExact(g: Geo, rq: Req, ps: seq<Page>)
    requires WalkOk(g, rq, Begin(ps)) && Distinct(ps) && rq.num >= 1
    ensures WalkNeverDuplicates(g, rq, Begin(ps)) == Guard(g, rq, ps)
  {
    if Whole(g, rq, 0) {
      FreshAtPage(g, rq, Begin(ps));
    } else if CurPage(g, rq, 0) in Resident(ps) {
      GuardPartialHit(g, rq, ps);
    } else {
      GuardPartialMiss(g, rq, ps);
    }
  }

  lemma GuardPartialHit(g: Geo, rq: Req, ps: seq<Page>)
    requires WalkOk(g, rq, Begin(ps)) && Distinct(ps) && rq.num >= 1
    requires !Whole(g, rq, 0) && CurPage(g, rq, 0) in Resident(ps)
    ensures WalkNeverDuplicates(g, rq, Begin(ps)) == Guard(g, rq, ps)
  {
    var b, last := CurPage(g, rq, 0), LastPage(g, rq);
    PartialHitStep(g, rq, ps);
    var w' := WalkStep(g, rq, Begin(ps));
    NeverDuplicatesStep(g, rq, Begin(ps));
    if b < last {
      ResidentAligned(g, ps);
      FreshAfterFirst(g, rq, Resident(ps), Displaced(g, rq, ps), b, w');
    } else {
      assert PrefixFrom(g, Resident(ps), b, last);
    }
  }

  lemma FreshAfterFirst(g: Geo, rq: Req, R: set<nat>, E: set<nat>, b: nat, w: Walk)
    requires WalkOk(g, rq, w) && w.done < rq.num && Distinct(w.ps) && Fresh(g, rq, w)
    requires rq.first + w.done == CurPage(g, rq, w.done) == b + g.sz
    requires Resident(w.ps) == R && E == {w.ps[Victim(w.ps)].base}
    requires b in R && Aligned(g.sz, b) && forall y :: y in R ==> Aligned(g.sz, y)
    ensures WalkNeverDuplicates(g, rq, w) == Allowed(g, R, E, b, LastPage(g, rq))
  {
    FreshAtPage(g, rq, w);
    AllowedShift(g, R, E, b, LastPage(g, rq));
  }

  /** The first page was hit in part: it moved to the front, nothing was given away,
      and the loop is at the next page and searching. */
  ghost predicate PartialHit(g: Geo, rq: Req, ps: seq<Page>, w: Walk)
    requires rq.num >= 1
  {
    var b, last := CurPage(g, rq, 0), LastPage(g, rq);
    && 0 <= Holder(ps, b) && w.ps == Touch(ps, Holder(ps, b))
    && Distinct(w.ps) && Resident(w.ps) == Resident(ps)
    && b <= last
    && (b == last ==> w.done == rq.num)
    && (b < last ==> w.done < rq.num && Fresh(g, rq, w) && rq.first + w.done == b + g.sz == CurPage(g, rq, w.done))
  }

  lemma PartialHitStep(g: Geo, rq: Req, ps: seq<Page>)
    requires WalkOk(g, rq, Begin(ps)) && Distinct(ps) && rq.num >= 1
    requires !Whole(g, rq, 0) && CurPage(g, rq, 0) in Resident(ps)
    ensures WalkNoClash(g, rq, Begin(ps)) && PartialHit(g, rq, ps, WalkStep(g, rq, Begin(ps)))
  {
    var b := CurPage(g, rq, 0);
    ChunkFacts(g, rq, 0);
    FreshLookup(g, rq, Begin(ps));
    HitWalkStep(g, rq, Begin(ps));
    HitTouches(g, rq, ps);
  }

  lemma HitTouches(g: Geo, rq: Req, ps: seq<Page>)
    requires WalkOk(g, rq, Begin(ps)) && Distinct(ps) && rq.num >= 1
    requires !Whole(g, rq, 0) && WalkHits(g, rq, Begin(ps))
    ensures var k := Holder(ps, CurPage(g, rq, 0)); 0 <= k && WalkStep(g, rq, Begin(ps)).ps == Touch(ps, k)
  {
    SearchIsNearest(ps, CurPage(g, rq, 0));
    TouchFront(ps);
  }

  lemma TouchFront(ps: seq<Page>)
    requires |ps| >= 1
    ensures Touch(ps, 0) == ps
  {
  }

  /** After the refill of a first page that is missing and accessed in part, with
      resident page S the nearest one ahead. */
  ghost predicate PartialMissed(g: Geo, rq: Req, ps: seq<Page>, w: Walk, S: nat)
    requires |ps| >= 1 && rq.num >= 1
  {
    var b, last := CurPage(g, rq, 0), LastPage(g, rq);
    && WalkOk(g, rq, w) && Distinct(w.ps)
    && S in Resident(ps) && b + g.sz <= S <= last && Aligned(g.sz, S)
    && (forall y :: y in Resident(ps) && b <= y ==> S <= y)
    && w.ps == AfterPartialRefill(ps, b) && w.sb == S + 1
    && w.done < rq.num && CurPage(g, rq, w.done) == b + g.sz == rq.first + w.done
    && w.p >= 0 && w.ps[w.p].base == b
    && Resident(w.ps) == Resident(ps) - {ps[Victim(ps)].base} + {b}
  }

  lemma PartialMissStep(g: Geo, rq: Req, ps: seq<Page>) returns (S: nat)
    requires WalkOk(g, rq, Begin(ps)) && Distinct(ps) && rq.num >= 1
    requires !Whole(g, rq, 0) && CurPage(g, rq, 0) !in Resident(ps)
    requires exists y :: y in Resident(ps) && CurPage(g, rq, 0) <= y <= LastPage(g, rq)
    ensures WalkNoClash(g, rq, Begin(ps))
    ensures PartialMissed(g, rq, ps, WalkStep(g, rq, Begin(ps)), S)
  {
    S := NearestAhead(g, rq, Begin(ps));
    ChunkFacts(g, rq, 0);
    MissStep(g, rq, Begin(ps));
    PartialMissList(g, rq, ps);
  }

  /** A due search for a page that is not resident finds the nearest one ahead. */
  lemma NearestAhead(g: Geo, rq: Req, w: Walk) returns (S: nat)
    requires WalkOk(g, rq, w) && w.done < rq.num && Fresh(g, rq, w)
    requires CurPage(g, rq, w.done) !in Resident(w.ps)
    requires exists y :: y in Resident(w.ps) && CurPage(g, rq, w.done) <= y <= LastPage(g, rq)
    ensures !WalkHits(g, rq, w) && WalkNoClash(g, rq, w)
    ensures S in Resident(w.ps) && CurPage(g, rq, w.done) + g.sz <= S <= LastPage(g, rq) && Aligned(g.sz, S)
    ensures forall y :: y in Resident(w.ps) && CurPage(g, rq, w.done) <= y ==> S <= y
    ensures Lookup(g, rq, w.ps, w.done, w.p, w.sb).1 == S + 1
  {
    FreshLookup(g, rq, w);
    ResidentAligned(g, w.ps);
    S := Lookup(g, rq, w.ps, w.done, w.p, w.sb).1 - 1;
    AlignedGap(g.sz, CurPage(g, rq, w.done), S);
  }

  lemma PartialMissList(g: Geo, rq: Req, ps: seq<Page>)
    requires WalkOk(g, rq, Begin(ps)) && rq.num >= 1
    requires !Whole(g, rq, 0) && !WalkHits(g, rq, Begin(ps))
    ensures WalkStep(g, rq, Begin(ps)).ps == AfterPartialRefill(ps, CurPage(g, rq, 0))
  {
    var qs := ps[Victim(ps) := ps[Victim(ps)].(base := CurPage(g, rq, 0))];
    assert Victim(ps) == 0 ==> Touch(qs, 0) == qs;
  }

  lemma GuardPartialMiss(g: Geo, rq: Req, ps: seq<Page>)
    requires WalkOk(g, rq, Begin(ps)) && Distinct(ps) && rq.num >= 1
    requires !Whole(g, rq, 0) && CurPage(g, rq, 0) !in Resident(ps)
    ensures WalkNeverDuplicates(g, rq, Begin(ps)) == Guard(g, rq, ps)
  {
    var b, last := CurPage(g, rq, 0), LastPage(g, rq);
    if exists y :: y in Resident(ps) && b <= y <= last {
      var S := PartialMissStep(g, rq, ps);
      AllowedAtGap(g, Resident(ps), Displaced(g, rq, ps), b, last, S);
      SecondRefill(g, rq, ps, WalkStep(g, rq, Begin(ps)), S);
    } else {
      ClearIsSafe(g, rq, Begin(ps));
      assert PrefixFrom(g, Resident(ps), b, last);
    }
  }

  /** The second page is refilled without a search, whatever it is. */
  lemma SecondRefill(g: Geo, rq: Req, ps: seq<Page>, w: Walk, S: nat)
    requires |ps| >= 1 && rq.num >= 1 && !Whole(g, rq, 0) && CurPage(g, rq, 0) !in Resident(ps)
    requires ListOk(g, ps) && PartialMissed(g, rq, ps, w, S)
    ensures WalkNeverDuplicates(g, rq, w) ==
      (S in Displaced(g, rq, ps) && PrefixFrom(g, Resident(ps) - Displaced(g, rq, ps), S + g.sz, LastPage(g, rq)))
  {
    var c := CurPage(g, rq, w.done);
    ChunkFacts(g, rq, w.done);
    SecondClash(g, rq, ps, w, S);
    if c < S {
      AlignedGap(g.sz, c, S);
    }
    if WalkNoClash(g, rq, w) {
      NeverDuplicatesStep(g, rq, w);
      if CurPage(g, rq, w.done) < LastPage(g, rq) {
        SecondRefillState(g, rq, ps, w, S);
        AfterSecondRefill(g, rq, WalkStep(g, rq, w), S, Resident(ps) - Displaced(g, rq, ps));
      } else {
        MissStep(g, rq, w);
      }
    }
  }

  lemma SecondRefillState(g: Geo, rq: Req, ps: seq<Page>, w: Walk, S: nat)
    requires |ps| >= 1 && rq.num >= 1 && !Whole(g, rq, 0) && CurPage(g, rq, 0) !in Resident(ps)
    requires ListOk(g, ps) && PartialMissed(g, rq, ps, w, S)
    requires WalkNoClash(g, rq, w) && CurPage(g, rq, w.done) < LastPage(g, rq)
    ensures var w' := WalkStep(g, rq, w);
      && w'.done < rq.num && Distinct(w'.ps) && Settled(g, rq, w')
      && w'.sb == S + 1 && w'.p >= 0 && w'.ps[w'.p].base < CurPage(g, rq, w'.done) <= S + g.sz
      && (forall y :: CurPage(g, rq, w'.done) <= y ==>
            (y in Resident(w'.ps) <==> y in Resident(ps) - Displaced(g, rq, ps)))
      && (forall y :: CurPage(g, rq, w'.done) <= y < S ==> y !in Resident(ps))
      && CurPage(g, rq, w'.done) == CurPage(g, rq, w.done) + g.sz
  {
    ChunkFacts(g, rq, w.done);
    SecondClash(g, rq, ps, w, S);
    MissStep(g, rq, w);
    VictimAfterRefill(w.ps, CurPage(g, rq, w.done));
    SecondRefillSets(g, rq, ps, w, S, WalkStep(g, rq, w));
  }

  lemma SecondRefillSets(g: Geo, rq: Req, ps: seq<Page>, w: Walk, S: nat, w': Walk)
    requires |ps| >= 1 && rq.num >= 1 && !Whole(g, rq, 0) && CurPage(g, rq, 0) !in Resident(ps)
    requires PartialMissed(g, rq, ps, w, S)
    requires Resident(w'.ps) == Resident(w.ps) - {w.ps[Victim(w.ps)].base} + {CurPage(g, rq, w.done)}
    ensures forall y :: CurPage(g, rq, w.done) < y ==>
      (y in Resident(w'.ps) <==> y in Resident(ps) - Displaced(g, rq, ps))
  {
    assert Displaced(g, rq, ps) == {ps[Victim(ps)].base, w.ps[Victim(w.ps)].base};
  }

  lemma SecondClash(g: Geo, rq: Req, ps: seq<Page>, w: Walk, S: nat)
    requires |ps| >= 1 && rq.num >= 1 && !Whole(g, rq, 0) && CurPage(g, rq, 0) !in Resident(ps)
    requires ListOk(g, ps) && PartialMissed(g, rq, ps, w, S)
    ensures !WalkHits(g, rq, w) && w.sb == Lookup(g, rq, w.ps, w.done, w.p, w.sb).1
    ensures WalkNoClash(g, rq, w) <==> CurPage(g, rq, w.done) != S || S in Displaced(g, rq, ps)
  {
    SecondSkips(g, rq, ps, w, S);
    NoClashIffHeld(g, rq, w);
    SecondHeldThere(g, rq, ps, w, S);
  }

  lemma SecondHeldThere(g: Geo, rq: Req, ps: seq<Page>, w: Walk, S: nat)
    requires |ps| >= 1 && rq.num >= 1 && !Whole(g, rq, 0) && CurPage(g, rq, 0) !in Resident(ps)
    requires PartialMissed(g, rq, ps, w, S)
    ensures var c := CurPage(g, rq, w.done);
      (c !in Resident(w.ps) || w.ps[Victim(w.ps)].base == c) <==> (c != S || S in Displaced(g, rq, ps))
  {
    BothDisplaced(g, rq, ps);
    SecondHeld(Resident(ps), Resident(w.ps), CurPage(g, rq, 0), CurPage(g, rq, w.done), S,
               ps[Victim(ps)].base, w.ps[Victim(w.ps)].base);
  }

  /** A part of a missing page takes the victim's slot, the next page the next victim's. */
  lemma BothDisplaced(g: Geo, rq: Req, ps: seq<Page>)
    requires |ps| >= 1 && rq.num >= 1 && !Whole(g, rq, 0)
    requires CurPage(g, rq, 0) != EMPTY && CurPage(g, rq, 0) !in Resident(ps)
    ensures var qs := AfterPartialRefill(ps, CurPage(g, rq, 0));
      forall x: nat :: x in Displaced(g, rq, ps) <==> x == ps[Victim(ps)].base || x == qs[Victim(qs)].base
  {
    assert Holder(ps, CurPage(g, rq, 0)) < 0;
  }

  lemma SecondSkips(g: Geo, rq: Req, ps: seq<Page>, w: Walk, S: nat)
    requires |ps| >= 1 && rq.num >= 1 && ListOk(g, ps) && PartialMissed(g, rq, ps, w, S)
    ensures !WalkHits(g, rq, w) && w.sb == Lookup(g, rq, w.ps, w.done, w.p, w.sb).1
  {
  }

  lemma NoClashIffHeld(g: Geo, rq: Req, w: Walk)
    requires WalkOk(g, rq, w) && w.done < rq.num && Distinct(w.ps) && !WalkHits(g, rq, w)
    ensures var c := CurPage(g, rq, w.done);
      WalkNoClash(g, rq, w) <==> c !in Resident(w.ps) || w.ps[Victim(w.ps)].base == c
  {
    ClashIffHeld(w.ps, Victim(w.ps), CurPage(g, rq, w.done));
  }

  /** Page c, the next after b, is held behind the back of victim e' exactly when it
      is the successor S and neither victim holds it. */
  lemma SecondHeld(R: set<nat>, R': set<nat>, b: nat, c: nat, S: nat, e: nat, e': nat)
    requires R' == R - {e} + {b} && b < c <= S && S in R && forall y :: y in R && b <= y ==> S <= y
    ensures (c !in R' || e' == c) <==> (c != S || S == e || S == e')
  {
  }

  lemma ClashIffHeld(ps: seq<Page>, v: nat, c: nat)
    requires v < |ps| && Distinct(ps) && c != EMPTY
    ensures (forall i :: 0 <= i < |ps| && i != v ==> ps[i].base != c) <==> (c !in Resident(ps) || ps[v].base == c)
  {
  }

  lemma AfterSecondRefill(g: Geo, rq: Req, w: Walk, S: nat, Q: set<nat>)
    requires WalkOk(g, rq, w) && w.done < rq.num && Distinct(w.ps) && Settled(g, rq, w)
    requires w.sb == S + 1 && Aligned(g.sz, S) && S <= LastPage(g, rq)
    requires w.p >= 0 && w.ps[w.p].base < CurPage(g, rq, w.done) <= S + g.sz
    requires forall y :: CurPage(g, rq, w.done) <= y ==> (y in Resident(w.ps) <==> y in Q)
    requires forall y :: CurPage(g, rq, w.done) <= y < S ==> y !in Q
    ensures WalkNeverDuplicates(g, rq, w) ==
      ((S < CurPage(g, rq, w.done) || S !in Q) && PrefixFrom(g, Q, S + g.sz, LastPage(g, rq)))
  {
    var b := CurPage(g, rq, w.done);
    PrefixSame(g, Q, Resident(w.ps), S + g.sz, LastPage(g, rq));
    if S < b {
      AlignedGap(g.sz, S, b);
      SettledFresh(g, rq, w);
    } else if S in Resident(w.ps) {
      SkippingIntoPage(g, rq, w, S);
    } else {
      SkippingPastPage(g, rq, w, S);
    }
  }
}
