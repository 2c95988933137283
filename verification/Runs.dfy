/** Flushing, shrinking a disc of unknown size, and whole runs of operations. */
module Runs {
  import opened Wrappers
  import opened Pages
  import opened Device
  import opened CacheModel
  import opened CacheInvariant
  import opened Transparency
  import opened Requests

  // ----- flush -----

  predicate Dirty(p: Page) {
    p.lo < p.hi
  }

  /** The write a flush of page p asks for, if any. */
  function PageLog(p: Page): seq<Event> {
    if Dirty(p) then [WriteEvent(p.base + p.lo, p.hi - p.lo)] else []
  }

  /** The device writes of a flush from position i: one per dirty entry, in list order. */
  function FlushLog(ps: seq<Page>, i: nat): seq<Event>
    requires i <= |ps|
    decreases |ps| - i
  {
    if i == |ps| || ps[i].base == EMPTY then []
    else PageLog(ps[i]) + FlushLog(ps, i + 1)
  }

  /** How many dirty entries a flush from position i meets before position j. */
  function DirtyBetween(ps: seq<Page>, i: nat, j: nat): nat
    requires i <= j <= |ps|
    decreases j - i
  {
    if i == j then 0 else (if Dirty(ps[i]) then 1 else 0) + DirtyBetween(ps, i + 1, j)
  }

  /** Every dirty entry is attempted, whatever happened to the ones before it. An
      entry comes out clean exactly when it was clean or its own write succeeded,
      and is otherwise unchanged; the view does not change. */
  lemma {:induction false} FlushFromKeeps(g: Geo, o: Oracle, c: Cache, i: nat)
    requires Inv(g, c) && i <= |c.pages|
    ensures var (c', ok) := FlushFrom(g, o, c, i); FlushedWell(g, o, c, i, c', ok)
    decreases |c.pages| - i
  {
    if i == |c.pages| || c.pages[i].base == EMPTY {
      NothingToFlush(g, o, c, i);
    } else {
      var (c1, ok1) := FlushPage(g, o, c, i);
      FlushPageKeeps(g, o, c, i);
      FlushFromKeeps(g, o, c1, i + 1);
      var (c2, ok2) := FlushFrom(g, o, c1, i + 1);
      FlushedNext(g, o, c, i, c1, ok1, c2, ok2);
    }
  }

  lemma FlushedNext(g: Geo, o: Oracle, c: Cache, i: nat, c1: Cache, ok1: bool, c2: Cache, ok2: bool)
    requires Struct(g, c) && i < |c.pages| && (c1, ok1) == FlushPage(g, o, c, i) && SameView(g, c, c1)
    requires FlushedWell(g, o, c1, i + 1, c2, ok2)
    ensures FlushedWell(g, o, c, i, c2, ok1 && ok2)
  {
    FlushPageLogs(g, o, c, i);
    FlushedStep(g, o, c.pages, |c.disk.log|, i, c1.pages, c2.pages);
    FlushedJoin(g, o, c, i, c1, ok1, c2, ok2);
  }

  ghost predicate FlushedWell(g: Geo, o: Oracle, c: Cache, i: nat, c': Cache, ok: bool)
    requires i <= |c.pages|
  {
    && Inv(g, c') && SameView(g, c, c')
    && FlushedPages(g, o, c.pages, |c.disk.log|, i, c'.pages)
    && (ok <==> forall j :: i <= j < |c.pages| ==> !Dirty(c'.pages[j]))
  }

  lemma NothingToFlush(g: Geo, o: Oracle, c: Cache, i: nat)
    requires Inv(g, c) && i <= |c.pages| && (i < |c.pages| ==> c.pages[i].base == EMPTY)
    ensures FlushedWell(g, o, c, i, c, true)
  {
    assert i < |c.pages| ==> EmptyBehind(c.pages, i);
    forall j | i <= j < |c.pages|
      ensures !Dirty(c.pages[j])
    {
      assert PageOk(g, |c.disk.sectors|, c.pages[j]);
    }
  }

  lemma FlushedJoin(g: Geo, o: Oracle, c: Cache, i: nat, c1: Cache, ok1: bool, c2: Cache, ok2: bool)
    requires i < |c.pages| == |c1.pages| && SameView(g, c, c1) && (ok1 <==> !Dirty(c1.pages[i]))
    requires FlushedWell(g, o, c1, i + 1, c2, ok2)
    requires FlushedPages(g, o, c.pages, |c.disk.log|, i, c2.pages)
    ensures FlushedWell(g, o, c, i, c2, ok1 && ok2)
  {
    assert c2.pages[i] == c1.pages[i];
  }

  function PageAfter(g: Geo, o: Oracle, p: Page, n: nat): Page {
    if Dirty(p) && o(n).ok then p.(lo := g.sz, hi := 0) else p
  }

  lemma FlushPageLogs(g: Geo, o: Oracle, c: Cache, k: nat)
    requires Struct(g, c) && k < |c.pages|
    ensures var (c', ok) := FlushPage(g, o, c, k);
      && c'.disk.log == c.disk.log + PageLog(c.pages[k])
      && c'.pages == c.pages[k := PageAfter(g, o, c.pages[k], |c.disk.log|)]
      && (ok <==> !Dirty(c'.pages[k]))
  {
  }

  /** From position i on every dirty entry was attempted, the first at log length n. */
  ghost predicate FlushedPages(g: Geo, o: Oracle, before: seq<Page>, n: nat, i: nat, after: seq<Page>)
    requires i <= |before|
  {
    && |after| == |before|
    && (forall j :: 0 <= j < i ==> after[j] == before[j])
    && (forall j :: i <= j < |before| ==> after[j] == PageAfter(g, o, before[j], n + DirtyBetween(before, i, j)))
  }

  lemma FlushedStep(g: Geo, o: Oracle, before: seq<Page>, n: nat, i: nat, mid: seq<Page>, after: seq<Page>)
    requires i < |before| && mid == before[i := PageAfter(g, o, before[i], n)]
    requires FlushedPages(g, o, mid, n + |PageLog(before[i])|, i + 1, after)
    ensures FlushedPages(g, o, before, n, i, after)
  {
    assert after[i] == mid[i];
    forall j | i < j < |before|
      ensures after[j] == PageAfter(g, o, before[j], n + DirtyBetween(before, i, j))
    {
      SameDirty(before, mid, i + 1, j);
      assert after[j] == PageAfter(g, o, mid[j], n + |PageLog(before[i])| + DirtyBetween(mid, i + 1, j));
    }
  }

  lemma {:induction false} FlushFromLogs(g: Geo, o: Oracle, c: Cache, i: nat)
    requires Struct(g, c) && i <= |c.pages|
    ensures FlushFrom(g, o, c, i).0.disk.log == c.disk.log + FlushLog(c.pages, i)
    decreases |c.pages| - i
  {
    if i < |c.pages| && c.pages[i].base != EMPTY {
      FlushPageLogs(g, o, c, i);
      var c1 := FlushPage(g, o, c, i).0;
      FlushFromLogs(g, o, c1, i + 1);
      SameFlush(c.pages, c1.pages, i + 1);
      assert FlushLog(c.pages, i) == PageLog(c.pages[i]) + FlushLog(c.pages, i + 1);
    }
  }

  lemma {:induction false} SameFlush(ps: seq<Page>, qs: seq<Page>, i: nat)
    requires i <= |ps| == |qs| && forall j :: i <= j < |ps| ==> ps[j] == qs[j]
    ensures FlushLog(ps, i) == FlushLog(qs, i)
    decreases |ps| - i
  {
    if i < |ps| && ps[i].base != EMPTY {
      SameFlush(ps, qs, i + 1);
    }
  }

  lemma {:induction false} SameDirty(ps: seq<Page>, qs: seq<Page>, i: nat, j: nat)
    requires i <= j <= |ps| == |qs| && forall k :: i <= k < j ==> ps[k] == qs[k]
    ensures DirtyBetween(ps, i, j) == DirtyBetween(qs, i, j)
    decreases j - i
  {
    if i < j {
      SameDirty(ps, qs, i + 1, j);
    }
  }

  /** A flush succeeds exactly when the device accepts every write, and the final
      sync, it asks for. */
  lemma FlushLogged(g: Geo, o: Oracle, c: Cache)
    requires Struct(g, c)
    ensures var (c', ok) := Flush(g, o, c); Logged(o, c, c', ok)
  {
    FlushFromLogged(g, o, c, 0);
    var (c1, ok1) := FlushFrom(g, o, c, 0);
    var (d, ok2) := DiskSync(o, c1.disk);
    assert !ok2 ==> !o(|c1.disk.log|).ok;
    LoggedThen(o, c, c1, ok1, Cache(c1.pages, d), ok2);
  }

  lemma {:induction false} FlushFromLogged(g: Geo, o: Oracle, c: Cache, i: nat)
    requires Struct(g, c) && i <= |c.pages|
    ensures var (c', ok) := FlushFrom(g, o, c, i); Logged(o, c, c', ok)
    decreases |c.pages| - i
  {
    if i < |c.pages| && c.pages[i].base != EMPTY {
      FlushPageLogged(g, o, c, i);
      var (c1, ok1) := FlushPage(g, o, c, i);
      FlushFromLogged(g, o, c1, i + 1);
      var (c2, ok2) := FlushFrom(g, o, c1, i + 1);
      LoggedThen(o, c, c1, ok1, c2, ok2);
    }
  }

  ghost predicate Clean(ps: seq<Page>) {
    forall j :: 0 <= j < |ps| ==> !Dirty(ps[j])
  }

  /** A flush never changes the view. If it reports success every entry is clean
      and the device holds the view. */
  lemma FlushKeeps(g: Geo, o: Oracle, c: Cache)
    requires Inv(g, c)
    ensures var (c', ok) := Flush(g, o, c);
      && Inv(g, c') && SameView(g, c, c')
      && c'.disk.log == c.disk.log + FlushLog(c.pages, 0) + [SyncEvent]
      && (Clean(c'.pages) ==> forall x :: 0 <= x < g.n ==> c'.disk.sectors[x] == View(g, c, x))
      && (ok ==> Clean(c'.pages))
  {
    FlushFromKeeps(g, o, c, 0);
    FlushFromLogs(g, o, c, 0);
    var c1 := FlushFrom(g, o, c, 0).0;
    var c' := Flush(g, o, c).0;
    assert forall i :: 0 <= i < |c1.pages| ==> PageSound(g, c1.disk, c1.pages[i]);
    assert SoundBut(g, c', -1);
    if Clean(c'.pages) {
      forall x | 0 <= x < g.n
        ensures c'.disk.sectors[x] == View(g, c', x)
      {
        CleanIsStored(g, c', x);
      }
    }
  }

  lemma CleanIsStored(g: Geo, c: Cache, x: nat)
    requires Inv(g, c) && Clean(c.pages) && x < g.n
    ensures c.disk.sectors[x] == View(g, c, x)
  {
    var h := Holder(c.pages, PageOf(g.sz, x));
    if h >= 0 {
      ViewIn(g, c, h, x);
      assert PageSound(g, c.disk, c.pages[h]);
      assert At(c.pages[h].data, x - c.pages[h].base) == At(c.disk.sectors, c.pages[h].base + (x - c.pages[h].base));
    }
  }

  /** A second flush writes nothing. */
  lemma {:induction false} CleanFlushWritesNothing(ps: seq<Page>, i: nat)
    requires Clean(ps) && i <= |ps|
    ensures FlushLog(ps, i) == []
    decreases |ps| - i
  {
    if i < |ps| && ps[i].base != EMPTY {
      CleanFlushWritesNothing(ps, i + 1);
    }
  }

  // ----- replacing an unknown size by a smaller one -----

  /** Pages loaded under the old size stay sound, and all remaining sectors keep
      their contents. */
  lemma NarrowKeeps(g: Geo, c: Cache, n: nat)
    requires Inv(g, c) && n <= g.n
    ensures Inv(Geo(g.sz, n), c)
    ensures forall x :: 0 <= x < n ==> View(Geo(g.sz, n), c, x) == View(g, c, x)
  {
    var g' := Geo(g.sz, n);
    forall i | 0 <= i < |c.pages|
      ensures PageSound(g', c.disk, c.pages[i]) && PageOk(g', |c.disk.sectors|, c.pages[i])
    {
      assert PageSound(g, c.disk, c.pages[i]);
    }
  }

  // ----- runs -----

  datatype Op = Access(rq: Req, buf: seq<Sector>) | FlushAll | Narrow(n: nat)

  datatype Result = Result(g: Geo, c: Cache, ok: bool, buf: seq<Sector>, finished: nat, torn: nat)

  /** What each operation needs from its caller. The loop as written (refresh
      false) needs a permitted request, the refreshed one does not. */
  ghost predicate MayRun(refresh: bool, g: Geo, c: Cache, op: Op) {
    match op
    case Access(rq, buf) => |buf| >= rq.num && (refresh || Permitted(g, c, rq))
    case FlushAll => true
    case Narrow(n) => n <= g.n
  }

  ghost function Exec(o: Oracle, refresh: bool, g: Geo, c: Cache, op: Op): (r: Result)
    requires Inv(g, c) && MayRun(refresh, g, c, op)
    ensures Inv(r.g, r.c)
  {
    match op
    case Access(rq, buf) =>
      AccessKeeps(o, refresh, g, c, rq, buf);
      var r := ReadWrite(g, o, refresh, c, rq, buf);
      Result(g, r.c, r.ok, r.buf, r.finished, r.torn)
    case FlushAll =>
      FlushKeeps(g, o, c);
      var (c', ok) := Flush(g, o, c);
      Result(g, c', ok, [], 0, 0)
    case Narrow(n) =>
      NarrowKeeps(g, c, n);
      Result(Geo(g.sz, n), c, true, [], 0, 0)
  }

  lemma AccessKeeps(o: Oracle, refresh: bool, g: Geo, c: Cache, rq: Req, buf: seq<Sector>)
    requires Inv(g, c) && MayRun(refresh, g, c, Access(rq, buf))
    ensures Transparent(g, o, c, rq, buf, ReadWrite(g, o, refresh, c, rq, buf))
  {
    if refresh {
      RefreshedRequestTransparent(g, o, c, rq, buf);
    } else {
      PermittedRequestTransparent(g, o, c, rq, buf);
    }
  }

  ghost predicate MayRunAll(o: Oracle, refresh: bool, g: Geo, c: Cache, ops: seq<Op>)
    requires Inv(g, c)
    decreases |ops|
  {
    ops != [] ==>
      && MayRun(refresh, g, c, ops[0])
      && var r := Exec(o, refresh, g, c, ops[0]);
         MayRunAll(o, refresh, r.g, r.c, ops[1..])
  }

  /** What the history says about each sector: the data of the last write that
      covered it, or nothing if a write failed while storing it. */
  type History = nat -> Option<Sector>

  ghost function Learn(k: History, op: Op, r: Result): History {
    if op.Access? && op.rq.write then
      (x: nat) =>
        if op.rq.first <= x < op.rq.first + r.finished then Some(At(op.buf, x - op.rq.first))
        else if op.rq.first + r.finished <= x < op.rq.first + r.finished + r.torn then None
        else k(x)
    else k
  }

  ghost predicate Agrees(g: Geo, c: Cache, k: History) {
    forall x: nat :: x < g.n && k(x).Some? ==> View(g, c, x) == k(x).value
  }

  /** A successful read returns, sector by sector, what the history says. */
  ghost predicate ReadAgrees(k: History, op: Op, r: Result) {
    op.Access? && !op.rq.write && r.ok ==>
      forall i: nat :: i < op.rq.num && k(op.rq.first + i).Some? ==> At(r.buf, i) == k(op.rq.first + i).value
  }

  /** One operation on a flat array, the view being the array. It succeeds exactly
      when it is in bounds and the device accepts all it asks for. A write that
      succeeds stores its data, a read that succeeds returns what the array holds;
      after a failure the finished sectors are done and only the chunk of a failed
      direct transfer is in doubt. A flush or a smaller size leaves the array alone. */
  ghost predicate FlatStep(o: Oracle, g: Geo, c: Cache, op: Op, r: Result) {
    match op
    case Access(rq, buf) =>
      r.g == g && Transparent(g, o, c, rq, buf, Outcome(r.ok, r.c, r.buf, r.finished, r.torn))
    case FlushAll => r.g == g && SameView(g, c, r.c) && Logged(o, c, r.c, r.ok)
    case Narrow(n) =>
      r.ok && r.g == Geo(g.sz, n) && forall x :: 0 <= x < n ==> View(r.g, r.c, x) == View(g, c, x)
  }

  /** Along the whole run the view is a flat array, agrees with the history, and
      every successful read returns what the history says. */
  ghost predicate FlatRun(o: Oracle, refresh: bool, g: Geo, c: Cache, ops: seq<Op>, k: History)
    requires Inv(g, c) && MayRunAll(o, refresh, g, c, ops)
    decreases |ops|
  {
    && Agrees(g, c, k)
    && (ops != [] ==>
          var r := Exec(o, refresh, g, c, ops[0]);
          && FlatStep(o, g, c, ops[0], r)
          && ReadAgrees(k, ops[0], r)
          && FlatRun(o, refresh, r.g, r.c, ops[1..], Learn(k, ops[0], r)))
  }

  /** Main theorem: any finite run of reads, writes, flushes and size changes, over
      any cache geometry and with any pattern of device failures, is a run on a flat
      array of sectors. Holds of the refreshed loop for all requests and of the loop
      as written for permitted ones. */
  lemma {:induction false} EveryRunIsFlat(o: Oracle, refresh: bool, g: Geo, c: Cache, ops: seq<Op>, k: History)
    requires Inv(g, c) && MayRunAll(o, refresh, g, c, ops) && Agrees(g, c, k)
    ensures FlatRun(o, refresh, g, c, ops, k)
    decreases |ops|
  {
    if ops != [] {
      var r := Exec(o, refresh, g, c, ops[0]);
      ExecIsFlat(o, refresh, g, c, ops[0]);
      ExecAgrees(o, refresh, g, c, ops[0], k);
      EveryRunIsFlat(o, refresh, r.g, r.c, ops[1..], Learn(k, ops[0], r));
    }
  }

  lemma ExecIsFlat(o: Oracle, refresh: bool, g: Geo, c: Cache, op: Op)
    requires Inv(g, c) && MayRun(refresh, g, c, op)
    ensures FlatStep(o, g, c, op, Exec(o, refresh, g, c, op))
  {
    match op
    case Access(rq, buf) =>
      AccessKeeps(o, refresh, g, c, rq, buf);
    case FlushAll =>
      FlushKeeps(g, o, c);
      FlushLogged(g, o, c);
    case Narrow(n) =>
      NarrowKeeps(g, c, n);
  }

  lemma ExecAgrees(o: Oracle, refresh: bool, g: Geo, c: Cache, op: Op, k: History)
    requires Inv(g, c) && MayRun(refresh, g, c, op) && Agrees(g, c, k)
    ensures var r := Exec(o, refresh, g, c, op);
      && Agrees(r.g, r.c, Learn(k, op, r))
      && ReadAgrees(k, op, r)
      && (op.Access? && r.ok ==> r.finished == op.rq.num)
  {
    match op
    case Access(rq, buf) =>
      AccessKeeps(o, refresh, g, c, rq, buf);
      AccessAgrees(g, c, rq, buf, ReadWrite(g, o, refresh, c, rq, buf), k);
    case FlushAll =>
      FlushKeeps(g, o, c);
    case Narrow(n) =>
      NarrowKeeps(g, c, n);
  }

  lemma AccessAgrees(g: Geo, c: Cache, rq: Req, buf: seq<Sector>, r: Outcome, k: History)
    requires Inv(g, c) && |buf| >= rq.num && Agrees(g, c, k)
    requires r.finished + r.torn <= rq.num && (r.ok ==> InBounds(g, rq) && r.finished == rq.num)
    requires Effect(g, rq, c, buf, r.c, r.buf, 0, r.finished, r.finished + r.torn)
    ensures var s := Result(g, r.c, r.ok, r.buf, r.finished, r.torn);
      Agrees(g, r.c, Learn(k, Access(rq, buf), s)) && ReadAgrees(k, Access(rq, buf), s)
  {
    var k' := Learn(k, Access(rq, buf), Result(g, r.c, r.ok, r.buf, r.finished, r.torn));
    forall x: nat | x < g.n && k'(x).Some?
      ensures View(g, r.c, x) == k'(x).value
    {
      assert View(g, c, x) == View(g, c, x);
    }
  }

  // ----- where a run ends -----

  /** Cache, geometry and history at the end of a run. */
  datatype End = End(g: Geo, c: Cache, k: History)

  ghost function Finish(o: Oracle, refresh: bool, e: End, ops: seq<Op>): (r: End)
    requires Inv(e.g, e.c) && MayRunAll(o, refresh, e.g, e.c, ops)
    ensures Inv(r.g, r.c)
    decreases |ops|
  {
    if ops == [] then e
    else
      var r := Exec(o, refresh, e.g, e.c, ops[0]);
      Finish(o, refresh, End(r.g, r.c, Learn(e.k, ops[0], r)), ops[1..])
  }

  lemma {:induction false} FinishAgrees(o: Oracle, refresh: bool, e: End, ops: seq<Op>)
    requires Inv(e.g, e.c) && MayRunAll(o, refresh, e.g, e.c, ops) && Agrees(e.g, e.c, e.k)
    ensures var r := Finish(o, refresh, e, ops); Agrees(r.g, r.c, r.k)
    decreases |ops|
  {
    if ops != [] {
      var r := Exec(o, refresh, e.g, e.c, ops[0]);
      ExecAgrees(o, refresh, e.g, e.c, ops[0], e.k);
      FinishAgrees(o, refresh, End(r.g, r.c, Learn(e.k, ops[0], r)), ops[1..]);
    }
  }

  lemma {:induction false} FinishSplits(o: Oracle, refresh: bool, e: End, before: seq<Op>, after: seq<Op>)
    requires Inv(e.g, e.c) && MayRunAll(o, refresh, e.g, e.c, before + after)
    ensures MayRunAll(o, refresh, e.g, e.c, before)
    ensures var m := Finish(o, refresh, e, before);
      MayRunAll(o, refresh, m.g, m.c, after) && Finish(o, refresh, e, before + after) == Finish(o, refresh, m, after)
    decreases |before|
  {
    if before == [] {
      assert before + after == after;
    } else {
      var r := Exec(o, refresh, e.g, e.c, before[0]);
      assert (before + after)[1..] == before[1..] + after;
      FinishSplits(o, refresh, End(r.g, r.c, Learn(e.k, before[0], r)), before[1..], after);
    }
  }
}
