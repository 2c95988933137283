/** To the end of a cached disc's life: what the file systems were told is written
    is on the device beneath before that device's destructor runs. */
module Durability {
  import opened Wrappers
  import opened Device
  import opened CacheModel
  import opened CacheInvariant
  import opened Runs
  import Ownership
  import SoleUse

  // ----- a flush stores everything the history knows -----

  /** Every sector whose contents the history knows is on the device. */
  ghost predicate OnDevice(e: End) {
    forall x: nat :: x < e.g.n && x < |e.c.disk.sectors| && e.k(x).Some? ==> e.c.disk.sectors[x] == e.k(x).value
  }

  ghost predicate WorksFrom(o: Oracle, i: nat) {
    forall j: nat :: i <= j ==> o(j).ok
  }

  /** Where writes work no dirty entry survives a flush, whatever failed before. */
  lemma WorkingFlushCleans(g: Geo, o: Oracle, c: Cache)
    requires Inv(g, c) && WorksFrom(o, |c.disk.log|)
    ensures Clean(Flush(g, o, c).0.pages) && Flush(g, o, c).1
  {
    FlushFromKeeps(g, o, c, 0);
    FlushFromLogs(g, o, c, 0);
    var ps := FlushFrom(g, o, c, 0).0.pages;
    forall j | 0 <= j < |ps|
      ensures !Dirty(ps[j])
    {
      assert o(|c.disk.log| + DirtyBetween(c.pages, 0, j)).ok;
    }
  }

  /** A run that ends in a flush, the device working from there on: whatever device
      operations failed earlier, every write acknowledged in the run, and not lost
      to a later failed write on the same sector, is on the device. */
  lemma FlushedRunIsOnDevice(o: Oracle, refresh: bool, e: End, ops: seq<Op>)
    requires Inv(e.g, e.c) && MayRunAll(o, refresh, e.g, e.c, ops + [FlushAll]) && Agrees(e.g, e.c, e.k)
    requires MayRunAll(o, refresh, e.g, e.c, ops)
    requires WorksFrom(o, |Finish(o, refresh, e, ops).c.disk.log|)
    ensures OnDevice(Finish(o, refresh, e, ops + [FlushAll]))
  {
    FinishSplits(o, refresh, e, ops, [FlushAll]);
    FinishAgrees(o, refresh, e, ops);
    var m := Finish(o, refresh, e, ops);
    var r := Exec(o, refresh, m.g, m.c, FlushAll);
    assert Finish(o, refresh, m, [FlushAll]) == End(r.g, r.c, m.k);
    WorkingFlushCleans(m.g, o, m.c);
    FlushKeeps(m.g, o, m.c);
  }

  // ----- the operations a disc's users perform on it -----

  /** What the users of disc d do with it at each event of the log. */
  type Script = nat -> seq<Op>

  /** What event j means for disc d: its own flush, or whatever the file system or
      the cache on top does through it. */
  function OpsAt(s: Ownership.Sys, d: Ownership.DiscId, script: Script, j: nat): seq<Op>
    requires j < |s.log|
  {
    if !Ownership.Through(s.made, s.log[j], d) then []
    else if s.log[j] == Ownership.Flushed(d) then [FlushAll]
    else script(j)
  }

  /** The operations on disc d from position `from` of the log up to `till`. */
  function OpsOf(s: Ownership.Sys, d: Ownership.DiscId, script: Script, from: nat, till: nat): seq<Op>
    requires from <= till <= |s.log|
    decreases till
  {
    if from == till then [] else OpsOf(s, d, script, from, till - 1) + OpsAt(s, d, script, till - 1)
  }

  /** After its last flush nothing is done to the disc. */
  lemma {:induction false} OpsToLastFlush(s: Ownership.Sys, d: nat, script: Script, i: nat, from: nat, k: nat,
                                          till: nat)
    requires Ownership.LastFlush(s, d, i, k) && from <= k < till <= |s.log|
    ensures OpsOf(s, d, script, from, till) == OpsOf(s, d, script, from, k) + [FlushAll]
    decreases till
  {
    if till > k + 1 {
      OpsToLastFlush(s, d, script, i, from, k, till - 1);
    }
  }

  // ----- the device, whoever writes to it -----

  /** An operation on the cached disc, or sectors somebody else writes to the disc
      beneath: another cache on it, or a file system mounted on it directly. */
  datatype Deed = Own(op: Op) | Foreign(first: nat, data: seq<Sector>)

  type ForeignDeed = x: Deed | x.Foreign? witness Foreign(0, [])

  /** What other users write at each event of theirs. */
  type Others = nat -> seq<ForeignDeed>

  function Owns(ops: seq<Op>): (r: seq<Deed>)
    ensures |r| == |ops| && forall i :: 0 <= i < |ops| ==> r[i] == Own(ops[i])
  {
    seq(|ops|, i requires 0 <= i < |ops| => Own(ops[i]))
  }

  ghost function Do(o: Oracle, refresh: bool, e: End, x: Deed): (r: End)
    requires Struct(e.g, e.c)
    ensures Struct(r.g, r.c)
  {
    match x
    case Own(Access(rq, buf)) =>
      if |buf| < rq.num then e
      else
        var r := ReadWrite(e.g, o, refresh, e.c, rq, buf);
        End(e.g, r.c, Learn(e.k, x.op, Result(e.g, r.c, r.ok, r.buf, r.finished, r.torn)))
    case Own(FlushAll) => End(e.g, Flush(e.g, o, e.c).0, e.k)
    case Own(Narrow(n)) => if n <= e.g.n then End(Geo(e.g.sz, n), e.c, e.k) else e
    case Foreign(first, data) =>
      if first + |data| > |e.c.disk.sectors| then e
      else End(e.g, Cache(e.c.pages, DiskWrite(o, e.c.disk, first, data).0), e.k)
  }

  ghost function DoAll(o: Oracle, refresh: bool, e: End, xs: seq<Deed>): (r: End)
    requires Struct(e.g, e.c)
    ensures Struct(r.g, r.c)
    decreases |xs|
  {
    if xs == [] then e else Do(o, refresh, DoAll(o, refresh, e, xs[..|xs| - 1]), xs[|xs| - 1])
  }

  lemma {:induction false} DoAllSplits(o: Oracle, refresh: bool, e: End, xs: seq<Deed>, ys: seq<Deed>)
    requires Struct(e.g, e.c)
    ensures DoAll(o, refresh, e, xs + ys) == DoAll(o, refresh, DoAll(o, refresh, e, xs), ys)
    decreases |ys|
  {
    if ys == [] {
      assert xs + ys == xs;
    } else {
      var most := ys[..|ys| - 1];
      DoAllSplits(o, refresh, e, xs, most);
      assert (xs + ys)[..|xs + ys| - 1] == xs + most;
    }
  }

  /** Without foreign writes this is the run of the cached disc. */
  lemma {:induction false} OwnDeeds(o: Oracle, refresh: bool, e: End, ops: seq<Op>)
    requires Inv(e.g, e.c) && MayRunAll(o, refresh, e.g, e.c, ops)
    ensures DoAll(o, refresh, e, Owns(ops)) == Finish(o, refresh, e, ops)
    decreases |ops|
  {
    if ops != [] {
      var most, last := ops[..|ops| - 1], ops[|ops| - 1];
      assert most + [last] == ops;
      FinishSplits(o, refresh, e, most, [last]);
      OwnDeeds(o, refresh, e, most);
      OwnDeed(o, refresh, Finish(o, refresh, e, most), last);
      DoOneMore(o, refresh, e, most, last);
    }
  }

  lemma DoOneMore(o: Oracle, refresh: bool, e: End, most: seq<Op>, last: Op)
    requires Struct(e.g, e.c)
    ensures DoAll(o, refresh, e, Owns(most + [last])) == Do(o, refresh, DoAll(o, refresh, e, Owns(most)), Own(last))
  {
    assert Owns(most + [last]) == Owns(most) + [Own(last)];
    assert (Owns(most) + [Own(last)])[..|most|] == Owns(most);
  }

  lemma OwnDeed(o: Oracle, refresh: bool, m: End, op: Op)
    requires Inv(m.g, m.c) && MayRunAll(o, refresh, m.g, m.c, [op])
    ensures Do(o, refresh, m, Own(op)) == Finish(o, refresh, m, [op])
  {
    var r := Exec(o, refresh, m.g, m.c, op);
    assert [op][1..] == [];
    assert Finish(o, refresh, m, [op]) == End(r.g, r.c, Learn(m.k, op, r));
  }

  /** How a run is filled in: the verdicts of the disc beneath, the loop that is used,
      the state at the start, and what the users of the cache and others do. */
  datatype Play = Play(o: Oracle, refresh: bool, e: End, script: Script, others: Others)

  /** What event j means for cache d and the disc beneath. */
  function DeedsAt(p: Play, s: Ownership.Sys, d: Ownership.DiscId, j: nat): seq<Deed>
    requires j < |s.log|
  {
    if SoleUse.OtherUser(s.made, s.log[j], d) then p.others(j) else Owns(OpsAt(s, d, p.script, j))
  }

  /** Cache d and the disc beneath as they stand at position `till` of the log, from
      p.e at position `from`. */
  ghost function StandAt(p: Play, s: Ownership.Sys, d: Ownership.DiscId, from: nat, till: nat): (r: End)
    requires Struct(p.e.g, p.e.c) && from <= till <= |s.log|
    ensures Struct(r.g, r.c)
    decreases till
  {
    if from == till then p.e else DoAll(p.o, p.refresh, StandAt(p, s, d, from, till - 1), DeedsAt(p, s, d, till - 1))
  }

  /** The state at the start is sound, and every operation on d is one the loop serves. */
  ghost predicate Plays(p: Play, s: Ownership.Sys, d: Ownership.DiscId, from: nat)
    requires from <= |s.log|
  {
    && Inv(p.e.g, p.e.c) && Agrees(p.e.g, p.e.c, p.e.k)
    && MayRunAll(p.o, p.refresh, p.e.g, p.e.c, OpsOf(s, d, p.script, from, |s.log|))
  }

  /** If the disc beneath works from the flush at position k on, then at position m
      every sector whose contents the whole history of d knows is on it. */
  ghost predicate Durable(p: Play, s: Ownership.Sys, d: Ownership.DiscId, from: nat, k: nat, m: nat)
    requires Struct(p.e.g, p.e.c) && from <= k <= m <= |s.log|
  {
    var end := StandAt(p, s, d, from, m);
    && end.k == StandAt(p, s, d, from, |s.log|).k
    && (WorksFrom(p.o, |StandAt(p, s, d, from, k).c.disk.log|) ==> OnDevice(end))
  }

  /** Nobody else uses the discs beneath d between two positions of the log. */
  ghost predicate NoOther(s: Ownership.Sys, d: Ownership.DiscId, from: nat, till: nat)
    requires from <= till <= |s.log|
  {
    forall j :: from <= j < till ==> !SoleUse.OtherUser(s.made, s.log[j], d)
  }

  // ----- without other users -----

  lemma {:induction false} SoleStand(p: Play, s: Ownership.Sys, d: nat, from: nat, till: nat)
    requires from <= till <= |s.log| && NoOther(s, d, from, till) && Inv(p.e.g, p.e.c)
    ensures StandAt(p, s, d, from, till) == DoAll(p.o, p.refresh, p.e, Owns(OpsOf(s, d, p.script, from, till)))
    decreases till
  {
    if from < till {
      SoleStand(p, s, d, from, till - 1);
      OwnsJoin(p, OpsOf(s, d, p.script, from, till - 1), OpsAt(s, d, p.script, till - 1));
    }
  }

  lemma OwnsJoin(p: Play, xs: seq<Op>, ys: seq<Op>)
    requires Struct(p.e.g, p.e.c)
    ensures DoAll(p.o, p.refresh, p.e, Owns(xs + ys)) ==
      DoAll(p.o, p.refresh, DoAll(p.o, p.refresh, p.e, Owns(xs)), Owns(ys))
  {
    assert Owns(xs + ys) == Owns(xs) + Owns(ys);
    DoAllSplits(p.o, p.refresh, p.e, Owns(xs), Owns(ys));
  }

  /** After the last flush the history of d stays as it is. */
  lemma {:induction false} HistoryStays(p: Play, s: Ownership.Sys, d: nat, i: nat, from: nat, k: nat, m: nat, till: nat)
    requires Struct(p.e.g, p.e.c) && Ownership.LastFlush(s, d, i, k) && from <= k < m <= till <= |s.log|
    ensures StandAt(p, s, d, from, till).k == StandAt(p, s, d, from, m).k
    decreases till
  {
    if m < till {
      HistoryStays(p, s, d, i, from, k, m, till - 1);
      if SoleUse.OtherUser(s.made, s.log[till - 1], d) {
        ForeignTeachesNothing(p.o, p.refresh, StandAt(p, s, d, from, till - 1), p.others(till - 1));
      } else {
        assert DeedsAt(p, s, d, till - 1) == [];
      }
    }
  }

  lemma {:induction false} ForeignTeachesNothing(o: Oracle, refresh: bool, e: End, xs: seq<ForeignDeed>)
    requires Struct(e.g, e.c)
    ensures DoAll(o, refresh, e, xs).k == e.k
    decreases |xs|
  {
    if xs != [] {
      ForeignTeachesNothing(o, refresh, e, xs[..|xs| - 1]);
    }
  }

  lemma DurableAlone(p: Play, s: Ownership.Sys, d: nat, i: nat, from: nat, k: nat, m: nat)
    requires Ownership.LastFlush(s, d, i, k) && from <= k < m <= |s.log|
    requires NoOther(s, d, from, m) && Plays(p, s, d, from)
    ensures Durable(p, s, d, from, k, m)
  {
    var before := OpsOf(s, d, p.script, from, k);
    OpsToLastFlush(s, d, p.script, i, from, k, m);
    OpsToLastFlush(s, d, p.script, i, from, k, |s.log|);
    FinishSplits(p.o, p.refresh, p.e, before, [FlushAll]);
    SoleStand(p, s, d, from, k);
    SoleStand(p, s, d, from, m);
    OwnDeeds(p.o, p.refresh, p.e, before);
    OwnDeeds(p.o, p.refresh, p.e, before + [FlushAll]);
    HistoryStays(p, s, d, i, from, k, m, |s.log|);
    if WorksFrom(p.o, |StandAt(p, s, d, from, k).c.disk.log|) {
      FlushedRunIsOnDevice(p.o, p.refresh, p.e, before);
    }
  }

  // ----- with another user -----

  const KEPT: Sector := [0]
  const OVERWRITTEN: Sector := [1]

  ghost function Remembers(): History {
    (x: nat) => Some(KEPT)
  }

  /** A disc of one sector, known to hold KEPT and now holding w, behind an unused cache. */
  ghost predicate Bare(m: End, w: Sector) {
    && m.g == Geo(1, 1) && m.k == Remembers()
    && m.c.pages == [Page(0, EMPTY, 1, 0, [KEPT])] && m.c.disk.sectors == [w]
  }

  /** Nothing is done with the cache; the other user overwrites the sector at event j. */
  ghost function Overwriting(refresh: bool, j: nat): Play {
    Play((_: nat) => Verdict(true, (_: nat) => KEPT), refresh,
         End(Geo(1, 1), Cache([Page(0, EMPTY, 1, 0, [KEPT])], Disk([KEPT], [])), Remembers()),
         (_: nat) => [], (n: nat) => if n == j then [Foreign(0, [OVERWRITTEN])] else [])
  }

  lemma BareFlush(o: Oracle, refresh: bool, m: End, w: Sector)
    requires Bare(m, w) && Struct(m.g, m.c)
    ensures Bare(DoAll(o, refresh, m, [Own(FlushAll)]), w)
  {
    assert [Own(FlushAll)][..0] == [];
    assert DoAll(o, refresh, m, [Own(FlushAll)]) == Do(o, refresh, m, Own(FlushAll));
    assert FlushFrom(m.g, o, m.c, 0) == (m.c, true);
  }

  lemma BareWrite(o: Oracle, refresh: bool, m: End, w: Sector)
    requires Bare(m, w) && Struct(m.g, m.c) && WorksFrom(o, 0)
    ensures Bare(DoAll(o, refresh, m, [Foreign(0, [OVERWRITTEN])]), OVERWRITTEN)
  {
    var x := Foreign(0, [OVERWRITTEN]);
    assert [x][..0] == [];
    assert DoAll(o, refresh, m, [x]) == Do(o, refresh, m, x);
  }

  lemma {:induction false} BareStands(refresh: bool, s: Ownership.Sys, d: nat, from: nat, j: nat, till: nat)
    requires from <= till <= |s.log| && from <= j < |s.log| && SoleUse.OtherUser(s.made, s.log[j], d)
    requires var e := Overwriting(refresh, j).e; Struct(e.g, e.c)
    ensures Bare(StandAt(Overwriting(refresh, j), s, d, from, till), if j < till then OVERWRITTEN else KEPT)
    decreases till
  {
    if from < till {
      var p := Overwriting(refresh, j);
      BareStands(refresh, s, d, from, j, till - 1);
      var m := StandAt(p, s, d, from, till - 1);
      if till - 1 == j {
        BareWrite(p.o, refresh, m, KEPT);
      } else if DeedsAt(p, s, d, till - 1) != [] {
        assert DeedsAt(p, s, d, till - 1) == [Own(FlushAll)];
        BareFlush(p.o, refresh, m, if j < till - 1 then OVERWRITTEN else KEPT);
      }
    }
  }

  lemma BareSound(refresh: bool, j: nat)
    ensures var e := Overwriting(refresh, j).e; Inv(e.g, e.c) && Agrees(e.g, e.c, e.k)
  {
    var e := Overwriting(refresh, j).e;
    assert |e.c.pages| == 1 && e.c.pages[0].base == EMPTY;
    forall x: nat | x < e.g.n
      ensures View(e.g, e.c, x) == KEPT
    {
    }
  }

  ghost predicate OnlyFlushes(ops: seq<Op>) {
    forall i :: 0 <= i < |ops| ==> ops[i] == FlushAll
  }

  lemma {:induction false} FlushesMayRun(o: Oracle, refresh: bool, g: Geo, c: Cache, ops: seq<Op>)
    requires Inv(g, c) && OnlyFlushes(ops)
    ensures MayRunAll(o, refresh, g, c, ops)
    decreases |ops|
  {
    if ops != [] {
      FlushesMayRun(o, refresh, g, Exec(o, refresh, g, c, ops[0]).c, ops[1..]);
    }
  }

  lemma {:induction false} EmptyScript(s: Ownership.Sys, d: nat, script: Script, from: nat, till: nat)
    requires from <= till <= |s.log| && forall j: nat :: script(j) == []
    ensures OnlyFlushes(OpsOf(s, d, script, from, till))
    decreases till
  {
    if from < till {
      EmptyScript(s, d, script, from, till - 1);
      assert OnlyFlushes(OpsAt(s, d, script, till - 1));
    }
  }

  lemma OtherOverwrites(refresh: bool, s: Ownership.Sys, d: nat, from: nat, k: nat, m: nat, j: nat)
    requires from <= k < m <= |s.log| && from <= j < m && SoleUse.OtherUser(s.made, s.log[j], d)
    ensures var p := Overwriting(refresh, j); Plays(p, s, d, from) && !Durable(p, s, d, from, k, m)
  {
    QuietPlays(refresh, s, d, from, j);
    BareStands(refresh, s, d, from, j, m);
    NotDurable(Overwriting(refresh, j), s, d, from, k, m);
  }

  lemma QuietPlays(refresh: bool, s: Ownership.Sys, d: nat, from: nat, j: nat)
    requires from <= |s.log|
    ensures Plays(Overwriting(refresh, j), s, d, from)
  {
    var p := Overwriting(refresh, j);
    BareSound(refresh, j);
    EmptyScript(s, d, p.script, from, |s.log|);
    FlushesMayRun(p.o, refresh, p.e.g, p.e.c, OpsOf(s, d, p.script, from, |s.log|));
  }

  lemma NotDurable(p: Play, s: Ownership.Sys, d: nat, from: nat, k: nat, m: nat)
    requires Struct(p.e.g, p.e.c) && from <= k <= m <= |s.log| && WorksFrom(p.o, 0)
    requires Bare(StandAt(p, s, d, from, m), OVERWRITTEN)
    ensures !Durable(p, s, d, from, k, m)
  {
    assert StandAt(p, s, d, from, m).k(0) == Some(KEPT);
  }

  // ----- exactly when a cached disc is durable -----

  /** Whatever d's users and others do, and whatever failed before the last flush. */
  ghost predicate AlwaysDurable(refresh: bool, s: Ownership.Sys, d: Ownership.DiscId, from: nat, k: nat, m: nat)
    requires from <= k <= m <= |s.log|
  {
    forall p: Play :: p.refresh == refresh && Plays(p, s, d, from) ==> Durable(p, s, d, from, k, m)
  }

  /** Main theorem. Let cache d be flushed for the last time at position k of the log.
      From any position on, what the history of d knows is on the disc beneath at a
      later position m, whatever anybody does, if and only if nobody has used the
      discs beneath d other than through d in between. */
  lemma DurableExactly(refresh: bool, s: Ownership.Sys, d: nat, from: nat, k: nat, m: nat)
    requires d < |s.made| && s.made[d].Some? && Ownership.LastFlush(s, d, s.made[d].value, k)
    requires from <= k < m <= |s.log|
    ensures AlwaysDurable(refresh, s, d, from, k, m) <==> NoOther(s, d, from, m)
  {
    if NoOther(s, d, from, m) {
      forall p: Play | p.refresh == refresh && Plays(p, s, d, from)
        ensures Durable(p, s, d, from, k, m)
      {
        DurableAlone(p, s, d, s.made[d].value, from, k, m);
      }
    } else {
      var j: nat :| from <= j < m && SoleUse.OtherUser(s.made, s.log[j], d);
      OtherOverwrites(refresh, s, d, from, k, m, j);
    }
  }

  /** In every owned system state, let cache d be gone, having been the only user of
      the discs beneath, and let m be a point of the log where the destructor of the
      one it wraps runs, or its end. Then d was flushed for the last time before m, and
      whatever was done with d, or with caches on d, is durable at m. */
  lemma DurableBeforeDestroy(refresh: bool, s: Ownership.Sys, d: nat, m: nat) returns (k: nat)
    requires Ownership.Owned(s) && SoleUse.Alone(s, d) && d !in s.users
    requires m == |s.log| || (m < |s.log| && s.log[m] == Ownership.Destroyed(s.made[d].value))
    ensures k < m && Ownership.LastFlush(s, d, s.made[d].value, k)
    ensures AlwaysDurable(refresh, s, d, 0, k, m)
  {
    k :| Ownership.LastFlush(s, d, s.made[d].value, k);
    forall j | 0 <= j < m
      ensures !SoleUse.OtherUser(s.made, s.log[j], d)
    {
      SoleUse.AloneNoOther(s, d, j);
    }
    DurableExactly(refresh, s, d, 0, k, m);
  }

  /** From the call that wraps and probes a disc to the end: in every legal run in
      which nobody is handed the disc itself, once the cache is gone it is durable when
      the destructor of the disc runs. Caches may be put on the cache. */
  lemma ProbedDiscIsDurable(refresh: bool, before: seq<Ownership.Op>, parts: seq<Ownership.Attempt>,
                            after: seq<Ownership.Op>, m: nat)
    returns (k: nat)
    requires SoleUse.KeptPrivate(before, parts, after)
    requires var s, i := SoleUse.Probed(before, parts, after), SoleUse.ProbedDisc(before);
      && i + 1 !in s.users
      && (m == |s.log| || (m < |s.log| && s.log[m] == Ownership.Destroyed(i)))
    ensures var s, i := SoleUse.Probed(before, parts, after), SoleUse.ProbedDisc(before);
      && i + 1 < |s.made| && s.made[i + 1] == Some(i)
      && k < m && Ownership.LastFlush(s, i + 1, i, k)
      && AlwaysDurable(refresh, s, i + 1, 0, k, m)
  {
    SoleUse.ProbedDiscStaysAlone(before, parts, after);
    var s := SoleUse.Probed(before, parts, after);
    k := DurableBeforeDestroy(refresh, s, SoleUse.ProbedDisc(before) + 1, m);
  }

  // ----- a shared disc in a legal run -----

  lemma ForeignWriteShows(o: Oracle, refresh: bool, last: End, x: nat, w: Sector)
    requires Struct(last.g, last.c)
    requires x < last.g.n && last.k(x).Some? && last.k(x).value != w && WorksFrom(o, |last.c.disk.log|)
    ensures !OnDevice(DoAll(o, refresh, last, [Foreign(x, [w])]))
  {
    assert [Foreign(x, [w])][..0] == [];
    var d := DiskWrite(o, last.c.disk, x, [w]).0;
    assert d.sectors[x] == w;
    assert DoAll(o, refresh, last, [Foreign(x, [w])]) == End(last.g, Cache(last.c.pages, d), last.k);
  }

  lemma SharedStand(p: Play, x: nat, w: Sector)
    requires Struct(p.e.g, p.e.c) && p.others(6) == [Foreign(x, [w])] && p.others(7) == []
    ensures var s := SoleUse.SharedEnd();
      StandAt(p, s, 1, 0, 8) == DoAll(p.o, p.refresh, StandAt(p, s, 1, 0, 6), [Foreign(x, [w])])
  {
    var s := SoleUse.SharedEnd();
    assert SoleUse.OtherUser(s.made, s.log[6], 1) && SoleUse.OtherUser(s.made, s.log[7], 1);
    assert StandAt(p, s, 1, 0, 8) == StandAt(p, s, 1, 0, 7);
  }

  /** A disc with another user in a legal, owned run: a file system mounted on the disc
      directly may write, after the cache's last flush and before the disc's destructor,
      over what the cache stored there, whatever that was. */
  lemma SharedDiscLosesWrite(p: Play, x: nat, w: Sector)
    requires Struct(p.e.g, p.e.c) && p.others(6) == [Foreign(x, [w])] && p.others(7) == []
    requires var last := StandAt(p, SoleUse.SharedEnd(), 1, 0, 6);
      x < last.g.n && last.k(x).Some? && last.k(x).value != w && WorksFrom(p.o, |last.c.disk.log|)
    ensures Ownership.LegalRun(Ownership.NOTHING, SoleUse.SharedRun())
    ensures var s := Ownership.PerformAll(Ownership.NOTHING, SoleUse.SharedRun());
      && Ownership.Owned(s) && s.made == [None, Some(0)] && 1 !in s.users
      && |s.log| == 9 && s.log[5] == Ownership.Flushed(1) && s.log[8] == Ownership.Destroyed(0)
      && !OnDevice(StandAt(p, s, 1, 0, 8))
  {
    SoleUse.SharedRunEnds();
    Ownership.NothingOwned();
    Ownership.EveryRunOwned(Ownership.NOTHING, SoleUse.SharedRun());
    SharedStand(p, x, w);
    ForeignWriteShows(p.o, p.refresh, StandAt(p, SoleUse.SharedEnd(), 1, 0, 6), x, w);
  }
}
