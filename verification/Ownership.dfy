/** Who owns a disc. User counts go up and down in cache creation, mounting and
    unmounting; reaching zero runs a disc's destructor, and a cache's destructor
    flushes it and lets go of the disc beneath. */
module Ownership {
  import opened Wrappers

  /** Discs and volumes are numbered in order of allocation. */
  type DiscId = nat
  type VolumeId = nat

  /** What happens to discs: an access on behalf of a file system, a call of the
      destructor, the flush in a cache's destructor, any touch of a disc already gone. */
  datatype Event = Accessed(d: DiscId) | Destroyed(d: DiscId) | Flushed(d: DiscId) | Dangling(d: DiscId)

  /** `made[d]` is what disc d wraps; `users` has the live discs and their counts. */
  datatype Sys = Sys(
    made: seq<Option<DiscId>>,
    users: map<DiscId, nat>,
    volumes: map<VolumeId, DiscId>,
    devices: map<string, VolumeId>,
    nextVolume: nat,
    log: seq<Event>)

  // ----- invariant -----

  ghost function VolumesOn(s: Sys, d: DiscId): set<VolumeId> {
    set v | v in s.volumes && s.volumes[v] == d
  }

  ghost function CachesOn(s: Sys, d: DiscId): set<DiscId> {
    set c | c in s.users && c < |s.made| && s.made[c] == Some(d)
  }

  ghost function Users(s: Sys, d: DiscId): nat {
    |VolumesOn(s, d)| + |CachesOn(s, d)|
  }

  /** Links lead to live, older discs. */
  ghost predicate WellFormed(s: Sys) {
    && (forall d :: d in s.users ==> d < |s.made|)
    && (forall d {:trigger s.made[d]} :: d in s.users && s.made[d].Some? ==>
          s.made[d].value in s.users && s.made[d].value < d)
    && (forall v :: v in s.volumes ==> v < s.nextVolume && s.volumes[v] in s.users)
    && (forall n :: n in s.devices ==> s.devices[n] in s.volumes)
    && (forall m, n :: m in s.devices && n in s.devices && m != n ==> s.devices[m] != s.devices[n])
  }

  function Times(log: seq<Event>, e: Event): (n: nat)
    decreases |log|
  {
    if log == [] then 0
    else Times(log[..|log| - 1], e) + (if log[|log| - 1] == e then 1 else 0)
  }

  /** Every disc ever made is alive, or its destructor ran exactly once; nothing
      touched a dead disc. */
  ghost predicate OnceEach(s: Sys) {
    && (forall d: nat :: Times(s.log, Destroyed(d)) == if d < |s.made| && d !in s.users then 1 else 0)
    && (forall d: nat :: Times(s.log, Dangling(d)) == 0)
  }

  /** Disc x is y, or a cache stacked on it. */
  predicate Over(made: seq<Option<DiscId>>, x: DiscId, y: DiscId)
    decreases x
  {
    x == y || (x < |made| && made[x].Some? && made[x].value < x && Over(made, made[x].value, y))
  }

  /** Event ev reads or writes through disc d: it is an access to d or the flush of d,
      or of a cache stacked on it. */
  predicate Through(made: seq<Option<DiscId>>, ev: Event, d: DiscId) {
    (ev.Accessed? || ev.Flushed?) && Over(made, ev.d, d)
  }

  /** The last flush of cache c, at position k of the log, comes after everything else
      that goes through c and before the destructor of the disc beneath. */
  ghost predicate LastFlush(s: Sys, c: DiscId, i: DiscId, k: nat) {
    && k < |s.log| && s.log[k] == Flushed(c)
    && (forall j :: k < j < |s.log| ==> !Through(s.made, s.log[j], c))
    && (forall j :: 0 <= j < k ==> s.log[j] != Destroyed(i))
  }

  ghost predicate FlushedInTime(s: Sys) {
    forall c: nat :: c < |s.made| && c !in s.users && s.made[c].Some? ==>
      exists k: nat :: LastFlush(s, c, s.made[c].value, k)
  }

  /** Everything but the counts. */
  ghost predicate Sane(s: Sys) {
    WellFormed(s) && OnceEach(s) && FlushedInTime(s)
  }

  /** Every count is the number of users. */
  ghost predicate Counted(s: Sys) {
    forall d {:trigger Users(s, d)} :: d in s.users ==> s.users[d] == Users(s, d)
  }

  ghost predicate Owned(s: Sys) {
    Sane(s) && Counted(s)
  }

  // ----- user counts -----

  function Note(s: Sys, e: Event): Sys {
    s.(log := s.log + [e])
  }

  function Access(s: Sys, d: DiscId): Sys {
    Note(s, if d in s.users then Accessed(d) else Dangling(d))
  }

  function AddUser(s: Sys, d: DiscId): Sys {
    if d in s.users then s.(users := s.users[d := s.users[d] + 1]) else Note(s, Dangling(d))
  }

  function Destroy(s: Sys, d: DiscId): (r: Sys)
    ensures r.made == s.made && r.volumes == s.volumes && r.devices == s.devices && r.nextVolume == s.nextVolume
    ensures s.log <= r.log
    decreases d, 0
  {
    if d !in s.users || d >= |s.made| then Note(s, Dangling(d))
    else
      var s1 := Note(s.(users := s.users - {d}), Destroyed(d));
      match s.made[d]
      case None => s1
      case Some(i) => if i < d then RemoveUser(Note(s1, Flushed(d)), i) else Note(s1, Dangling(i))
  }

  function RemoveUser(s: Sys, d: DiscId): (r: Sys)
    ensures r.made == s.made && r.volumes == s.volumes && r.devices == s.devices && r.nextVolume == s.nextVolume
    ensures s.log <= r.log
    decreases d, 1
  {
    if d !in s.users || s.users[d] == 0 then Note(s, Dangling(d))
    else
      var s1 := s.(users := s.users[d := s.users[d] - 1]);
      if s1.users[d] == 0 then Destroy(s1, d) else s1
  }

  // ----- log and set arithmetic -----

  lemma TimesNote(log: seq<Event>, e: Event)
    ensures forall f :: Times(log + [e], f) == Times(log, f) + (if f == e then 1 else 0)
  {
    assert (log + [e])[..|log|] == log;
  }

  lemma {:induction false} TimesZero(log: seq<Event>, e: Event, j: nat)
    requires j < |log| && Times(log, e) == 0
    ensures log[j] != e
    decreases |log|
  {
    if j < |log| - 1 {
      TimesZero(log[..|log| - 1], e, j);
    }
  }

  // ----- stacks of caches -----

  /** A live disc stands on live ones. */
  lemma {:induction false} OverLive(s: Sys, x: DiscId, y: DiscId)
    requires WellFormed(s) && x in s.users && Over(s.made, x, y)
    ensures y in s.users && y <= x
    decreases x
  {
    if x != y {
      OverLive(s, s.made[x].value, y);
    }
  }

  lemma {:induction false} OverStable(made: seq<Option<DiscId>>, made': seq<Option<DiscId>>, x: DiscId, y: DiscId)
    requires made <= made' && x < |made|
    ensures Over(made', x, y) == Over(made, x, y)
    decreases x
  {
    if x != y && made[x].Some? && made[x].value < x {
      OverStable(made, made', made[x].value, y);
    }
  }

  /** What goes through a live disc goes through no dead one. */
  lemma LiveNotThrough(s: Sys, ev: Event, c: DiscId)
    requires WellFormed(s) && ev.d in s.users && c !in s.users
    ensures !Through(s.made, ev, c)
  {
    if Over(s.made, ev.d, c) {
      OverLive(s, ev.d, c);
    }
  }

  /** New discs are live, so what was no event through c is none now. */
  lemma StillNotThrough(s: Sys, s1: Sys, ev: Event, c: DiscId)
    requires WellFormed(s1) && s.made <= s1.made && c < |s.made| && c !in s1.users
    requires forall d: nat :: |s.made| <= d < |s1.made| ==> d in s1.users
    requires !Through(s.made, ev, c)
    ensures !Through(s1.made, ev, c)
  {
    if ev.d < |s.made| {
      OverStable(s.made, s1.made, ev.d, c);
    } else if ev.d < |s1.made| {
      LiveNotThrough(s1, ev, c);
    }
  }

  /** A last flush stays the last when what follows goes through live discs. */
  lemma LastFlushKept(s: Sys, s1: Sys, c: DiscId, k: nat)
    requires WellFormed(s1) && s.made <= s1.made && c < |s.made| && c !in s1.users && s.made[c].Some?
    requires forall d: nat :: |s.made| <= d < |s1.made| ==> d in s1.users
    requires s.log <= s1.log && forall j :: |s.log| <= j < |s1.log| ==> !Through(s1.made, s1.log[j], c)
    requires LastFlush(s, c, s.made[c].value, k)
    ensures LastFlush(s1, c, s.made[c].value, k)
  {
    forall j | k < j < |s1.log|
      ensures !Through(s1.made, s1.log[j], c)
    {
      if j < |s.log| {
        StillNotThrough(s, s1, s.log[j], c);
      }
    }
  }

  /** A noted event keeps the last flushes if it concerns a live disc. */
  lemma NoteKeepsFlushes(s: Sys, e: Event)
    requires FlushedInTime(s) && WellFormed(s)
    requires e.d in s.users || !(e.Accessed? || e.Flushed?)
    ensures FlushedInTime(Note(s, e))
  {
    var s' := Note(s, e);
    forall c: nat | c < |s'.made| && c !in s'.users && s'.made[c].Some?
      ensures exists k: nat :: LastFlush(s', c, s'.made[c].value, k)
    {
      var k: nat :| LastFlush(s, c, s.made[c].value, k);
      if e.d in s.users {
        LiveNotThrough(s, e, c);
      }
      LastFlushKept(s, s', c, k);
    }
  }

  /** With the log unchanged, last flushes carry over while no disc dies. */
  lemma FlushesCarry(s: Sys, s1: Sys)
    requires FlushedInTime(s) && WellFormed(s1) && s1.log == s.log && s.made <= s1.made
    requires forall c: nat :: c < |s1.made| && c !in s1.users ==> c < |s.made| && c !in s.users
    ensures FlushedInTime(s1)
  {
    forall c: nat | c < |s1.made| && c !in s1.users && s1.made[c].Some?
      ensures exists k: nat :: LastFlush(s1, c, s1.made[c].value, k)
    {
      var k: nat :| LastFlush(s, c, s.made[c].value, k);
      LastFlushKept(s, s1, c, k);
    }
  }

  /** Dropping disc d from the live ones takes one user from what it wraps. */
  lemma DropDisc(s: Sys, s': Sys, d: DiscId, e: DiscId)
    requires d in s.users && d < |s.made| && s'.volumes == s.volumes && s'.made == s.made
    requires s'.users.Keys == s.users.Keys - {d}
    ensures Users(s', e) == Users(s, e) - (if s.made[d] == Some(e) then 1 else 0)
  {
    assert VolumesOn(s', e) == VolumesOn(s, e);
    var cs := CachesOn(s, e);
    if s.made[d] == Some(e) {
      assert d in cs;
      assert CachesOn(s', e) == cs - {d};
    } else {
      assert d !in cs;
      assert CachesOn(s', e) == cs;
    }
  }

  lemma SameUsers(s: Sys, s': Sys, e: DiscId)
    requires s'.volumes == s.volumes && s'.made == s.made && s'.users.Keys == s.users.Keys
    ensures Users(s', e) == Users(s, e)
  {
    assert VolumesOn(s', e) == VolumesOn(s, e);
    assert CachesOn(s', e) == CachesOn(s, e);
  }

  ghost predicate SameUse(s: Sys, s': Sys) {
    forall e: nat :: Users(s', e) == Users(s, e)
  }

  lemma SameCounts(s: Sys, s': Sys)
    requires s'.volumes == s.volumes && s'.made == s.made && s'.users.Keys == s.users.Keys
    ensures SameUse(s, s')
    ensures Counted(s) && s'.users == s.users ==> Counted(s')
  {
    forall e: nat
      ensures Users(s', e) == Users(s, e)
    {
      SameUsers(s, s', e);
    }
  }

  lemma NoUsers(s: Sys, d: DiscId)
    requires Users(s, d) == 0
    ensures forall v :: v in s.volumes ==> s.volumes[v] != d
    ensures forall c :: c in s.users && c < |s.made| ==> s.made[c] != Some(d)
  {
    assert VolumesOn(s, d) == {} && CachesOn(s, d) == {};
    forall v | v in s.volumes
      ensures s.volumes[v] != d
    {
      assert s.volumes[v] == d ==> v in VolumesOn(s, d);
    }
    forall c | c in s.users && c < |s.made|
      ensures s.made[c] != Some(d)
    {
      assert s.made[c] == Some(d) ==> c in CachesOn(s, d);
    }
  }

  // ----- destructors -----

  /** The count of disc d is one more than its users: someone is letting go. */
  ghost predicate LettingGo(s: Sys, d: DiscId) {
    && Sane(s) && d in s.users
    && forall e {:trigger Users(s, e)} :: e in s.users ==> s.users[e] == Users(s, e) + (if e == d then 1 else 0)
  }

  /** No disc came to life, and those that died are exactly the ones that d stands on, or
      d itself, and that nobody uses any more. */
  ghost predicate OnlyUnusedDied(s: Sys, d: DiscId, r: Sys) {
    && r.users.Keys <= s.users.Keys
    && forall e :: e in s.users ==> (e !in r.users <==> Over(s.made, d, e) && Users(r, e) == 0)
  }

  /** A disc beneath a live one is used by what stands on it. */
  lemma {:induction false} BelowIsUsed(s: Sys, d: DiscId, e: DiscId)
    requires WellFormed(s) && d in s.users && Over(s.made, d, e) && e != d
    ensures Users(s, e) > 0
    decreases d
  {
    if s.made[d].value == e {
      assert d in CachesOn(s, e);
    } else {
      BelowIsUsed(s, s.made[d].value, e);
    }
  }

  lemma DeadIsUnused(s: Sys, d: DiscId)
    requires WellFormed(s) && d !in s.users
    ensures Users(s, d) == 0
  {
    assert VolumesOn(s, d) == {};
    assert CachesOn(s, d) == {};
  }

  /** When d lives on, so does all it stands on. */
  lemma NoneDied(s: Sys, d: DiscId, r: Sys)
    requires WellFormed(r) && r.made == s.made && r.users.Keys == s.users.Keys && d in r.users && Users(r, d) > 0
    ensures OnlyUnusedDied(s, d, r)
  {
    forall e | e in s.users && Over(s.made, d, e)
      ensures Users(r, e) > 0
    {
      if e != d {
        BelowIsUsed(r, d, e);
      }
    }
  }

  /** Disc d died, and then what died of the disc it wraps, if it wraps one. */
  lemma DiedBeneath(s: Sys, d: DiscId, s2: Sys, r: Sys)
    requires WellFormed(s) && d in s.users && s2.made == s.made && s2.users.Keys == s.users.Keys - {d}
    requires WellFormed(r) && d !in r.users
    requires if s.made[d].Some? then OnlyUnusedDied(s2, s.made[d].value, r) else r.users.Keys == s2.users.Keys
    ensures OnlyUnusedDied(s, d, r)
  {
    DeadIsUnused(r, d);
  }

  /** The books are in order, and the disc survived exactly if it had users left. */
  ghost predicate LetGo(s: Sys, d: DiscId, r: Sys) {
    && Owned(r) && OnlyUnusedDied(s, d, r)
    && (d in r.users <==> Users(s, d) > 0)
    && (d in r.users ==> Users(r, d) == Users(s, d))
  }

  /** Letting go restores the books. The disc survives exactly when someone else
      still uses it; its destructor, and those it sets off, run once. */
  lemma {:induction false} RemoveUserKeeps(s: Sys, d: DiscId)
    requires LettingGo(s, d)
    ensures LetGo(s, d, RemoveUser(s, d))
    decreases d, 1
  {
    assert s.users[d] == Users(s, d) + 1;
    var s1 := s.(users := s.users[d := s.users[d] - 1]);
    CountDown(s, d, s1);
    if s1.users[d] == 0 {
      DestroyKeeps(s1, d);
      DeadIsLetGo(s, s1, d, Destroy(s1, d));
    } else {
      assert RemoveUser(s, d) == s1;
    }
  }

  lemma DeadIsLetGo(s: Sys, s1: Sys, d: DiscId, r: Sys)
    requires Owned(r) && d !in r.users && Users(s, d) == 0 && OnlyUnusedDied(s1, d, r)
    requires s1.made == s.made && s1.users.Keys == s.users.Keys
    ensures LetGo(s, d, r)
  {
  }

  lemma CountDown(s: Sys, d: DiscId, s1: Sys)
    requires LettingGo(s, d) && s.users[d] >= 1 && s1 == s.(users := s.users[d := s.users[d] - 1])
    ensures Owned(s1) && d in s1.users && s1.users[d] == Users(s1, d) == Users(s, d)
    ensures s1.users.Keys == s.users.Keys
    ensures s1.users[d] > 0 ==> LetGo(s, d, s1)
  {
    SameLife(s, s1);
    SameCounts(s, s1);
    if s1.users[d] > 0 {
      NoneDied(s, d, s1);
    }
  }

  /** Counts do not matter to the rest of the invariant. */
  lemma SameLife(s: Sys, s1: Sys)
    requires Sane(s) && s1.users.Keys == s.users.Keys && s1 == s.(users := s1.users)
    ensures Sane(s1)
  {
    assert forall d: nat :: d in s1.users <==> d in s.users;
    FlushesCarry(s, s1);
  }

  /** Destroying a disc nobody uses keeps the books. */
  lemma {:induction false} DestroyKeeps(s: Sys, d: DiscId)
    requires Owned(s) && d in s.users && Users(s, d) == 0
    ensures Owned(Destroy(s, d)) && d !in Destroy(s, d).users && OnlyUnusedDied(s, d, Destroy(s, d))
    decreases d, 0
  {
    var s1 := Note(s.(users := s.users - {d}), Destroyed(d));
    if s.made[d].None? {
      PlainDestroyed(s, d, s1);
      DiedBeneath(s, d, s1, s1);
    } else {
      var s2 := Note(s1, Flushed(d));
      CacheDestroyed(s, d, s.made[d].value, s1, s2);
      RemoveUserKeeps(s2, s.made[d].value);
      StaysDead(s2, s.made[d].value, d);
      DiedBeneath(s, d, s2, Destroy(s, d));
    }
  }

  lemma PlainDestroyed(s: Sys, d: DiscId, s1: Sys)
    requires Owned(s) && d in s.users && Users(s, d) == 0 && s.made[d].None?
    requires s1 == Note(s.(users := s.users - {d}), Destroyed(d))
    ensures Owned(s1)
  {
    DropCounts(s, d, s1);
    DroppedFlushes(s, s1, d);
  }

  lemma CacheDestroyed(s: Sys, d: DiscId, i: DiscId, s1: Sys, s2: Sys)
    requires Owned(s) && d in s.users && Users(s, d) == 0 && s.made[d] == Some(i)
    requires s1 == Note(s.(users := s.users - {d}), Destroyed(d)) && s2 == Note(s1, Flushed(d))
    ensures LettingGo(s2, i)
  {
    DropCounts(s, d, s1);
    DropFlushed(s, d, i, s1, s2);
  }

  lemma DropCounts(s: Sys, d: DiscId, s1: Sys)
    requires Owned(s) && d in s.users && Users(s, d) == 0
    requires s1 == Note(s.(users := s.users - {d}), Destroyed(d))
    ensures OnceEach(s1) && WellFormed(s1)
    ensures forall e: nat :: e in s1.users ==> s1.users[e] == Users(s1, e) + (if s.made[d] == Some(e) then 1 else 0)
  {
    NoUsers(s, d);
    TimesNote(s.log, Destroyed(d));
    forall e: nat | e in s1.users
      ensures s1.users[e] == Users(s1, e) + (if s.made[d] == Some(e) then 1 else 0)
    {
      DropDisc(s, s1, d, e);
    }
  }

  lemma DropFlushed(s: Sys, d: DiscId, i: DiscId, s1: Sys, s2: Sys)
    requires Sane(s) && d in s.users && s.made[d] == Some(i)
    requires s1 == Note(s.(users := s.users - {d}), Destroyed(d)) && s2 == Note(s1, Flushed(d))
    requires OnceEach(s1) && WellFormed(s1)
    requires forall e: nat :: e in s1.users ==> s1.users[e] == Users(s1, e) + (if i == e then 1 else 0)
    ensures LettingGo(s2, i)
  {
    FlushedSane(s, d, i, s1, s2);
    SameCounts(s1, s2);
  }

  lemma FlushedSane(s: Sys, d: DiscId, i: DiscId, s1: Sys, s2: Sys)
    requires Sane(s) && d in s.users && s.made[d] == Some(i)
    requires s1 == Note(s.(users := s.users - {d}), Destroyed(d)) && s2 == Note(s1, Flushed(d))
    requires OnceEach(s1) && WellFormed(s1)
    ensures Sane(s2)
  {
    TimesNote(s1.log, Flushed(d));
    FlushNoted(s, s2, d, i);
  }

  lemma DroppedFlushes(s: Sys, s1: Sys, d: DiscId)
    requires FlushedInTime(s) && WellFormed(s1) && d < |s.made| && s.made[d].None?
    requires s1 == Note(s.(users := s.users - {d}), Destroyed(d))
    ensures FlushedInTime(s1)
  {
    forall c: nat | c < |s1.made| && c !in s1.users && s1.made[c].Some?
      ensures exists k: nat :: LastFlush(s1, c, s1.made[c].value, k)
    {
      var k: nat :| LastFlush(s, c, s.made[c].value, k);
      LastFlushKept(s, s1, c, k);
    }
  }

  lemma FlushNoted(s: Sys, s2: Sys, d: DiscId, i: DiscId)
    requires Sane(s) && WellFormed(s2) && d in s.users && s.made[d] == Some(i)
    requires s2 == s.(users := s.users - {d}, log := s.log + [Destroyed(d)] + [Flushed(d)])
    ensures FlushedInTime(s2)
  {
    forall c: nat | c < |s2.made| && c !in s2.users && s2.made[c].Some?
      ensures exists k: nat :: LastFlush(s2, c, s2.made[c].value, k)
    {
      if c == d {
        forall j | 0 <= j < |s.log| + 1
          ensures s2.log[j] != Destroyed(i)
        {
          if j < |s.log| {
            TimesZero(s.log, Destroyed(i), j);
          }
        }
        assert LastFlush(s2, d, i, |s.log| + 1);
      } else {
        var k: nat :| LastFlush(s, c, s.made[c].value, k);
        LiveNotThrough(s, Flushed(d), c);
        LastFlushKept(s, s2, c, k);
      }
    }
  }

  lemma {:induction false} StaysDead(s: Sys, i: DiscId, d: DiscId)
    requires d !in s.users
    ensures d !in RemoveUser(s, i).users
    decreases i, 1
  {
    if i in s.users && s.users[i] != 0 {
      var s1 := s.(users := s.users[i := s.users[i] - 1]);
      if s1.users[i] == 0 {
        DestroyedStaysDead(s1, i, d);
      }
    }
  }

  lemma {:induction false} DestroyedStaysDead(s: Sys, i: DiscId, d: DiscId)
    requires d !in s.users
    ensures d !in Destroy(s, i).users
    decreases i, 0
  {
    if i in s.users && i < |s.made| && s.made[i].Some? && s.made[i].value < i {
      StaysDead(Note(Note(s.(users := s.users - {i}), Destroyed(i)), Flushed(i)), s.made[i].value, d);
    }
  }

  // ----- discs and volumes -----

  function MakeDisc(s: Sys): Sys {
    s.(made := s.made + [None], users := s.users[|s.made| := 0])
  }

  /** Put a cache in front of disc d. */
  function MakeCache(s: Sys, d: DiscId): Sys {
    var s1 := AddUser(s, d);
    s1.(made := s1.made + [Some(d)], users := s1.users[|s1.made| := 0])
  }

  /** How one attempt at mounting a partition goes: is a driver registered for its
      type, is there memory for the volume, does the file system mount, does the
      device table take the volume under `name`. */
  datatype Attempt = Attempt(name: string, known: bool, memory: bool, mounts: bool, added: bool)

  /** The file system comes up, so a user is added before the device table is asked. */
  predicate ComesUp(a: Attempt) {
    a.known && a.memory && a.mounts
  }

  /** Release volume v: the file system's last accesses, then its hold on the disc. */
  function Umount(s: Sys, v: VolumeId): Sys
    requires v in s.volumes
  {
    var d := s.volumes[v];
    RemoveUser(Access(s, d).(volumes := s.volumes - {v}), d)
  }

  /** A mounted volume, numbered s.nextVolume, and its hold on the disc. */
  function NewVolumeOn(s: Sys, d: DiscId): (r: Sys)
    ensures r.nextVolume == s.nextVolume + 1 && s.nextVolume in r.volumes
  {
    var s1 := AddUser(s, d);
    s1.(volumes := s1.volumes[s1.nextVolume := d], nextVolume := s1.nextVolume + 1)
  }

  function MountPartition(s: Sys, d: DiscId, a: Attempt): (Sys, bool) {
    if !a.known || !a.memory then (s, false)
    else
      var s1 := Access(s, d);
      if !a.mounts then (s1, false)
      else
        var s2 := NewVolumeOn(s1, d);
        if a.added then (s2.(devices := s2.devices[a.name := s1.nextVolume]), true)
        else (Umount(s2, s1.nextVolume), false)
  }

  function UnmountVolume(s: Sys, name: string): (Sys, bool) {
    if name !in s.devices then (s, false)
    else
      var v := s.devices[name];
      var s1 := s.(devices := s.devices - {name});
      if v in s1.volumes then (Umount(s1, v), true) else (s1, false)
  }

  /** Try each partition in turn; how many came up. */
  function ProbeMount(s: Sys, d: DiscId, parts: seq<Attempt>): (r: (Sys, nat))
    ensures r.1 <= |parts|
    decreases |parts|
  {
    if parts == [] then (s, 0)
    else
      var (s1, ok) := MountPartition(s, d, parts[0]);
      var (s2, n) := ProbeMount(s1, d, parts[1..]);
      (s2, if ok then n + 1 else n)
  }

  /** Read the partition table of disc d, then try its partitions. */
  function ProbeDisc(s: Sys, d: DiscId, parts: seq<Attempt>): (Sys, nat) {
    ProbeMount(Access(s, d), d, parts)
  }

  /** Make a disc, cache it if asked to, mount what can be mounted, and give the
      disc up if nothing was. */
  function ProbeInterface(s: Sys, cached: bool, parts: seq<Attempt>): (Sys, nat) {
    var (s2, d) := Fresh(s, cached);
    var (s3, n) := ProbeDisc(s2, d, parts);
    (if n == 0 then Destroy(s3, d) else s3, n)
  }

  // ----- single steps keep the books -----

  lemma AccessKeeps(s: Sys, d: DiscId)
    requires Owned(s) && d in s.users
    ensures Owned(Access(s, d))
  {
    var s1 := Access(s, d);
    TimesNote(s.log, Accessed(d));
    NoteKeepsFlushes(s, Accessed(d));
    SameCounts(s, s1);
  }

  lemma AccessKeepsUsers(s: Sys, d: DiscId)
    requires Owned(s) && d in s.users
    ensures Owned(Access(s, d)) && Users(Access(s, d), d) == Users(s, d)
  {
    AccessKeeps(s, d);
    SameUsers(s, Access(s, d), d);
  }

  lemma MakeDiscKeeps(s: Sys)
    requires Owned(s)
    ensures Owned(MakeDisc(s)) && Users(MakeDisc(s), |s.made|) == 0
  {
    NewDisc(s, MakeDisc(s), None);
  }

  /** A disc was added that uses `inner`, if anything. */
  ghost predicate Joined(s: Sys, r: Sys, inner: Option<DiscId>) {
    forall e: nat :: e < |s.made| ==> Users(r, e) == Users(s, e) + (if inner == Some(e) then 1 else 0)
  }

  lemma NewDisc(s: Sys, s1: Sys, inner: Option<DiscId>)
    requires Sane(s) && (inner.Some? ==> inner.value in s.users)
    requires s1 == s.(made := s.made + [inner], users := s.users[|s.made| := 0])
    ensures Sane(s1) && Users(s1, |s.made|) == 0
    ensures Joined(s, s1, inner)
  {
    FlushesCarry(s, s1);
    NewDiscNoUsers(s, s1, inner);
    forall e: nat | e < |s.made|
      ensures Users(s1, e) == Users(s, e) + (if inner == Some(e) then 1 else 0)
    {
      NewDiscUsers(s, s1, inner, e);
    }
  }

  lemma NewDiscNoUsers(s: Sys, s1: Sys, inner: Option<DiscId>)
    requires WellFormed(s) && (inner.Some? ==> inner.value in s.users)
    requires s1.made == s.made + [inner] && s1.volumes == s.volumes && s1.users == s.users[|s.made| := 0]
    ensures Users(s1, |s.made|) == 0
  {
    assert VolumesOn(s1, |s.made|) == {};
    assert CachesOn(s1, |s.made|) == {};
  }

  lemma NewDiscUsers(s: Sys, s1: Sys, inner: Option<DiscId>, e: nat)
    requires (forall c :: c in s.users ==> c < |s.made|) && e < |s.made|
    requires s1.made == s.made + [inner] && s1.volumes == s.volumes && s1.users == s.users[|s.made| := 0]
    ensures Users(s1, e) == Users(s, e) + (if inner == Some(e) then 1 else 0)
  {
    assert VolumesOn(s1, e) == VolumesOn(s, e);
    NewDiscCaches(s, s1, inner, e);
  }

  lemma NewDiscCaches(s: Sys, s1: Sys, inner: Option<DiscId>, e: nat)
    requires (forall c :: c in s.users ==> c < |s.made|) && e < |s.made|
    requires s1.made == s.made + [inner] && s1.users == s.users[|s.made| := 0]
    ensures |CachesOn(s1, e)| == |CachesOn(s, e)| + (if inner == Some(e) then 1 else 0)
  {
    var d, cs := |s.made|, CachesOn(s, e);
    assert d !in cs;
    assert s1.made[d] == inner && forall c: nat :: c < d ==> s1.made[c] == s.made[c];
    forall c
      ensures c in CachesOn(s1, e) <==> c in cs || (c == d && inner == Some(e))
    {
    }
    if inner == Some(e) {
      assert CachesOn(s1, e) == cs + {d};
    } else {
      assert CachesOn(s1, e) == cs;
    }
  }

  lemma MakeCacheKeeps(s: Sys, d: DiscId)
    requires Owned(s) && d in s.users
    ensures var r := MakeCache(s, d);
      && Owned(r) && Users(r, |s.made|) == 0 && Users(r, d) == Users(s, d) + 1
      && r.made == s.made + [Some(d)] && r.users.Keys == s.users.Keys + {|s.made|}
      && r.volumes == s.volumes && r.devices == s.devices && r.log == s.log
  {
    var s1, r := AddUser(s, d), MakeCache(s, d);
    CacheSane(s, d, s1, r);
    SameCounts(s, s1);
    CacheCounts(s, d, s1, r);
  }

  lemma CacheSane(s: Sys, d: DiscId, s1: Sys, r: Sys)
    requires Sane(s) && d in s.users && s1 == AddUser(s, d) && r == MakeCache(s, d)
    ensures Sane(r) && Users(r, |s.made|) == 0
    ensures Joined(s1, r, Some(d))
  {
    SameLife(s, s1);
    NewDisc(s1, r, Some(d));
  }

  lemma CacheCounts(s: Sys, d: DiscId, s1: Sys, r: Sys)
    requires WellFormed(s) && Counted(s) && d in s.users && SameUse(s, s1)
    requires s1 == AddUser(s, d) && r == MakeCache(s, d) && Users(r, |s.made|) == 0
    requires s1.made == s.made && Joined(s1, r, Some(d))
    ensures Counted(r) && Users(r, d) == Users(s, d) + 1
  {
  }

  lemma NewVolumeKeeps(s: Sys, d: DiscId)
    requires Owned(s) && d in s.users
    ensures var r := NewVolumeOn(s, d);
      && Owned(r) && Users(r, d) == Users(s, d) + 1 && r.volumes[s.nextVolume] == d
      && forall n :: n in r.devices ==> r.devices[n] != s.nextVolume
  {
    var r := NewVolumeOn(s, d);
    NewVolumeSane(s, d, r);
    NewVolumeCounts(s, d, r);
  }

  lemma NewVolumeSane(s: Sys, d: DiscId, r: Sys)
    requires Sane(s) && d in s.users && r == NewVolumeOn(s, d)
    ensures Sane(r) && forall n :: n in r.devices ==> r.devices[n] != s.nextVolume
  {
    assert r.users.Keys == s.users.Keys;
    FlushesCarry(s, r);
  }

  lemma NewVolumeCounts(s: Sys, d: DiscId, r: Sys)
    requires Counted(s) && d in s.users && s.nextVolume !in s.volumes && r == NewVolumeOn(s, d)
    ensures Counted(r) && Users(r, d) == Users(s, d) + 1
  {
    assert r.users.Keys == s.users.Keys;
    forall e: nat
      ensures Users(r, e) == Users(s, e) + (if e == d then 1 else 0)
    {
      NewVolumeUsers(s, d, r, e);
    }
  }

  lemma NewVolumeUsers(s: Sys, d: DiscId, s3: Sys, e: nat)
    requires s.nextVolume !in s.volumes && s3.made == s.made && s3.users.Keys == s.users.Keys
    requires s3.volumes == s.volumes[s.nextVolume := d]
    ensures Users(s3, e) == Users(s, e) + (if e == d then 1 else 0)
  {
    assert CachesOn(s3, e) == CachesOn(s, e);
    NewVolumeListed(s, d, s3, e);
    if e == d {
      assert s.nextVolume !in VolumesOn(s, e);
    }
  }

  lemma NewVolumeListed(s: Sys, d: DiscId, s3: Sys, e: nat)
    requires s.nextVolume !in s.volumes && s3.volumes == s.volumes[s.nextVolume := d]
    ensures VolumesOn(s3, e) == VolumesOn(s, e) + (if e == d then {s.nextVolume} else {})
  {
  }

  /** Unmounting takes one user; the disc survives exactly when it was not the last. */
  lemma UmountKeeps(s: Sys, v: VolumeId)
    requires Owned(s) && v in s.volumes && forall n :: n in s.devices ==> s.devices[n] != v
    ensures var d := s.volumes[v];
      var r := Umount(s, v);
      && Owned(r) && (d in r.users <==> Users(s, d) > 1)
      && (d in r.users ==> Users(r, d) + 1 == Users(s, d))
      && r.volumes == s.volumes - {v} && r.devices == s.devices && OnlyUnusedDied(s, d, r)
  {
    var d := s.volumes[v];
    var s1 := Access(s, d);
    AccessKeeps(s, d);
    SameUsers(s, s1, d);
    var s2 := s1.(volumes := s.volumes - {v});
    DropVolume(s1, v, s2);
    RemoveUserKeeps(s2, d);
    assert s2.users == s.users && s2.made == s.made;
  }

  lemma DropVolume(s: Sys, v: VolumeId, s2: Sys)
    requires Owned(s) && v in s.volumes && (forall n :: n in s.devices ==> s.devices[n] != v)
    requires s2 == s.(volumes := s.volumes - {v})
    ensures LettingGo(s2, s.volumes[v]) && Users(s2, s.volumes[v]) + 1 == Users(s, s.volumes[v])
  {
    DropVolumeSane(s, v, s2);
    forall e: nat
      ensures Users(s, e) == Users(s2, e) + (if e == s.volumes[v] then 1 else 0)
    {
      DropVolumeUsers(s, v, s2, e);
    }
  }

  lemma DropVolumeSane(s: Sys, v: VolumeId, s2: Sys)
    requires Sane(s) && v in s.volumes && (forall n :: n in s.devices ==> s.devices[n] != v)
    requires s2 == s.(volumes := s.volumes - {v})
    ensures Sane(s2)
  {
    FlushesCarry(s, s2);
  }

  lemma DropVolumeUsers(s: Sys, v: VolumeId, s2: Sys, e: nat)
    requires v in s.volumes && s2 == s.(volumes := s.volumes - {v})
    ensures Users(s, e) == Users(s2, e) + (if e == s.volumes[v] then 1 else 0)
  {
    var vs := VolumesOn(s, e);
    assert CachesOn(s2, e) == CachesOn(s, e);
    if e == s.volumes[v] {
      assert v in vs;
      assert VolumesOn(s2, e) == vs - {v};
    } else {
      assert v !in vs;
      assert VolumesOn(s2, e) == vs;
    }
  }

  /** A refused volume leaves no trace but what died with it. */
  lemma RefusedVolumeGone(s: Sys, d: DiscId, s2: Sys, r: Sys)
    requires Owned(s) && d in s.users && s2 == NewVolumeOn(Access(s, d), d)
    requires WellFormed(r) && r.made == s.made && OnlyUnusedDied(s2, d, r) && r.volumes == s2.volumes - {s.nextVolume}
    ensures r.volumes == s.volumes
    ensures if d in r.users then r.users.Keys == s.users.Keys else OnlyUnusedDied(s, d, r)
  {
    assert s.nextVolume !in s.volumes;
    assert s2.users.Keys == s.users.Keys;
    if d in r.users {
      forall e | e in s.users
        ensures e in r.users
      {
        if e != d && Over(s.made, d, e) {
          BelowIsUsed(r, d, e);
        }
      }
    }
  }

  /** What a mount may end in. It succeeds exactly if the file system comes up and the
      device table takes it; then there is one volume and one name more. The disc dies
      exactly if the file system came up and was refused, with no other user. */
  ghost predicate MountEnds(s: Sys, d: DiscId, a: Attempt, r: Sys, ok: bool) {
    && Owned(r)
    && (d in r.users <==> !(ComesUp(a) && !a.added && Users(s, d) == 0))
    && (ok <==> ComesUp(a) && a.added)
    && (d in r.users ==> Users(r, d) == Users(s, d) + (if ok then 1 else 0))
    && r.volumes == (if ok then s.volumes[s.nextVolume := d] else s.volumes)
    && r.devices == (if ok then s.devices[a.name := s.nextVolume] else s.devices)
    && (if d in r.users then r.users.Keys == s.users.Keys else OnlyUnusedDied(s, d, r))
    && r.made == s.made
  }

  /** A failed mount leaves the disc to its owner exactly when it is not the case
      that the file system came up, the device table refused it and the disc had no
      other user. Either way the books are kept. */
  lemma MountKeeps(s: Sys, d: DiscId, a: Attempt)
    requires Owned(s) && d in s.users
    ensures var (r, ok) := MountPartition(s, d, a); MountEnds(s, d, a, r, ok)
  {
    if a.known && a.memory {
      AccessKeeps(s, d);
      SameUsers(s, Access(s, d), d);
      if a.mounts {
        UpMountKeeps(s, d, a);
      }
    }
  }

  lemma UpMountKeeps(s: Sys, d: DiscId, a: Attempt)
    requires Owned(s) && d in s.users && ComesUp(a)
    requires Owned(Access(s, d)) && Users(Access(s, d), d) == Users(s, d)
    ensures var (r, ok) := MountPartition(s, d, a); MountEnds(s, d, a, r, ok)
  {
    var s1 := Access(s, d);
    var s2, v := NewVolumeOn(s1, d), s1.nextVolume;
    NewVolumeKeeps(s1, d);
    assert s2.users.Keys == s.users.Keys;
    if a.added {
      DeviceAdded(s2, a.name, v);
    } else {
      UmountKeeps(s2, v);
      RefusedVolumeGone(s, d, s2, Umount(s2, v));
    }
  }

  lemma DeviceAdded(s: Sys, name: string, v: VolumeId)
    requires Owned(s) && v in s.volumes && (forall n :: n in s.devices ==> s.devices[n] != v)
    ensures var r := s.(devices := s.devices[name := v]); Owned(r) && SameUse(s, r)
  {
    var r := s.(devices := s.devices[name := v]);
    SaneDevice(s, name, v, r);
    SameCounts(s, r);
  }

  lemma SaneDevice(s: Sys, name: string, v: VolumeId, r: Sys)
    requires Sane(s) && v in s.volumes && (forall n :: n in s.devices ==> s.devices[n] != v)
    requires r == s.(devices := s.devices[name := v])
    ensures Sane(r)
  {
    FlushesCarry(s, r);
  }

  // ----- probing -----

  /** An attempt comes up and is refused by the device table before any succeeded:
      the disc's only user goes away again. */
  ghost predicate Fatal(parts: seq<Attempt>) {
    exists i :: 0 <= i < |parts| && ComesUp(parts[i]) && !parts[i].added
             && forall j :: 0 <= j < i ==> !(ComesUp(parts[j]) && parts[j].added)
  }

  lemma FatalTail(parts: seq<Attempt>)
    requires parts != [] && !(ComesUp(parts[0]) && parts[0].added)
    ensures Fatal(parts) <==> (ComesUp(parts[0]) && !parts[0].added) || Fatal(parts[1..])
  {
    if Fatal(parts[1..]) {
      var i :| 0 <= i < |parts[1..]| && ComesUp(parts[1..][i]) && !parts[1..][i].added
            && forall j :: 0 <= j < i ==> !(ComesUp(parts[1..][j]) && parts[1..][j].added);
      assert forall j :: 0 < j < i + 1 ==> parts[j] == parts[1..][j - 1];
      assert parts[i + 1] == parts[1..][i];
    }
    if Fatal(parts) && !(ComesUp(parts[0]) && !parts[0].added) {
      var i :| 0 <= i < |parts| && ComesUp(parts[i]) && !parts[i].added
            && forall j :: 0 <= j < i ==> !(ComesUp(parts[j]) && parts[j].added);
      assert parts[1..][i - 1] == parts[i];
      assert forall j :: 0 <= j < i - 1 ==> parts[1..][j] == parts[j + 1];
    }
  }

  /** Volumes that were not there before lie on disc d. */
  ghost predicate OnlyAddedOn(s: Sys, d: DiscId, r: Sys) {
    forall v :: v in r.volumes ==> (v in s.volumes && r.volumes[v] == s.volumes[v]) || r.volumes[v] == d
  }

  /** Unless an attempt is fatal, probing keeps the books, leaves the disc alive, and
      gives it one user per volume that came up. */
  lemma {:induction false} ProbeKeeps(s: Sys, d: DiscId, parts: seq<Attempt>)
    requires Owned(s) && d in s.users
    requires Users(s, d) == 0 ==> !Fatal(parts)
    ensures var (r, n) := ProbeMount(s, d, parts);
      && Owned(r) && d in r.users && Users(r, d) == Users(s, d) + n
      && r.made == s.made && r.users.Keys == s.users.Keys && OnlyAddedOn(s, d, r)
    decreases |parts|
  {
    if parts != [] {
      MountKeeps(s, d, parts[0]);
      var (s1, ok) := MountPartition(s, d, parts[0]);
      if !ok {
        FatalTail(parts);
      }
      assert d in s1.users by {
        if Users(s, d) == 0 && ComesUp(parts[0]) && !parts[0].added {
          FatalTail(parts);
        }
      }
      ProbeKeeps(s1, d, parts[1..]);
    }
  }

  lemma {:induction false} TimesGrows(log: seq<Event>, log': seq<Event>, e: Event)
    requires log <= log'
    ensures Times(log, e) <= Times(log', e)
    decreases |log'|
  {
    if |log| < |log'| {
      TimesGrows(log, log'[..|log'| - 1], e);
    } else {
      assert log == log';
    }
  }

  /** Mounting on a dead disc does not revive it, and touches it if it gets as far
      as the file system. */
  lemma DeadMount(s: Sys, d: DiscId, a: Attempt)
    requires d !in s.users
    ensures var (r, ok) := MountPartition(s, d, a);
      && d !in r.users && s.log <= r.log
      && (a.known && a.memory ==> Times(r.log, Dangling(d)) >= 1)
  {
    if a.known && a.memory {
      var s1 := Access(s, d);
      TimesNote(s.log, Dangling(d));
      if a.mounts {
        var s2 := NewVolumeOn(s1, d);
        if !a.added {
          StaysDead(Access(s2, d).(volumes := s2.volumes - {s1.nextVolume}), d, d);
        }
      }
      TimesGrows(s1.log, MountPartition(s, d, a).0.log, Dangling(d));
    }
  }

  lemma {:induction false} DeadProbe(s: Sys, d: DiscId, parts: seq<Attempt>)
    requires d !in s.users
    ensures var (r, n) := ProbeMount(s, d, parts);
      && d !in r.users && s.log <= r.log
      && (n > 0 ==> Times(r.log, Dangling(d)) >= 1)
    decreases |parts|
  {
    if parts != [] {
      DeadMount(s, d, parts[0]);
      var (s1, ok) := MountPartition(s, d, parts[0]);
      DeadProbe(s1, d, parts[1..]);
      TimesGrows(s1.log, ProbeMount(s1, d, parts[1..]).0.log, Dangling(d));
    }
  }

  /** A fatal attempt kills the disc, and if probing still counts a volume the dead
      disc was touched. */
  lemma {:induction false} FatalProbe(s: Sys, d: DiscId, parts: seq<Attempt>)
    requires Owned(s) && d in s.users && Users(s, d) == 0 && Fatal(parts)
    ensures var (r, n) := ProbeMount(s, d, parts);
      d !in r.users && (n > 0 ==> Times(r.log, Dangling(d)) >= 1)
    decreases |parts|
  {
    var p := parts[0];
    assert !(ComesUp(p) && p.added) by {
      var i :| 0 <= i < |parts| && ComesUp(parts[i]) && !parts[i].added
            && forall j :: 0 <= j < i ==> !(ComesUp(parts[j]) && parts[j].added);
    }
    FatalTail(parts);
    MountKeeps(s, d, p);
    var s1 := MountPartition(s, d, p).0;
    if ComesUp(p) {
      DeadProbe(s1, d, parts[1..]);
    } else {
      FatalProbe(s1, d, parts[1..]);
    }
  }

  /** The state handed to probing: a fresh disc, perhaps behind a fresh cache. */
  function Fresh(s: Sys, cached: bool): (Sys, DiscId) {
    var d0 := |s.made|;
    if cached then (MakeCache(MakeDisc(s), d0), d0 + 1) else (MakeDisc(s), d0)
  }

  /** A disc was added, and if asked for a cache on it, which is then the disc to probe. */
  ghost predicate FreshDisc(s: Sys, cached: bool, s2: Sys, d: DiscId) {
    var n := |s.made|;
    && s2.made == s.made + (if cached then [None, Some(n)] else [None])
    && d == (if cached then n + 1 else n)
    && s2.users.Keys == s.users.Keys + (if cached then {n, n + 1} else {n})
    && s2.volumes == s.volumes && s2.devices == s.devices && s2.log == s.log
  }

  lemma FreshKeeps(s: Sys, cached: bool)
    requires Owned(s)
    ensures var (s2, d) := Fresh(s, cached);
      && Owned(s2) && d in s2.users && Users(s2, d) == 0 && FreshDisc(s, cached, s2, d)
  {
    MakeDiscKeeps(s);
    if cached {
      FreshCacheKeeps(s, MakeDisc(s));
    }
  }

  lemma FreshCacheKeeps(s: Sys, s1: Sys)
    requires Owned(s1) && s1 == MakeDisc(s)
    ensures var s2, d := MakeCache(s1, |s.made|), |s.made| + 1;
      Owned(s2) && d in s2.users && Users(s2, d) == 0 && FreshDisc(s, true, s2, d)
  {
    MakeCacheKeeps(s1, |s.made|);
    assert s1.made + [Some(|s.made|)] == s.made + [None, Some(|s.made|)];
  }

  /** The discs that were there live on, and the new ones exactly if something came up. */
  ghost predicate NewDiscsLive(s: Sys, cached: bool, r: Sys, n: nat) {
    && r.made == s.made + (if cached then [None, Some(|s.made|)] else [None])
    && forall e: nat :: e < |r.made| ==> (e in r.users <==> e in s.users || (e >= |s.made| && n > 0))
  }

  /** Probing an interface: exactly when no attempt is fatal, every disc is destroyed
      at most once and no dead disc is touched. Then the probed disc is destroyed here
      if nothing came up, and otherwise lives on with one user per volume. */
  lemma ProbeInterfaceExact(s: Sys, cached: bool, parts: seq<Attempt>)
    requires Owned(s)
    ensures var (r, n) := ProbeInterface(s, cached, parts);
      var d := if cached then |s.made| + 1 else |s.made|;
      && (Owned(r) <==> !Fatal(parts))
      && (!Fatal(parts) ==> (d in r.users <==> n > 0) && (n > 0 ==> Users(r, d) == n) && NewDiscsLive(s, cached, r, n))
  {
    FreshKeeps(s, cached);
    var (s2, d) := Fresh(s, cached);
    AccessKeepsUsers(s2, d);
    s2 := Access(s2, d);
    var (s3, n) := ProbeMount(s2, d, parts);
    if Fatal(parts) {
      FatalProbe(s2, d, parts);
      if n == 0 {
        TimesNote(s3.log, Dangling(d));
      }
    } else {
      ProbeKeeps(s2, d, parts);
      if n == 0 {
        DestroyKeeps(s3, d);
        GivenUp(s, cached, s3, d, Destroy(s3, d));
      }
    }
  }

  /** Giving up a fresh disc takes the disc beneath along. */
  lemma GivenUp(s: Sys, cached: bool, s3: Sys, d: DiscId, r: Sys)
    requires WellFormed(s) && WellFormed(r) && s3.made == r.made && OnlyUnusedDied(s3, d, r) && d !in r.users
    requires d == (if cached then |s.made| + 1 else |s.made|) && OnlyAddedOn(s, d, r)
    requires r.made == s.made + (if cached then [None, Some(|s.made|)] else [None])
    requires s3.users.Keys == s.users.Keys + (if cached then {|s.made|, |s.made| + 1} else {|s.made|})
    ensures NewDiscsLive(s, cached, r, 0)
  {
    OverFresh(r.made, d, |s.made|);
    if cached {
      BeneathFreshCache(s, r, |s.made|);
    }
    OldOnesLive(s, s3, d, r);
  }

  lemma OldOnesLive(s: Sys, s3: Sys, d: DiscId, r: Sys)
    requires (forall c :: c in s.users ==> c < |s.made|) && |s.made| <= d && d !in r.users
    requires forall e :: e in s3.users ==> e in s.users || e == d || e == |s.made|
    requires s.users.Keys <= s3.users.Keys && OnlyUnusedDied(s3, d, r)
    requires forall e: nat :: Over(s3.made, d, e) <==> e == d || e == |s.made|
    requires d != |s.made| ==> Users(r, |s.made|) == 0
    ensures forall e: nat :: e in r.users <==> e in s.users
  {
  }

  /** A fresh disc stands on nothing, a cache on it on that disc alone. */
  lemma OverFresh(made: seq<Option<DiscId>>, d: DiscId, n: DiscId)
    requires n < |made| && made[n] == None && (d == n || (d == n + 1 < |made| && made[d] == Some(n)))
    ensures forall e: nat :: Over(made, d, e) <==> e == d || e == n
  {
    forall e: nat
      ensures Over(made, d, e) <==> e == d || e == n
    {
      assert Over(made, n, e) <==> e == n;
    }
  }

  lemma BeneathFreshCache(s: Sys, r: Sys, n: DiscId)
    requires WellFormed(s) && WellFormed(r) && n == |s.made| && r.made == s.made + [None, Some(n)]
    requires n + 1 !in r.users && OnlyAddedOn(s, n + 1, r)
    ensures Users(r, n) == 0
  {
    assert VolumesOn(r, n) == {};
    assert CachesOn(r, n) == {} by {
      forall c | c in r.users && c < |r.made|
        ensures r.made[c] != Some(n)
      {
      }
    }
  }

  /** The failing case at its smallest: one partition, whose volume comes up and is
      refused by the device table. Releasing the volume runs the disc's destructor, and
      the prober then calls it a second time. */
  lemma RefusedVolume(s: Sys, cached: bool, name: string)
    requires Owned(s)
    ensures var parts := [Attempt(name, true, true, true, false)];
      var (s2, d) := Fresh(s, cached);
      var (s3, n) := ProbeDisc(s2, d, parts);
      && n == 0 && d !in s3.users && Times(s3.log, Destroyed(d)) == 1
      && ProbeInterface(s, cached, parts).0 == Destroy(s3, d) == Note(s3, Dangling(d))
  {
    var a := Attempt(name, true, true, true, false);
    FreshKeeps(s, cached);
    var (s2, d) := Fresh(s, cached);
    AccessKeepsUsers(s2, d);
    RefusedMount(Access(s2, d), d, a);
  }

  lemma RefusedMount(s: Sys, d: DiscId, a: Attempt)
    requires Owned(s) && d in s.users && Users(s, d) == 0 && ComesUp(a) && !a.added
    ensures var (r, n) := ProbeMount(s, d, [a]);
      n == 0 && d !in r.users && Times(r.log, Destroyed(d)) == 1
  {
    MountKeeps(s, d, a);
    assert [a][1..] == [];
    assert ProbeMount(s, d, [a]) == (MountPartition(s, d, a).0, 0);
  }

  // ----- runs -----

  /** Public entry points, and file-system traffic on a mounted volume. */
  datatype Op =
    | Probe(cached: bool, parts: seq<Attempt>)
    | ProbeOn(d: DiscId, parts: seq<Attempt>)
    | NewDisc
    | WrapDisc(d: DiscId)
    | GiveUp(d: DiscId)
    | MountOn(d: DiscId, a: Attempt)
    | Unmount(name: string)
    | Use(name: string)

  /** A caller hands over live discs, destroys only discs nobody uses, and the device
      table does not refuse the volume of a disc's only user. */
  ghost predicate Legal(s: Sys, op: Op) {
    match op
    case Probe(_, parts) => !Fatal(parts)
    case ProbeOn(d, parts) => d in s.users && (Users(s, d) == 0 ==> !Fatal(parts))
    case NewDisc => true
    case WrapDisc(d) => d in s.users
    case GiveUp(d) => d in s.users && Users(s, d) == 0
    case MountOn(d, a) => d in s.users && !(ComesUp(a) && !a.added && Users(s, d) == 0)
    case Unmount(_) => true
    case Use(name) => true
  }

  function Perform(s: Sys, op: Op): Sys {
    match op
    case Probe(cached, parts) => ProbeInterface(s, cached, parts).0
    case ProbeOn(d, parts) => ProbeDisc(s, d, parts).0
    case NewDisc => MakeDisc(s)
    case WrapDisc(d) => MakeCache(s, d)
    case GiveUp(d) => Destroy(s, d)
    case MountOn(d, a) => MountPartition(s, d, a).0
    case Unmount(name) => UnmountVolume(s, name).0
    case Use(name) =>
      if name in s.devices && s.devices[name] in s.volumes then Access(s, s.volumes[s.devices[name]]) else s
  }

  lemma PerformKeeps(s: Sys, op: Op)
    requires Owned(s) && Legal(s, op)
    ensures Owned(Perform(s, op))
  {
    match op
    case Probe(cached, parts) => ProbeInterfaceExact(s, cached, parts);
    case ProbeOn(d, parts) =>
      AccessKeepsUsers(s, d);
      ProbeKeeps(Access(s, d), d, parts);
    case NewDisc => MakeDiscKeeps(s);
    case WrapDisc(d) => MakeCacheKeeps(s, d);
    case GiveUp(d) => DestroyKeeps(s, d);
    case MountOn(d, a) => MountKeeps(s, d, a);
    case Unmount(name) => UnmountKeeps(s, name);
    case Use(name) =>
      if name in s.devices {
        AccessKeeps(s, s.volumes[s.devices[name]]);
      }
  }

  /** Every other name leads to the same volume on the same disc as before. */
  ghost predicate OthersStay(s: Sys, name: string, r: Sys) {
    forall n :: n in s.devices && n != name ==>
      && n in r.devices && r.devices[n] == s.devices[n]
      && s.devices[n] in s.volumes && s.devices[n] in r.volumes && r.volumes[s.devices[n]] == s.volumes[s.devices[n]]
  }

  /** Unmounting by name succeeds exactly for a mounted name. Only that name and its
      volume go, and with them the discs that nobody uses any more. */
  lemma UnmountKeeps(s: Sys, name: string)
    requires Owned(s)
    ensures var (r, ok) := UnmountVolume(s, name);
      && Owned(r) && (ok <==> name in s.devices) && OthersStay(s, name, r)
      && (if ok then r.devices == s.devices - {name} && r.volumes == s.volumes - {s.devices[name]} else r == s)
      && (ok ==> var d := s.volumes[s.devices[name]];
            (d in r.users <==> Users(s, d) > 1) && OnlyUnusedDied(s, d, r))
  {
    if name in s.devices {
      var v := s.devices[name];
      var s1 := s.(devices := s.devices - {name});
      NameRemoved(s, name, s1);
      UmountKeeps(s1, v);
      OthersLeft(s, name, Umount(s1, v));
    }
  }

  lemma NameRemoved(s: Sys, name: string, s1: Sys)
    requires Owned(s) && name in s.devices && s1 == s.(devices := s.devices - {name})
    ensures Owned(s1) && SameUse(s, s1)
  {
    FlushesCarry(s, s1);
    SameCounts(s, s1);
  }

  lemma OthersLeft(s: Sys, name: string, r: Sys)
    requires WellFormed(s) && name in s.devices
    requires r.devices == s.devices - {name} && r.volumes == s.volumes - {s.devices[name]}
    ensures OthersStay(s, name, r)
  {
  }

  /** The operation has a file system, or the prober, touch disc d. */
  ghost predicate Touches(s: Sys, op: Op, d: DiscId) {
    match op
    case Use(name) => name in s.devices && s.devices[name] in s.volumes && s.volumes[s.devices[name]] == d
    case Unmount(name) => name in s.devices && s.devices[name] in s.volumes && s.volumes[s.devices[name]] == d
    case MountOn(e, a) => e == d && a.known && a.memory
    case ProbeOn(e, _) => e == d
    case _ => false
  }

  /** Every touch of a live disc is in the log, ahead of what it leads to, and what only
      touches the disc leaves nothing else there. */
  lemma EveryTouchLogged(s: Sys, op: Op, d: DiscId)
    requires d in s.users && Touches(s, op, d)
    ensures s.log + [Accessed(d)] <= Perform(s, op).log
    ensures op.Use? || (op.MountOn? && (!op.a.mounts || op.a.added)) ==> Perform(s, op).log == s.log + [Accessed(d)]
  {
    match op
    case ProbeOn(_, parts) => ProbeExtendsLog(Access(s, d), d, parts);
    case _ =>
  }

  lemma {:induction false} ProbeExtendsLog(s: Sys, d: DiscId, parts: seq<Attempt>)
    ensures s.log <= ProbeMount(s, d, parts).0.log
    decreases |parts|
  {
    if parts != [] {
      ProbeExtendsLog(MountPartition(s, d, parts[0]).0, d, parts[1..]);
    }
  }

  ghost predicate LegalRun(s: Sys, ops: seq<Op>)
    decreases |ops|
  {
    ops != [] ==> Legal(s, ops[0]) && LegalRun(Perform(s, ops[0]), ops[1..])
  }

  function PerformAll(s: Sys, ops: seq<Op>): Sys
    decreases |ops|
  {
    if ops == [] then s else PerformAll(Perform(s, ops[0]), ops[1..])
  }

  const NOTHING := Sys([], map[], map[], map[], 0, [])

  /** Ownership over whole runs: from the empty system, whatever is probed, wrapped,
      mounted, used and unmounted, user counts equal users, each destructor runs
      once, and every dead cache was flushed after its last access and before the
      destructor of the disc beneath. */
  lemma {:induction false} EveryRunOwned(s: Sys, ops: seq<Op>)
    requires Owned(s) && LegalRun(s, ops)
    ensures Owned(PerformAll(s, ops))
    decreases |ops|
  {
    if ops != [] {
      PerformKeeps(s, ops[0]);
      EveryRunOwned(Perform(s, ops[0]), ops[1..]);
    }
  }

  lemma NothingOwned()
    ensures Owned(NOTHING)
  {
  }
}
