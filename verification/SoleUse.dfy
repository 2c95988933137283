/** Discs with one user. A disc that probing wrapped in a cache has no other user for
    as long as nobody is handed the disc itself. */
module SoleUse {
  import opened Wrappers
  import opened Ownership

  /** The disc at the foot of the stack that x is in. */
  function Bottom(made: seq<Option<DiscId>>, x: DiscId): (r: DiscId)
    ensures r <= x
    decreases x
  {
    if x < |made| && made[x].Some? && made[x].value < x then Bottom(made, made[x].value) else x
  }

  /** Cache d stands on disc x, directly or through other caches. */
  predicate Below(made: seq<Option<DiscId>>, d: DiscId, x: DiscId) {
    x != d && Over(made, d, x)
  }

  /** Event ev may write to what cache d stands on without going through d: an access
      to a disc that stands on the same one as d, but not on d, or the flush of such a
      disc unless it is itself beneath d. */
  predicate OtherUser(made: seq<Option<DiscId>>, ev: Event, d: DiscId) {
    && Bottom(made, ev.d) == Bottom(made, d) && !Over(made, ev.d, d)
    && (ev.Accessed? || (ev.Flushed? && !Over(made, d, ev.d)))
  }

  /** All that ever used the discs beneath cache d used them through d: the stack does
      not branch below d, no volume lies there, and no file system ever touched them
      directly. Other caches may stand on d. */
  ghost predicate Alone(s: Sys, d: DiscId) {
    && d < |s.made| && s.made[d].Some? && s.made[d].value < d
    && Unbranched(s.made, d)
    && (forall v :: v in s.volumes ==> !Below(s.made, d, s.volumes[v]))
    && Untouched(s.made, s.log, d)
  }

  ghost predicate Unbranched(made: seq<Option<DiscId>>, d: DiscId) {
    forall x: nat :: x < |made| && Bottom(made, x) == Bottom(made, d) ==> Over(made, x, d) || Over(made, d, x)
  }

  ghost predicate Untouched(made: seq<Option<DiscId>>, log: seq<Event>, d: DiscId) {
    forall j :: 0 <= j < |log| && log[j].Accessed? ==> !Below(made, d, log[j].d)
  }

  /** Alone means that no event is another user's. */
  lemma AloneNoOther(s: Sys, d: DiscId, j: nat)
    requires Alone(s, d) && j < |s.log|
    ensures !OtherUser(s.made, s.log[j], d)
  {
    var x := s.log[j].d;
    if x >= |s.made| {
      assert Bottom(s.made, x) == x;
    }
  }

  /** The caller hands over disc i itself. */
  predicate Names(op: Op, i: DiscId) {
    match op
    case WrapDisc(d) => d == i
    case MountOn(d, _) => d == i
    case ProbeOn(d, _) => d == i
    case _ => false
  }

  /** The caller hands over no disc beneath d. */
  ghost predicate Spares(made: seq<Option<DiscId>>, op: Op, d: DiscId) {
    forall i :: Names(op, i) ==> !Below(made, d, i)
  }

  // ----- destructors touch nothing -----

  lemma {:induction false} ReleaseUntouched(s: Sys, x: DiscId, d: DiscId)
    requires Untouched(s.made, s.log, d)
    ensures Untouched(s.made, RemoveUser(s, x).log, d)
    decreases x, 1
  {
    if x in s.users && s.users[x] != 0 {
      var s1 := s.(users := s.users[x := s.users[x] - 1]);
      if s1.users[x] == 0 {
        DestroyUntouched(s1, x, d);
      }
    }
  }

  lemma {:induction false} DestroyUntouched(s: Sys, x: DiscId, d: DiscId)
    requires Untouched(s.made, s.log, d)
    ensures Untouched(s.made, Destroy(s, x).log, d)
    decreases x, 0
  {
    if x in s.users && x < |s.made| && s.made[x].Some? && s.made[x].value < x {
      ReleaseUntouched(Note(Note(s.(users := s.users - {x}), Destroyed(x)), Flushed(x)), s.made[x].value, d);
    }
  }

  // ----- every operation that hands over no disc beneath d keeps it alone -----

  lemma AccessAlone(s: Sys, d: DiscId, x: DiscId)
    requires Alone(s, d) && !Below(s.made, d, x)
    ensures Alone(Access(s, x), d)
  {
  }

  lemma UmountAlone(s: Sys, d: DiscId, v: VolumeId)
    requires Alone(s, d) && v in s.volumes
    ensures Alone(Umount(s, v), d)
  {
    var x := s.volumes[v];
    AccessAlone(s, d, x);
    ReleaseUntouched(Access(s, x).(volumes := s.volumes - {v}), x, d);
  }

  lemma MountAlone(s: Sys, d: DiscId, x: DiscId, a: Attempt)
    requires Alone(s, d) && !Below(s.made, d, x)
    ensures Alone(MountPartition(s, x, a).0, d) && MountPartition(s, x, a).0.made == s.made
  {
    if a.known && a.memory {
      AccessAlone(s, d, x);
      var s1 := Access(s, x);
      if a.mounts {
        var s2 := NewVolumeOn(s1, x);
        assert Alone(s2, d);
        if !a.added {
          UmountAlone(s2, d, s1.nextVolume);
        }
      }
    }
  }

  lemma {:induction false} ProbeAlone(s: Sys, d: DiscId, x: DiscId, parts: seq<Attempt>)
    requires Alone(s, d) && !Below(s.made, d, x)
    ensures Alone(ProbeMount(s, x, parts).0, d) && ProbeMount(s, x, parts).0.made == s.made
    decreases |parts|
  {
    if parts != [] {
      MountAlone(s, d, x, parts[0]);
      ProbeAlone(MountPartition(s, x, parts[0]).0, d, x, parts[1..]);
    }
  }

  lemma DestroyAlone(s: Sys, d: DiscId, x: DiscId)
    requires Alone(s, d)
    ensures Alone(Destroy(s, x), d)
  {
    DestroyUntouched(s, x, d);
  }

  lemma {:induction false} BottomStable(made: seq<Option<DiscId>>, made': seq<Option<DiscId>>, x: DiscId)
    requires made <= made' && x < |made|
    ensures Bottom(made', x) == Bottom(made, x)
    decreases x
  {
    if made[x].Some? && made[x].value < x {
      BottomStable(made, made', made[x].value);
    }
  }

  lemma BelowStable(made: seq<Option<DiscId>>, made': seq<Option<DiscId>>, d: DiscId)
    requires made <= made' && d < |made|
    ensures forall x: nat :: Below(made', d, x) == Below(made, d, x)
  {
    forall x: nat
      ensures Below(made', d, x) == Below(made, d, x)
    {
      OverStable(made, made', d, x);
    }
  }

  /** A new disc beneath nothing, or on a disc that is not beneath d, is no branch. */
  lemma StaysUnbranched(made: seq<Option<DiscId>>, inner: Option<DiscId>, d: DiscId)
    requires d < |made| && Unbranched(made, d)
    requires inner.Some? ==> !Below(made, d, inner.value)
    ensures Unbranched(made + [inner], d)
  {
    var made' := made + [inner];
    BottomStable(made, made', d);
    forall x: nat | x < |made'| && Bottom(made', x) == Bottom(made', d)
      ensures Over(made', x, d) || Over(made', d, x)
    {
      if x < |made| {
        NoBranchAt(made, made', x, d);
      } else {
        assert inner.Some? && inner.value < x;
        NoBranchAt(made, made', inner.value, d);
        OverStable(made, made', d, inner.value);
      }
    }
  }

  lemma NoBranchAt(made: seq<Option<DiscId>>, made': seq<Option<DiscId>>, x: nat, d: DiscId)
    requires d < |made| && x < |made| && made <= made' && Unbranched(made, d)
    requires Bottom(made', x) == Bottom(made, d)
    ensures Over(made', x, d) || Over(made', d, x)
  {
    BottomStable(made, made', x);
    OverStable(made, made', x, d);
    OverStable(made, made', d, x);
  }

  lemma GrownAlone(s: Sys, s1: Sys, d: DiscId, inner: Option<DiscId>)
    requires Alone(s, d) && (inner.Some? ==> !Below(s.made, d, inner.value))
    requires s1.made == s.made + [inner] && s1.volumes == s.volumes
    requires s.log <= s1.log && forall j :: |s.log| <= j < |s1.log| ==> !s1.log[j].Accessed?
    ensures Alone(s1, d)
  {
    StaysUnbranched(s.made, inner, d);
    BelowStable(s.made, s1.made, d);
  }

  lemma FreshAlone(s: Sys, d: DiscId, cached: bool)
    requires Alone(s, d)
    ensures var (s2, x) := Fresh(s, cached);
      Alone(s2, d) && !Below(s2.made, d, x) && s.made <= s2.made
  {
    var s1, n := MakeDisc(s), |s.made|;
    GrownAlone(s, s1, d, None);
    BelowOlder(s1.made, d);
    if cached {
      GrownAlone(s1, MakeCache(s1, n), d, Some(n));
      BelowOlder(MakeCache(s1, n).made, d);
    }
  }

  lemma BelowOlder(made: seq<Option<DiscId>>, d: DiscId)
    ensures forall x: nat :: Below(made, d, x) ==> x < d
  {
    forall x: nat | Below(made, d, x)
      ensures x < d
    {
      OverOlder(made, d, x);
    }
  }

  lemma {:induction false} OverOlder(made: seq<Option<DiscId>>, d: DiscId, x: DiscId)
    requires Over(made, d, x)
    ensures x <= d
    decreases d
  {
    if x != d {
      OverOlder(made, made[d].value, x);
    }
  }

  lemma ProbeInterfaceAlone(s: Sys, d: DiscId, cached: bool, parts: seq<Attempt>)
    requires Alone(s, d)
    ensures Alone(ProbeInterface(s, cached, parts).0, d) && s.made <= ProbeInterface(s, cached, parts).0.made
  {
    FreshAlone(s, d, cached);
    var (s2, x) := Fresh(s, cached);
    AccessAlone(s2, d, x);
    ProbeAlone(Access(s2, x), d, x, parts);
    DestroyAlone(ProbeDisc(s2, x, parts).0, d, x);
  }

  lemma UnmountAlone(s: Sys, d: DiscId, name: string)
    requires Alone(s, d)
    ensures Alone(UnmountVolume(s, name).0, d)
  {
    if name in s.devices && s.devices[name] in s.volumes {
      UmountAlone(s.(devices := s.devices - {name}), d, s.devices[name]);
    }
  }

  lemma PerformAlone(s: Sys, d: DiscId, op: Op)
    requires Alone(s, d) && Spares(s.made, op, d)
    ensures Alone(Perform(s, op), d) && s.made <= Perform(s, op).made
  {
    match op
    case Probe(cached, parts) => ProbeInterfaceAlone(s, d, cached, parts);
    case ProbeOn(x, parts) =>
      assert Names(op, x);
      AccessAlone(s, d, x);
      ProbeAlone(Access(s, x), d, x, parts);
    case NewDisc => GrownAlone(s, MakeDisc(s), d, None);
    case WrapDisc(x) =>
      assert Names(op, x);
      GrownAlone(s, MakeCache(s, x), d, Some(x));
    case GiveUp(x) => DestroyAlone(s, d, x);
    case MountOn(x, a) =>
      assert Names(op, x);
      MountAlone(s, d, x, a);
    case Unmount(name) => UnmountAlone(s, d, name);
    case Use(name) =>
      if name in s.devices && s.devices[name] in s.volumes {
        AccessAlone(s, d, s.volumes[s.devices[name]]);
      }
  }

  lemma {:induction false} RunAlone(s: Sys, d: DiscId, ops: seq<Op>)
    requires Alone(s, d) && forall k :: 0 <= k < |ops| ==> Spares(s.made, ops[k], d)
    ensures Alone(PerformAll(s, ops), d) && s.made <= PerformAll(s, ops).made
    decreases |ops|
  {
    if ops != [] {
      var s1 := Perform(s, ops[0]);
      PerformAlone(s, d, ops[0]);
      BelowStable(s.made, s1.made, d);
      RunAlone(s1, d, ops[1..]);
    }
  }

  // ----- a disc wrapped by probing starts alone -----

  /** Nothing speaks of discs that were not made yet. */
  ghost predicate Grounded(s: Sys) {
    && (forall d :: d in s.users ==> d < |s.made|)
    && (forall c: nat :: c < |s.made| && s.made[c].Some? ==> s.made[c].value < |s.made|)
    && (forall v :: v in s.volumes ==> s.volumes[v] < |s.made|)
    && LogGrounded(s.log, |s.made|)
  }

  ghost predicate LogGrounded(log: seq<Event>, n: nat) {
    forall j :: 0 <= j < |log| && log[j].Accessed? ==> log[j].d < n
  }

  lemma {:induction false} ReleaseGrounded(s: Sys, d: DiscId)
    requires Grounded(s)
    ensures Grounded(RemoveUser(s, d))
    decreases d, 1
  {
    if d in s.users && s.users[d] != 0 {
      var s1 := s.(users := s.users[d := s.users[d] - 1]);
      assert Grounded(s1);
      if s1.users[d] == 0 {
        DestroyGrounded(s1, d);
      }
    }
  }

  lemma {:induction false} DestroyGrounded(s: Sys, d: DiscId)
    requires Grounded(s)
    ensures Grounded(Destroy(s, d))
    decreases d, 0
  {
    if d in s.users && d < |s.made| {
      var s1 := Note(s.(users := s.users - {d}), Destroyed(d));
      assert Grounded(s1);
      if s.made[d].Some? && s.made[d].value < d {
        ReleaseGrounded(Note(s1, Flushed(d)), s.made[d].value);
      }
    }
  }

  lemma UmountGrounded(s: Sys, v: VolumeId)
    requires Grounded(s) && v in s.volumes
    ensures Grounded(Umount(s, v))
  {
    var s1 := Access(s, s.volumes[v]).(volumes := s.volumes - {v});
    assert Grounded(s1);
    ReleaseGrounded(s1, s.volumes[v]);
  }

  lemma MountGrounded(s: Sys, d: DiscId, a: Attempt)
    requires Grounded(s) && d < |s.made|
    ensures Grounded(MountPartition(s, d, a).0) && MountPartition(s, d, a).0.made == s.made
  {
    if a.known && a.memory && a.mounts {
      var s1 := Access(s, d);
      var s2 := NewVolumeOn(s1, d);
      assert Grounded(s1);
      assert Grounded(s2);
      if !a.added {
        UmountGrounded(s2, s1.nextVolume);
      }
    }
  }

  lemma {:induction false} ProbeGrounded(s: Sys, d: DiscId, parts: seq<Attempt>)
    requires Grounded(s) && d < |s.made|
    ensures Grounded(ProbeMount(s, d, parts).0)
    decreases |parts|
  {
    if parts != [] {
      MountGrounded(s, d, parts[0]);
      ProbeGrounded(MountPartition(s, d, parts[0]).0, d, parts[1..]);
    }
  }

  lemma ProbeInterfaceGrounded(s: Sys, cached: bool, parts: seq<Attempt>)
    requires Grounded(s)
    ensures Grounded(ProbeInterface(s, cached, parts).0)
  {
    var (s2, d) := Fresh(s, cached);
    assert Grounded(s2);
    assert Grounded(Access(s2, d));
    ProbeGrounded(Access(s2, d), d, parts);
    DestroyGrounded(ProbeDisc(s2, d, parts).0, d);
  }

  lemma PerformGrounded(s: Sys, op: Op)
    requires Grounded(s) && Legal(s, op)
    ensures Grounded(Perform(s, op))
  {
    match op
    case Probe(cached, parts) => ProbeInterfaceGrounded(s, cached, parts);
    case ProbeOn(d, parts) =>
      assert Grounded(Access(s, d));
      ProbeGrounded(Access(s, d), d, parts);
    case NewDisc =>
    case WrapDisc(d) =>
    case GiveUp(d) => DestroyGrounded(s, d);
    case MountOn(d, a) => MountGrounded(s, d, a);
    case Unmount(name) =>
      if name in s.devices && s.devices[name] in s.volumes {
        UmountGrounded(s.(devices := s.devices - {name}), s.devices[name]);
      }
    case Use(name) =>
  }

  lemma {:induction false} RunGrounded(s: Sys, ops: seq<Op>)
    requires Grounded(s) && LegalRun(s, ops)
    ensures Grounded(PerformAll(s, ops))
    decreases |ops|
  {
    if ops != [] {
      PerformGrounded(s, ops[0]);
      RunGrounded(Perform(s, ops[0]), ops[1..]);
    }
  }

  /** A cache on a disc that wraps nothing has only that disc beneath. */
  lemma OnlyDiscBelow(made: seq<Option<DiscId>>, d: DiscId, n: DiscId)
    requires d == n + 1 < |made| && made[n] == None && made[d] == Some(n)
    ensures forall x: nat :: Below(made, d, x) ==> x == n
  {
    forall x: nat | Below(made, d, x)
      ensures x == n
    {
      assert Over(made, n, x) == (n == x);
    }
  }

  lemma NewStackAlone(s: Sys, s2: Sys, d: DiscId)
    requires Grounded(s) && s2.made == s.made + [None] + [Some(|s.made|)] && d == |s.made| + 1
    requires s2.volumes == s.volumes && s2.log == s.log
    ensures Alone(s2, d)
  {
    var n := |s.made|;
    assert Bottom(s2.made, n) == n && Over(s2.made, d, n);
    OnlyDiscBelow(s2.made, d, n);
    assert forall x: nat :: x < n ==> Bottom(s2.made, x) <= x;
  }

  /** The disc and the cache that probing makes are new, so nothing else uses them. */
  lemma ProbeMakesAlone(s: Sys, parts: seq<Attempt>)
    requires Grounded(s)
    ensures var r, d := Perform(s, Probe(true, parts)), |s.made| + 1;
      Alone(r, d) && r.made[d] == Some(|s.made|) && r.made[|s.made|] == None
  {
    var (s2, d) := Fresh(s, true);
    assert s2.made == s.made + [None] + [Some(|s.made|)];
    NewStackAlone(s, s2, d);
    AccessAlone(s2, d, d);
    ProbeAlone(Access(s2, d), d, d, parts);
    DestroyAlone(ProbeDisc(s2, d, parts).0, d, d);
  }

  /** The state after a run, a probe that makes a disc and its cache, and another run. */
  function Probed(before: seq<Op>, parts: seq<Attempt>, after: seq<Op>): Sys {
    PerformAll(Perform(PerformAll(NOTHING, before), Probe(true, parts)), after)
  }

  /** Number of the disc that probe makes; the cache has the next one. */
  function ProbedDisc(before: seq<Op>): DiscId {
    |PerformAll(NOTHING, before).made|
  }

  /** The calls are legal, and nobody is handed the disc beneath the cache. */
  ghost predicate KeptPrivate(before: seq<Op>, parts: seq<Attempt>, after: seq<Op>) {
    && LegalRun(NOTHING, before) && !Fatal(parts)
    && LegalRun(Perform(PerformAll(NOTHING, before), Probe(true, parts)), after)
    && forall k :: 0 <= k < |after| ==> !Names(after[k], ProbedDisc(before))
  }

  lemma PrivateRunAlone(s: Sys, i: DiscId, ops: seq<Op>)
    requires Alone(s, i + 1) && s.made[i + 1] == Some(i) && s.made[i] == None
    requires forall k :: 0 <= k < |ops| ==> !Names(ops[k], i)
    ensures Alone(PerformAll(s, ops), i + 1) && PerformAll(s, ops).made[i + 1] == Some(i)
  {
    OnlyDiscBelow(s.made, i + 1, i);
    RunAlone(s, i + 1, ops);
  }

  /** A disc probed and cached in the middle of a run and kept private: the cache stays
      its only user. */
  lemma ProbedDiscStaysAlone(before: seq<Op>, parts: seq<Attempt>, after: seq<Op>)
    requires KeptPrivate(before, parts, after)
    ensures var s, i := Probed(before, parts, after), ProbedDisc(before);
      Owned(s) && Alone(s, i + 1) && s.made[i + 1] == Some(i)
  {
    ProbedOwned(before, parts, after);
    var s0 := PerformAll(NOTHING, before);
    RunGrounded(NOTHING, before);
    ProbeMakesAlone(s0, parts);
    PrivateRunAlone(Perform(s0, Probe(true, parts)), |s0.made|, after);
  }

  lemma ProbedOwned(before: seq<Op>, parts: seq<Attempt>, after: seq<Op>)
    requires KeptPrivate(before, parts, after)
    ensures Owned(Probed(before, parts, after))
  {
    var s0 := PerformAll(NOTHING, before);
    NothingOwned();
    EveryRunOwned(NOTHING, before);
    PerformKeeps(s0, Probe(true, parts));
    EveryRunOwned(Perform(s0, Probe(true, parts)), after);
  }

  // ----- a disc that is handed out is not -----

  function Mounts(name: string): Attempt {
    Attempt(name, true, true, true, true)
  }

  /** A volume on a cache and one directly on the disc beneath; the first goes first. */
  function SharedRun(): seq<Op> {
    [NewDisc, WrapDisc(0), MountOn(1, Mounts("a")), MountOn(0, Mounts("b")),
     Use("a"), Unmount("a"), Use("b"), Unmount("b")]
  }

  function SharedLog(): seq<Event> {
    [Accessed(1), Accessed(0), Accessed(1), Accessed(1), Destroyed(1), Flushed(1),
     Accessed(0), Accessed(0), Destroyed(0)]
  }

  lemma First(s: Sys, op: Op, rest: seq<Op>, s1: Sys)
    requires Legal(s, op) && Perform(s, op) == s1
    ensures PerformAll(s, [op] + rest) == PerformAll(s1, rest)
    ensures LegalRun(s, [op] + rest) == LegalRun(s1, rest)
  {
    assert ([op] + rest)[1..] == rest;
  }

  /** Two volumes, one on cache 1 and one on disc 0. */
  function BothMounted(): Sys {
    Sys([None, Some(0)], map[0 := 2, 1 := 1], map[0 := 1, 1 := 0], map["a" := 0, "b" := 1], 2, SharedLog()[..2])
  }

  function Cached(): Sys {
    Sys([None, Some(0)], map[0 := 1, 1 := 0], map[], map[], 0, [])
  }

  function FirstMounted(): Sys {
    Sys([None, Some(0)], map[0 := 1, 1 := 1], map[0 := 1], map["a" := 0], 1, [Accessed(1)])
  }

  /** The cache is gone, flushed and destroyed; the disc lives on. */
  function CacheGone(): Sys {
    Sys([None, Some(0)], map[0 := 1], map[1 := 0], map["b" := 1], 2, SharedLog()[..6])
  }

  lemma MountsFirst()
    ensures Legal(Cached(), MountOn(1, Mounts("a"))) && Perform(Cached(), MountOn(1, Mounts("a"))) == FirstMounted()
  {
  }

  lemma MountsSecond()
    ensures Legal(FirstMounted(), MountOn(0, Mounts("b")))
    ensures Perform(FirstMounted(), MountOn(0, Mounts("b"))) == BothMounted()
  {
  }

  /** Cache 1 about to lose its last user. */
  function LastHold(): Sys {
    Sys([None, Some(0)], map[0 := 2, 1 := 1], map[1 := 0], map["b" := 1], 2, SharedLog()[..4])
  }

  lemma CacheReleased()
    ensures RemoveUser(LastHold(), 1) == CacheGone()
  {
    var s2 := LastHold().(users := map[0 := 2, 1 := 0]);
    var s3 := Note(Note(s2.(users := map[0 := 2]), Destroyed(1)), Flushed(1));
    assert s2.users - {1} == map[0 := 2];
    assert RemoveUser(s3, 0) == s3.(users := map[0 := 1]);
    assert Destroy(s2, 1) == RemoveUser(s3, 0);
    assert LastHold().users[1 := 0] == s2.users;
  }

  lemma UnmountsFirst()
    ensures Perform(Note(BothMounted(), Accessed(1)), Unmount("a")) == CacheGone()
  {
    var s0 := Note(BothMounted(), Accessed(1));
    var s := s0.(devices := map["b" := 1]);
    assert s0.devices - {"a"} == map["b" := 1];
    assert UnmountVolume(s0, "a").0 == Umount(s, 0);
    LastUnmount(s);
  }

  lemma LastUnmount(s: Sys)
    requires s == Note(BothMounted(), Accessed(1)).(devices := map["b" := 1])
    ensures Umount(s, 0) == CacheGone()
  {
    assert Access(s, 1).(volumes := s.volumes - {0}) == LastHold();
    CacheReleased();
  }

  lemma UnmountsSecond()
    ensures Perform(Note(CacheGone(), Accessed(0)), Unmount("b")) == SharedEnd()
  {
    var s := Note(CacheGone(), Accessed(0)).(devices := map[]);
    var s1 := Note(s, Accessed(0)).(volumes := map[]);
    var s2 := s1.(users := map[0 := 0]);
    assert Destroy(s2, 0) == Note(s2.(users := map[]), Destroyed(0));
    assert RemoveUser(s1, 0) == Destroy(s2, 0);
    assert UnmountVolume(Note(CacheGone(), Accessed(0)), "b").0 == RemoveUser(s1, 0);
  }

  /** What happens once both are mounted. */
  function SharedRest(): seq<Op> {
    [Use("a")] + ([Unmount("a")] + ([Use("b")] + ([Unmount("b")] + [])))
  }

  function SharedEnd(): Sys {
    Sys([None, Some(0)], map[], map[], map[], 2, SharedLog())
  }

  lemma SharedRestEnds()
    ensures LegalRun(BothMounted(), SharedRest()) && PerformAll(BothMounted(), SharedRest()) == SharedEnd()
  {
    var r7 := [Unmount("b")] + [];
    var r6 := [Use("b")] + r7;
    var s5, s7 := Note(BothMounted(), Accessed(1)), Note(CacheGone(), Accessed(0));
    First(BothMounted(), Use("a"), [Unmount("a")] + r6, s5);
    UnmountsFirst();
    First(s5, Unmount("a"), r6, CacheGone());
    First(CacheGone(), Use("b"), r7, s7);
    UnmountsSecond();
    First(s7, Unmount("b"), [], SharedEnd());
  }

  lemma CacheMade(rest: seq<Op>)
    ensures PerformAll(NOTHING, [NewDisc] + ([WrapDisc(0)] + rest)) == PerformAll(Cached(), rest)
    ensures LegalRun(NOTHING, [NewDisc] + ([WrapDisc(0)] + rest)) == LegalRun(Cached(), rest)
  {
    var s1 := Sys([None], map[0 := 0], map[], map[], 0, []);
    First(NOTHING, NewDisc, [WrapDisc(0)] + rest, s1);
    First(s1, WrapDisc(0), rest, Cached());
  }

  lemma BothMade(rest: seq<Op>)
    ensures var ops := [MountOn(1, Mounts("a"))] + ([MountOn(0, Mounts("b"))] + rest);
      && PerformAll(Cached(), ops) == PerformAll(BothMounted(), rest)
      && LegalRun(Cached(), ops) == LegalRun(BothMounted(), rest)
  {
    MountsFirst();
    First(Cached(), MountOn(1, Mounts("a")), [MountOn(0, Mounts("b"))] + rest, FirstMounted());
    MountsSecond();
    First(FirstMounted(), MountOn(0, Mounts("b")), rest, BothMounted());
  }

  /** A legal run whose disc is shared: file system b goes on using it after the last
      flush of the cache and before its own destructor. */
  lemma SharedRunEnds()
    ensures LegalRun(NOTHING, SharedRun()) && PerformAll(NOTHING, SharedRun()) == SharedEnd()
  {
    var r2 := [MountOn(1, Mounts("a"))] + ([MountOn(0, Mounts("b"))] + SharedRest());
    assert SharedRun() == [NewDisc] + ([WrapDisc(0)] + r2);
    CacheMade(r2);
    BothMade(SharedRest());
    SharedRestEnds();
  }
}
