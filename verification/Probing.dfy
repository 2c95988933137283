/** From a partition table to mounted volumes: which partitions are tried, and under
    which device names. */
module Probing {
  import opened Wrappers
  import opened Device
  import opened PartitionTable
  import opened Ownership
  import opened Volumes

  /** How memory, file system and device table respond when partition i is tried. */
  datatype Response = Response(memory: bool, mounts: bool, added: bool)

  /** Base names are cut at 14 characters; partitions after the first get a digit. */
  function VolumeName(base: string, index: nat): string
    requires index <= 4
  {
    (if |base| <= 14 then base else base[..14]) + (if index > 1 then [(0x30 + index) as char] else "")
  }

  lemma VolumeNameUnique(base: string, i: nat, j: nat)
    requires i < j <= 4 && j > 1
    ensures VolumeName(base, i) != VolumeName(base, j)
  {
    var cut := if |base| <= 14 then base else base[..14];
    assert VolumeName(base, j)[|cut|] == (0x30 + j) as char;
    if i > 1 {
      assert VolumeName(base, i)[|cut|] == (0x30 + i) as char;
    } else {
      assert |VolumeName(base, i)| == |cut|;
    }
  }

  predicate Indexed(ps: seq<Part>) {
    && (forall j :: 0 <= j < |ps| ==> ps[j].index <= 4)
    && (forall j, k :: 0 <= j < k < |ps| ==> ps[j].index < ps[k].index && ps[k].index > 1)
  }

  function AttemptAt(name: string, fstype: string, drivers: set<string>, r: Response): Attempt {
    Attempt(name, fstype in drivers, r.memory, r.mounts, r.added)
  }

  /** Partitions with a known file system, in table order from the i-th. */
  function Attempts(base: string, ps: seq<Part>, i: nat, drivers: set<string>, host: nat -> Response): seq<Attempt>
    requires Indexed(ps) && i <= |ps|
    decreases |ps| - i
  {
    if i == |ps| then []
    else
      var rest := Attempts(base, ps, i + 1, drivers, host);
      if ps[i].fstype.None? then rest
      else [AttemptAt(VolumeName(base, ps[i].index), ps[i].fstype.value, drivers, host(i))] + rest
  }

  /** What probing tries on a disc: its partitions, or, when no table was accepted,
      the whole disc as exFAT under the full base name. */
  function ProbePlan(base: string, t: Table, drivers: set<string>, host: nat -> Response): seq<Attempt>
    requires Indexed(t.parts)
  {
    Plan(base, if t.ok then t.parts else [], drivers, host)
  }

  function Plan(base: string, parts: seq<Part>, drivers: set<string>, host: nat -> Response): seq<Attempt>
    requires Indexed(parts)
  {
    if parts == [] then [AttemptAt(base, "exfat", drivers, host(0))] else Attempts(base, parts, 0, drivers, host)
  }

  // ----- what is tried -----

  /** The name partition `index` is mounted under: the base name, cut at 14 characters,
      alone for the first partition and with the digit 2, 3 or 4 for the others. */
  ghost predicate NamedFor(base: string, index: nat, name: string) {
    var cut := if |base| <= 14 then base else base[..14];
    name == (if index == 2 then cut + "2" else if index == 3 then cut + "3" else if index == 4 then cut + "4" else cut)
  }

  /** Attempt a is at file system fstype: it goes on if there is a driver for that, and
      then as the host responds. */
  ghost predicate Tries(fstype: string, drivers: set<string>, r: Response, a: Attempt) {
    a.known == (fstype in drivers) && a.memory == r.memory && a.mounts == r.mounts && a.added == r.added
  }

  /** How many of the partitions [i, j) have a file system that was recognised. */
  function NamedBetween(ps: seq<Part>, i: nat, j: nat): nat
    requires i <= j <= |ps|
    decreases j - i
  {
    if i == j then 0 else (if ps[i].fstype.Some? then 1 else 0) + NamedBetween(ps, i + 1, j)
  }

  /** Exactly the partitions from the i-th on whose file system was recognised are tried,
      each at its rank among them, under the name of its number. */
  ghost predicate Lists(base: string, ps: seq<Part>, i: nat, drivers: set<string>, host: nat -> Response,
                        plan: seq<Attempt>)
    requires i <= |ps|
  {
    && |plan| == NamedBetween(ps, i, |ps|)
    && forall k :: i <= k < |ps| && ps[k].fstype.Some? ==>
         && NamedBetween(ps, i, k) < |plan|
         && NamedFor(base, ps[k].index, plan[NamedBetween(ps, i, k)].name)
         && Tries(ps[k].fstype.value, drivers, host(k), plan[NamedBetween(ps, i, k)])
  }

  lemma {:induction false} AttemptsListed(base: string, ps: seq<Part>, i: nat, drivers: set<string>,
                                          host: nat -> Response)
    requires Indexed(ps) && i <= |ps|
    ensures Lists(base, ps, i, drivers, host, Attempts(base, ps, i, drivers, host))
    decreases |ps| - i
  {
    if i < |ps| {
      AttemptsListed(base, ps, i + 1, drivers, host);
      var rest := Attempts(base, ps, i + 1, drivers, host);
      if ps[i].fstype.Some? {
        var a := AttemptAt(VolumeName(base, ps[i].index), ps[i].fstype.value, drivers, host(i));
        assert forall j :: 0 < j <= |rest| ==> ([a] + rest)[j] == rest[j - 1];
      }
    }
  }

  /** What probing tries: the partitions of an accepted table that have a recognised
      file system, or, if there is no partition, the whole disc as exFAT under the full
      base name. */
  lemma PlanIsListed(base: string, t: Table, drivers: set<string>, host: nat -> Response)
    requires Indexed(t.parts)
    ensures var plan := ProbePlan(base, t, drivers, host);
      if t.ok && |t.parts| > 0 then Lists(base, t.parts, 0, drivers, host, plan)
      else |plan| == 1 && plan[0].name == base && Tries("exfat", drivers, host(0), plan[0])
  {
    AttemptsListed(base, t.parts, 0, drivers, host);
  }

  // ----- names -----

  /** Tables that were read number their partitions in order. */
  lemma TableIndexed(rd: Reader, size: sec_t, max: nat, identify: bool)
    ensures Indexed(ReadTable(rd, size, max, identify).parts)
  {
    if rd(0, 0).Some? {
      var b := rd(0, 0).value;
      EntriesInOrder(MbrOf(b), 0, max);
      var ps := Entries(MbrOf(b), 0, max).0;
      var qs := ReadMbr(rd, b, size, max, identify).parts;
      assert |qs| == |ps| && forall j :: 0 <= j < |ps| ==> qs[j].index == ps[j].index;
      IndexedByOrder(MbrOf(b), ps, qs);
    }
  }

  lemma IndexedByOrder(t: Mbr, ps: seq<Part>, qs: seq<Part>)
    requires InOrder(t, 0, ps) && |qs| == |ps| && forall j :: 0 <= j < |ps| ==> qs[j].index == ps[j].index
    ensures Indexed(qs)
  {
    forall j | 0 <= j < |qs|
      ensures 1 <= qs[j].index <= 4
    {
      assert FromTable(t, ps[j]);
    }
    forall j, k | 0 <= j < k < |qs|
      ensures qs[j].index < qs[k].index && qs[k].index > 1
    {
      assert ps[j].index < ps[k].index;
      assert qs[j].index >= 1;
    }
  }

  predicate DistinctNames(parts: seq<Attempt>) {
    forall i, j :: 0 <= i < j < |parts| ==> parts[i].name != parts[j].name
  }

  /** The name of some partition from the i-th on. */
  ghost predicate NameFrom(base: string, ps: seq<Part>, i: nat, name: string)
    requires Indexed(ps)
  {
    exists k :: i <= k < |ps| && name == VolumeName(base, ps[k].index)
  }

  lemma LaterNameDiffers(base: string, ps: seq<Part>, i: nat, name: string)
    requires Indexed(ps) && i < |ps| && NameFrom(base, ps, i + 1, name)
    ensures name != VolumeName(base, ps[i].index) && NameFrom(base, ps, i, name)
  {
    var k :| i + 1 <= k < |ps| && name == VolumeName(base, ps[k].index);
    VolumeNameUnique(base, ps[i].index, ps[k].index);
  }

  lemma {:induction false} AttemptsNamed(base: string, ps: seq<Part>, i: nat, drivers: set<string>,
                                         host: nat -> Response)
    requires Indexed(ps) && i <= |ps|
    ensures var plan := Attempts(base, ps, i, drivers, host);
      && DistinctNames(plan)
      && forall j :: 0 <= j < |plan| ==> NameFrom(base, ps, i, plan[j].name)
    decreases |ps| - i
  {
    if i < |ps| {
      AttemptsNamed(base, ps, i + 1, drivers, host);
      var rest := Attempts(base, ps, i + 1, drivers, host);
      forall j | 0 <= j < |rest|
        ensures rest[j].name != VolumeName(base, ps[i].index) && NameFrom(base, ps, i, rest[j].name)
      {
        LaterNameDiffers(base, ps, i, rest[j].name);
      }
      if ps[i].fstype.Some? {
        var a := AttemptAt(VolumeName(base, ps[i].index), ps[i].fstype.value, drivers, host(i));
        assert NameFrom(base, ps, i, a.name);
        assert forall j :: 0 < j <= |rest| ==> ([a] + rest)[j] == rest[j - 1];
      }
    }
  }

  /** No two volumes of one probe share a name. */
  lemma PlanNamesDiffer(base: string, rd: Reader, size: sec_t, drivers: set<string>, host: nat -> Response)
    ensures var t := ReadTable(rd, size, 4, true);
      Indexed(t.parts) && DistinctNames(ProbePlan(base, t, drivers, host))
  {
    TableIndexed(rd, size, 4, true);
    var t := ReadTable(rd, size, 4, true);
    AttemptsNamed(base, t.parts, 0, drivers, host);
  }

  // ----- which volumes can be reached -----

  /** Device names that probing gives to new volumes. */
  function NewDevices(parts: seq<Attempt>): (names: set<string>)
    ensures forall name :: name in names ==> exists i :: 0 <= i < |parts| && parts[i].name == name
    decreases |parts|
  {
    if parts == [] then {}
    else
      var rest := NewDevices(parts[1..]);
      assert forall i :: 0 <= i < |parts[1..]| ==> parts[1..][i] == parts[i + 1];
      if ComesUp(parts[0]) && parts[0].added then rest + {parts[0].name} else rest
  }

  ghost predicate Numbered(s: Sys) {
    && (forall v :: v in s.volumes ==> v < s.nextVolume)
    && (forall name :: name in s.devices ==> s.devices[name] in s.volumes)
  }

  lemma MountAddsDevice(s: Sys, d: DiscId, a: Attempt)
    requires Numbered(s)
    ensures var (r, ok) := MountPartition(s, d, a);
      && (ok <==> ComesUp(a) && a.added)
      && r.devices == (if ok then s.devices[a.name := s.nextVolume] else s.devices)
      && r.volumes == (if ok then s.volumes[s.nextVolume := d] else s.volumes)
      && s.nextVolume <= r.nextVolume && Numbered(r)
  {
  }

  /** What probing leaves in the device table: the names it found there and the ones
      it gave out, each of the latter leading to a volume on the probed disc. No volume
      is unmounted; one mounted before keeps its device exactly if its name was not
      given out again. */
  ghost predicate DevicesAfter(s: Sys, d: DiscId, names: set<string>, r: Sys) {
    && Numbered(r) && s.nextVolume <= r.nextVolume
    && r.devices.Keys == s.devices.Keys + names
    && (forall name :: name in names ==>
          s.nextVolume <= r.devices[name] && r.devices[name] in r.volumes && r.volumes[r.devices[name]] == d)
    && (forall v :: v in s.volumes ==> v in r.volumes && r.volumes[v] == s.volumes[v])
    && (forall name :: name in s.devices ==> (r.devices[name] == s.devices[name] <==> name !in names))
  }

  lemma {:induction false} ProbedVolumesReachable(s: Sys, d: DiscId, parts: seq<Attempt>)
    requires Numbered(s) && DistinctNames(parts)
    ensures var (r, n) := ProbeMount(s, d, parts);
      n == |NewDevices(parts)| && DevicesAfter(s, d, NewDevices(parts), r)
    decreases |parts|
  {
    if parts != [] {
      MountAddsDevice(s, d, parts[0]);
      var (s1, ok) := MountPartition(s, d, parts[0]);
      var rest := parts[1..];
      FirstNameIsNew(parts);
      ProbedVolumesReachable(s1, d, rest);
      DevicesThen(s, d, parts[0], s1, ok, NewDevices(rest), ProbeMount(s1, d, rest).0);
    }
  }

  lemma FirstNameIsNew(parts: seq<Attempt>)
    requires parts != [] && DistinctNames(parts)
    ensures parts[0].name !in NewDevices(parts[1..]) && DistinctNames(parts[1..])
  {
    assert forall i :: 0 <= i < |parts[1..]| ==> parts[1..][i] == parts[i + 1];
  }

  lemma DevicesThen(s: Sys, d: DiscId, a: Attempt, s1: Sys, ok: bool, names: set<string>, r: Sys)
    requires Numbered(s) && s.nextVolume <= s1.nextVolume && a.name !in names
    requires s1.devices == (if ok then s.devices[a.name := s.nextVolume] else s.devices)
    requires s1.volumes == (if ok then s.volumes[s.nextVolume := d] else s.volumes)
    requires DevicesAfter(s1, d, names, r)
    ensures DevicesAfter(s, d, if ok then names + {a.name} else names, r)
  {
  }

  // ----- probing in place -----

  /** Read the table, then mount what it lists: the disc's size and the books end up
      as the table reader and the ownership functions say. */
  method ProbeMountDisc(sys: Registry, disc: Disc, d: DiscNode, base: string, rd: Reader, drivers: set<string>,
                        host: nat -> Response) returns (mounted: nat)
    requires sys.Valid() && sys.Knows(d)
    modifies sys, sys.discs, disc
    ensures sys.Valid()
    ensures var t := ReadTable(rd, old(disc.numSectors), 4, true);
      && Indexed(t.parts) && disc.numSectors == t.size
      && (sys.Value(), mounted) == ProbeDisc(old(sys.Value()), d.id, ProbePlan(base, t, drivers, host))
  {
    ghost var t := ReadTable(rd, disc.numSectors, 4, true);
    var found, n := ReadParts(disc, rd);
    mounted := MountFound(sys, found, n, d, base, drivers, host, if t.ok then t.parts else []);
  }

  /** Try what was found, or, if nothing was, the whole disc. */
  method MountFound(sys: Registry, found: array<Part>, n: nat, d: DiscNode, base: string, drivers: set<string>,
                    host: nat -> Response, ghost ps: seq<Part>) returns (mounted: nat)
    requires sys.Valid() && sys.Knows(d)
    requires n <= found.Length && found[..n] == ps && Indexed(ps)
    modifies sys, sys.discs
    ensures sys.Valid()
    ensures (sys.Value(), mounted) == ProbeDisc(old(sys.Value()), d.id, Plan(base, ps, drivers, host))
  {
    sys.Touch(d);
    if n > 0 {
      mounted := MountParts(sys, found, n, d, base, drivers, host);
    } else {
      mounted := MountWhole(sys, d, AttemptAt(base, "exfat", drivers, host(0)));
    }
  }

  method ReadParts(disc: Disc, rd: Reader) returns (found: array<Part>, n: nat)
    modifies disc
    ensures var t := ReadTable(rd, old(disc.numSectors), 4, true);
      && Indexed(t.parts) && disc.numSectors == t.size
      && fresh(found) && n <= found.Length && found[..n] == if t.ok then t.parts else []
  {
    TableIndexed(rd, disc.numSectors, 4, true);
    found := new Part[4](_ => Part(0, 0, None, 0, 0));
    n := disc.ReadPartitionTable(rd, found, 4, true);
  }

  /** Try the whole disc as one partition. */
  method MountWhole(sys: Registry, d: DiscNode, a: Attempt) returns (mounted: nat)
    requires sys.Valid() && sys.Knows(d)
    modifies sys, sys.discs
    ensures sys.Valid()
    ensures (sys.Value(), mounted) == ProbeMount(old(sys.Value()), d.id, [a])
  {
    OneAttempt(sys.Value(), d.id, a);
    var ok := sys.TryMount(d, a);
    mounted := if ok then 1 else 0;
  }

  lemma OneAttempt(s: Sys, d: DiscId, a: Attempt)
    ensures ProbeMount(s, d, [a]) == (MountPartition(s, d, a).0, if MountPartition(s, d, a).1 then 1 else 0)
  {
    assert [a][1..] == [];
  }

  method MountParts(sys: Registry, found: array<Part>, n: nat, d: DiscNode, base: string, drivers: set<string>,
                    host: nat -> Response) returns (mounted: nat)
    requires sys.Valid() && sys.Knows(d)
    requires n <= found.Length && Indexed(found[..n])
    modifies sys, sys.discs
    ensures sys.Valid() && sys.discs == old(sys.discs)
    ensures (sys.Value(), mounted) == ProbeMount(old(sys.Value()), d.id, Attempts(base, found[..n], 0, drivers, host))
  {
    ghost var ps := found[..n];
    mounted := 0;
    var i := 0;
    ghost var all := ProbeMount(sys.Value(), d.id, Attempts(base, ps, i, drivers, host));
    while i < n
      invariant sys.Valid() && sys.Grew() && mounted <= i <= n && found[..n] == ps
      invariant Planned(sys, d, Attempts(base, ps, i, drivers, host), mounted, all)
    {
      mounted := MountNext(sys, d, found[i], i, base, drivers, host, ps, mounted, all);
      i := i + 1;
    }
  }

  /** Try the i-th partition if its file system is known. */
  method MountNext(sys: Registry, d: DiscNode, p: Part, i: nat, base: string, drivers: set<string>,
                   host: nat -> Response, ghost ps: seq<Part>, mounted: nat, ghost all: (Sys, nat))
    returns (mounted': nat)
    requires sys.Valid() && sys.Knows(d) && Indexed(ps) && i < |ps| && p == ps[i]
    requires Planned(sys, d, Attempts(base, ps, i, drivers, host), mounted, all)
    modifies sys, sys.discs
    ensures sys.Valid() && sys.Grew()
    ensures Planned(sys, d, Attempts(base, ps, i + 1, drivers, host), mounted', all)
    ensures mounted <= mounted' <= mounted + 1
  {
    mounted' := mounted;
    if p.fstype.Some? {
      ghost var later := Attempts(base, ps, i + 1, drivers, host);
      mounted' := MountPart(sys, d, p, base, drivers, host(i), later, mounted, all);
    }
  }

  /** With the attempts in `plan` still to come and some volumes mounted, `all` is what
      the whole probe gives. */
  ghost predicate Planned(sys: Registry, d: DiscNode, plan: seq<Attempt>, mounted: nat, all: (Sys, nat))
    reads sys, sys.discs, sys.volumes
  {
    var r := ProbeMount(sys.Value(), d.id, plan);
    all == (r.0, mounted + r.1)
  }

  /** Try one partition, `later` being the attempts that follow. */
  method MountPart(sys: Registry, d: DiscNode, p: Part, base: string, drivers: set<string>, r: Response,
                   ghost later: seq<Attempt>, mounted: nat, ghost all: (Sys, nat)) returns (mounted': nat)
    requires sys.Valid() && sys.Knows(d) && p.index <= 4 && p.fstype.Some?
    requires var a := AttemptAt(VolumeName(base, p.index), p.fstype.value, drivers, r);
      Planned(sys, d, [a] + later, mounted, all)
    modifies sys, sys.discs
    ensures sys.Valid() && sys.Grew()
    ensures Planned(sys, d, later, mounted', all) && mounted <= mounted' <= mounted + 1
  {
    var a := AttemptAt(VolumeName(base, p.index), p.fstype.value, drivers, r);
    assert ([a] + later)[1..] == later;
    var ok := sys.TryMount(d, a);
    mounted' := if ok then mounted + 1 else mounted;
  }
}
