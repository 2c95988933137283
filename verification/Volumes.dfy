/** The driver table and the bookkeeping of discs and volumes, updated in place. */
module Volumes {
  import opened Wrappers
  import opened Ownership

  /** A file-system driver; two drivers are the same object when their ids agree. */
  datatype Driver = Driver(id: nat, fstype: string)

  class DriverTable {
    const slots: array<Option<Driver>>

    /** The registered drivers, in slot order. */
    ghost var drivers: seq<Driver>

    ghost predicate Valid()
      reads this, slots
    {
      && slots.Length == 8 && |drivers| <= 8
      && (forall i :: 0 <= i < 8 ==> slots[i] == if i < |drivers| then Some(drivers[i]) else None)
      && (forall i, j :: 0 <= i < j < |drivers| ==> drivers[i].fstype != drivers[j].fstype)
    }

    constructor ()
      ensures Valid() && drivers == [] && fresh(slots)
    {
      slots := new Option<Driver>[8](_ => None);
      drivers := [];
    }

    /** Registering is idempotent, refuses a second driver for a type and a ninth
        driver, and otherwise appends. */
    method Register(d: Driver) returns (ok: bool)
      requires Valid()
      modifies this, slots
      ensures Valid()
      ensures ok <==>
        d in old(drivers) || (|old(drivers)| < 8 && forall e :: e in old(drivers) ==> e.fstype != d.fstype)
      ensures drivers == if ok && d !in old(drivers) then old(drivers) + [d] else old(drivers)
    {
      for i := 0 to 8
        invariant Valid() && drivers == old(drivers) && i <= |drivers|
        invariant forall j :: 0 <= j < i ==> drivers[j] != d && drivers[j].fstype != d.fstype
      {
        if slots[i] == Some(d) {
          return true;
        } else if slots[i] == None {
          slots[i] := Some(d);
          drivers := drivers + [d];
          return true;
        } else if slots[i].value.fstype == d.fstype {
          assert drivers[i].fstype == d.fstype;
          return false;
        }
      }
      return false;
    }

    /** The one driver for a type, if there is one. */
    method Find(fstype: string) returns (r: Option<Driver>)
      requires Valid()
      ensures r.Some? ==> r.value in drivers && r.value.fstype == fstype
      ensures r.Some? <==> exists d :: d in drivers && d.fstype == fstype
    {
      var i := 0;
      while i < 8 && slots[i] != None
        invariant 0 <= i <= |drivers|
        invariant forall j :: 0 <= j < i ==> drivers[j].fstype != fstype
      {
        if slots[i].value.fstype == fstype {
          return slots[i];
        }
        i := i + 1;
      }
      return None;
    }
  }

  /** A disc. `live` stands for the allocator: it is false once the destructor ran, and
      a touch of the disc after that is noted instead of carried out. */
  class DiscNode {
    ghost const id: DiscId
    const inner: DiscNode?
    var numUsers: nat
    var live: bool

    constructor (ghost id: DiscId, inner: DiscNode?)
      ensures this.id == id && this.inner == inner && numUsers == 0 && live
    {
      this.id, this.inner, numUsers, live := id, inner, 0, true;
    }
  }

  /** A mounted volume and the disc its file system lies on. */
  class VolumeNode {
    ghost const id: VolumeId
    const disc: DiscNode
    var live: bool

    constructor (ghost id: VolumeId, disc: DiscNode)
      ensures this.id == id && this.disc == disc && live
    {
      this.id, this.disc, live := id, disc, true;
    }
  }

  /** The device table, and, for the proof, every disc and volume ever allocated. */
  class Registry {
    var devices: map<string, VolumeNode>
    ghost var discs: seq<DiscNode>
    ghost var volumes: seq<VolumeNode>
    ghost var log: seq<Event>

    ghost predicate Knows(d: DiscNode)
      reads this
    {
      d.id < |discs| && discs[d.id] == d
    }

    ghost predicate Valid()
      reads this
    {
      && (forall i :: 0 <= i < |discs| ==> discs[i].id == i)
      && (forall i :: 0 <= i < |discs| && discs[i].inner != null ==> Knows(discs[i].inner) && discs[i].inner.id < i)
      && (forall v :: 0 <= v < |volumes| ==> volumes[v].id == v && Knows(volumes[v].disc))
      && (forall n :: n in devices ==> devices[n].id < |volumes| && volumes[devices[n].id] == devices[n])
    }

    ghost function Made(): (r: seq<Option<DiscId>>)
      reads this
      ensures |r| == |discs|
    {
      seq(|discs|, i requires 0 <= i < |discs| reads this =>
        if discs[i].inner == null then None else Some(discs[i].inner.id))
    }

    ghost function UserCounts(): map<DiscId, nat>
      reads this, discs
    {
      map i: nat | i < |discs| && discs[i].live :: discs[i].numUsers
    }

    ghost function Mounted(): map<VolumeId, DiscId>
      reads this, volumes
    {
      map v: nat | v < |volumes| && volumes[v].live :: volumes[v].disc.id
    }

    /** The books kept by these objects. */
    ghost function Value(): Sys
      reads this, discs, volumes
    {
      Sys(Made(), UserCounts(), Mounted(), Names(), |volumes|, log)
    }

    ghost function Names(): map<string, VolumeId>
      reads this
    {
      map n | n in devices :: devices[n].id
    }

    constructor ()
      ensures Valid() && Value() == NOTHING
    {
      devices, discs, volumes, log := map[], [], [], [];
    }

    ghost method Note(e: Event)
      modifies this`log
      ensures log == old(log) + [e] && Value() == Ownership.Note(old(Value()), e)
    {
      log := log + [e];
      assert Made() == old(Made()) && UserCounts() == old(UserCounts()) && Mounted() == old(Mounted());
    }

    /** The file system touches the disc. */
    ghost method Touch(d: DiscNode)
      requires Valid() && Knows(d)
      modifies this`log
      ensures Valid() && Value() == Access(old(Value()), d.id)
    {
      Note(if d.live then Accessed(d.id) else Dangling(d.id));
    }

    // ----- how single updates show in the books -----

    /** Nothing changed but disc d, and that one exists. */
    twostate predicate OthersSame(d: DiscNode)
      reads this, discs, volumes
    {
      && old(Valid()) && old(Knows(d)) && discs == old(discs) && volumes == old(volumes) && devices == old(devices)
      && log == old(log) && (forall i :: 0 <= i < |volumes| ==> volumes[i].live == old(volumes[i].live))
      && forall i :: 0 <= i < |discs| && discs[i] != d ==>
           discs[i].numUsers == old(discs[i].numUsers) && discs[i].live == old(discs[i].live)
    }

    twostate lemma CountChanged(d: DiscNode)
      requires OthersSame(d) && d.live == old(d.live)
      ensures Value() == if d.live then old(Value()).(users := old(UserCounts())[d.id := d.numUsers]) else old(Value())
    {
      assert Made() == old(Made()) && Mounted() == old(Mounted());
    }

    twostate lemma DiscDied(d: DiscNode)
      requires OthersSame(d) && old(d.live) && !d.live
      ensures Value() == old(Value()).(users := old(UserCounts()) - {d.id})
    {
      assert Made() == old(Made()) && Mounted() == old(Mounted());
    }

    twostate lemma VolumeDied(v: VolumeNode)
      requires old(Valid()) && v.id < |volumes| && volumes[v.id] == v && volumes == old(volumes)
      requires forall i :: 0 <= i < |volumes| && volumes[i] != v ==> volumes[i].live == old(volumes[i].live)
      requires old(v.live) && !v.live
      ensures Mounted() == old(Mounted()) - {v.id}
    {
    }

    /** Only the device table changed. */
    twostate lemma NamesChanged()
      requires discs == old(discs) && volumes == old(volumes) && log == old(log)
      requires forall i :: 0 <= i < |discs| ==>
        discs[i].numUsers == old(discs[i].numUsers) && discs[i].live == old(discs[i].live)
      requires forall i :: 0 <= i < |volumes| ==> volumes[i].live == old(volumes[i].live)
      ensures Value() == old(Value()).(devices := Names())
    {
      assert Made() == old(Made()) && UserCounts() == old(UserCounts()) && Mounted() == old(Mounted());
    }

    // ----- user counts -----

    method AddUser(d: DiscNode)
      requires Valid() && Knows(d)
      modifies this`log, d`numUsers
      ensures Valid() && Value() == Ownership.AddUser(old(Value()), d.id)
    {
      d.numUsers := d.numUsers + 1;
      CountChanged(d);
      if !d.live {
        Note(Dangling(d.id));
      }
    }

    /** What no destructor changes. */
    ghost function Structure(): (seq<DiscNode>, seq<VolumeNode>, map<string, VolumeNode>)
      reads this
    {
      (discs, volumes, devices)
    }

    /** The disc survives exactly when someone else still uses it; otherwise its
        destructor runs. The books are kept if they were, but for this user. */
    method RemoveUser(d: DiscNode)
      requires Valid() && Knows(d)
      modifies this`log, discs
      ensures Valid() && Structure() == old(Structure())
      ensures Value() == Ownership.RemoveUser(old(Value()), d.id)
      ensures LettingGo(old(Value()), d.id) ==> LetGo(old(Value()), d.id, Value())
      decreases d.id, 1
    {
      ghost var s := Value();
      Release(d);
      if LettingGo(s, d.id) {
        RemoveUserKeeps(s, d.id);
      }
    }

    method Release(d: DiscNode)
      requires Valid() && Knows(d)
      modifies this`log, discs
      ensures Valid() && Structure() == old(Structure())
      ensures Value() == Ownership.RemoveUser(old(Value()), d.id)
      decreases d.id, 1
    {
      if !d.live || d.numUsers == 0 {
        Note(Dangling(d.id));
        return;
      }
      ghost var s := Value();
      CountDown(d);
      ReleaseUnfolds(s, d.id, Value());
      if d.numUsers == 0 {
        Teardown(d);
      }
    }

    /** One user less, whatever that means for the disc. */
    method CountDown(d: DiscNode)
      requires Valid() && Knows(d) && d.live && d.numUsers > 0
      modifies d`numUsers
      ensures Valid() && Structure() == old(Structure()) && d.live && d.numUsers == old(d.numUsers) - 1
      ensures Value() == old(Value()).(users := old(Value()).users[d.id := d.numUsers])
    {
      d.numUsers := d.numUsers - 1;
      CountChanged(d);
    }

    static lemma ReleaseUnfolds(s: Sys, d: DiscId, s1: Sys)
      requires d in s.users && s.users[d] > 0 && s1 == s.(users := s.users[d := s.users[d] - 1])
      ensures Ownership.RemoveUser(s, d) == if s1.users[d] == 0 then Ownership.Destroy(s1, d) else s1
    {
    }

    /** Destroying a disc nobody uses keeps the books. */
    method Destroy(d: DiscNode)
      requires Valid() && Knows(d)
      modifies this`log, discs
      ensures Valid() && Structure() == old(Structure())
      ensures Value() == Ownership.Destroy(old(Value()), d.id)
      ensures Owned(old(Value())) && old(d.live) && Users(old(Value()), d.id) == 0 ==> Owned(Value()) && !d.live
    {
      ghost var s := Value();
      Teardown(d);
      if Owned(s) && old(d.live) && Users(s, d.id) == 0 {
        DestroyKeeps(s, d.id);
        assert d.live == (d.id in Value().users);
      }
    }

    /** A cache is flushed and lets go of the disc beneath. */
    method Teardown(d: DiscNode)
      requires Valid() && Knows(d)
      modifies this`log, discs
      ensures Valid() && Structure() == old(Structure())
      ensures Value() == Ownership.Destroy(old(Value()), d.id)
      decreases d.id, 0
    {
      if !d.live {
        Note(Dangling(d.id));
        return;
      }
      Bury(d);
      if d.inner != null {
        Note(Flushed(d.id));
        Release(d.inner);
      }
    }

    /** The destructor itself is entered. */
    method Bury(d: DiscNode)
      requires Valid() && Knows(d) && d.live
      modifies this`log, discs
      ensures Valid() && Structure() == old(Structure()) && d.numUsers == old(d.numUsers)
      ensures Value() == Ownership.Note(old(Value()).(users := old(Value()).users - {d.id}), Destroyed(d.id))
    {
      d.live := false;
      DiscDied(d);
      Note(Destroyed(d.id));
    }

    // ----- discs and volumes -----

    /** A disc, over `inner` if that is given. */
    method Allocate(inner: DiscNode?) returns (d: DiscNode)
      requires Valid() && (inner != null ==> Knows(inner))
      modifies this`discs
      ensures Valid() && fresh(d) && discs == old(discs) + [d] && volumes == old(volumes) && d.id == |old(discs)|
      ensures var s := old(Value());
        Value() == s.(made := s.made + [if inner == null then None else Some(inner.id)], users := s.users[d.id := 0])
    {
      d := new DiscNode(|discs|, inner);
      discs := discs + [d];
      DiscAdded(d);
    }

    /** Only disc d was added. */
    twostate lemma DiscAdded(new d: DiscNode)
      requires old(Valid()) && volumes == old(volumes) && devices == old(devices) && log == old(log)
      requires discs == old(discs) + [d] && d.live && d.numUsers == 0 && d.id == |old(discs)|
      requires forall i :: 0 <= i < |old(discs)| ==>
        discs[i].numUsers == old(discs[i].numUsers) && discs[i].live == old(discs[i].live)
      requires forall i :: 0 <= i < |volumes| ==> volumes[i].live == old(volumes[i].live)
      ensures var s := old(Value());
        Value() == s.(made := s.made + [if d.inner == null then None else Some(d.inner.id)],
                      users := s.users[d.id := 0])
    {
      assert Made() == old(Made()) + [if d.inner == null then None else Some(d.inner.id)];
      assert UserCounts() == old(UserCounts())[d.id := 0];
      assert Mounted() == old(Mounted());
    }

    method MakeDisc() returns (d: DiscNode)
      requires Valid()
      modifies this`discs
      ensures Valid() && fresh(d) && discs == old(discs) + [d] && volumes == old(volumes) && d.id == |old(discs)|
      ensures Value() == Ownership.MakeDisc(old(Value()))
      ensures Owned(old(Value())) ==> Owned(Value()) && Users(Value(), d.id) == 0
    {
      if Owned(Value()) {
        MakeDiscKeeps(Value());
      }
      d := Allocate(null);
    }

    /** A cache becomes one user of the disc it is put on, and has none itself. */
    method MakeCache(inner: DiscNode) returns (d: DiscNode)
      requires Valid() && Knows(inner)
      modifies this`discs, this`log, inner`numUsers
      ensures Valid() && fresh(d) && discs == old(discs) + [d] && volumes == old(volumes) && d.id == |old(discs)|
      ensures Value() == Ownership.MakeCache(old(Value()), inner.id)
      ensures Owned(old(Value())) && old(inner.live) ==>
        && Owned(Value()) && Users(Value(), d.id) == 0
        && Users(Value(), inner.id) == Users(old(Value()), inner.id) + 1
    {
      if Owned(Value()) && inner.live {
        MakeCacheKeeps(Value(), inner.id);
      }
      d := Wrap(inner);
    }

    method Wrap(inner: DiscNode) returns (d: DiscNode)
      requires Valid() && Knows(inner)
      modifies this`discs, this`log, inner`numUsers
      ensures Valid() && fresh(d) && discs == old(discs) + [d] && volumes == old(volumes) && d.id == |old(discs)|
      ensures Value() == Ownership.MakeCache(old(Value()), inner.id)
    {
      AddUser(inner);
      d := Allocate(inner);
    }

    ghost predicate Holds(v: VolumeNode)
      reads this
    {
      v.id < |volumes| && volumes[v.id] == v
    }

    /** Releasing a mounted volume takes one user from its disc, which survives exactly
        if that was not the last. */
    method Umount(v: VolumeNode)
      requires Valid() && Holds(v) && v.live
      modifies this`log, discs, v`live
      ensures Valid() && Structure() == old(Structure())
      ensures Value() == Ownership.Umount(old(Value()), v.id)
      ensures Owned(old(Value())) && (forall n :: n in devices ==> devices[n] != v) ==>
        && Owned(Value())
        && (v.disc.live <==> Users(old(Value()), v.disc.id) > 1)
    {
      ghost var s := Value();
      Touch(v.disc);
      Forget(v);
      Release(v.disc);
      if Owned(s) && forall n :: n in devices ==> devices[n] != v {
        UmountKeeps(s, v.id);
        assert v.disc.live == (v.disc.id in Value().users);
      }
    }

    /** The volume's memory is freed. */
    method Forget(v: VolumeNode)
      requires Valid() && Holds(v) && v.live
      modifies v`live
      ensures Valid() && Value() == old(Value()).(volumes := old(Value()).volumes - {v.id})
    {
      v.live := false;
      VolumeDied(v);
      assert Made() == old(Made()) && UserCounts() == old(UserCounts());
    }

    /** A new volume on disc d, which gains a user. */
    method NewVolume(d: DiscNode) returns (v: VolumeNode)
      requires Valid() && Knows(d)
      modifies this`log, this`volumes, d`numUsers
      ensures Valid() && fresh(v) && volumes == old(volumes) + [v] && discs == old(discs) && devices == old(devices)
      ensures v.id == |old(volumes)| && v.live && v.disc == d && d.live == old(d.live)
      ensures Value() == NewVolumeOn(old(Value()), d.id)
    {
      AddUser(d);
      v := AllocateVolume(d);
    }

    method AllocateVolume(d: DiscNode) returns (v: VolumeNode)
      requires Valid() && Knows(d)
      modifies this`volumes
      ensures Valid() && fresh(v) && volumes == old(volumes) + [v] && discs == old(discs) && devices == old(devices)
      ensures v.id == |old(volumes)| && v.live && v.disc == d
      ensures var s := old(Value()); Value() == s.(volumes := s.volumes[v.id := d.id], nextVolume := s.nextVolume + 1)
    {
      v := new VolumeNode(|volumes|, d);
      volumes := volumes + [v];
      VolumeAdded(v);
    }

    /** Only volume v was added. */
    twostate lemma VolumeAdded(new v: VolumeNode)
      requires old(Valid()) && discs == old(discs) && devices == old(devices) && log == old(log)
      requires volumes == old(volumes) + [v] && v.live && v.id == |old(volumes)|
      requires forall i :: 0 <= i < |discs| ==>
        discs[i].numUsers == old(discs[i].numUsers) && discs[i].live == old(discs[i].live)
      requires forall i :: 0 <= i < |old(volumes)| ==> volumes[i].live == old(volumes[i].live)
      ensures var s := old(Value());
        Value() == s.(volumes := s.volumes[v.id := v.disc.id], nextVolume := s.nextVolume + 1)
    {
      assert Mounted() == old(Mounted())[v.id := v.disc.id];
      assert Made() == old(Made()) && UserCounts() == old(UserCounts());
    }

    /** Enter v in the device table under `name`. */
    method AddDevice(name: string, v: VolumeNode)
      requires Valid() && Holds(v)
      modifies this`devices
      ensures Valid() && discs == old(discs) && volumes == old(volumes)
      ensures Value() == old(Value()).(devices := old(Value()).devices[name := v.id])
    {
      devices := devices[name := v];
      NamesChanged();
      ghost var names := old(Names())[name := v.id];
      assert Names().Keys == names.Keys;
      assert Names() == names;
    }

    method RemoveDevice(name: string)
      requires Valid() && name in devices
      modifies this`devices
      ensures Valid() && discs == old(discs) && volumes == old(volumes) && devices == old(devices) - {name}
      ensures Value() == old(Value()).(devices := old(Value()).devices - {name})
    {
      devices := devices - {name};
      NamesChanged();
      NameDropped(name);
    }

    twostate lemma NameDropped(name: string)
      requires devices == old(devices) - {name}
      ensures Names() == old(Names()) - {name}
    {
    }

    /** Mounting succeeds exactly if the file system comes up and the device table takes
        the volume. A refused volume costs the disc its life exactly when it was the
        only user. */
    method MountPartition(d: DiscNode, a: Attempt) returns (ok: bool)
      requires Valid() && Knows(d)
      modifies this, discs
      ensures Valid() && discs == old(discs) && old(volumes) <= volumes
      ensures forall v :: |old(volumes)| <= v < |volumes| ==> fresh(volumes[v])
      ensures (Value(), ok) == Ownership.MountPartition(old(Value()), d.id, a)
      ensures Owned(old(Value())) && old(d.live) ==>
        && Owned(Value()) && (ok <==> ComesUp(a) && a.added)
        && (d.live <==> !(ComesUp(a) && !a.added && Users(old(Value()), d.id) == 0))
        && (d.live ==> Users(Value(), d.id) == Users(old(Value()), d.id) + (if ok then 1 else 0))
        && MountEnds(old(Value()), d.id, a, Value(), ok)
    {
      ghost var s := Value();
      ok := TryMount(d, a);
      if Owned(s) && old(d.live) {
        MountKeeps(s, d.id, a);
        assert d.live == (d.id in Value().users);
      }
    }

    method TryMount(d: DiscNode, a: Attempt) returns (ok: bool)
      requires Valid() && Knows(d)
      modifies this, discs
      ensures Valid() && discs == old(discs) && old(volumes) <= volumes
      ensures forall v :: |old(volumes)| <= v < |volumes| ==> fresh(volumes[v])
      ensures (Value(), ok) == Ownership.MountPartition(old(Value()), d.id, a)
    {
      if !a.known || !a.memory {
        return false;
      }
      Touch(d);
      if !a.mounts {
        return false;
      }
      var v := NewVolume(d);
      if !a.added {
        Umount(v);
        return false;
      }
      AddDevice(a.name, v);
      return true;
    }

    /** Unmounting by name: the disc goes exactly with its last user. */
    method UnmountVolume(name: string) returns (ok: bool)
      requires Valid()
      modifies this, discs, volumes
      ensures Valid() && discs == old(discs) && volumes == old(volumes)
      ensures (Value(), ok) == Ownership.UnmountVolume(old(Value()), name)
      ensures Owned(old(Value())) ==>
        && Owned(Value()) && (ok <==> name in old(devices))
        && (ok ==> var d := old(devices)[name].disc; d.live <==> Users(old(Value()), d.id) > 1)
        && devices == (if ok then old(devices) - {name} else old(devices))
        && (forall v :: 0 <= v < |volumes| ==>
              volumes[v].live == (old(volumes[v].live) && !(ok && volumes[v] == old(devices)[name])))
    {
      ghost var s := Value();
      if name !in devices {
        return false;
      }
      var v := devices[name];
      RemoveDevice(name);
      ok := v.live;
      if ok {
        Umount(v);
      }
      if Owned(s) {
        UnmountKeeps(s, name);
        assert v.disc.live == (v.disc.id in Value().users);
        VolumesLeft(v);
      }
    }

    /** A volume is live exactly if the books list it. */
    twostate lemma VolumesLeft(v: VolumeNode)
      requires old(Valid()) && volumes == old(volumes) && v.id < |volumes| && volumes[v.id] == v
      requires Mounted() == old(Mounted()) - {v.id}
      ensures forall i :: 0 <= i < |volumes| ==> volumes[i].live == (old(volumes[i].live) && volumes[i] != v)
    {
      forall i | 0 <= i < |volumes|
        ensures volumes[i].live == (old(volumes[i].live) && volumes[i] != v)
      {
        assert volumes[i].live <==> i in Mounted();
        assert old(volumes[i].live) <==> i in old(Mounted());
      }
    }

    /** Every volume beyond the first n was allocated since. */
    twostate predicate Grew()
      reads this
    {
      && old(volumes) <= volumes && discs == old(discs)
      && forall v :: |old(volumes)| <= v < |volumes| ==> fresh(volumes[v])
    }

    /** Try the partitions in turn. Unless an attempt is fatal the disc survives, with
        one more user for each volume mounted. */
    method ProbeDisc(d: DiscNode, parts: seq<Attempt>) returns (mounted: nat)
      requires Valid() && Knows(d)
      modifies this, discs
      ensures Valid() && Grew()
      ensures (Value(), mounted) == Ownership.ProbeDisc(old(Value()), d.id, parts)
      ensures Owned(old(Value())) && old(d.live) && (Users(old(Value()), d.id) == 0 ==> !Fatal(parts)) ==>
        Owned(Value()) && d.live && Users(Value(), d.id) == Users(old(Value()), d.id) + mounted
    {
      ghost var s := Value();
      Touch(d);
      mounted := MountAll(d, parts);
      if Owned(s) && old(d.live) && (Users(s, d.id) == 0 ==> !Fatal(parts)) {
        AccessKeepsUsers(s, d.id);
        ProbeKeeps(Access(s, d.id), d.id, parts);
        assert d.live == (d.id in Value().users);
      }
    }

    method MountAll(d: DiscNode, parts: seq<Attempt>) returns (mounted: nat)
      requires Valid() && Knows(d)
      modifies this, discs
      ensures Valid() && Grew()
      ensures (Value(), mounted) == ProbeMount(old(Value()), d.id, parts)
    {
      ghost var all := ProbeMount(Value(), d.id, parts);
      assert parts[0..] == parts;
      mounted := 0;
      for i := 0 to |parts|
        invariant Valid() && Grew() && mounted <= i
        invariant LeadsTo(d, parts[i..], mounted, all)
      {
        assert parts[i..] == [parts[i]] + parts[i + 1..];
        mounted := MountFirst(d, parts[i], parts[i + 1..], mounted, all);
      }
    }

    /** Trying what is left, after `mounted` came up, ends with `all`. */
    ghost predicate LeadsTo(d: DiscNode, left: seq<Attempt>, mounted: nat, all: (Sys, nat))
      reads this, discs, volumes
    {
      var rest := ProbeMount(Value(), d.id, left);
      all == (rest.0, mounted + rest.1)
    }

    /** Try one partition, `later` being those that follow. */
    method MountFirst(d: DiscNode, a: Attempt, ghost later: seq<Attempt>, mounted: nat, ghost all: (Sys, nat))
      returns (mounted': nat)
      requires Valid() && Knows(d) && LeadsTo(d, [a] + later, mounted, all)
      modifies this, discs
      ensures Valid() && discs == old(discs) && old(volumes) <= volumes && mounted' <= mounted + 1
      ensures forall v :: |old(volumes)| <= v < |volumes| ==> fresh(volumes[v])
      ensures LeadsTo(d, later, mounted', all)
    {
      assert ([a] + later)[1..] == later;
      var ok := TryMount(d, a);
      return if ok then mounted + 1 else mounted;
    }

    /** Make a disc, cache it if asked to, mount what can be mounted, and give the disc
        up if nothing was. The books are kept exactly if no attempt is fatal. */
    method ProbeInterface(cached: bool, parts: seq<Attempt>) returns (mounted: nat)
      requires Valid()
      modifies this, discs
      ensures Valid()
      ensures (Value(), mounted) == Ownership.ProbeInterface(old(Value()), cached, parts)
      ensures Owned(old(Value())) ==> (Owned(Value()) <==> !Fatal(parts))
    {
      if Owned(Value()) {
        ProbeInterfaceExact(Value(), cached, parts);
      }
      var d := FreshDisc(cached);
      Touch(d);
      mounted := MountAll(d, parts);
      if mounted == 0 {
        Teardown(d);
      }
    }

    method FreshDisc(cached: bool) returns (d: DiscNode)
      requires Valid()
      modifies this`discs, this`log
      ensures Valid() && Knows(d) && volumes == old(volumes) && old(discs) <= discs
      ensures forall i :: |old(discs)| <= i < |discs| ==> fresh(discs[i])
      ensures (Value(), d.id) == Fresh(old(Value()), cached)
    {
      d := Allocate(null);
      if cached {
        d := Wrap(d);
      }
    }
  }
}
