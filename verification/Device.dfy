/** The block device underneath the cache. Its sectors are opaque values. Whether
    a transfer succeeds, and what a failed one leaves behind, is decided by an
    oracle asked once per operation, so a statement about every oracle is a
    statement about every failure pattern. */
module Device {

  newtype byte = x: int | 0 <= x < 256
  type Sector = seq<byte>

  /** Unsigned sector number; storing a value outside 32 bits is a proof failure. */
  type sec_t = x: int | 0 <= x <= 0xFFFF_FFFF

  /** Verdict on one device operation. When `ok` is false the addressed sectors
      (write) or the target buffer (read) may hold anything: `junk`. */
  datatype Verdict = Verdict(ok: bool, junk: nat -> Sector)
  type Oracle = nat -> Verdict

  datatype Event = ReadEvent(first: nat, count: nat) | WriteEvent(first: nat, count: nat) | SyncEvent

  /** Contents of the device and the operations it has been asked for, oldest first. */
  datatype Disk = Disk(sectors: seq<Sector>, log: seq<Event>)

  /** `s` with `b` written over it from position `at`. */
  function Blit(s: seq<Sector>, at: nat, b: seq<Sector>): (r: seq<Sector>)
    requires at + |b| <= |s|
    ensures |r| == |s|
  {
    s[..at] + b + s[at + |b|..]
  }

  lemma BlitIndex(s: seq<Sector>, at: nat, b: seq<Sector>)
    requires at + |b| <= |s|
    ensures var r := Blit(s, at, b);
      forall i :: 0 <= i < |s| ==> r[i] == if at <= i < at + |b| then b[i - at] else s[i]
  {
  }

  function Junk(v: Verdict, count: nat): (r: seq<Sector>)
    ensures |r| == count
  {
    seq(count, i requires 0 <= i => v.junk(i))
  }

  function DiskWrite(o: Oracle, d: Disk, first: nat, b: seq<Sector>): (r: (Disk, bool))
    requires first + |b| <= |d.sectors|
    ensures |r.0.sectors| == |d.sectors|
    ensures r.0.log == d.log + [WriteEvent(first, |b|)]
    ensures forall i :: 0 <= i < |d.sectors| && !(first <= i < first + |b|) ==> r.0.sectors[i] == d.sectors[i]
    ensures r.1 ==> forall i :: first <= i < first + |b| ==> r.0.sectors[i] == b[i - first]
  {
    var v := o(|d.log|);
    var stored := if v.ok then b else Junk(v, |b|);
    BlitIndex(d.sectors, first, stored);
    (Disk(Blit(d.sectors, first, stored), d.log + [WriteEvent(first, |b|)]), v.ok)
  }

  function DiskRead(o: Oracle, d: Disk, first: nat, count: nat): (r: (Disk, seq<Sector>, bool))
    requires first + count <= |d.sectors|
    ensures r.0.sectors == d.sectors
    ensures r.0.log == d.log + [ReadEvent(first, count)]
    ensures |r.1| == count
    ensures r.2 ==> r.1 == d.sectors[first..first + count]
  {
    var v := o(|d.log|);
    var got := if v.ok then d.sectors[first..first + count] else Junk(v, count);
    (Disk(d.sectors, d.log + [ReadEvent(first, count)]), got, v.ok)
  }

  function DiskSync(o: Oracle, d: Disk): (r: (Disk, bool))
    ensures r.0.sectors == d.sectors && r.0.log == d.log + [SyncEvent]
  {
    (Disk(d.sectors, d.log + [SyncEvent]), o(|d.log|).ok)
  }
}
