/** Finding partitions: boot-sector identification, the MBR table, and the size a
    disc is left with after its table was read. */
module PartitionTable {
  import opened Wrappers
  import opened Pages
  import opened Device
  import opened CacheModel
  import opened CacheInvariant
  import Requests
  import Runs
  import Transparency

  // ----- boot sectors -----

  /** The first sectors of a disc or partition; never fewer than 2048 bytes. */
  type Buf = b: seq<byte> | |b| >= 2048 witness seq(2048, i => 0)

  function Read16(b: Buf, at: nat): nat
    requires at + 2 <= 2048
  {
    b[at] as nat + 0x100 * b[at + 1] as nat
  }

  function Read32(b: Buf, at: nat): (r: sec_t)
    requires at + 4 <= 2048
  {
    Read16(b, at) + 0x1_0000 * Read16(b, at + 2)
  }

  predicate TextAt(b: Buf, at: nat, text: string)
    requires at + |text| <= 2048
  {
    forall i :: 0 <= i < |text| ==> b[at + i] as int == text[i] as int
  }

  /** x & (x - 1) == 0 on unsigned ints, where 0 - 1 wraps. */
  predicate IsPo2(x: nat) {
    BitAnd(x, if x == 0 then 0xFFFF_FFFF else x - 1) == 0
  }

  /** A FAT boot sector by its geometry alone. */
  predicate FatGeometry(b: Buf) {
    && IsPo2(Read16(b, 0x00b)) && IsPo2(b[0x00d] as nat)
    && Read16(b, 0x00e) > 0 && (b[0x010] == 1 || b[0x010] == 2) && Read16(b, 0x011) > 0
    && (Read16(b, 0x013) >= 0x40 || Read32(b, 0x020) >= 0x1_0000)
    && Read16(b, 0x016) > 0
  }

  predicate Signed(b: Buf) {
    Read16(b, 0x1fe) == 0xaa55
  }

  predicate HasBootJump(b: Buf) {
    Signed(b) && (b[0] == 0xeb || b[0] == 0xe9 || b[0] == 0xe8)
  }

  /** The file system a boot sector announces; "" when it looks like an MBR. */
  function Ident(b: Buf): Option<string> {
    if HasBootJump(b) && TextAt(b, 3, "NTFS    ") then Some("ntfs")
    else if HasBootJump(b) && TextAt(b, 3, "EXFAT   ") then Some("exfat")
    else if HasBootJump(b) && TextAt(b, 0x052, "FAT32   ") then Some("vfat")
    else if HasBootJump(b) && FatGeometry(b) then Some("vfat")
    else if Signed(b) then Some("")
    else if Read16(b, 0x438) == 0xef53 then Some("ext2")
    else None
  }

  /** The bytes of an unsigned 32-bit number, the lowest first. */
  function LittleEndian(x: sec_t): (bs: seq<byte>)
    ensures |bs| == 4
    ensures bs[0] as int + 0x100 * bs[1] as int + 0x1_0000 * bs[2] as int + 0x100_0000 * bs[3] as int == x
  {
    var low, high := x % 0x1_0000, x / 0x1_0000;
    [(low % 0x100) as byte, (low / 0x100) as byte, (high % 0x100) as byte, (high / 0x100) as byte]
  }

  /** Eight bytes at position `at` spell a text of eight characters. */
  ghost predicate Spelled(b: Buf, at: nat, text: string)
    requires at + 8 <= 2048 && |text| == 8
  {
    && b[at] as int == text[0] as int && b[at + 1] as int == text[1] as int && b[at + 2] as int == text[2] as int
    && b[at + 3] as int == text[3] as int && b[at + 4] as int == text[4] as int && b[at + 5] as int == text[5] as int
    && b[at + 6] as int == text[6] as int && b[at + 7] as int == text[7] as int
  }

  /** The sector ends in the bytes 0x55, 0xaa and starts with a jump. */
  ghost predicate Bootable(b: Buf) {
    b[0x1fe] == 0x55 && b[0x1ff] == 0xaa && b[0] in {0xeb, 0xe9, 0xe8}
  }

  /** What a boot sector is taken for, byte by byte: NTFS, exFAT and FAT32 by their
      names, FAT by its geometry, ext by its magic number where there is no signature,
      and a partition table for any other sector with a signature. */
  lemma IdentByBytes(b: Buf)
    ensures Ident(b) == Some("ntfs") <==> Bootable(b) && Spelled(b, 3, "NTFS    ")
    ensures Ident(b) == Some("exfat") <==> Bootable(b) && Spelled(b, 3, "EXFAT   ")
    ensures Ident(b) == Some("vfat") <==>
      && Bootable(b) && !Spelled(b, 3, "NTFS    ") && !Spelled(b, 3, "EXFAT   ")
      && (Spelled(b, 0x052, "FAT32   ") || FatGeometry(b))
    ensures Ident(b) == Some("ext2") <==>
      !(b[0x1fe] == 0x55 && b[0x1ff] == 0xaa) && b[0x438] == 0x53 && b[0x439] == 0xef
    ensures Ident(b) == None <==>
      !(b[0x1fe] == 0x55 && b[0x1ff] == 0xaa) && !(b[0x438] == 0x53 && b[0x439] == 0xef)
    ensures Ident(b).None? || Ident(b).value in {"ntfs", "exfat", "vfat", "ext2", ""}
  {
    TextIsSpelled(b, 3, "NTFS    ");
    TextIsSpelled(b, 3, "EXFAT   ");
    TextIsSpelled(b, 0x052, "FAT32   ");
    OnlyOneName(b);
    assert Signed(b) <==> b[0x1fe] == 0x55 && b[0x1ff] == 0xaa;
    assert Read16(b, 0x438) == 0xef53 <==> b[0x438] == 0x53 && b[0x439] == 0xef;
  }

  lemma TextIsSpelled(b: Buf, at: nat, text: string)
    requires at + 8 <= 2048 && |text| == 8
    ensures TextAt(b, at, text) <==> Spelled(b, at, text)
  {
  }

  lemma OnlyOneName(b: Buf)
    ensures !(Spelled(b, 3, "NTFS    ") && Spelled(b, 3, "EXFAT   "))
  {
    assert "NTFS    "[0] != "EXFAT   "[0];
  }

  /** The geometry that makes a FAT boot sector, field by field. */
  lemma FatGeometryByBytes(b: Buf)
    ensures FatGeometry(b) <==>
      && (b[0x00b] as int + 0x100 * b[0x00c] as int == 0 || IsPow2(b[0x00b] as int + 0x100 * b[0x00c] as int))
      && (b[0x00d] == 0 || IsPow2(b[0x00d] as int))
      && !(b[0x00e] == 0 && b[0x00f] == 0)
      && (b[0x010] == 1 || b[0x010] == 2)
      && !(b[0x011] == 0 && b[0x012] == 0)
      && (b[0x013] >= 0x40 || b[0x014] > 0 || b[0x022] > 0 || b[0x023] > 0)
      && !(b[0x016] == 0 && b[0x017] == 0)
  {
    Po2IfNotZero(Read16(b, 0x00b));
    Po2IfNotZero(b[0x00d] as nat);
    SectorCounts(b);
  }

  lemma SectorCounts(b: Buf)
    ensures Read16(b, 0x013) >= 0x40 || Read32(b, 0x020) >= 0x1_0000 <==>
      b[0x013] >= 0x40 || b[0x014] > 0 || b[0x022] > 0 || b[0x023] > 0
  {
  }

  /** A boot sector taken for FAT by its geometry has sector and cluster sizes that are
      powers of two exactly if they are not zero: zero passes the test in use. */
  lemma FatSizes(b: Buf)
    requires FatGeometry(b)
    ensures IsPow2(Read16(b, 0x00b)) <==> Read16(b, 0x00b) != 0
    ensures IsPow2(b[0x00d] as nat) <==> b[0x00d] != 0
  {
    Po2IfNotZero(Read16(b, 0x00b));
    Po2IfNotZero(b[0x00d] as nat);
  }

  lemma Po2IfNotZero(x: nat)
    ensures IsPo2(x) <==> x == 0 || IsPow2(x)
    ensures !IsPow2(0)
  {
    if x >= 1 {
      PowerOfTwoTest(x);
    }
  }

  /** A boot sector with sectors and clusters of size zero. */
  function ZeroSized(): Buf {
    seq(2048, i =>
      if i == 0 then 0xeb else if i == 0x00e || i == 0x010 || i == 0x011 || i == 0x016 then 1
      else if i == 0x013 then 0x40 else if i == 0x1fe then 0x55 else if i == 0x1ff then 0xaa else 0)
  }

  /** It is taken for a FAT file system. */
  lemma ZeroSizedIsFat()
    ensures Ident(ZeroSized()) == Some("vfat")
    ensures Read16(ZeroSized(), 0x00b) == 0 && ZeroSized()[0x00d] == 0
  {
    var b := ZeroSized();
    assert b[3] as int != "NTFS    "[0] as int && b[3] as int != "EXFAT   "[0] as int;
    assert b[0x052] as int != "FAT32   "[0] as int;
    assert !TextAt(b, 3, "NTFS    ") && !TextAt(b, 3, "EXFAT   ") && !TextAt(b, 0x052, "FAT32   ");
    Po2IfNotZero(0);
    assert FatGeometry(b);
  }

  // ----- the table -----

  datatype Part = Part(index: nat, kind: byte, fstype: Option<string>, start: sec_t, count: sec_t)

  const UNKNOWN: sec_t := 0xFFFF_FFFF

  datatype MbrEntry = MbrEntry(status: byte, kind: byte, start: sec_t, count: sec_t)

  type Mbr = t: seq<MbrEntry> | |t| == 4 witness seq(4, i => MbrEntry(0, 0, 0, 0))

  function EntryBytes(b: Buf, at: nat): MbrEntry
    requires at + 16 <= 2048
  {
    MbrEntry(b[at], b[at + 4], Read32(b, at + 8), Read32(b, at + 12))
  }

  /** The four entries of the table, at byte 446 of the first sector. */
  function MbrOf(b: Buf): Mbr {
    [EntryBytes(b, 0x1be), EntryBytes(b, 0x1ce), EntryBytes(b, 0x1de), EntryBytes(b, 0x1ee)]
  }

  /** Entry e as the 16 bytes at position `at`: status, three bytes of other use, type,
      three more, and first sector and length with the lowest byte first. */
  ghost predicate LaidOut(b: Buf, at: nat, e: MbrEntry)
    requires at + 16 <= 2048
  {
    && b[at] == e.status && b[at + 4] == e.kind
    && e.start == b[at + 8] as int + 0x100 * b[at + 9] as int + 0x1_0000 * b[at + 10] as int
                  + 0x100_0000 * b[at + 11] as int
    && e.count == b[at + 12] as int + 0x100 * b[at + 13] as int + 0x1_0000 * b[at + 14] as int
                  + 0x100_0000 * b[at + 15] as int
  }

  /** The table has exactly the entries laid out from byte 446 on, 16 bytes apart. */
  lemma TableIsLaidOut(b: Buf, t: Mbr)
    ensures MbrOf(b) == t <==> forall i :: 0 <= i < 4 ==> LaidOut(b, 0x1be + 16 * i, t[i])
  {
    EntryIsLaidOut(b, 0x1be, t[0]);
    EntryIsLaidOut(b, 0x1ce, t[1]);
    EntryIsLaidOut(b, 0x1de, t[2]);
    EntryIsLaidOut(b, 0x1ee, t[3]);
    if forall i :: 0 <= i < 4 ==> LaidOut(b, 0x1be + 16 * i, t[i]) {
      assert LaidOut(b, 0x1be + 16 * 0, t[0]) && LaidOut(b, 0x1be + 16 * 1, t[1]);
      assert LaidOut(b, 0x1be + 16 * 2, t[2]) && LaidOut(b, 0x1be + 16 * 3, t[3]);
    }
  }

  lemma EntryIsLaidOut(b: Buf, at: nat, e: MbrEntry)
    requires at + 16 <= 2048
    ensures EntryBytes(b, at) == e <==> LaidOut(b, at, e)
  {
  }

  /** The bytes of an entry, with what the fields of other use hold. */
  function EntryImage(e: MbrEntry, other: seq<byte>): (bs: seq<byte>)
    requires |other| == 6
    ensures |bs| == 16
  {
    [e.status] + other[..3] + [e.kind] + other[3..] + LittleEndian(e.start) + LittleEndian(e.count)
  }

  /** A first sector with table t between `code` and `rest`. */
  function TableImage(code: seq<byte>, t: Mbr, other: seq<byte>, rest: seq<byte>): Buf
    requires |code| == 0x1be && |other| == 6 && |rest| >= 2048 - 0x1fe
  {
    code + EntryImage(t[0], other) + EntryImage(t[1], other) + EntryImage(t[2], other) + EntryImage(t[3], other) + rest
  }

  /** A table that was written is the table that is read. */
  lemma TableReadBack(code: seq<byte>, t: Mbr, other: seq<byte>, rest: seq<byte>)
    requires |code| == 0x1be && |other| == 6 && |rest| >= 2048 - 0x1fe
    ensures MbrOf(TableImage(code, t, other, rest)) == t
  {
    var b := TableImage(code, t, other, rest);
    forall i | 0 <= i < 4
      ensures LaidOut(b, 0x1be + 16 * i, t[i])
    {
      ImageAt(code, t, other, rest, i);
      ImageLaidOut(b, 0x1be + 16 * i, t[i], other);
    }
    TableIsLaidOut(b, t);
  }

  lemma ImageAt(code: seq<byte>, t: Mbr, other: seq<byte>, rest: seq<byte>, i: nat)
    requires |code| == 0x1be && |other| == 6 && |rest| >= 2048 - 0x1fe && i < 4
    ensures TableImage(code, t, other, rest)[0x1be + 16 * i..0x1be + 16 * i + 16] == EntryImage(t[i], other)
  {
  }

  lemma ImageLaidOut(b: Buf, at: nat, e: MbrEntry, other: seq<byte>)
    requires at + 16 <= 2048 && |other| == 6 && b[at..at + 16] == EntryImage(e, other)
    ensures LaidOut(b, at, e)
  {
    var w := b[at..at + 16];
    assert forall j :: 0 <= j < 16 ==> b[at + j] == w[j];
    assert w[8..12] == LittleEndian(e.start) && w[12..16] == LittleEndian(e.count);
    assert forall j :: 0 <= j < 4 ==> w[8 + j] == w[8..12][j] && w[12 + j] == w[12..16][j];
    assert b[at + 8] == w[8] && b[at + 9] == w[9] && b[at + 10] == w[10] && b[at + 11] == w[11];
    assert b[at + 12] == w[12] && b[at + 13] == w[13] && b[at + 14] == w[14] && b[at + 15] == w[15];
    assert b[at] == w[0] && b[at + 4] == w[4];
  }

  predicate Malformed(e: MbrEntry) {
    e.status != 0x80 && e.status != 0x00
  }

  /** Populated, and not an extended partition. */
  predicate Used(e: MbrEntry) {
    e.kind != 0x00 && e.kind != 0x05 && e.kind != 0x0f
  }

  function PartAt(t: Mbr, i: nat): Part
    requires i < 4
  {
    Part(i + 1, t[i].kind, None, t[i].start, t[i].count)
  }

  /** Partitions found from entry i on, at most `room`; false when a malformed entry
      was met. */
  function Entries(t: Mbr, i: nat, room: nat): (r: (seq<Part>, bool))
    requires i <= 4
    ensures |r.0| <= room
    decreases 4 - i, room
  {
    if i == 4 || room == 0 then ([], true)
    else if Malformed(t[i]) then ([], false)
    else if !Used(t[i]) then Entries(t, i + 1, room)
    else
      var (ps, ok) := Entries(t, i + 1, room - 1);
      ([PartAt(t, i)] + ps, ok)
  }

  /** How many of the entries [i, j) are used. */
  function UsedBetween(t: Mbr, i: nat, j: nat): nat
    requires i <= j <= 4
    decreases j - i
  {
    if i == j then 0 else (if Used(t[i]) then 1 else 0) + UsedBetween(t, i + 1, j)
  }

  /** The table is refused exactly when a malformed entry is met before `room`
      partitions were found. Otherwise the used entries are listed, each at its rank
      among the used ones and with its number in the table, until `room` is spent. */
  lemma {:induction false} EntriesListed(t: Mbr, i: nat, room: nat)
    requires i <= 4
    ensures var (ps, ok) := Entries(t, i, room);
      && (ok <==> forall k :: i <= k < 4 && UsedBetween(t, i, k) < room ==> t[k].status == 0x80 || t[k].status == 0)
      && (ok ==> |ps| == Min(room, UsedBetween(t, i, 4)))
      && (ok ==> forall k :: i <= k < 4 && t[k].kind !in {0x00, 0x05, 0x0f} && UsedBetween(t, i, k) < room ==>
            && UsedBetween(t, i, k) < |ps|
            && ps[UsedBetween(t, i, k)] == Part(k + 1, t[k].kind, None, t[k].start, t[k].count))
    decreases 4 - i
  {
    if i < 4 && room > 0 {
      EntriesListed(t, i + 1, if Used(t[i]) then room - 1 else room);
    }
  }

  ghost predicate FromTable(t: Mbr, p: Part) {
    && 1 <= p.index <= 4 && p == PartAt(t, p.index - 1)
    && t[p.index - 1].kind != 0x00 && t[p.index - 1].kind != 0x05 && t[p.index - 1].kind != 0x0f
  }

  /** Parts of used entries from i on, by increasing number. */
  ghost predicate InOrder(t: Mbr, i: nat, ps: seq<Part>) {
    && (forall j :: 0 <= j < |ps| ==> i < ps[j].index && FromTable(t, ps[j]))
    && (forall j, k :: 0 <= j < k < |ps| ==> ps[j].index < ps[k].index)
  }

  lemma {:induction false} EntriesInOrder(t: Mbr, i: nat, room: nat)
    requires i <= 4
    ensures InOrder(t, i, Entries(t, i, room).0)
    decreases 4 - i
  {
    if i < 4 && room > 0 && !Malformed(t[i]) {
      if Used(t[i]) {
        EntriesInOrder(t, i + 1, room - 1);
        InOrderPrepend(t, i, Entries(t, i + 1, room - 1).0);
      } else {
        EntriesInOrder(t, i + 1, room);
      }
    }
  }

  lemma InOrderPrepend(t: Mbr, i: nat, ps: seq<Part>)
    requires i < 4 && Used(t[i]) && InOrder(t, i + 1, ps)
    ensures InOrder(t, i, [PartAt(t, i)] + ps)
  {
    var p := PartAt(t, i);
    assert FromTable(t, p);
    IndicesPrepend(ps, p);
    forall j | 0 <= j < |ps| + 1
      ensures var q := ([p] + ps)[j]; i < q.index && FromTable(t, q)
    {
      assert j > 0 ==> ([p] + ps)[j] == ps[j - 1];
    }
  }

  lemma IndicesPrepend(ps: seq<Part>, p: Part)
    requires forall j :: 0 <= j < |ps| ==> p.index < ps[j].index
    requires forall j, k :: 0 <= j < k < |ps| ==> ps[j].index < ps[k].index
    ensures var qs := [p] + ps; forall j, k :: 0 <= j < k < |qs| ==> qs[j].index < qs[k].index
  {
  }

  // ----- sizes -----

  /** First sector after a partition, in 32-bit arithmetic. */
  function End(p: Part): (e: sec_t)
    ensures e == (p.start + p.count) % 0x1_0000_0000
  {
    if p.start + p.count < 0x1_0000_0000 then p.start + p.count else p.start + p.count - 0x1_0000_0000
  }

  ghost predicate EndsAt(ps: seq<Part>, e: nat) {
    exists i :: 0 <= i < |ps| && End(ps[i]) == e
  }

  /** Largest end of any partition listed. */
  function MaxEnd(ps: seq<Part>): sec_t {
    if ps == [] then 0
    else
      var last, r := ps[|ps| - 1], MaxEnd(ps[..|ps| - 1]);
      if End(last) > r then End(last) else r
  }

  lemma {:induction false} MaxEndIsLargest(ps: seq<Part>)
    ensures forall i :: 0 <= i < |ps| ==> End(ps[i]) <= MaxEnd(ps)
    ensures MaxEnd(ps) == 0 || EndsAt(ps, MaxEnd(ps))
  {
    if ps != [] {
      var n := |ps| - 1;
      MaxEndIsLargest(ps[..n]);
      forall i | 0 <= i < |ps|
        ensures End(ps[i]) <= MaxEnd(ps)
      {
        assert i < n ==> ps[i] == ps[..n][i];
      }
      if End(ps[n]) > MaxEnd(ps[..n]) {
        assert EndsAt(ps, End(ps[n]));
      } else if MaxEnd(ps[..n]) != 0 {
        var i :| 0 <= i < n && End(ps[..n][i]) == MaxEnd(ps);
        assert End(ps[i]) == MaxEnd(ps);
      }
    }
  }

  lemma MaxEndAppends(ps: seq<Part>, p: Part)
    ensures MaxEnd(ps + [p]) == if End(p) > MaxEnd(ps) then End(p) else MaxEnd(ps)
  {
    assert (ps + [p])[..|ps|] == ps;
  }

  predicate Wraps(p: Part) {
    p.start + p.count >= 0x1_0000_0000
  }

  predicate Holds(p: Part, x: nat) {
    p.start <= x < p.start + p.count
  }

  predicate Inside(p: Part, n: nat) {
    p.start + p.count <= n
  }

  // ----- reading a whole table -----

  /** The k-th read, from a given sector; nothing when the device fails. */
  type Reader = (nat, sec_t) -> Option<Buf>

  /** What reading a table leaves: partitions filled in, success, and the disc size. */
  datatype Table = Table(parts: seq<Part>, ok: bool, size: sec_t)

  function WithType(p: Part, fstype: Option<string>): Part {
    if fstype.Some? && fstype.value != "" then p.(fstype := fstype) else p
  }

  /** Name the file systems from partition i on; stops at a read failure. */
  function Named(rd: Reader, ps: seq<Part>, i: nat): (r: (seq<Part>, bool))
    requires i <= |ps|
    ensures |r.0| == |ps|
    ensures forall j :: 0 <= j < |ps| ==> r.0[j] == ps[j].(fstype := r.0[j].fstype)
    decreases |ps| - i
  {
    if i == |ps| then (ps, true)
    else match rd(i + 1, ps[i].start)
      case None => (ps, false)
      case Some(b) => Named(rd, ps[i := WithType(ps[i], Ident(b))], i + 1)
  }

  function ReadMbr(rd: Reader, b: Buf, size: sec_t, max: nat, identify: bool): Table {
    var (ps, wellFormed) := Entries(MbrOf(b), 0, max);
    var total := MaxEnd(ps);
    if !wellFormed || (size != UNKNOWN && total > size) then Table(ps, false, size)
    else
      var size' := if size == UNKNOWN then total else size;
      var (qs, named) := if identify then Named(rd, ps, 0) else (ps, true);
      Table(qs, named, size')
  }

  function ReadTable(rd: Reader, size: sec_t, max: nat, identify: bool): Table {
    match rd(0, 0)
    case None => Table([], false, size)
    case Some(b) =>
      match Ident(b)
      case None => Table([], false, size)
      case Some(fstype) =>
        if fstype != "" then Table([Part(0, 0, Some(fstype), 0, size)], true, size)
        else ReadMbr(rd, b, size, max, identify)
  }

  /** A first sector that cannot be read or recognised gives nothing; one that is itself
      a boot sector gives a single partition, the whole disc. */
  lemma WholeDiscListed(rd: Reader, size: sec_t, max: nat, identify: bool)
    ensures var t := ReadTable(rd, size, max, identify);
      && (rd(0, 0).None? || Ident(rd(0, 0).value).None? ==> !t.ok && t.parts == [] && t.size == size)
      && (rd(0, 0).Some? && Ident(rd(0, 0).value) !in {None, Some("")} ==>
            && t.ok && t.size == size && |t.parts| == 1
            && t.parts[0].fstype == Ident(rd(0, 0).value) && t.parts[0].index == 0 && t.parts[0].kind == 0
            && t.parts[0].start == 0 && t.parts[0].count == size)
  {
  }

  /** The size the disc is left with: a known one stays, and so does an unknown one, all
      ones, when a malformed entry was met. Otherwise the unknown size becomes the end of
      the partition that ends last, or zero. */
  ghost predicate SizeFound(b: Buf, size: sec_t, max: nat, parts: seq<Part>, left: sec_t) {
    if size != 0xFFFF_FFFF || !Entries(MbrOf(b), 0, max).1 then left == size
    else EndsWithin(parts, left) && (left == 0 || EndsAt(parts, left))
  }

  /** After an MBR was accepted a listed partition lies inside the disc exactly when
      its end fits in 32 bits. The size only ever shrinks; a known size stays, and an
      unknown one is replaced by the largest end of any partition. */
  lemma PartsInside(rd: Reader, b: Buf, size: sec_t, max: nat, identify: bool)
    ensures var t := ReadMbr(rd, b, size, max, identify);
      && t.size <= size && SizeFound(b, size, max, t.parts, t.size)
      && (t.ok ==> forall i :: 0 <= i < |t.parts| ==>
            (Inside(t.parts[i], t.size) <==> !Wraps(t.parts[i])))
  {
    var ps := Entries(MbrOf(b), 0, max).0;
    var t := ReadMbr(rd, b, size, max, identify);
    MaxEndIsLargest(ps);
    SameEnds(ps, t.parts);
    if t.ok {
      EndsInside(t.parts, t.size);
    }
  }

  lemma MbrSizeFound(rd: Reader, b: Buf, size: sec_t, max: nat, identify: bool)
    ensures var t := ReadMbr(rd, b, size, max, identify); SizeFound(b, size, max, t.parts, t.size)
  {
    PartsInside(rd, b, size, max, identify);
  }

  /** Naming file systems moves no partition. */
  lemma SameEnds(ps: seq<Part>, qs: seq<Part>)
    requires |ps| == |qs| && forall j :: 0 <= j < |ps| ==> qs[j] == ps[j].(fstype := qs[j].fstype)
    ensures forall i :: 0 <= i < |ps| ==> End(qs[i]) == End(ps[i])
    ensures forall e: nat :: EndsAt(ps, e) ==> EndsAt(qs, e)
  {
    forall e: nat | EndsAt(ps, e)
      ensures EndsAt(qs, e)
    {
      var i :| 0 <= i < |ps| && End(ps[i]) == e;
      assert End(qs[i]) == e;
    }
  }

  lemma EndsInside(ps: seq<Part>, n: nat)
    requires n < 0x1_0000_0000 && forall i :: 0 <= i < |ps| ==> End(ps[i]) <= n
    ensures forall i :: 0 <= i < |ps| ==> (Inside(ps[i], n) <==> !Wraps(ps[i]))
  {
    forall i | 0 <= i < |ps|
      ensures Inside(ps[i], n) <==> !Wraps(ps[i])
    {
      assert End(ps[i]) <= n;
    }
  }

  ghost predicate EndsWithin(ps: seq<Part>, size: nat) {
    forall i :: 0 <= i < |ps| ==> End(ps[i]) <= size
  }

  /** The first sectors of every partition from i on can be read. */
  ghost predicate AnsweredFrom(rd: Reader, ps: seq<Part>, i: nat) {
    forall j :: i <= j < |ps| ==> rd(j + 1, ps[j].start).Some?
  }

  /** A well-formed table is accepted exactly when the disc size is unknown or no
      listed partition ends, in 32 bits, after it, and, if file systems are to be
      named, the first sectors of every listed partition can be read. */
  lemma TableAccepted(rd: Reader, b: Buf, size: sec_t, max: nat, identify: bool)
    requires Entries(MbrOf(b), 0, max).1
    ensures var t := ReadMbr(rd, b, size, max, identify);
      t.ok <==> (size == UNKNOWN || EndsWithin(t.parts, size)) && (identify ==> AnsweredFrom(rd, t.parts, 0))
  {
    var ps := Entries(MbrOf(b), 0, max).0;
    MaxEndIsLargest(ps);
    NamedFromOwnSectors(rd, ps, 0);
    SameEnds(ps, ReadMbr(rd, b, size, max, identify).parts);
  }

  /** An entry whose end wraps around passes every size check. */
  lemma WrappedEntryAccepted(rd: Reader, b: Buf, size: sec_t, start: sec_t)
    requires var e := MbrOf(b)[0];
      !Malformed(e) && Used(e) && e.start == start >= 1 && e.count == 0x1_0000_0000 - start
    ensures var t := ReadMbr(rd, b, size, 1, false);
      t.ok && |t.parts| == 1 && !Inside(t.parts[0], t.size)
  {
    var p := PartAt(MbrOf(b), 0);
    assert Entries(MbrOf(b), 1, 0).0 == [] && [p] + [] == [p];
    assert Entries(MbrOf(b), 0, 1) == ([p], true);
    assert End(p) == 0;
    assert [p][..0] == [];
    assert MaxEnd([p]) == 0;
  }

  /** Partition q is p with the file system `ident`, if one was recognised there. */
  ghost predicate NamedBy(p: Part, ident: Option<string>, q: Part) {
    && q.index == p.index && q.kind == p.kind && q.start == p.start && q.count == p.count
    && (if ident in {None, Some("")} then q.fstype == p.fstype else q.fstype == ident)
  }

  /** Each file system is named from its own partition's first sectors. */
  lemma {:induction false} NamedFromOwnSectors(rd: Reader, ps: seq<Part>, i: nat)
    requires i <= |ps|
    ensures var (qs, ok) := Named(rd, ps, i);
      && (ok <==> forall j :: i <= j < |ps| ==> rd(j + 1, ps[j].start).Some?)
      && (forall j :: 0 <= j < i ==> qs[j] == ps[j])
      && (ok ==> forall j :: i <= j < |ps| ==>
            && qs[j] == WithType(ps[j], Ident(rd(j + 1, ps[j].start).value))
            && NamedBy(ps[j], Ident(rd(j + 1, ps[j].start).value), qs[j]))
    decreases |ps| - i
  {
    if i < |ps| && rd(i + 1, ps[i].start).Some? {
      var ps1 := ps[i := WithType(ps[i], Ident(rd(i + 1, ps[i].start).value))];
      NamedFromOwnSectors(rd, ps1, i + 1);
      assert forall j :: i < j < |ps| ==> ps1[j] == ps[j];
    }
  }

  /** Every sector of every partition listed, wrapping ones aside, is on the disc and
      keeps its contents when the size becomes t.size. */
  ghost predicate PartsKeep(g: Geo, c: Cache, t: Table)
    requires Inv(g, c)
  {
    && Inv(Geo(g.sz, t.size), c)
    && forall i :: 0 <= i < |t.parts| && !Wraps(t.parts[i]) ==> PartKeeps(g, c, t.size, t.parts[i])
  }

  ghost predicate PartKeeps(g: Geo, c: Cache, n: nat, p: Part)
    requires Inv(g, c) && Inv(Geo(g.sz, n), c)
  {
    forall x: nat :: Holds(p, x) ==> x < n && View(Geo(g.sz, n), c, x) == View(g, c, x)
  }

  /** Reading the table of a cached disc narrows the cache with pages already loaded:
      the cache stays sound, and an accepted table keeps its partitions' contents. */
  lemma TableNarrowsCache(g: Geo, c: Cache, rd: Reader, b: Buf, max: nat, identify: bool)
    requires Inv(g, c) && g.n <= 0xFFFF_FFFF
    ensures var t := ReadMbr(rd, b, g.n, max, identify);
      Inv(Geo(g.sz, t.size), c) && (t.ok ==> PartsKeep(g, c, t))
  {
    PartsInside(rd, b, g.n, max, identify);
    var t := ReadMbr(rd, b, g.n, max, identify);
    Runs.NarrowKeeps(g, c, t.size);
    if t.ok {
      InsideKeeps(g, c, t);
    }
  }

  lemma InsideKeeps(g: Geo, c: Cache, t: Table)
    requires Inv(g, c) && t.size <= g.n
    requires forall i :: 0 <= i < |t.parts| ==> (Inside(t.parts[i], t.size) <==> !Wraps(t.parts[i]))
    ensures PartsKeep(g, c, t)
  {
    Runs.NarrowKeeps(g, c, t.size);
    forall i | 0 <= i < |t.parts| && !Wraps(t.parts[i])
      ensures PartKeeps(g, c, t.size, t.parts[i])
    {
      assert Inside(t.parts[i], t.size);
    }
  }

  // ----- reading through the cache -----

  /** The bytes of some sectors, in order. */
  function Bytes(ss: seq<Sector>): seq<byte> {
    if ss == [] then [] else Bytes(ss[..|ss| - 1]) + ss[|ss| - 1]
  }

  /** Sectors of the cached disc, as seen through it. */
  ghost function Shown(g: Geo, c: Cache, first: nat, n: nat): (r: seq<Sector>)
    ensures |r| == n && forall i :: 0 <= i < n ==> r[i] == View(g, c, first + i)
  {
    seq(n, i requires 0 <= i => View(g, c, first + i))
  }

  /** How the cached disc is read: the device's verdicts, the loop used, sectors in
      each read and alignment of the buffer. */
  datatype Via = Via(o: Oracle, refresh: bool, n: nat, aligned: bool)

  /** The request that fetches a boot sector: n sectors, marked partial. */
  function TableRequest(v: Via, first: nat): Req {
    Req(first, v.n, true, v.aligned, false)
  }

  ghost function ReadAt(v: Via, g: Geo, c: Cache, first: nat, buf: seq<Sector>): (r: CacheModel.Outcome)
    requires Struct(g, c) && |buf| == v.n
    ensures Struct(g, r.c) && |r.buf| == v.n
  {
    ReadWrite(g, v.o, v.refresh, c, TableRequest(v, first), buf)
  }

  ghost predicate MayRead(v: Via, g: Geo, c: Cache, first: nat) {
    v.refresh || Requests.Permitted(g, c, TableRequest(v, first))
  }

  /** What the reader gets from a read: the bytes, if it succeeds. */
  function Answer(r: CacheModel.Outcome): Option<Buf> {
    if r.ok && |Bytes(r.buf)| >= 2048 then (var b: Buf := Bytes(r.buf); Some(b)) else None
  }

  /** The sectors are on the disc and fill the buffer. */
  ghost predicate Readable(v: Via, g: Geo, c: Cache, first: nat) {
    InBounds(g, TableRequest(v, first)) && |Bytes(Shown(g, c, first, v.n))| >= 2048
  }

  /** From c to c' the cached disc was only read: it is sound and shows the same. */
  ghost predicate OnlyRead(v: Via, g: Geo, c: Cache, c': Cache) {
    Inv(g, c') && SameView(g, c, c') && c.disk.log <= c'.disk.log
  }

  /** A read through the cache is answered exactly if its sectors are readable and the
      device accepts all that is asked; the answer is what the cached disc shows. */
  lemma ReadShows(v: Via, g: Geo, c: Cache, first: nat, buf: seq<Sector>)
    requires Inv(g, c) && |buf| == v.n && MayRead(v, g, c, first)
    ensures var r := ReadAt(v, g, c, first, buf);
      && OnlyRead(v, g, c, r.c)
      && (Answer(r).Some? <==> Readable(v, g, c, first) && Transparency.Worked(v.o, |c.disk.log|, |r.c.disk.log|))
      && (r.ok ==> r.buf == Shown(g, c, first, v.n))
  {
    Runs.AccessKeeps(v.o, v.refresh, g, c, TableRequest(v, first), buf);
    TransparentRead(v, g, c, first, buf, ReadAt(v, g, c, first, buf));
  }

  lemma TransparentRead(v: Via, g: Geo, c: Cache, first: nat, buf: seq<Sector>, r: CacheModel.Outcome)
    requires Inv(g, c) && |buf| == v.n && Requests.Transparent(g, v.o, c, TableRequest(v, first), buf, r)
    ensures OnlyRead(v, g, c, r.c)
    ensures r.ok <==> InBounds(g, TableRequest(v, first)) && Transparency.Worked(v.o, |c.disk.log|, |r.c.disk.log|)
    ensures r.ok ==> r.buf == Shown(g, c, first, v.n)
  {
    if r.ok {
      assert forall i :: 0 <= i < |buf| ==> r.buf[i] == View(g, c, first + i);
    }
  }

  // ----- naming file systems through the cache -----

  /** The answers of the reader from partition i on are what the cache reads, one read
      after the other, until one fails. */
  ghost predicate NamesThrough(v: Via, g: Geo, c: Cache, buf: seq<Sector>, rd: Reader, ps: seq<Part>, i: nat)
    requires Struct(g, c) && |buf| == v.n && i <= |ps|
    decreases |ps| - i
  {
    i < |ps| ==>
      && MayRead(v, g, c, ps[i].start)
      && var r := ReadAt(v, g, c, ps[i].start, buf);
         rd(i + 1, ps[i].start) == Answer(r) && (Answer(r).Some? ==> NamesThrough(v, g, r.c, r.buf, rd, ps, i + 1))
  }

  /** The cache when naming ends. */
  ghost function NamedCache(v: Via, g: Geo, c: Cache, buf: seq<Sector>, ps: seq<Part>, i: nat): (r: Cache)
    requires Struct(g, c) && |buf| == v.n && i <= |ps|
    decreases |ps| - i
  {
    if i == |ps| then c
    else
      var r := ReadAt(v, g, c, ps[i].start, buf);
      if Answer(r).Some? then NamedCache(v, g, r.c, r.buf, ps, i + 1) else r.c
  }

  ghost predicate AllReadable(v: Via, g: Geo, c: Cache, ps: seq<Part>, i: nat) {
    forall j :: i <= j < |ps| ==> Readable(v, g, c, ps[j].start)
  }

  /** Every answer from i on is what the cached disc shows of that partition. */
  ghost predicate AnswersShown(v: Via, g: Geo, c: Cache, rd: Reader, ps: seq<Part>, i: nat) {
    forall j :: i <= j < |ps| ==>
      rd(j + 1, ps[j].start).Some? && rd(j + 1, ps[j].start).value == Bytes(Shown(g, c, ps[j].start, v.n))
  }

  lemma SameShown(v: Via, g: Geo, c: Cache, c': Cache, first: nat)
    requires SameView(g, c, c')
    ensures InBounds(g, TableRequest(v, first)) ==> Shown(g, c', first, v.n) == Shown(g, c, first, v.n)
    ensures Readable(v, g, c', first) == Readable(v, g, c, first)
  {
  }

  /** All reads from i on, which lead to c', are answered exactly if all partitions are
      readable and the device accepts all that is asked. Nothing the disc shows changes. */
  ghost predicate Answered(v: Via, g: Geo, c: Cache, rd: Reader, ps: seq<Part>, i: nat, c': Cache) {
    && OnlyRead(v, g, c, c')
    && (AnsweredFrom(rd, ps, i) <==>
        AllReadable(v, g, c, ps, i) && Transparency.Worked(v.o, |c.disk.log|, |c'.disk.log|))
    && (AnsweredFrom(rd, ps, i) ==> AnswersShown(v, g, c, rd, ps, i))
  }

  lemma {:induction false} NamingReads(v: Via, g: Geo, c: Cache, buf: seq<Sector>, rd: Reader, ps: seq<Part>, i: nat)
    requires Inv(g, c) && |buf| == v.n && i <= |ps| && NamesThrough(v, g, c, buf, rd, ps, i)
    ensures Answered(v, g, c, rd, ps, i, NamedCache(v, g, c, buf, ps, i))
    decreases |ps| - i
  {
    if i < |ps| {
      ReadShows(v, g, c, ps[i].start, buf);
      var r := ReadAt(v, g, c, ps[i].start, buf);
      if Answer(r).Some? {
        NamingReads(v, g, r.c, r.buf, rd, ps, i + 1);
        NamingJoins(v, g, c, r.c, NamedCache(v, g, r.c, r.buf, ps, i + 1), rd, ps, i);
      }
    }
  }

  lemma NamingJoins(v: Via, g: Geo, c: Cache, c1: Cache, c': Cache, rd: Reader, ps: seq<Part>, i: nat)
    requires i < |ps| && OnlyRead(v, g, c, c1) && Answered(v, g, c1, rd, ps, i + 1, c')
    requires Readable(v, g, c, ps[i].start) && Transparency.Worked(v.o, |c.disk.log|, |c1.disk.log|)
    requires rd(i + 1, ps[i].start).Some? && rd(i + 1, ps[i].start).value == Bytes(Shown(g, c, ps[i].start, v.n))
    ensures Answered(v, g, c, rd, ps, i, c')
  {
    ReadOn(v, g, c, c1, c');
    NextReadable(v, g, c, c1, ps, i);
    NextAnswered(rd, ps, i);
    if AnsweredFrom(rd, ps, i) {
      NextShown(v, g, c, c1, rd, ps, i);
    }
  }

  lemma NextAnswered(rd: Reader, ps: seq<Part>, i: nat)
    requires i < |ps| && rd(i + 1, ps[i].start).Some?
    ensures AnsweredFrom(rd, ps, i) <==> AnsweredFrom(rd, ps, i + 1)
  {
  }

  lemma ReadOn(v: Via, g: Geo, c: Cache, c1: Cache, c': Cache)
    requires OnlyRead(v, g, c, c1) && OnlyRead(v, g, c1, c')
    requires Transparency.Worked(v.o, |c.disk.log|, |c1.disk.log|)
    ensures OnlyRead(v, g, c, c')
    ensures Transparency.Worked(v.o, |c.disk.log|, |c'.disk.log|) ==
      Transparency.Worked(v.o, |c1.disk.log|, |c'.disk.log|)
  {
  }

  /** Answers about what the disc shows after the first read are about what it showed before. */
  lemma NextShown(v: Via, g: Geo, c: Cache, c1: Cache, rd: Reader, ps: seq<Part>, i: nat)
    requires i < |ps| && SameView(g, c, c1) && AnswersShown(v, g, c1, rd, ps, i + 1) && AllReadable(v, g, c1, ps, i + 1)
    requires rd(i + 1, ps[i].start).Some? && rd(i + 1, ps[i].start).value == Bytes(Shown(g, c, ps[i].start, v.n))
    ensures AnswersShown(v, g, c, rd, ps, i)
  {
    forall j | i < j < |ps|
      ensures rd(j + 1, ps[j].start).Some? && rd(j + 1, ps[j].start).value == Bytes(Shown(g, c, ps[j].start, v.n))
    {
      assert Readable(v, g, c1, ps[j].start);
      SameShown(v, g, c, c1, ps[j].start);
    }
  }

  lemma NextReadable(v: Via, g: Geo, c: Cache, c1: Cache, ps: seq<Part>, i: nat)
    requires i < |ps| && SameView(g, c, c1)
    ensures AllReadable(v, g, c, ps, i) <==> Readable(v, g, c, ps[i].start) && AllReadable(v, g, c1, ps, i + 1)
  {
    forall j | i < j < |ps|
      ensures Readable(v, g, c1, ps[j].start) == Readable(v, g, c, ps[j].start)
    {
      SameShown(v, g, c, c1, ps[j].start);
    }
  }

  // ----- a cached disc reads its own table -----

  /** Sectors of the partitions listed are on the disc, and seen as they were at first. */
  ghost predicate PartsShown(g: Geo, c: Cache, g': Geo, c': Cache, parts: seq<Part>) {
    forall i :: 0 <= i < |parts| && !Wraps(parts[i]) ==> PartShown(g, c, g', c', parts[i])
  }

  ghost predicate PartShown(g: Geo, c: Cache, g': Geo, c': Cache, p: Part) {
    forall x: nat :: Holds(p, x) ==> x < g'.n && View(g', c', x) == View(g, c, x)
  }

  /** The first sector is a partition table. */
  predicate IsTable(rd: Reader) {
    rd(0, 0).Some? && Ident(rd(0, 0).value) == Some("")
  }

  /** File systems are named through the cache, under the size the table left. */
  predicate Names(rd: Reader, size: sec_t, max: nat, identify: bool) {
    identify && IsTable(rd) && ReadTable(rd, size, max, false).ok
  }

  /** All answers of the reader are what the cached disc reads: the table first, then,
      under the size it leaves, the first sectors of each partition. */
  ghost predicate ReadsThrough(v: Via, g: Geo, c: Cache, buf: seq<Sector>, rd: Reader, max: nat, identify: bool)
    requires Struct(g, c) && g.n <= 0xFFFF_FFFF && |buf| == v.n
  {
    var r := ReadAt(v, g, c, 0, buf);
    var plain := ReadTable(rd, g.n, max, false);
    && MayRead(v, g, c, 0) && rd(0, 0) == Answer(r)
    && (Names(rd, g.n, max, identify) ==>
          var g' := Geo(g.sz, plain.size);
          Struct(g', r.c) && NamesThrough(v, g', r.c, r.buf, rd, plain.parts, 0))
  }

  /** The cache when all is read. */
  ghost function TableCache(v: Via, g: Geo, c: Cache, buf: seq<Sector>, rd: Reader, max: nat, identify: bool): Cache
    requires Struct(g, c) && g.n <= 0xFFFF_FFFF && |buf| == v.n
    requires ReadsThrough(v, g, c, buf, rd, max, identify)
  {
    var r := ReadAt(v, g, c, 0, buf);
    var plain := ReadTable(rd, g.n, max, false);
    if Names(rd, g.n, max, identify) then NamedCache(v, Geo(g.sz, plain.size), r.c, r.buf, plain.parts, 0) else r.c
  }

  /** The first sectors of every partition end by the size left and fill the buffer. */
  ghost predicate PartsReadable(v: Via, g: Geo, c: Cache, n: nat, ps: seq<Part>) {
    forall i :: 0 <= i < |ps| ==>
      InBounds(Geo(g.sz, n), TableRequest(v, ps[i].start)) && |Bytes(Shown(g, c, ps[i].start, v.n))| >= 2048
  }

  /** Partition i of `named` is partition i of `plain`, named from its first sectors as
      the cached disc shows them. */
  ghost predicate NamedAsShown(v: Via, g: Geo, c: Cache, plain: seq<Part>, named: seq<Part>) {
    && |named| == |plain|
    && forall i :: 0 <= i < |plain| ==>
         var bytes := Bytes(Shown(g, c, plain[i].start, v.n));
         |bytes| >= 2048 && (var b: Buf := bytes; named[i] == WithType(plain[i], Ident(b)))
  }

  /** A cached disc whose table, and then the first sectors of each partition, are read
      through the cache itself, which may load and evict pages on the way, and whose
      size is replaced in between. The cache stays sound under the new size and every
      partition listed keeps its contents. If file systems are named, the table is
      accepted exactly if it is without naming, every partition's first sectors end by
      the size left, and the device accepts all that is asked for them; each is then
      named from what the cached disc showed at first. */
  lemma CachedTableNarrows(v: Via, g: Geo, c: Cache, buf: seq<Sector>, rd: Reader, max: nat, identify: bool)
    requires Inv(g, c) && |buf| == v.n && ReadsThrough(v, g, c, buf, rd, max, identify)
    ensures var r, t := ReadAt(v, g, c, 0, buf), ReadTable(rd, g.n, max, identify);
      var c', plain := TableCache(v, g, c, buf, rd, max, identify), ReadTable(rd, g.n, max, false);
      && (r.ok ==> r.buf == Shown(g, c, 0, v.n))
      && Inv(Geo(g.sz, t.size), c') && t.size == plain.size
      && (IsTable(rd) ==> SizeFound(rd(0, 0).value, g.n, max, t.parts, t.size))
      && (t.ok && IsTable(rd) ==> PartsShown(g, c, Geo(g.sz, t.size), c', t.parts))
      && (Names(rd, g.n, max, identify) ==>
            && (t.ok <==> PartsReadable(v, g, c, t.size, plain.parts)
                          && Transparency.Worked(v.o, |r.c.disk.log|, |c'.disk.log|))
            && (t.ok ==> NamedAsShown(v, g, c, plain.parts, t.parts)))
  {
    ReadShows(v, g, c, 0, buf);
    var r := ReadAt(v, g, c, 0, buf);
    var t, plain := ReadTable(rd, g.n, max, identify), ReadTable(rd, g.n, max, false);
    TableNarrows(g, c, r.c, rd, max, identify);
    if Names(rd, g.n, max, identify) {
      NamingShows(v, g, c, r.c, r.buf, rd, plain.parts, plain.size);
      NamedTable(v, g, c, rd, max, t, plain);
      if t.ok {
        ShownThroughout(g, c, r.c, Geo(g.sz, t.size), TableCache(v, g, c, buf, rd, max, identify), t.parts);
      }
    }
  }

  /** Naming turns the table without names into one with names if every read is answered. */
  lemma NamedTable(v: Via, g: Geo, c: Cache, rd: Reader, max: nat, t: Table, plain: Table)
    requires g.n <= 0xFFFF_FFFF && Names(rd, g.n, max, true)
    requires t == ReadTable(rd, g.n, max, true) && plain == ReadTable(rd, g.n, max, false)
    requires AnsweredFrom(rd, plain.parts, 0) ==> AnswersShown(v, g, c, rd, plain.parts, 0)
    ensures t.ok <==> AnsweredFrom(rd, plain.parts, 0)
    ensures t.ok ==> NamedAsShown(v, g, c, plain.parts, t.parts)
  {
    NamedFromOwnSectors(rd, plain.parts, 0);
    assert (t.parts, t.ok) == Named(rd, plain.parts, 0);
  }

  lemma TableNarrows(g: Geo, c: Cache, c': Cache, rd: Reader, max: nat, identify: bool)
    requires Inv(g, c') && SameView(g, c, c') && g.n <= 0xFFFF_FFFF
    ensures var t := ReadTable(rd, g.n, max, identify);
      && t.size <= g.n && t.size == ReadTable(rd, g.n, max, false).size && Inv(Geo(g.sz, t.size), c')
      && (IsTable(rd) ==> SizeFound(rd(0, 0).value, g.n, max, t.parts, t.size))
      && (t.ok && IsTable(rd) ==> PartsShown(g, c, Geo(g.sz, t.size), c', t.parts))
  {
    if IsTable(rd) {
      TableNarrowsCache(g, c', rd, rd(0, 0).value, max, identify);
      PartsInside(rd, rd(0, 0).value, g.n, max, identify);
      var t := ReadTable(rd, g.n, max, identify);
      if t.ok {
        KeptAreShown(g, c, c', t);
      }
    }
  }

  lemma KeptAreShown(g: Geo, c: Cache, c': Cache, t: Table)
    requires Inv(g, c') && SameView(g, c, c') && PartsKeep(g, c', t) && t.size <= g.n
    ensures PartsShown(g, c, Geo(g.sz, t.size), c', t.parts)
  {
    forall i | 0 <= i < |t.parts| && !Wraps(t.parts[i])
      ensures PartShown(g, c, Geo(g.sz, t.size), c', t.parts[i])
    {
      assert PartKeeps(g, c', t.size, t.parts[i]);
    }
  }

  /** What partitions show after the table was read they show after naming. */
  lemma ShownThroughout(g: Geo, c: Cache, c1: Cache, g': Geo, c': Cache, parts: seq<Part>)
    requires PartsShown(g, c, g', c1, parts) && SameView(g', c1, c')
    ensures PartsShown(g, c, g', c', parts)
  {
    forall i | 0 <= i < |parts| && !Wraps(parts[i])
      ensures PartShown(g, c, g', c', parts[i])
    {
      assert PartShown(g, c, g', c1, parts[i]);
    }
  }

  /** The narrowed disc shows, as far as it reaches, what it showed at first. */
  lemma NarrowedShown(v: Via, g: Geo, c: Cache, c1: Cache, n: nat, first: nat)
    requires Inv(g, c1) && SameView(g, c, c1) && n <= g.n && InBounds(Geo(g.sz, n), TableRequest(v, first))
    ensures Shown(Geo(g.sz, n), c1, first, v.n) == Shown(g, c, first, v.n)
  {
    Runs.NarrowKeeps(g, c1, n);
  }

  lemma NamingShows(v: Via, g: Geo, c: Cache, c1: Cache, buf: seq<Sector>, rd: Reader, ps: seq<Part>, n: nat)
    requires Inv(g, c1) && SameView(g, c, c1) && n <= g.n && |buf| == v.n
    requires Inv(Geo(g.sz, n), c1) && NamesThrough(v, Geo(g.sz, n), c1, buf, rd, ps, 0)
    ensures var c' := NamedCache(v, Geo(g.sz, n), c1, buf, ps, 0);
      && OnlyRead(v, Geo(g.sz, n), c1, c')
      && (AnsweredFrom(rd, ps, 0) <==>
          PartsReadable(v, g, c, n, ps) && Transparency.Worked(v.o, |c1.disk.log|, |c'.disk.log|))
      && (AnsweredFrom(rd, ps, 0) ==> AnswersShown(v, g, c, rd, ps, 0))
  {
    NamingReads(v, Geo(g.sz, n), c1, buf, rd, ps, 0);
    ReadableNarrowed(v, g, c, c1, n, ps);
    if AnsweredFrom(rd, ps, 0) {
      AnswersNarrowed(v, g, c, c1, n, rd, ps);
    }
  }

  lemma ReadableNarrowed(v: Via, g: Geo, c: Cache, c1: Cache, n: nat, ps: seq<Part>)
    requires Inv(g, c1) && SameView(g, c, c1) && n <= g.n
    ensures AllReadable(v, Geo(g.sz, n), c1, ps, 0) <==> PartsReadable(v, g, c, n, ps)
  {
    forall i | 0 <= i < |ps|
      ensures InBounds(Geo(g.sz, n), TableRequest(v, ps[i].start)) ==>
        Shown(Geo(g.sz, n), c1, ps[i].start, v.n) == Shown(g, c, ps[i].start, v.n)
    {
      if InBounds(Geo(g.sz, n), TableRequest(v, ps[i].start)) {
        NarrowedShown(v, g, c, c1, n, ps[i].start);
      }
    }
  }

  lemma AnswersNarrowed(v: Via, g: Geo, c: Cache, c1: Cache, n: nat, rd: Reader, ps: seq<Part>)
    requires Inv(g, c1) && SameView(g, c, c1) && n <= g.n
    requires AnswersShown(v, Geo(g.sz, n), c1, rd, ps, 0) && AllReadable(v, Geo(g.sz, n), c1, ps, 0)
    ensures AnswersShown(v, g, c, rd, ps, 0)
  {
    forall i | 0 <= i < |ps|
      ensures rd(i + 1, ps[i].start).Some? && rd(i + 1, ps[i].start).value == Bytes(Shown(g, c, ps[i].start, v.n))
    {
      assert Readable(v, Geo(g.sz, n), c1, ps[i].start);
      NarrowedShown(v, g, c, c1, n, ps[i].start);
    }
  }

  // ----- the reader, in place -----

  class Disc {
    var numSectors: sec_t

    constructor (n: sec_t)
      ensures numSectors == n
    {
      numSectors := n;
    }

    /** Fills `parts` from the front, sets the size, and returns how many partitions
        were found; zero on any failure, with what was filled in left behind. */
    method ReadPartitionTable(rd: Reader, parts: array<Part>, max: nat, identify: bool) returns (n: nat)
      requires max <= parts.Length
      modifies this, parts
      ensures max == 0 ==> n == 0 && numSectors == old(numSectors) && parts[..] == old(parts[..])
      ensures max > 0 ==> var t := ReadTable(rd, old(numSectors), max, identify);
        && n == (if t.ok then |t.parts| else 0) && numSectors == t.size
        && |t.parts| <= parts.Length && parts[..] == t.parts + old(parts[|t.parts|..])
        && (IsTable(rd) ==> SizeFound(rd(0, 0).value, old(numSectors), max, parts[..|t.parts|], numSectors))
    {
      if max == 0 {
        return 0;
      }
      var first := rd(0, 0);
      if first.None? {
        return 0;
      }
      var b := first.value;
      var ident := Ident(b);
      if ident.None? {
        return 0;
      } else if ident.value != "" {
        parts[0] := Part(0, 0, ident, 0, numSectors);
        return 1;
      }
      n := ScanMbr(b, parts, max, identify, rd);
    }

    method ScanMbr(b: Buf, parts: array<Part>, max: nat, identify: bool, rd: Reader) returns (n: nat)
      requires max <= parts.Length
      modifies this, parts
      ensures var t := ReadMbr(rd, b, old(numSectors), max, identify);
        && n == (if t.ok then |t.parts| else 0) && numSectors == t.size
        && |t.parts| <= parts.Length && parts[..] == t.parts + old(parts[|t.parts|..])
        && SizeFound(b, old(numSectors), max, parts[..|t.parts|], numSectors)
    {
      MbrSizeFound(rd, b, numSectors, max, identify);
      ghost var t := ReadMbr(rd, b, numSectors, max, identify);
      n := ScanTable(b, parts, max, identify, rd);
      assert parts[..|t.parts|] == t.parts;
    }

    method ScanTable(b: Buf, parts: array<Part>, max: nat, identify: bool, rd: Reader) returns (n: nat)
      requires max <= parts.Length
      modifies this, parts
      ensures var t := ReadMbr(rd, b, old(numSectors), max, identify);
        && n == (if t.ok then |t.parts| else 0) && numSectors == t.size
        && |t.parts| <= parts.Length && parts[..] == t.parts + old(parts[|t.parts|..])
    {
      var found, total, wellFormed := ScanEntries(MbrOf(b), parts, max);
      if !wellFormed {
        return 0;
      }
      if numSectors == UNKNOWN {
        numSectors := total;
      } else if total > numSectors {
        return 0;
      }
      if identify {
        var named := NameParts(rd, parts, found);
        if !named {
          return 0;
        }
      }
      return found;
    }
  }

  /** `got` was found before entry i, and with what entries from i on give it makes `all`. */
  ghost predicate Scanned(t: Mbr, i: nat, room: nat, got: seq<Part>, all: (seq<Part>, bool)) {
    i <= 4 && var rest := Entries(t, i, room); all == (got + rest.0, rest.1)
  }

  lemma ScanStarts(t: Mbr, room: nat)
    ensures Scanned(t, 0, room, [], Entries(t, 0, room))
  {
    var all := Entries(t, 0, room);
    assert [] + all.0 == all.0;
  }

  /** A used entry moves from what is to come to what was found. */
  lemma ScanUsed(t: Mbr, i: nat, room: nat, got: seq<Part>, all: (seq<Part>, bool))
    requires i < 4 && room > 0 && !Malformed(t[i]) && Used(t[i]) && Scanned(t, i, room, got, all)
    ensures Scanned(t, i + 1, room - 1, got + [PartAt(t, i)], all)
  {
    var rest := Entries(t, i + 1, room - 1);
    assert got + ([PartAt(t, i)] + rest.0) == got + [PartAt(t, i)] + rest.0;
  }

  lemma ScanUnused(t: Mbr, i: nat, room: nat, got: seq<Part>, all: (seq<Part>, bool))
    requires i < 4 && room > 0 && !Malformed(t[i]) && !Used(t[i]) && Scanned(t, i, room, got, all)
    ensures Scanned(t, i + 1, room, got, all)
  {
  }

  lemma ScanStops(t: Mbr, i: nat, room: nat, got: seq<Part>, all: (seq<Part>, bool))
    requires Scanned(t, i, room, got, all) && (i == 4 || room == 0 || Malformed(t[i]))
    ensures all == (got, i == 4 || room == 0)
  {
    assert got + [] == got;
  }

  method ScanEntries(t: Mbr, parts: array<Part>, max: nat) returns (found: nat, total: sec_t, wellFormed: bool)
    requires max <= parts.Length
    modifies parts
    ensures found <= max && parts[..found] == Entries(t, 0, max).0 && wellFormed == Entries(t, 0, max).1
    ensures total == MaxEnd(parts[..found])
    ensures forall j :: found <= j < parts.Length ==> parts[j] == old(parts[j])
  {
    found, total := 0, 0;
    var i := 0;
    ghost var got, all := [], Entries(t, 0, max);
    ScanStarts(t, max);
    while i < 4 && found < max
      invariant i <= 4 && found <= max && got == parts[..found]
      invariant Scanned(t, i, max - found, got, all)
      invariant total == MaxEnd(got)
      invariant forall j :: found <= j < parts.Length ==> parts[j] == old(parts[j])
    {
      if Malformed(t[i]) {
        ScanStops(t, i, max - found, got, all);
        return found, total, false;
      }
      if Used(t[i]) {
        ScanUsed(t, i, max - found, got, all);
        var p := PartAt(t, i);
        total := AddPart(parts, found, p, total, got);
        got := got + [p];
        found := found + 1;
      } else {
        ScanUnused(t, i, max - found, got, all);
      }
      i := i + 1;
    }
    ScanStops(t, i, max - found, got, all);
    return found, total, true;
  }

  /** Store a partition behind the ones found, and extend the size they need. */
  method AddPart(parts: array<Part>, at: nat, p: Part, total: sec_t, ghost got: seq<Part>) returns (total': sec_t)
    requires at < parts.Length && got == parts[..at] && total == MaxEnd(got)
    modifies parts
    ensures parts[..at + 1] == got + [p] && total' == MaxEnd(got + [p])
    ensures forall j :: at < j < parts.Length ==> parts[j] == old(parts[j])
  {
    parts[at] := p;
    total' := total;
    if End(p) > total {
      total' := End(p);
    }
    MaxEndAppends(got, p);
  }

  method NameParts(rd: Reader, parts: array<Part>, n: nat) returns (ok: bool)
    requires n <= parts.Length
    modifies parts
    ensures (parts[..n], ok) == Named(rd, old(parts[..n]), 0)
    ensures parts[n..] == old(parts[n..])
  {
    for i := 0 to n
      invariant Named(rd, parts[..n], i) == Named(rd, old(parts[..n]), 0)
      invariant parts[n..] == old(parts[n..])
    {
      ghost var before := parts[..n];
      match rd(i + 1, parts[i].start) {
        case None => return false;
        case Some(b) =>
          var ident := Ident(b);
          if ident.Some? && ident.value != "" {
            parts[i] := parts[i].(fstype := ident);
          }
          assert parts[..n] == before[i := WithType(before[i], ident)];
      }
    }
    return true;
  }
}
