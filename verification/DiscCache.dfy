/** The cache in place: entries linked by number, one data buffer, dirty fields
    updated where they are. Every method is proved to compute the corresponding
    function of CacheModel on the list of pages the links spell out. */
module DiscCache {
  import opened Pages
  import opened Device
  import opened CacheModel
  import opened CacheInvariant
  import opened Links
  import opened DirtyMarks

  class BlockDevice {
    var sectors: seq<Sector>
    var log: seq<Event>
    const oracle: Oracle

    constructor (sectors: seq<Sector>, oracle: Oracle)
      ensures this.sectors == sectors && this.oracle == oracle && log == []
    {
      this.sectors, this.oracle, this.log := sectors, oracle, [];
    }

    ghost function Value(): Disk
      reads this
    {
      Disk(sectors, log)
    }

    /** Read `count` sectors from sector `first` into dst[at..]. */
    method ReadSectors(dst: array<Sector>, at: nat, first: nat, count: nat) returns (ok: bool)
      requires first + count <= |sectors| && at + count <= dst.Length
      modifies this, dst
      ensures var r := DiskRead(oracle, old(Value()), first, count);
        Value() == r.0 && ok == r.2 && dst[..] == Blit(old(dst[..]), at, r.1)
    {
      var (d, got, good) := DiskRead(oracle, Disk(sectors, log), first, count);
      sectors, log, ok := d.sectors, d.log, good;
      forall i | 0 <= i < count {
        dst[at + i] := got[i];
      }
    }

    /** Write src from sector `first` on. */
    method WriteSectors(src: seq<Sector>, first: nat) returns (ok: bool)
      requires first + |src| <= |sectors|
      modifies this
      ensures (Value(), ok) == DiskWrite(oracle, old(Value()), first, src)
    {
      var (d, good) := DiskWrite(oracle, Disk(sectors, log), first, src);
      sectors, log, ok := d.sectors, d.log, good;
    }

    method Sync() returns (ok: bool)
      modifies this
      ensures (Value(), ok) == DiskSync(oracle, old(Value()))
    {
      var (d, good) := DiskSync(oracle, Disk(sectors, log));
      sectors, log, ok := d.sectors, d.log, good;
    }
  }

  method CacheCopy(dst: array<Sector>, to: nat, src: array<Sector>, from: nat, count: nat)
    requires to + count <= dst.Length && from + count <= src.Length && dst != src
    modifies dst
    ensures dst[..] == Blit(old(dst[..]), to, src[from..from + count])
  {
    forall i | 0 <= i < count {
      dst[to + i] := src[from + i];
    }
  }

  /** A hit is a copy, then perhaps a promotion. */
  lemma HitInTwo(g: Geo, c: Cache, buf: seq<Sector>, k: nat, off: nat, cur: nat, at: nat, write: bool,
                 ps: seq<Page>, qs: seq<Page>, buf': seq<Sector>, k': nat)
    requires Struct(g, c) && k < |c.pages| && c.pages[k].base != EMPTY
    requires cur >= 1 && off + cur <= g.sz && at + cur <= |buf|
    requires c.pages[k].base + off + cur <= |c.disk.sectors|
    requires ps == if write then c.pages[k := Stored(c.pages[k], off, buf[at..at + cur])] else c.pages
    requires buf' == if write then buf else Blit(buf, at, c.pages[k].data[off..off + cur])
    requires qs == if !(off == 0 && cur == g.sz) && k != 0 then Touch(ps, k) else ps
    requires k' == if !(off == 0 && cur == g.sz) && k != 0 then 0 else k
    ensures (Cache(qs, c.disk), buf', k') == Hit(g, c, buf, k, off, cur, at, write)
  {
  }

  class LinkedCache {
    const inner: BlockDevice
    const pageShift: nat
    const entries: array<Entry>
    const data: array<Sector>
    var numSectors: sec_t
    var head: int
    var tail: int

    /** The entries in list order, with their windows of the data buffer. */
    ghost var pages: seq<Page>

    ghost function Geometry(): Geo
      reads this
    {
      Geo(Pow2(pageShift), numSectors)
    }

    ghost function Value(): Cache
      reads this, inner
    {
      Cache(pages, inner.Value())
    }

    ghost predicate Valid()
      reads this, entries, data, inner
    {
      && pageShift <= 15
      && data.Length == SlotStart(Pow2(pageShift), entries.Length)
      && |inner.sectors| <= 0xFFFF_FFFF
      && LinksOk(entries[..], head, tail, pages)
      && DataOk(Pow2(pageShift), data[..], pages)
      && Struct(Geometry(), Value())
    }

    /** An unused cache over `inner`: entries linked in array order, all of them free.
        Its routines are meant for pages of at most 2^15 sectors. */
    constructor (inner: BlockDevice, n: sec_t, cachePages: nat, shift: nat)
      requires cachePages >= 1
      requires n <= |inner.sectors| <= 0xFFFF_FFFF
      ensures fresh(entries) && fresh(data)
      ensures this.inner == inner && numSectors == n && pageShift == shift
      ensures entries.Length == |pages| == cachePages && data.Length == SlotStart(Pow2(shift), cachePages)
      ensures head == 0 && tail == cachePages - 1
      ensures forall j :: 0 <= j < cachePages ==> entries[j] == FreeEntry(shift, cachePages, j)
      ensures shift <= 15 ==> Valid()
      ensures forall i :: 0 <= i < cachePages ==>
        pages[i].slot == i && pages[i].base == EMPTY && pages[i].lo == Pow2(shift) && pages[i].hi == 0
    {
      this.inner, this.numSectors, this.pageShift := inner, n, shift;
      var sz := Pow2(shift);
      entries := new Entry[cachePages](_ => Entry(NULL, NULL, 0, 0, 0));
      data := new Sector[SlotStart(sz, cachePages)];
      head, tail := 0, cachePages - 1;
      pages := [];
      new;
      for i := 0 to cachePages
        modifies entries
        invariant forall j :: 0 <= j < i ==> entries[j] == FreeEntry(shift, cachePages, j)
      {
        var next, prev := if i + 1 < cachePages then i + 1 else NULL, if i > 0 then i - 1 else NULL;
        entries[i] := Entry(next, prev, EMPTY, Narrowed(sz), 0);
      }
      pages := FreePages(sz, cachePages, data[..]);
      if shift <= 15 {
        FreeIsLinked(entries[..], shift, pages);
      }
    }

    // ----- search -----

    /** Entry holding page b, else the one with the nearest resident successor. */
    method Search(b: sec_t) returns (ret: int)
      requires LinksOk(entries[..], head, tail, pages)
      ensures ret == Link(pages, CacheModel.Search(pages, b))
    {
      var min_sec: sec_t := EMPTY;
      ret := NULL;
      var p := head;
      ghost var i: nat, best := 0, -1;
      while p != NULL
        invariant i <= |pages| && -1 <= best < |pages|
        invariant p == Link(pages, i) && ret == Link(pages, best)
        invariant min_sec == MinSec(pages, best)
        invariant SearchFrom(pages, b, 0, -1) == SearchFrom(pages, b, i, best)
        decreases |pages| - i
      {
        assert EntryAt(entries[..], pages, i);
        if entries[p].base == EMPTY {
          break;
        }
        if entries[p].base == b {
          return p;
        }
        if entries[p].base > b && entries[p].base < min_sec {
          min_sec := entries[p].base;
          ret := p;
          best := i;
        }
        p := entries[p].next;
        i := i + 1;
      }
    }

    // ----- flush -----

    /** Position in the data buffer of entry p's sector `off`. */
    method GetData(p: nat, off: nat) returns (start: nat)
      requires p < entries.Length && off <= Pow2(pageShift)
      requires data.Length == SlotStart(Pow2(pageShift), entries.Length)
      ensures start == SlotStart(Pow2(pageShift), p) + off
      ensures SlotStart(Pow2(pageShift), p) + Pow2(pageShift) <= data.Length
    {
      SlotsTile(Pow2(pageShift), p, entries.Length);
      SlotStartIsProduct(Pow2(pageShift), p);
      start := p * Pow2(pageShift) + off;
    }

    method EntryFlush(p: nat, ghost k: nat) returns (ok: bool)
      requires Valid() && k < |pages| && pages[k].slot == p
      modifies this`pages, entries, inner
      ensures Valid()
      ensures (Value(), ok) == FlushPage(Geometry(), inner.oracle, old(Value()), k)
      ensures |pages| == old(|pages|) && pages[k].slot == p
    {
      assert EntryAt(entries[..], pages, k);
      if entries[p].lo >= entries[p].hi {
        return true;
      }
      ghost var r := FlushPage(Geometry(), inner.oracle, Value(), k).0;
      ok := WriteBack(p, k);
      if ok {
        MarkClean(p, k);
      }
      assert Value() == r;
    }

    /** No sector of entry p's page is dirty any more. */
    method MarkClean(p: nat, ghost k: nat)
      requires pageShift <= 15 && k < |pages| && pages[k].slot == p
      requires LinksOk(entries[..], head, tail, pages) && DataOk(Pow2(pageShift), data[..], pages)
      modifies this`pages, entries
      ensures LinksOk(entries[..], head, tail, pages) && DataOk(Pow2(pageShift), data[..], pages)
      ensures pages == old(pages)[k := old(pages)[k].(lo := Pow2(pageShift), hi := 0)]
    {
      assert EntryAt(entries[..], pages, k);
      ghost var q := pages[k].(lo := Pow2(pageShift), hi := 0);
      PageSizeFits16(pageShift);
      SetDirty(p, Narrowed(Pow2(pageShift)), 0);
      UpdateLinks(old(entries[..]), head, tail, pages, k, q, entries[p]);
      SameData(Pow2(pageShift), data[..], pages, k, q);
      pages := pages[k := q];
    }

    method SetDirty(p: nat, lo: uint16, hi: uint16)
      requires p < entries.Length
      modifies entries
      ensures entries[..] == old(entries[..])[p := old(entries[p]).(lo := lo, hi := hi)]
    {
      entries[p] := entries[p].(lo := lo, hi := hi);
    }

    method SetBase(p: nat, b: sec_t)
      requires p < entries.Length
      modifies entries
      ensures entries[..] == old(entries[..])[p := old(entries[p]).(base := b)]
    {
      entries[p] := entries[p].(base := b);
    }

    method WriteBack(p: nat, ghost k: nat) returns (ok: bool)
      requires k < |pages| && pages[k].slot == p && |inner.sectors| <= 0xFFFF_FFFF
      requires data.Length == SlotStart(Pow2(pageShift), entries.Length)
      requires LinksOk(entries[..], head, tail, pages) && DataOk(Pow2(pageShift), data[..], pages)
      requires pages[k].lo < pages[k].hi <= Pow2(pageShift) == |pages[k].data|
      requires pages[k].base + pages[k].hi <= |inner.sectors|
      modifies inner
      ensures var q := pages[k];
        (inner.Value(), ok) == DiskWrite(inner.oracle, old(inner.Value()), q.base + q.lo, q.data[q.lo..q.hi])
    {
      assert EntryAt(entries[..], pages, k);
      var e := entries[p];
      var start := GetData(p, e.lo);
      var sector: sec_t := e.base + e.lo;
      var sz := e.hi - e.lo;
      WindowSlice(Pow2(pageShift), data[..], pages[k], e.lo, e.hi);
      assert data[..][start..start + sz] == data[start..start + sz];
      ok := inner.WriteSectors(data[start..start + sz], sector);
    }

    /** Write back every dirty entry up to the first free one, then sync the device. */
    method Flush() returns (ok: bool)
      requires Valid()
      modifies this`pages, entries, inner
      ensures Valid()
      ensures (Value(), ok) == CacheModel.Flush(Geometry(), inner.oracle, old(Value()))
    {
      ghost var all := FlushFrom(Geometry(), inner.oracle, Value(), 0);
      FlushingStarts(all);
      ok := FlushEntries(all);
      var synced := inner.Sync();
      ok := ok && synced;
    }

    /** `all` is what flushing all entries gives; the first i are done, `ok` so far. */
    ghost predicate Flushing(all: (Cache, bool), i: nat, ok: bool)
      reads this, entries, data, inner
    {
      && Valid() && i <= |pages|
      && var rest := FlushFrom(Geometry(), inner.oracle, Value(), i);
         all.0 == rest.0 && all.1 == (ok && rest.1)
    }

    lemma FlushingStarts(all: (Cache, bool))
      requires Valid() && all == FlushFrom(Geometry(), inner.oracle, Value(), 0)
      ensures Flushing(all, 0, true)
    {
    }

    lemma FlushingEnds(all: (Cache, bool), i: nat, ok: bool)
      requires Flushing(all, i, ok) && (i == |pages| || pages[i].base == EMPTY)
      ensures all == (Value(), ok)
    {
    }

    method FlushEntries(ghost all: (Cache, bool)) returns (ok: bool)
      requires Flushing(all, 0, true)
      modifies this`pages, entries, inner
      ensures Valid() && all == (Value(), ok)
    {
      ok := true;
      var p := head;
      ghost var i: nat := 0;
      while p != NULL
        invariant Flushing(all, i, ok) && p == Link(pages, i)
        decreases |pages| - i
      {
        var unused := IsBase(p, EMPTY, i);
        if unused {
          break;
        }
        ok, p := FlushStep(p, ok, i, all);
        i := i + 1;
      }
      FlushingEnds(all, i, ok);
    }

    method FlushStep(p: nat, ok: bool, ghost i: nat, ghost all: (Cache, bool)) returns (ok': bool, next: int)
      requires Flushing(all, i, ok) && i < |pages| && pages[i].slot == p && pages[i].base != EMPTY
      modifies this`pages, entries, inner
      ensures Flushing(all, i + 1, ok') && |pages| == old(|pages|)
      ensures next == Link(pages, i + 1)
    {
      var good := EntryFlush(p, i);
      assert EntryAt(entries[..], pages, i);
      ok', next := ok && good, entries[p].next;
    }

    // ----- promotion -----

    /** Splice entry p out of the list and put it in front. */
    method MakeMostRecent(p: nat, ghost k: nat)
      requires Valid() && 0 < k < |pages| && pages[k].slot == p && pages[k].base != EMPTY
      modifies this`pages, this`head, this`tail, entries
      ensures Valid() && pages == Touch(old(pages), k) && head == p
    {
      SpliceIsTouch(entries[..], head, tail, pages, k);
      TouchData(Pow2(pageShift), data[..], pages, k);
      var prev, next := entries[p].prev, entries[p].next;
      entries[prev] := entries[prev].(next := next);
      if next != NULL {
        entries[next] := entries[next].(prev := prev);
      } else {
        tail := prev;
      }
      assert entries[..] == Unlinked(old(entries[..]), p);
      entries[p] := entries[p].(next := head);
      entries[head] := entries[head].(prev := p);
      entries[p] := entries[p].(prev := NULL);
      assert entries[..] == LinkedInFront(Unlinked(old(entries[..]), p), p, head);
      head := p;
      pages := Touch(pages, k);
      assert Struct(Geometry(), Value()) by {
        TouchedStruct(Geometry(), old(Value()), k);
      }
    }

    // ----- refill -----

    /** The first free entry, or the tail when none is free. */
    method PickVictim() returns (p: nat)
      requires Valid()
      ensures p == pages[Victim(pages)].slot
    {
      ghost var i: nat := |pages| - 1;
      var q := tail;
      assert EntryAt(entries[..], pages, i);
      while entries[q].base == EMPTY && entries[q].prev != NULL && entries[entries[q].prev].base == EMPTY
        invariant i < |pages| && q == pages[i].slot && EntryAt(entries[..], pages, i)
        invariant i > 0 ==> EntryAt(entries[..], pages, i - 1)
        invariant VictimFrom(pages, i) == Victim(pages)
        decreases i
      {
        q := entries[q].prev;
        i := i - 1;
        if i > 0 {
          assert EntryAt(entries[..], pages, i - 1);
        }
      }
      p := q;
    }

    /** Flush the victim and give it to page b, loading the page when `load`. */
    method TakeVictim(b: sec_t, load: bool) returns (p: nat, ok: bool)
      requires Valid() && Aligned(Pow2(pageShift), b) && b < numSectors
      modifies this`pages, entries, data, inner
      ensures Valid()
      ensures var g, o, c := Geometry(), inner.oracle, old(Value());
        var v := Victim(c.pages);
        var (c1, flushed) := FlushPage(g, o, c, v);
        if !flushed then !ok && Value() == c1
        else
          && v == Victim(c1.pages) && c1.pages[v].lo >= c1.pages[v].hi
          && (Value(), ok) == Refill(g, o, c1, v, b, load)
          && p == pages[v].slot
    {
      ghost var v := Victim(pages);
      FlushKeepsVictim(Geometry(), inner.oracle, Value(), v);
      p := PickVictim();
      ok := EntryFlush(p, v);
      if !ok {
        return;
      }
      ok := RefillEntry(p, b, load, v);
    }

    /** Give the clean victim p to page b. */
    method RefillEntry(p: nat, b: sec_t, load: bool, ghost v: nat) returns (ok: bool)
      requires Valid() && Aligned(Pow2(pageShift), b) && b < numSectors
      requires v == Victim(pages) && pages[v].slot == p && pages[v].lo >= pages[v].hi
      modifies this`pages, entries, data, inner
      ensures Valid()
      ensures (Value(), ok) == Refill(Geometry(), inner.oracle, old(Value()), v, b, load)
      ensures |pages| == old(|pages|) && pages[v].slot == p
    {
      assert EntryAt(entries[..], pages, v);
      var max_sz := numSectors - b;
      var sz := if Pow2(pageShift) < max_sz then Pow2(pageShift) else max_sz;
      ghost var r := Refill(Geometry(), inner.oracle, Value(), v, b, load).0;
      SetBase(p, b);
      ok := true;
      if load {
        ok := LoadWindow(p, b, sz, v, r.pages[v]);
        if !ok {
          SetBase(p, EMPTY);
        }
      } else {
        SameData(Pow2(pageShift), data[..], pages, v, r.pages[v]);
      }
      UpdateLinks(old(entries[..]), head, tail, pages, v, r.pages[v], entries[p]);
      assert entries[..] == old(entries[..])[p := entries[p]];
      pages := pages[v := r.pages[v]];
      assert Value() == r;
    }

    method LoadWindow(p: nat, b: nat, cnt: nat, ghost v: nat, ghost q: Page) returns (ok: bool)
      requires v < |pages| && pages[v].slot == q.slot == p && |pages[v].data| == Pow2(pageShift)
      requires SlotsOk(entries.Length, pages) && DataOk(Pow2(pageShift), data[..], pages)
      requires data.Length == SlotStart(Pow2(pageShift), entries.Length)
      requires cnt <= Pow2(pageShift) && b + cnt <= |inner.sectors|
      requires q.data == Blit(pages[v].data, 0, DiskRead(inner.oracle, inner.Value(), b, cnt).1)
      modifies data, inner
      ensures DataOk(Pow2(pageShift), data[..], pages[v := q])
      ensures var r := DiskRead(inner.oracle, old(inner.Value()), b, cnt);
        inner.Value() == r.0 && ok == r.2
    {
      var start := GetData(p, 0);
      UpdateData(Pow2(pageShift), data[..], pages, v, 0, DiskRead(inner.oracle, inner.Value(), b, cnt).1, q);
      ok := inner.ReadSectors(data, start, b, cnt);
    }

    // ----- access to a resident page -----

    /** Copy `cur` sectors from buffer[at..] into entry p's page at offset off and
        widen its dirty interval. */
    method StoreInto(p: nat, off: nat, cur: nat, buffer: array<Sector>, at: nat, ghost k: nat)
      requires pageShift <= 15 && k < |pages| && pages[k].slot == p && |pages[k].data| == Pow2(pageShift)
      requires data.Length == SlotStart(Pow2(pageShift), entries.Length)
      requires LinksOk(entries[..], head, tail, pages) && DataOk(Pow2(pageShift), data[..], pages)
      requires off + cur <= Pow2(pageShift) && at + cur <= buffer.Length && buffer != data
      modifies this`pages, entries, data
      ensures LinksOk(entries[..], head, tail, pages) && DataOk(Pow2(pageShift), data[..], pages)
      ensures pages == old(pages)[k := Stored(old(pages)[k], off, old(buffer[at..at + cur]))]
    {
      assert EntryAt(entries[..], pages, k);
      ghost var q := Stored(pages[k], off, buffer[at..at + cur]);
      CopyIn(p, off, cur, buffer, at, k, q);
      PageSizeFits16(pageShift);
      MarkDirty(p, off, off + cur);
      UpdateLinks(old(entries[..]), head, tail, pages, k, q, entries[p]);
      pages := pages[k := q];
    }

    method CopyIn(p: nat, off: nat, cur: nat, buffer: array<Sector>, at: nat, ghost k: nat, ghost q: Page)
      requires k < |pages| && pages[k].slot == q.slot == p < entries.Length && |pages[k].data| == Pow2(pageShift)
      requires SlotsOk(entries.Length, pages) && DataOk(Pow2(pageShift), data[..], pages)
      requires data.Length == SlotStart(Pow2(pageShift), entries.Length)
      requires off + cur <= Pow2(pageShift) && at + cur <= buffer.Length && buffer != data
      requires q.data == Blit(pages[k].data, off, buffer[at..at + cur])
      modifies data
      ensures DataOk(Pow2(pageShift), data[..], pages[k := q])
    {
      UpdateData(Pow2(pageShift), data[..], pages, k, off, buffer[at..at + cur], q);
      var start := GetData(p, off);
      CacheCopy(data, start, buffer, at, cur);
    }

    /** Widen entry p's dirty interval to take in [dirty_start, dirty_end). */
    method MarkDirty(p: nat, dirty_start: nat, dirty_end: nat)
      requires p < entries.Length
      modifies entries
      ensures var m := Widen(Marks(old(entries[p].lo), old(entries[p].hi)), dirty_start, dirty_end);
        entries[..] == old(entries[..])[p := old(entries[p]).(lo := m.lo, hi := m.hi)]
    {
      if dirty_start < entries[p].lo {
        entries[p] := entries[p].(lo := Narrowed(dirty_start));
      }
      if dirty_end > entries[p].hi {
        entries[p] := entries[p].(hi := Narrowed(dirty_end));
      }
    }

    /** Transfer between entry p's page and the user buffer; a partial access makes
        the entry the most recent one. */
    method HitPage(p: nat, off: nat, cur: nat, buffer: array<Sector>, at: nat, is_write: bool, ghost k: nat)
      returns (ghost k': nat)
      requires Valid() && k < |pages| && pages[k].slot == p && pages[k].base != EMPTY
      requires cur >= 1 && off + cur <= Pow2(pageShift) && at + cur <= buffer.Length && buffer != data
      requires pages[k].base + off + cur <= |inner.sectors|
      modifies this`pages, this`head, this`tail, entries, data, buffer
      ensures Valid()
      ensures (Value(), buffer[..], k') == Hit(Geometry(), old(Value()), old(buffer[..]), k, off, cur, at, is_write)
    {
      ghost var c, b := Value(), buffer[..];
      CopyBoth(p, off, cur, buffer, at, is_write, k);
      ghost var ps := pages;
      k' := PromotePartial(p, off == 0 && cur == Pow2(pageShift), k);
      HitInTwo(Geometry(), c, b, k, off, cur, at, is_write, ps, pages, buffer[..], k');
    }

    /** Copy into the page, marking it dirty, or out of it. */
    method CopyBoth(p: nat, off: nat, cur: nat, buffer: array<Sector>, at: nat, is_write: bool, ghost k: nat)
      requires Valid() && k < |pages| && pages[k].slot == p && pages[k].base != EMPTY
      requires cur >= 1 && off + cur <= Pow2(pageShift) && at + cur <= buffer.Length && buffer != data
      requires pages[k].base + off + cur <= |inner.sectors|
      modifies this`pages, entries, data, buffer
      ensures Valid()
      ensures pages ==
        if is_write then old(pages)[k := Stored(old(pages[k]), off, old(buffer[at..at + cur]))] else old(pages)
      ensures buffer[..] ==
        if is_write then old(buffer[..]) else Blit(old(buffer[..]), at, old(pages[k]).data[off..off + cur])
    {
      if is_write {
        StoredStruct(Geometry(), Value(), k, off, buffer[at..at + cur]);
        StoreInto(p, off, cur, buffer, at, k);
      } else {
        CopyOut(p, off, cur, buffer, at, k);
      }
    }

    method PromotePartial(p: nat, is_whole: bool, ghost k: nat) returns (ghost k': nat)
      requires Valid() && k < |pages| && pages[k].slot == p && pages[k].base != EMPTY
      modifies this`pages, this`head, this`tail, entries
      ensures Valid()
      ensures pages == if !is_whole && k != 0 then Touch(old(pages), k) else old(pages)
      ensures k' == if !is_whole && k != 0 then 0 else k
    {
      k' := k;
      assert k != 0 ==> Apart(pages, k, 0);
      assert p == head <==> k == 0;
      if !is_whole && p != head {
        MakeMostRecent(p, k);
        k' := 0;
      }
    }

    method CopyOut(p: nat, off: nat, cur: nat, buffer: array<Sector>, at: nat, ghost k: nat)
      requires k < |pages| && pages[k].slot == p && |pages[k].data| == Pow2(pageShift)
      requires data.Length == SlotStart(Pow2(pageShift), entries.Length)
      requires LinksOk(entries[..], head, tail, pages) && DataOk(Pow2(pageShift), data[..], pages)
      requires off + cur <= Pow2(pageShift) && at + cur <= buffer.Length && buffer != data
      modifies buffer
      ensures buffer[..] == Blit(old(buffer[..]), at, pages[k].data[off..off + cur])
    {
      assert EntryAt(entries[..], pages, k);
      var start := GetData(p, off);
      WindowSlice(Pow2(pageShift), data[..], pages[k], off, off + cur);
      assert data[..][start..start + cur] == data[start..start + cur];
      CacheCopy(buffer, at, data, start, cur);
    }

    // ----- the read/write loop -----

    /** Straight between the user buffer and the device. */
    method DirectTransfer(buffer: array<Sector>, at: nat, first: nat, cur: nat, is_write: bool) returns (ok: bool)
      requires Valid() && buffer != data && at + cur <= buffer.Length && first + cur <= |inner.sectors|
      modifies inner, buffer
      ensures Valid()
      ensures (Value(), buffer[..], ok) == Bypass(inner.oracle, old(Value()), old(buffer[..]), first, at, cur, is_write)
    {
      if is_write {
        assert buffer[..][at..at + cur] == buffer[at..at + cur];
        ok := inner.WriteSectors(buffer[at..at + cur], first);
      } else {
        ok := inner.ReadSectors(buffer, at, first, cur);
      }
    }

    /** The entry to use for page b and the new search_base, searching if need be. */
    method SearchIfNeeded(b: sec_t, p: int, search_base: sec_t, ghost k: int) returns (p': int, search_base': sec_t)
      requires LinksOk(entries[..], head, tail, pages) && b < EMPTY && -1 <= k < |pages| && p == Link(pages, k)
      requires forall i :: 0 <= i < |pages| ==> pages[i].base <= EMPTY
      ensures var q := CacheModel.Search(pages, b);
        if b >= search_base then p' == Link(pages, q) && search_base' == (if q >= 0 then pages[q].base + 1 else EMPTY)
        else p' == p && search_base' == search_base
    {
      p', search_base' := p, search_base;
      if b >= search_base {
        p' := Search(b);
        ghost var q := CacheModel.Search(pages, b);
        SearchAhead(pages, b, 0, -1);
        if p' != NULL {
          assert EntryAt(entries[..], pages, q);
          search_base' := entries[p'].base + 1;
        } else {
          search_base' := EMPTY;
        }
      }
    }

    /** What the variables of the loop say about the model's loop state l. */
    ghost predicate InLoop(l: Loop, buffer: array<Sector>, at: nat, p: int, search_base: int)
      reads this, inner, buffer
    {
      && l.c == Value() && l.buf == buffer[..] && l.done == at
      && p == Link(pages, l.p) && search_base == l.sb
    }

    /** State left behind by an iteration with result r. */
    ghost predicate After(r: StepResult, buffer: array<Sector>, ok: bool, at: nat, p: int, search_base: int)
      reads this, inner, buffer
    {
      match r
      case More(l) => ok && InLoop(l, buffer, at, p, search_base)
      case Stop(c, buf, _) => !ok && c == Value() && buf == buffer[..]
    }

    /** Transfer one chunk through the page at list position k, held by entry p. */
    method HitChunk(buffer: array<Sector>, at: nat, off: nat, cur: nat, p: nat, is_write: bool,
                    ghost rq: Req, ghost k: nat, ghost sb: nat, ghost r: StepResult)
      requires Valid() && buffer != data && rq.num <= buffer.Length && at < rq.num && is_write == rq.write
      requires rq.first + rq.num <= numSectors && k < |pages| && pages[k].slot == p
      requires pages[k].base == CurPage(Geometry(), rq, at)
      requires Direct(Geometry(), rq) ==> sb == pages[k].base + 1
      requires cur == CurCount(Geometry(), rq, at) && off == rq.first + at - CurPage(Geometry(), rq, at)
      requires r == More(HitStep(Geometry(), rq, at, Value(), buffer[..], k, sb))
      modifies this`pages, this`head, this`tail, entries, data, buffer
      ensures Valid() && After(r, buffer, true, at + cur, p, sb)
    {
      ghost var k' := HitPage(p, off, cur, buffer, at, is_write, k);
      HitKeepsSlot(old(Geometry()), old(Value()), old(buffer[..]), k, off, cur, at, is_write);
      HitLeads(old(Geometry()), rq, at, old(Value()), old(buffer[..]), k, sb, off, cur, Value(), buffer[..], k');
    }

    static lemma HitLeads(g: Geo, rq: Req, at: nat, c: Cache, buf: seq<Sector>, k: nat, sb: nat, off: nat, cur: nat,
                          c': Cache, buf': seq<Sector>, k': nat)
      requires Struct(g, c) && rq.first + rq.num <= g.n
      requires at < rq.num <= |buf| && k < |c.pages| && c.pages[k].base == CurPage(g, rq, at)
      requires Direct(g, rq) ==> sb == c.pages[k].base + 1
      requires cur == CurCount(g, rq, at) && off == rq.first + at - CurPage(g, rq, at)
      requires (c', buf', k') == Hit(g, c, buf, k, off, cur, at, rq.write)
      ensures HitStep(g, rq, at, c, buf, k, sb) == Loop(c', buf', at + cur, k', sb)
    {
    }

    /** Give the victim to the page, load it unless it is about to be overwritten
        wholly, and transfer the chunk through it. */
    method RefillChunk(buffer: array<Sector>, at: nat, page: sec_t, off: nat, cur: nat, search_base: sec_t,
                       is_write: bool,
                       ghost rq: Req, ghost l: Loop, ghost r: StepResult)
      returns (p: int, ok: bool)
      requires Valid() && buffer != data && Ready(Geometry(), rq, l) && l.c == Value() && l.buf == buffer[..]
      requires l.done == at < rq.num && is_write == rq.write && !Direct(Geometry(), rq)
      requires page == CurPage(Geometry(), rq, at) && cur == CurCount(Geometry(), rq, at) && off == rq.first + at - page
      requires RefillResult(Geometry(), inner.oracle, rq, l, r, search_base)
      modifies this`pages, this`head, this`tail, entries, data, inner, buffer
      ensures Valid() && After(r, buffer, ok, at + cur, p, search_base)
    {
      var is_whole := off == 0 && cur == Pow2(pageShift);
      p, ok := TakeVictim(page, !is_write || !is_whole);
      if ok {
        HitChunk(buffer, at, off, cur, p, is_write, rq, Victim(l.c.pages), search_base, r);
      }
    }

    /** What a refilling iteration results in. */
    static ghost predicate RefillResult(g: Geo, o: Oracle, rq: Req, l: Loop, r: StepResult, sb: nat)
      requires Ready(g, rq, l) && l.done < rq.num && !Direct(g, rq)
    {
      var v, b := Victim(l.c.pages), CurPage(g, rq, l.done);
      var (c1, flushed) := FlushPage(g, o, l.c, v);
      if !flushed then r == Stop(c1, l.buf, 0)
      else
        && v == Victim(c1.pages) && c1.pages[v].lo >= c1.pages[v].hi
        && var (c2, loaded) := Refill(g, o, c1, v, b, !rq.write || !Whole(g, rq, l.done));
           if !loaded then r == Stop(c2, l.buf, 0)
           else
             && c2.pages[v].base == b
             && r == More(HitStep(g, rq, l.done, c2, l.buf, v, sb))
    }

    /** Transfer up to the remembered entry's page or the end of the disc. */
    method DirectChunk(buffer: array<Sector>, at: nat, first: sec_t, num: sec_t, p: int, search_base: sec_t,
                       is_write: bool,
                       ghost rq: Req, ghost l: Loop, ghost k: int, ghost r: StepResult)
      returns (ok: bool, cur: nat)
      requires Valid() && buffer != data && Ready(Geometry(), rq, l) && l.c == Value() && l.buf == buffer[..]
      requires l.done == at < rq.num && is_write == rq.write && Direct(Geometry(), rq)
      requires first == rq.first + at && num == rq.num - at
      requires (k, search_base) == Found(Geometry(), rq, l) && p == Link(pages, k)
      requires k >= 0 ==> pages[k].base != CurPage(Geometry(), rq, at)
      requires r == DirectStep(Geometry(), inner.oracle, rq, l, k, search_base)
      modifies inner, buffer
      ensures Valid() && After(r, buffer, ok, at + cur, p, search_base)
      ensures cur <= num
    {
      cur := DirectReach(at, first, num, p, search_base, rq, l, k);
      ok := DirectTransfer(buffer, at, first, cur, is_write);
      DirectLeads(old(Geometry()), inner.oracle, rq, l, k, search_base, cur, Value(), buffer[..], ok);
    }

    /** Sectors up to the next resident page or the end of the disc. */
    method DirectReach(at: nat, first: sec_t, num: sec_t, p: int, search_base: sec_t,
                       ghost rq: Req, ghost l: Loop, ghost k: int) returns (cur: nat)
      requires Valid() && Ready(Geometry(), rq, l) && l.c == Value()
      requires l.done == at < rq.num && Direct(Geometry(), rq)
      requires first == rq.first + at && num == rq.num - at
      requires (k, search_base) == Found(Geometry(), rq, l) && p == Link(pages, k)
      requires k >= 0 ==> pages[k].base != CurPage(Geometry(), rq, at)
      ensures cur == DirectCount(Geometry(), rq, l, k, search_base)
    {
      LookupAhead(Geometry(), rq, l);
      var limit := NextResident(p, k);
      ghost var n := DirectCount(Geometry(), rq, l, k, search_base);
      var max_cur_sectors: sec_t := limit - first;
      cur := if num < max_cur_sectors then num else max_cur_sectors;
    }

    /** First sector of entry p's page, or the end of the disc. */
    method NextResident(p: int, ghost k: int) returns (limit: sec_t)
      requires LinksOk(entries[..], head, tail, pages) && -1 <= k < |pages| && p == Link(pages, k)
      ensures limit == if k >= 0 then pages[k].base else numSectors
    {
      if p != NULL {
        assert EntryAt(entries[..], pages, k);
        return entries[p].base;
      }
      return numSectors;
    }

    static lemma DirectLeads(g: Geo, o: Oracle, rq: Req, l: Loop, k: int, sb: nat, cur: nat,
                             c: Cache, buf: seq<Sector>, ok: bool)
      requires Ready(g, rq, l) && l.done < rq.num && Direct(g, rq)
      requires (k, sb) == Lookup(g, rq, l.c.pages, l.done, l.p, l.sb)
      requires k >= 0 ==> l.c.pages[k].base != CurPage(g, rq, l.done)
      requires cur == DirectCount(g, rq, l, k, sb)
      requires (c, buf, ok) == Bypass(o, l.c, l.buf, rq.first + l.done, l.done, cur, rq.write)
      ensures DirectStep(g, o, rq, l, k, sb) ==
        if ok then More(Loop(c, buf, l.done + cur, k, sb)) else Stop(c, buf, cur)
    {
    }

    /** Page, offset in the page and length of the next chunk. */
    method NextChunk(first: sec_t, num: sec_t, ghost rq: Req, ghost at: nat) returns (page: sec_t, off: nat, cur: nat)
      requires pageShift <= 15 && at < rq.num
      requires first == rq.first + at && num == rq.num - at
      ensures page == CurPage(Geometry(), rq, at) && cur == CurCount(Geometry(), rq, at)
      ensures off == first - page
    {
      PageSizeFits16(pageShift);
      MasksSplitSector(first, pageShift);
      var page_sz := Pow2(pageShift);
      page := BitAnd(first, 0x1_0000_0000 - page_sz);
      off := BitAnd(first, page_sz - 1);
      var max_cur_sectors := page_sz - off;
      cur := if num < max_cur_sectors then num else max_cur_sectors;
    }

    /** One iteration of the loop: `cur` sectors of the request from sector `first`,
        buffer position `at`. */
    method Chunk(buffer: array<Sector>, at: nat, first: sec_t, num: sec_t, p: int, search_base: sec_t,
                 partial: bool, is_aligned: bool, is_write: bool, ghost rq: Req, ghost l: Loop, ghost r: StepResult)
      returns (ok: bool, cur: nat, p': int, search_base': sec_t)
      requires Valid() && buffer != data && InLoop(l, buffer, at, p, search_base)
      requires Ready(Geometry(), rq, l) && at < rq.num
      requires first == rq.first + at && num == rq.num - at && is_write == rq.write && is_aligned == rq.aligned
      requires partial == (rq.partial || rq.num < Pow2(pageShift))
      requires StepCase(Geometry(), inner.oracle, rq, l, r)
      modifies this`pages, this`head, this`tail, entries, data, inner, buffer
      ensures Valid()
      ensures After(r, buffer, ok, at + cur, p', search_base')
      ensures cur <= num
    {
      var page, off, hit;
      page, off, cur, p', search_base', hit := FindChunk(at, first, num, p, search_base, rq, l);
      ok := true;
      if hit {
        HitChunk(buffer, at, off, cur, p', is_write, rq, Found(Geometry(), rq, l).0, search_base', r);
      } else if partial || !is_aligned {
        p', ok := RefillChunk(buffer, at, page, off, cur, search_base', is_write, rq, l, r);
      } else {
        ghost var k := Found(Geometry(), rq, l).0;
        ok, cur := DirectChunk(buffer, at, first, num, p', search_base', is_write, rq, l, k, r);
      }
    }

    /** The next chunk, the entry to use for it, and whether that entry holds its page. */
    method FindChunk(at: nat, first: sec_t, num: sec_t, p: int, search_base: sec_t, ghost rq: Req, ghost l: Loop)
      returns (page: sec_t, off: nat, cur: nat, p': int, search_base': sec_t, hit: bool)
      requires pageShift <= 15 && LinksOk(entries[..], head, tail, pages)
      requires pages == l.c.pages && l.done == at && p == Link(pages, l.p) && search_base == l.sb
      requires Ready(Geometry(), rq, l) && at < rq.num
      requires first == rq.first + at && num == rq.num - at
      ensures page == CurPage(Geometry(), rq, at) && cur == CurCount(Geometry(), rq, at) <= num
      ensures off == first - page
      ensures var (k, sb) := Found(Geometry(), rq, l);
        && p' == Link(pages, k) && search_base' == sb
        && (hit <==> k >= 0 && pages[k].base == page)
    {
      page, off, cur := NextChunk(first, num, rq, at);
      p', search_base' := SearchIfNeeded(page, p, search_base, l.p);
      ghost var k := Found(Geometry(), rq, l).0;
      hit := false;
      if p' != NULL {
        hit := IsBase(p', page, k);
      }
    }

    /** One request: the loop of dvm_cache.c, refining CacheModel.ReadWrite with the
        search as written (refresh false). The chunks meet: `first`, `num` and `at`
        always add up to the request. */
    method ReadWrite(buffer: array<Sector>, first_sector: sec_t, num_sectors: sec_t,
                     is_partial: bool, is_aligned: bool, is_write: bool) returns (ok: bool)
      requires Valid() && buffer != data && num_sectors <= buffer.Length
      modifies this`pages, this`head, this`tail, entries, data, inner, buffer
      ensures Valid()
      ensures var r := CacheModel.ReadWrite(Geometry(), inner.oracle, false, old(Value()),
                         Req(first_sector, num_sectors, is_partial, is_aligned, is_write), old(buffer[..]));
        ok == r.ok && Value() == r.c && buffer[..] == r.buf
    {
      if first_sector >= numSectors {
        return false;
      }
      var max_sectors: sec_t := numSectors - first_sector;
      if num_sectors > max_sectors {
        return false;
      }
      ghost var g, o, rq := Geometry(), inner.oracle, Req(first_sector, num_sectors, is_partial, is_aligned, is_write);
      ghost var l := Start(Value(), buffer[..]);
      ghost var end := Run(g, o, false, rq, l);
      var partial := is_partial || num_sectors < Pow2(pageShift);
      var first, num, at := first_sector, num_sectors, 0;
      var p, search_base := NULL, 0;
      ok := true;
      while num != 0
        invariant first == first_sector + at && num == num_sectors - at && 0 <= at <= num_sectors
        invariant Valid() && InLoop(l, buffer, at, p, search_base) && Ready(g, rq, l)
        invariant Run(g, o, false, rq, l) == end
        decreases num
      {
        var cur;
        ghost var r := Step(g, o, false, rq, l);
        StepCases(g, o, rq, l);
        ok, cur, p, search_base :=
          Chunk(buffer, at, first, num, p, search_base, partial, is_aligned, is_write, rq, l, r);
        if !ok {
          return;
        }
        l := r.l;
        first, num, at := first + cur, num - cur, at + cur;
      }
    }

    /** The three ways an iteration can go, and its result in each. */
    static ghost predicate StepCase(g: Geo, o: Oracle, rq: Req, l: Loop, r: StepResult)
      requires Ready(g, rq, l) && l.done < rq.num
    {
      var (k, sb) := Found(g, rq, l);
      if k >= 0 && l.c.pages[k].base == CurPage(g, rq, l.done) then
        && (Direct(g, rq) ==> sb == l.c.pages[k].base + 1)
        && r == More(HitStep(g, rq, l.done, l.c, l.buf, k, sb))
      else if !Direct(g, rq) then RefillResult(g, o, rq, l, r, sb)
      else r == DirectStep(g, o, rq, l, k, sb)
    }

    static lemma StepCases(g: Geo, o: Oracle, rq: Req, l: Loop)
      requires Ready(g, rq, l) && l.done < rq.num
      ensures StepCase(g, o, rq, l, Step(g, o, false, rq, l))
    {
      if Direct(g, rq) {
        LookupAhead(g, rq, l);
      } else {
        FlushKeepsVictim(g, o, l.c, Victim(l.c.pages));
      }
    }

    static ghost function Found(g: Geo, rq: Req, l: Loop): (int, nat)
      requires Ready(g, rq, l) && l.done < rq.num
    {
      Lookup(g, rq, l.c.pages, l.done, l.p, l.sb)
    }

    method IsBase(p: nat, b: sec_t, ghost k: nat) returns (same: bool)
      requires LinksOk(entries[..], head, tail, pages) && k < |pages| && pages[k].slot == p
      ensures same == (pages[k].base == b)
    {
      assert EntryAt(entries[..], pages, k);
      same := entries[p].base == b;
    }

  }

  // ----- creation -----

  /** Page size sz is the larger of the size asked for, in units of 512 bytes computed in
      unsigned 32-bit arithmetic, and the block size. */
  ghost predicate LargerOf(sz: nat, sectors_per_page: nat, sector_sz: nat, block_sz: nat)
    requires sector_sz > 0
  {
    var asked := sectors_per_page * 512 % 0x1_0000_0000 / sector_sz;
    sz >= asked && sz >= block_sz && (sz == asked || sz == block_sz)
  }

  /** Discs of 512-byte sectors and no block size get the pages asked for. */
  lemma PlainPageSize(sz: nat, sectors_per_page: nat)
    requires LargerOf(sz, sectors_per_page, 512, 0) && sectors_per_page < 0x80_0000
    ensures sz == sectors_per_page
  {
  }

  /** A cache over `inner`, or null where dvm_cache.c hands back the inner disc
      itself: no pages, a page size that is no power of two, or no memory. */
  method Create(inner: BlockDevice, num_sectors: sec_t, sector_sz: uint16, block_sz: uint16,
                cache_pages: nat, sectors_per_page: nat, memory: bool)
    returns (disc: LinkedCache?)
    requires sector_sz > 0 && num_sectors <= |inner.sectors| <= 0xFFFF_FFFF
    ensures disc == null <==>
      || cache_pages == 0 || !memory
      || (forall sz: nat :: LargerOf(sz, sectors_per_page, sector_sz, block_sz) ==> !IsPow2(sz))
    ensures disc != null ==>
              && fresh(disc) && disc.inner == inner && disc.Geometry().n == num_sectors
              && LargerOf(disc.Geometry().sz, sectors_per_page, sector_sz, block_sz) && IsPow2(disc.Geometry().sz)
              && AllFree(disc.Value()) && |disc.pages| == cache_pages
              && (disc.Geometry().sz <= 0x8000 ==> disc.Valid())
    ensures inner.Value() == old(inner.Value())
  {
    var sz: nat := sectors_per_page * 512 % 0x1_0000_0000 / sector_sz;
    if sz < block_sz {
      sz := block_sz;
    }
    assert LargerOf(sz, sectors_per_page, sector_sz, block_sz);
    if cache_pages == 0 || sz == 0 || BitAnd(sz, sz - 1) != 0 {
      if sz > 0 {
        PowerOfTwoTest(sz);
      } else {
        NoZeroPower();
      }
      return null;
    }
    PowerOfTwoTest(sz);
    if !memory {
      return null;
    }
    var shift := Log2(sz);
    Pow2Bound(shift);
    disc := new LinkedCache(inner, num_sectors, cache_pages, shift);
  }

  lemma NoZeroPower()
    ensures !IsPow2(0)
  {
  }

  /** The loop that counts the page shift up ends at the logarithm. */
  method Log2(sz: nat) returns (shift: nat)
    requires IsPow2(sz)
    ensures Pow2(shift) == sz
  {
    ghost var k: nat :| Pow2(k) == sz;
    shift := 0;
    while Pow2(shift) != sz
      invariant shift <= k
      decreases k - shift
    {
      shift := shift + 1;
    }
  }

  /** Every entry is free and clean. */
  ghost predicate AllFree(c: Cache) {
    NoneInUse(c.pages) && forall i :: 0 <= i < |c.pages| ==> c.pages[i].slot == i
  }

  /** A new cache satisfies the invariant and shows the device. */
  lemma NewShowsDevice(g: Geo, c: Cache)
    requires Struct(g, c) && AllFree(c)
    ensures Inv(g, c) && forall x :: 0 <= x < g.n ==> View(g, c, x) == c.disk.sectors[x]
  {
    forall x | 0 <= x < g.n
      ensures View(g, c, x) == c.disk.sectors[x]
    {
      ViewOut(g, c, x);
    }
  }

  // ----- a fresh cache -----

  function FreeEntry(shift: nat, n: nat, j: nat): Entry {
    Entry(if j + 1 < n then j + 1 else NULL, if j > 0 then j - 1 else NULL, EMPTY, Narrowed(Pow2(shift)), 0)
  }

  ghost function FreePages(sz: pos, n: nat, d: seq<Sector>): (r: seq<Page>)
    requires |d| == SlotStart(sz, n)
    ensures |r| == n
    ensures forall k :: 0 <= k < n ==> r[k].slot == k && r[k].base == EMPTY && r[k].lo == sz && r[k].hi == 0
    ensures forall k :: 0 <= k < n ==> |r[k].data| == sz
    ensures DataOk(sz, d, r)
  {
    if n == 0 then []
    else
      SlotsTile(sz, n - 1, n);
      var m := SlotStart(sz, n - 1);
      var r := FreePages(sz, n - 1, d[..m]);
      FreeWindows(sz, d, m, r);
      r + [Page(n - 1, EMPTY, sz, 0, d[m..m + sz])]
  }

  lemma FreeWindows(sz: pos, d: seq<Sector>, m: nat, ps: seq<Page>)
    requires m <= |d| && DataOk(sz, d[..m], ps)
    ensures DataOk(sz, d, ps)
  {
    forall i | 0 <= i < |ps|
      ensures WindowIs(sz, d, ps[i])
    {
      assert WindowIs(sz, d[..m], ps[i]);
      var s := SlotStart(sz, ps[i].slot);
      assert d[..m][s..s + sz] == d[s..s + sz];
    }
  }

  lemma FreeIsLinked(es: seq<Entry>, shift: nat, ps: seq<Page>)
    requires shift <= 15 && |es| == |ps| >= 1
    requires forall j :: 0 <= j < |es| ==> es[j] == FreeEntry(shift, |es|, j)
    requires forall k :: 0 <= k < |ps| ==>
      ps[k].slot == k && ps[k].base == EMPTY && ps[k].lo == Pow2(shift) && ps[k].hi == 0
    ensures LinksOk(es, 0, |es| - 1, ps)
  {
    PageSizeFits16(shift);
    forall i: nat | i < |ps|
      ensures EntryAt(es, ps, i)
    {
      assert es[i] == FreeEntry(shift, |es|, i);
    }
  }

  lemma TouchedStruct(g: Geo, c: Cache, k: nat)
    requires Struct(g, c) && k < |c.pages| && c.pages[k].base != EMPTY
    ensures Struct(g, Cache(Touch(c.pages, k), c.disk))
  {
    var qs := Touch(c.pages, k);
    assert forall i :: 0 <= i < |qs| ==> qs[i] == c.pages[if i == 0 then k else if i <= k then i - 1 else i];
    assert forall i :: 0 <= i <= k ==> c.pages[i].base != EMPTY;
    assert forall i :: 0 <= i <= k ==> qs[i].base != EMPTY;
  }

  lemma StoredStruct(g: Geo, c: Cache, k: nat, off: nat, b: seq<Sector>)
    requires Struct(g, c) && k < |c.pages| && c.pages[k].base != EMPTY
    requires |b| >= 1 && off + |b| <= g.sz && c.pages[k].base + off + |b| <= |c.disk.sectors|
    ensures Struct(g, Cache(c.pages[k := Stored(c.pages[k], off, b)], c.disk))
  {
  }

  lemma HitKeepsSlot(g: Geo, c: Cache, buf: seq<Sector>, k: nat, off: nat, cur: nat, at: nat, write: bool)
    requires Struct(g, c) && k < |c.pages| && c.pages[k].base != EMPTY
    requires cur >= 1 && off + cur <= g.sz && at + cur <= |buf|
    requires c.pages[k].base + off + cur <= |c.disk.sectors|
    ensures var r := Hit(g, c, buf, k, off, cur, at, write); r.0.pages[r.2].slot == c.pages[k].slot
  {
  }
}
