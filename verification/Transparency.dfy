/** The cached disc looks like a flat array of sectors: one iteration, one request,
    and any run of requests, with device failures anywhere. */
module Transparency {
  import opened Pages
  import opened Device
  import opened CacheModel
  import opened CacheInvariant

  // ----- one iteration -----

  /** The iteration gives no page to a second entry: it does not refill, or every
      entry other than the victim holds another page. */
  ghost predicate NoClash(g: Geo, rq: Req, l: Loop)
    requires Ready(g, rq, l) && l.done < rq.num
  {
    var b := CurPage(g, rq, l.done);
    var p := Lookup(g, rq, l.c.pages, l.done, l.p, l.sb).0;
    || Direct(g, rq)
    || (p >= 0 && l.c.pages[p].base == b)
    || forall i :: 0 <= i < |l.c.pages| && i != Victim(l.c.pages) ==> l.c.pages[i].base != b
  }

  /** In a direct request the entry used at the loop head, remembered or not, is
      the one a fresh search for the current page returns. */
  ghost predicate SearchIsFresh(g: Geo, rq: Req, l: Loop)
    requires -1 <= l.p < |l.c.pages|
  {
    Direct(g, rq) && l.done < rq.num ==>
      var b := CurPage(g, rq, l.done);
      Lookup(g, rq, l.c.pages, l.done, l.p, l.sb).0 == Search(l.c.pages, b)
  }

  /** Sectors [from, to) of the request are transferred between `buf` and the view.
      In [to, end), where the device failed, a write may have left anything in the
      view, a read anything in the buffer. Nothing else changes. */
  ghost predicate Effect(g: Geo, rq: Req, c: Cache, buf: seq<Sector>, c': Cache, buf': seq<Sector>, from: nat,
                         to: nat, end: nat)
  {
    && |buf'| == |buf|
    && if rq.write then
         && buf' == buf
         && forall x :: 0 <= x < g.n && !(rq.first + to <= x < rq.first + end) ==>
              View(g, c', x) == if rq.first + from <= x < rq.first + to then At(buf, x - rq.first) else View(g, c, x)
       else
         && SameView(g, c, c')
         && forall i :: 0 <= i < |buf| && !(to <= i < end) ==>
              buf'[i] == if from <= i < to then View(g, c, rq.first + i) else buf[i]
  }

  /** No page in the list holds any of the n sectors from `first` on. */
  ghost predicate MissesPages(g: Geo, ps: seq<Page>, first: nat, n: nat) {
    forall x :: first <= x < first + n ==> forall i :: 0 <= i < |ps| ==> ps[i].base != PageOf(g.sz, x)
  }

  /** Sectors in doubt after a failure at position `at`: none, unless a direct
      transfer failed; and then only its own, all of them off the resident pages. */
  ghost predicate InDoubt(g: Geo, rq: Req, ps: seq<Page>, at: nat, torn: nat) {
    torn > 0 ==> Direct(g, rq) && MissesPages(g, ps, rq.first + at, torn)
  }

  /** What an iteration owes: it transfers exactly its chunk and goes on, or it
      stops having changed at most the chunk of a failed direct transfer. */
  ghost predicate GoodStep(g: Geo, rq: Req, l: Loop, r: StepResult)
  {
    match r
    case More(l') => GoodLoop(g, rq, l.c, l.buf, l.done, l')
    case Stop(c, buf, torn) =>
      && Inv(g, c)
      && InDoubt(g, rq, c.pages, l.done, torn)
      && Effect(g, rq, l.c, l.buf, c, buf, l.done, l.done, l.done + torn)
  }

  lemma HitKeeps(g: Geo, rq: Req, c: Cache, buf: seq<Sector>, k: nat, at: nat)
    requires Struct(g, c) && Distinct(c.pages) && SoundBut(g, c, k) && k < |c.pages|
    requires at < rq.num <= |buf| && rq.first + rq.num <= g.n
    requires c.pages[k].base == CurPage(g, rq, at)
    requires PageSound(g, c.disk, c.pages[k]) || (rq.write && Whole(g, rq, at))
    ensures var r := ChunkHit(g, rq, at, c, buf, k);
      Inv(g, r.0) && Effect(g, rq, c, buf, r.0, r.1, at, at + CurCount(g, rq, at), at + CurCount(g, rq, at))
  {
    if rq.write {
      HitWriteKeeps(g, rq, c, buf, k, at);
    } else {
      assert Inv(g, c);
      HitReadKeeps(g, rq, c, buf, k, at);
    }
  }

  lemma HitWriteKeeps(g: Geo, rq: Req, c: Cache, buf: seq<Sector>, k: nat, at: nat)
    requires Struct(g, c) && Distinct(c.pages) && SoundBut(g, c, k) && k < |c.pages|
    requires at < rq.num <= |buf| && rq.first + rq.num <= g.n && rq.write
    requires c.pages[k].base == CurPage(g, rq, at)
    requires PageSound(g, c.disk, c.pages[k]) || Whole(g, rq, at)
    ensures var r := Hit(g, c, buf, k, rq.first + at - CurPage(g, rq, at), CurCount(g, rq, at), at, true);
      Inv(g, r.0) && Effect(g, rq, c, buf, r.0, r.1, at, at + CurCount(g, rq, at), at + CurCount(g, rq, at))
  {
    StoreTransfers(g, rq, c, buf, k, at);
    var b, cur := CurPage(g, rq, at), CurCount(g, rq, at);
    var off := rq.first + at - b;
    var c1 := Cache(c.pages[k := Stored(c.pages[k], off, buf[at..at + cur])], c.disk);
    var r := Hit(g, c, buf, k, off, cur, at, true);
    StoreThenPromote(g, c, buf, k, off, cur, at);
    StoredThenPromoted(g, rq, c, buf, c1, k, r.0, at, at + cur);
  }

  lemma StoredThenPromoted(
    g: Geo, rq: Req, c: Cache, buf: seq<Sector>, c1: Cache, k: nat, c2: Cache, from: nat, to: nat)
    requires rq.write && Inv(g, c1) && k < |c1.pages| && c1.pages[k].base != EMPTY
    requires Effect(g, rq, c, buf, c1, buf, from, to, to)
    requires c2 == c1 || c2 == Cache(Touch(c1.pages, k), c1.disk)
    ensures Inv(g, c2) && Effect(g, rq, c, buf, c2, buf, from, to, to)
  {
    PromoteKeeps(g, c1, k, c2);
    TransferredThenSame(g, rq, c, buf, c1, c2, from, to);
  }

  /** A write hit is a copy into the page, then perhaps a promotion. */
  lemma StoreThenPromote(g: Geo, c: Cache, buf: seq<Sector>, k: nat, off: nat, cur: nat, at: nat)
    requires Struct(g, c) && k < |c.pages| && c.pages[k].base != EMPTY
    requires cur >= 1 && off + cur <= g.sz && at + cur <= |buf|
    requires c.pages[k].base + off + cur <= |c.disk.sectors|
    ensures var r := Hit(g, c, buf, k, off, cur, at, true);
      var c1 := Cache(c.pages[k := Stored(c.pages[k], off, buf[at..at + cur])], c.disk);
      r.1 == buf && (r.0 == c1 || r.0 == Cache(Touch(c1.pages, k), c1.disk))
  {
  }

  lemma StoreTransfers(g: Geo, rq: Req, c: Cache, buf: seq<Sector>, k: nat, at: nat)
    requires Struct(g, c) && Distinct(c.pages) && SoundBut(g, c, k) && k < |c.pages|
    requires at < rq.num <= |buf| && rq.first + rq.num <= g.n && rq.write
    requires c.pages[k].base == CurPage(g, rq, at)
    requires PageSound(g, c.disk, c.pages[k]) || Whole(g, rq, at)
    ensures var b, cur := CurPage(g, rq, at), CurCount(g, rq, at);
      var c1 := Cache(c.pages[k := Stored(c.pages[k], rq.first + at - b, buf[at..at + cur])], c.disk);
      Inv(g, c1) && Effect(g, rq, c, buf, c1, buf, at, at + cur, at + cur)
  {
    var b, cur := CurPage(g, rq, at), CurCount(g, rq, at);
    PieceStored(g, rq, c, buf, k, at, rq.first + at - b, buf[at..at + cur]);
  }

  lemma PieceStored(g: Geo, rq: Req, c: Cache, buf: seq<Sector>, k: nat, at: nat, off: nat, piece: seq<Sector>)
    requires Struct(g, c) && Distinct(c.pages) && SoundBut(g, c, k)
    requires k < |c.pages| && c.pages[k].base != EMPTY && rq.write
    requires 1 <= |piece| && at + |piece| <= |buf| && piece == buf[at..at + |piece|]
    requires c.pages[k].base + off == rq.first + at && off + |piece| <= g.sz && rq.first + at + |piece| <= g.n
    requires PageSound(g, c.disk, c.pages[k]) || (off == 0 && |piece| == g.sz)
    ensures var c1 := Cache(c.pages[k := Stored(c.pages[k], off, piece)], c.disk);
      Inv(g, c1) && Effect(g, rq, c, buf, c1, buf, at, at + |piece|, at + |piece|)
  {
    StoreKeeps(g, c, k, off, piece);
    PieceTransferred(g, rq, c, buf, Cache(c.pages[k := Stored(c.pages[k], off, piece)], c.disk), at, piece);
  }

  lemma PieceTransferred(g: Geo, rq: Req, c: Cache, buf: seq<Sector>, c1: Cache, at: nat, piece: seq<Sector>)
    requires rq.write && at + |piece| <= |buf| && piece == buf[at..at + |piece|]
    requires forall x :: 0 <= x < g.n ==>
      View(g, c1, x) == if rq.first + at <= x < rq.first + at + |piece| then piece[x - rq.first - at] else View(g, c, x)
    ensures Effect(g, rq, c, buf, c1, buf, at, at + |piece|, at + |piece|)
  {
    forall x | 0 <= x < g.n
      ensures View(g, c1, x) ==
        if rq.first + at <= x < rq.first + at + |piece| then At(buf, x - rq.first) else View(g, c, x)
    {
      if rq.first + at <= x < rq.first + at + |piece| {
        assert piece[x - rq.first - at] == buf[x - rq.first];
      }
    }
  }

  lemma PromoteKeeps(g: Geo, c: Cache, k: nat, c': Cache)
    requires Inv(g, c) && k < |c.pages| && c.pages[k].base != EMPTY
    requires c' == c || c' == Cache(Touch(c.pages, k), c.disk)
    ensures Inv(g, c') && SameView(g, c, c')
  {
    TouchKeeps(g, c, k);
  }

  lemma TransferredThenSame(g: Geo, rq: Req, c: Cache, buf: seq<Sector>, c1: Cache, c2: Cache, from: nat, to: nat)
    requires rq.write && Effect(g, rq, c, buf, c1, buf, from, to, to) && SameView(g, c1, c2)
    ensures Effect(g, rq, c, buf, c2, buf, from, to, to)
  {
  }

  lemma HitReadKeeps(g: Geo, rq: Req, c: Cache, buf: seq<Sector>, k: nat, at: nat)
    requires Inv(g, c) && k < |c.pages|
    requires at < rq.num <= |buf| && rq.first + rq.num <= g.n && !rq.write
    requires c.pages[k].base == CurPage(g, rq, at)
    ensures var r := Hit(g, c, buf, k, rq.first + at - CurPage(g, rq, at), CurCount(g, rq, at), at, false);
      Inv(g, r.0) && Effect(g, rq, c, buf, r.0, r.1, at, at + CurCount(g, rq, at), at + CurCount(g, rq, at))
  {
    var off := rq.first + at - CurPage(g, rq, at);
    var r := Hit(g, c, buf, k, off, CurCount(g, rq, at), at, false);
    PromoteKeeps(g, c, k, r.0);
    LoadedIsView(g, rq, c, buf, k, at);
  }

  lemma LoadedIsView(g: Geo, rq: Req, c: Cache, buf: seq<Sector>, k: nat, at: nat)
    requires Inv(g, c) && k < |c.pages|
    requires at < rq.num <= |buf| && rq.first + rq.num <= g.n
    requires c.pages[k].base == CurPage(g, rq, at)
    ensures var b, cur := CurPage(g, rq, at), CurCount(g, rq, at);
      var off := rq.first + at - b;
      var got := Blit(buf, at, c.pages[k].data[off..off + cur]);
      forall i :: 0 <= i < |buf| ==> got[i] == if at <= i < at + cur then View(g, c, rq.first + i) else buf[i]
  {
    var b, cur := CurPage(g, rq, at), CurCount(g, rq, at);
    LoadedSectors(g, rq, c, buf, k, at, rq.first + at - b, cur);
  }

  lemma LoadedSectors(g: Geo, rq: Req, c: Cache, buf: seq<Sector>, k: nat, at: nat, off: nat, cur: nat)
    requires Inv(g, c) && k < |c.pages| && c.pages[k].base != EMPTY && c.pages[k].base + off == rq.first + at
    requires off + cur <= g.sz && at + cur <= |buf| && rq.first + at + cur <= g.n
    ensures var got := Blit(buf, at, c.pages[k].data[off..off + cur]);
      forall i :: 0 <= i < |buf| ==> got[i] == if at <= i < at + cur then View(g, c, rq.first + i) else buf[i]
  {
    var piece := c.pages[k].data[off..off + cur];
    var got := Blit(buf, at, piece);
    BlitIndex(buf, at, piece);
    forall i | 0 <= i < |buf|
      ensures got[i] == if at <= i < at + cur then View(g, c, rq.first + i) else buf[i]
    {
      if at <= i < at + cur {
        assert got[i] == piece[i - at] == c.pages[k].data[off + (i - at)];
        ViewIn(g, c, k, rq.first + i);
      }
    }
  }

  lemma HitStepKeeps(g: Geo, rq: Req, done: nat, c: Cache, buf: seq<Sector>, k: nat, sb: nat)
    requires Struct(g, c) && Distinct(c.pages) && SoundBut(g, c, k) && k < |c.pages|
    requires done < rq.num <= |buf| && rq.first + rq.num <= g.n
    requires c.pages[k].base == CurPage(g, rq, done)
    requires PageSound(g, c.disk, c.pages[k]) || (rq.write && Whole(g, rq, done))
    requires Direct(g, rq) ==> sb == c.pages[k].base + 1
    ensures GoodLoop(g, rq, c, buf, done, HitStep(g, rq, done, c, buf, k, sb))
  {
    var cur := CurCount(g, rq, done);
    var r := ChunkHit(g, rq, done, c, buf, k);
    HitKeeps(g, rq, c, buf, k, done);
    GoodHit(g, rq, c, buf, done, r.0, r.1, cur, r.2, sb);
  }

  /** Loop state l, reached from c and buf at position `done`, has transferred what
      lies between. */
  ghost predicate GoodLoop(g: Geo, rq: Req, c: Cache, buf: seq<Sector>, done: nat, l: Loop) {
    && -1 <= l.p < |l.c.pages| && Inv(g, l.c) && SearchIsFresh(g, rq, l)
    && Effect(g, rq, c, buf, l.c, l.buf, done, l.done, l.done)
  }

  lemma GoodHit(g: Geo, rq: Req, c: Cache, buf: seq<Sector>, done: nat, c': Cache, buf': seq<Sector>, cur: nat,
                k: nat, sb: nat)
    requires done < rq.num && cur == CurCount(g, rq, done) && k < |c'.pages|
    requires Inv(g, c') && Effect(g, rq, c, buf, c', buf', done, done + cur, done + cur)
    requires Direct(g, rq) ==> sb == CurPage(g, rq, done) + 1
    ensures GoodLoop(g, rq, c, buf, done, Loop(c', buf', done + cur, k, sb))
  {
    FreshAfterHit(g, rq, Loop(c', buf', done + cur, k, sb), done, sb);
  }

  /** After a hit the next page lies at or past search_base: it is searched for. */
  lemma FreshAfterHit(g: Geo, rq: Req, l: Loop, done: nat, sb: nat)
    requires done < rq.num && -1 <= l.p < |l.c.pages|
    requires l.done == done + CurCount(g, rq, done) && l.sb == sb
    requires Direct(g, rq) ==> sb == CurPage(g, rq, done) + 1
    ensures SearchIsFresh(g, rq, l)
  {
    if Direct(g, rq) && l.done < rq.num {
      NextPage(g, rq, done);
    }
  }

  /** A chunk that does not end the request ends exactly at its page's end. */
  lemma NextPage(g: Geo, rq: Req, done: nat)
    requires done < rq.num && done + CurCount(g, rq, done) < rq.num
    ensures rq.first + done + CurCount(g, rq, done) == CurPage(g, rq, done) + g.sz
    ensures CurPage(g, rq, done + CurCount(g, rq, done)) == CurPage(g, rq, done) + g.sz
  {
    var b := CurPage(g, rq, done);
    AlignedNext(g.sz, b);
    PageOfUnique(g.sz, b + g.sz, b + g.sz);
  }

  /** No resident page meets a direct transfer. */
  lemma DirectMissesPages(g: Geo, rq: Req, l: Loop, x: nat)
    requires Ready(g, rq, l) && l.done < rq.num && Direct(g, rq) && SearchIsFresh(g, rq, l)
    requires var p := Lookup(g, rq, l.c.pages, l.done, l.p, l.sb).0;
      && (p >= 0 ==> l.c.pages[p].base != CurPage(g, rq, l.done))
      && rq.first + l.done <= x < if p >= 0 then l.c.pages[p].base else g.n
    ensures forall i :: 0 <= i < |l.c.pages| ==> l.c.pages[i].base != PageOf(g.sz, x)
  {
    var b := CurPage(g, rq, l.done);
    var p := Lookup(g, rq, l.c.pages, l.done, l.p, l.sb).0;
    SearchIsNearest(l.c.pages, b);
    var q := PageOf(g.sz, x);
    if q < b {
      AlignedGap(g.sz, q, b);
    }
  }

  lemma DirectStepKeeps(g: Geo, o: Oracle, rq: Req, l: Loop, p: int, sb: nat)
    requires Ready(g, rq, l) && l.done < rq.num && Direct(g, rq)
    requires (p, sb) == Lookup(g, rq, l.c.pages, l.done, l.p, l.sb)
    requires p >= 0 ==> l.c.pages[p].base != CurPage(g, rq, l.done)
    requires Inv(g, l.c) && SearchIsFresh(g, rq, l)
    ensures GoodStep(g, rq, l, DirectStep(g, o, rq, l, p, sb))
  {
    var cur := DirectCount(g, rq, l, p, sb);
    RangeMissesPages(g, rq, l, cur);
    BypassTransfers(g, o, rq, l, cur);
    FreshAfterBypass(g, o, rq, l, p, sb);
    var (c', buf', ok) := Bypass(o, l.c, l.buf, rq.first + l.done, l.done, cur, rq.write);
    GoodBypass(g, rq, l, DirectStep(g, o, rq, l, p, sb), c', buf', ok, cur, p, sb);
  }

  lemma GoodBypass(g: Geo, rq: Req, l: Loop, r: StepResult, c': Cache, buf': seq<Sector>, ok: bool, cur: nat,
                   p: int, sb: nat)
    requires r == if ok then More(Loop(c', buf', l.done + cur, p, sb)) else Stop(c', buf', cur)
    requires Direct(g, rq) && -1 <= p < |c'.pages| && MissesPages(g, c'.pages, rq.first + l.done, cur)
    requires GoodTransfer(g, rq, l, c', buf', cur, ok)
    requires r.More? ==> SearchIsFresh(g, rq, r.l)
    ensures GoodStep(g, rq, l, r)
  {
  }

  lemma FreshAfterBypass(g: Geo, o: Oracle, rq: Req, l: Loop, p: int, sb: nat)
    requires Ready(g, rq, l) && l.done < rq.num && Direct(g, rq)
    requires (p, sb) == Lookup(g, rq, l.c.pages, l.done, l.p, l.sb)
    requires p >= 0 ==> l.c.pages[p].base != CurPage(g, rq, l.done)
    requires Inv(g, l.c)
    ensures var r := DirectStep(g, o, rq, l, p, sb); r.More? ==> SearchIsFresh(g, rq, r.l)
  {
    var r := DirectStep(g, o, rq, l, p, sb);
    if r.More? && r.l.done < rq.num {
      LookupAhead(g, rq, l);
      BypassEndsAtPage(g, rq, l, r.l, p);
    }
  }

  lemma RangeMissesPages(g: Geo, rq: Req, l: Loop, cur: nat)
    requires Ready(g, rq, l) && l.done < rq.num && Direct(g, rq) && SearchIsFresh(g, rq, l)
    requires var p := Lookup(g, rq, l.c.pages, l.done, l.p, l.sb).0;
      && (p >= 0 ==> l.c.pages[p].base != CurPage(g, rq, l.done))
      && rq.first + l.done + cur <= if p >= 0 then l.c.pages[p].base else g.n
    ensures MissesPages(g, l.c.pages, rq.first + l.done, cur)
  {
    forall x | rq.first + l.done <= x < rq.first + l.done + cur
      ensures forall i :: 0 <= i < |l.c.pages| ==> l.c.pages[i].base != PageOf(g.sz, x)
    {
      DirectMissesPages(g, rq, l, x);
    }
  }

  /** The next cur sectors were transferred, or are in doubt. */
  ghost predicate GoodTransfer(g: Geo, rq: Req, l: Loop, c': Cache, buf': seq<Sector>, cur: nat, ok: bool) {
    && Inv(g, c')
    && Effect(g, rq, l.c, l.buf, c', buf', l.done, l.done, l.done + cur)
    && (ok ==> Effect(g, rq, l.c, l.buf, c', buf', l.done, l.done + cur, l.done + cur))
  }

  lemma BypassTransfers(g: Geo, o: Oracle, rq: Req, l: Loop, cur: nat)
    requires Ready(g, rq, l) && Inv(g, l.c) && l.done + cur <= rq.num
    requires MissesPages(g, l.c.pages, rq.first + l.done, cur)
    ensures var (c', buf', ok) := Bypass(o, l.c, l.buf, rq.first + l.done, l.done, cur, rq.write);
      GoodTransfer(g, rq, l, c', buf', cur, ok)
  {
    if rq.write {
      var (d, ok) := DiskWrite(o, l.c.disk, rq.first + l.done, l.buf[l.done..l.done + cur]);
      WrittenTransfer(g, rq, l, d, cur, ok);
    } else {
      BypassReads(g, o, rq, l, cur);
    }
  }

  lemma WrittenTransfer(g: Geo, rq: Req, l: Loop, d: Disk, cur: nat, ok: bool)
    requires Ready(g, rq, l) && Inv(g, l.c) && l.done + cur <= rq.num && rq.write
    requires MissesPages(g, l.c.pages, rq.first + l.done, cur)
    requires |d.sectors| == |l.c.disk.sectors|
    requires forall x :: 0 <= x < |d.sectors| && !(rq.first + l.done <= x < rq.first + l.done + cur) ==>
      d.sectors[x] == l.c.disk.sectors[x]
    requires ok ==> forall x :: rq.first + l.done <= x < rq.first + l.done + cur ==> d.sectors[x] == l.buf[x - rq.first]
    ensures GoodTransfer(g, rq, l, Cache(l.c.pages, d), l.buf, cur, ok)
  {
    BypassKeeps(g, l.c, Cache(l.c.pages, d), rq.first + l.done, cur);
    BypassWrites(g, rq, l, Cache(l.c.pages, d), cur, ok);
  }

  /** What a direct write did to the device shows in the view. */
  lemma BypassWrites(g: Geo, rq: Req, l: Loop, c': Cache, cur: nat, ok: bool)
    requires rq.write && l.done + cur <= rq.num <= |l.buf| && |c'.disk.sectors| == |l.c.disk.sectors| >= g.n
    requires rq.first + rq.num <= g.n
    requires forall x :: rq.first + l.done <= x < rq.first + l.done + cur ==> View(g, c', x) == c'.disk.sectors[x]
    requires forall x :: 0 <= x < g.n && !(rq.first + l.done <= x < rq.first + l.done + cur) ==>
      View(g, c', x) == View(g, l.c, x)
    requires ok ==> forall x :: rq.first + l.done <= x < rq.first + l.done + cur ==>
      c'.disk.sectors[x] == l.buf[x - rq.first]
    requires Inv(g, c')
    ensures GoodTransfer(g, rq, l, c', l.buf, cur, ok)
  {
    var first, end := rq.first + l.done, rq.first + l.done + cur;
    if ok {
      forall x | 0 <= x < g.n
        ensures View(g, c', x) == if first <= x < end then At(l.buf, x - rq.first) else View(g, l.c, x)
      {
        if first <= x < end {
          assert c'.disk.sectors[x] == l.buf[x - rq.first];
        }
      }
    }
  }

  lemma BypassReads(g: Geo, o: Oracle, rq: Req, l: Loop, cur: nat)
    requires Ready(g, rq, l) && Inv(g, l.c) && l.done + cur <= rq.num && !rq.write
    requires MissesPages(g, l.c.pages, rq.first + l.done, cur)
    ensures var (c', buf', ok) := Bypass(o, l.c, l.buf, rq.first + l.done, l.done, cur, false);
      GoodTransfer(g, rq, l, c', buf', cur, ok)
  {
    var (c', buf', ok) := Bypass(o, l.c, l.buf, rq.first + l.done, l.done, cur, false);
    BypassKeeps(g, l.c, c', rq.first + l.done, 0);
    BlitIndex(l.buf, l.done, DiskRead(o, l.c.disk, rq.first + l.done, cur).1);
    if ok {
      forall i | 0 <= i < |l.buf|
        ensures buf'[i] == if l.done <= i < l.done + cur then View(g, l.c, rq.first + i) else l.buf[i]
      {
        if l.done <= i < l.done + cur {
          ViewOut(g, l.c, rq.first + i);
        }
      }
    }
  }

  /** A device transfer on [first, first+cur) that meets no resident page keeps the
      invariant; inside the range the view is the device itself, outside it is
      what it was. */
  lemma BypassKeeps(g: Geo, c: Cache, c': Cache, first: nat, cur: nat)
    requires Inv(g, c) && c'.pages == c.pages && |c'.disk.sectors| == |c.disk.sectors|
    requires first + cur <= g.n
    requires forall x :: 0 <= x < |c.disk.sectors| && !(first <= x < first + cur) ==>
      c'.disk.sectors[x] == c.disk.sectors[x]
    requires MissesPages(g, c.pages, first, cur)
    ensures Inv(g, c')
    ensures forall x :: first <= x < first + cur ==>
      View(g, c, x) == c.disk.sectors[x] && View(g, c', x) == c'.disk.sectors[x]
    ensures forall x :: 0 <= x < g.n && !(first <= x < first + cur) ==> View(g, c', x) == View(g, c, x)
  {
    forall i | 0 <= i < |c.pages|
      ensures PageSound(g, c'.disk, c'.pages[i])
    {
      DirectKeepsPage(g, c, c', first, cur, i);
    }
  }

  /** A direct transfer that does not end the request stops at the next resident
      page, which is what a fresh search finds there. */
  lemma BypassEndsAtPage(g: Geo, rq: Req, l: Loop, l': Loop, p: int)
    requires Ready(g, rq, l) && l.done < rq.num && Direct(g, rq) && Inv(g, l.c)
    requires l'.c.pages == l.c.pages && l'.p == p && 0 <= p < |l.c.pages| && l'.sb == l.c.pages[p].base + 1
    requires l.c.pages[p].base != EMPTY && rq.first + l'.done == l.c.pages[p].base && l'.done < rq.num
    ensures SearchIsFresh(g, rq, l')
  {
    var limit := l.c.pages[p].base;
    PageOfUnique(g.sz, limit, limit);
    SearchIsNearest(l.c.pages, limit);
    var h := Holder(l.c.pages, limit);
    assert h == p;
  }

  /** A page that a transfer does not meet stays sound. */
  lemma DirectKeepsPage(g: Geo, c: Cache, c': Cache, first: nat, cur: nat, i: nat)
    requires Inv(g, c) && Struct(g, c') && c'.pages == c.pages && i < |c.pages|
    requires |c'.disk.sectors| == |c.disk.sectors|
    requires forall x :: 0 <= x < |c.disk.sectors| && !(first <= x < first + cur) ==>
      c'.disk.sectors[x] == c.disk.sectors[x]
    requires forall x :: first <= x < first + cur ==> c.pages[i].base != PageOf(g.sz, x)
    ensures PageSound(g, c'.disk, c'.pages[i])
  {
    var p := c.pages[i];
    assert PageSound(g, c.disk, p);
    if p.base != EMPTY {
      forall k | 0 <= k < g.sz && p.base + k < g.n && !(p.lo <= k < p.hi)
        ensures At(p.data, k) == At(c'.disk.sectors, p.base + k)
      {
        PageOfUnique(g.sz, p.base + k, p.base);
      }
    }
  }

  /** Main step: an iteration that duplicates no page keeps the invariant, transfers
      exactly its chunk, and, when the device fails, changes at most the failing
      chunk of a direct transfer. */
  lemma StepKeeps(g: Geo, o: Oracle, refresh: bool, rq: Req, l: Loop)
    requires Ready(g, rq, l) && l.done < rq.num && Inv(g, l.c)
    requires NoClash(g, rq, l) && SearchIsFresh(g, rq, l)
    ensures GoodStep(g, rq, l, Step(g, o, refresh, rq, l))
  {
    var b := CurPage(g, rq, l.done);
    var (p, sb) := Lookup(g, rq, l.c.pages, l.done, l.p, l.sb);
    if p >= 0 && l.c.pages[p].base == b {
      assert PageSound(g, l.c.disk, l.c.pages[p]);
      if Direct(g, rq) { LookupAhead(g, rq, l); }
      HitStepKeeps(g, rq, l.done, l.c, l.buf, p, sb);
    } else if !Direct(g, rq) {
      RefillStepKeeps(g, o, refresh, rq, l);
    } else {
      DirectStepKeeps(g, o, rq, l, p, sb);
    }
  }

  lemma RefillStepKeeps(g: Geo, o: Oracle, refresh: bool, rq: Req, l: Loop)
    requires Ready(g, rq, l) && l.done < rq.num && Inv(g, l.c)
    requires !Direct(g, rq) && NoClash(g, rq, l)
    requires var p := Lookup(g, rq, l.c.pages, l.done, l.p, l.sb).0;
      !(p >= 0 && l.c.pages[p].base == CurPage(g, rq, l.done))
    ensures GoodStep(g, rq, l, Step(g, o, refresh, rq, l))
  {
    var b := CurPage(g, rq, l.done);
    var (p, sb) := Lookup(g, rq, l.c.pages, l.done, l.p, l.sb);
    var v := Victim(l.c.pages);
    FlushPageKeeps(g, o, l.c, v);
    var (c1, flushed) := FlushPage(g, o, l.c, v);
    if flushed {
      FlushKeepsVictim(g, o, l.c, v);
      var load := !rq.write || !Whole(g, rq, l.done);
      RefillKeeps(g, o, c1, v, b, load);
      var (c2, loaded) := Refill(g, o, c1, v, b, load);
      if loaded {
        assert load ==> PageSound(g, c2.disk, c2.pages[v]);
        var sb' := if refresh then b + 1 else sb;
        HitStepKeeps(g, rq, l.done, c2, l.buf, v, sb');
        EffectOverRefill(g, rq, l.c, c2, l.buf, HitStep(g, rq, l.done, c2, l.buf, v, sb'), l.done, load);
      }
    }
  }

  /** A refill changes the view at most in a page whose load was skipped, and there
      the chunk overwrites all of it. */
  lemma EffectOverRefill(g: Geo, rq: Req, c: Cache, c2: Cache, buf: seq<Sector>, l': Loop, done: nat, load: bool)
    requires done < rq.num && l'.done == done + CurCount(g, rq, done)
    requires load == (!rq.write || !Whole(g, rq, done))
    requires Effect(g, rq, c2, buf, l'.c, l'.buf, done, l'.done, l'.done)
    requires load ==> SameView(g, c, c2)
    requires forall x :: 0 <= x < g.n && !(CurPage(g, rq, done) <= x < CurPage(g, rq, done) + g.sz) ==>
      View(g, c2, x) == View(g, c, x)
    requires rq.first + rq.num <= g.n && rq.num <= |buf|
    ensures Effect(g, rq, c, buf, l'.c, l'.buf, done, l'.done, l'.done)
  {
  }

  // ----- one request -----

  /** No iteration of the request gives a page to a second entry. */
  ghost predicate NeverDuplicates(g: Geo, o: Oracle, refresh: bool, rq: Req, l: Loop)
    requires Ready(g, rq, l)
    decreases rq.num - l.done
  {
    l.done < rq.num ==>
      && NoClash(g, rq, l)
      && var r := Step(g, o, refresh, rq, l);
         (r.More? ==> NeverDuplicates(g, o, refresh, rq, r.l))
  }

  lemma EffectThen(g: Geo, rq: Req, c: Cache, buf: seq<Sector>, c1: Cache, buf1: seq<Sector>, c2: Cache,
                   buf2: seq<Sector>,
                   from: nat, mid: nat, to: nat, end: nat)
    requires from <= mid <= to <= end
    requires Effect(g, rq, c, buf, c1, buf1, from, mid, mid) && Effect(g, rq, c1, buf1, c2, buf2, mid, to, end)
    requires rq.first + rq.num <= g.n && end <= rq.num <= |buf|
    ensures Effect(g, rq, c, buf, c2, buf2, from, to, end)
  {
    if !rq.write {
      forall i | 0 <= i < |buf| && !(to <= i < end)
        ensures buf2[i] == if from <= i < to then View(g, c, rq.first + i) else buf[i]
      {
        if mid <= i < to {
          assert View(g, c1, rq.first + i) == View(g, c, rq.first + i);
        }
      }
    }
  }

  /** A run that duplicates no page, from any point: the invariant holds at the end
      whatever the device did, exactly the finished sectors were transferred, and
      besides them only the failing chunk of a direct transfer may differ. */
  lemma {:induction false} RunKeeps(g: Geo, o: Oracle, refresh: bool, rq: Req, l: Loop)
    requires Ready(g, rq, l) && Inv(g, l.c) && SearchIsFresh(g, rq, l)
    requires NeverDuplicates(g, o, refresh, rq, l)
    ensures GoodRun(g, rq, l.c, l.buf, l.done, Run(g, o, refresh, rq, l))
    decreases rq.num - l.done
  {
    if l.done < rq.num {
      StepKeeps(g, o, refresh, rq, l);
      var s := Step(g, o, refresh, rq, l);
      if s.More? {
        RunKeeps(g, o, refresh, rq, s.l);
        GoodThen(g, rq, l, s.l, Run(g, o, refresh, rq, s.l));
      }
    }
  }

  /** Outcome r of a run that started with c and buf at position `done`. */
  ghost predicate GoodRun(g: Geo, rq: Req, c: Cache, buf: seq<Sector>, done: nat, r: Outcome) {
    && done <= r.finished
    && Inv(g, r.c)
    && InDoubt(g, rq, r.c.pages, r.finished, r.torn)
    && Effect(g, rq, c, buf, r.c, r.buf, done, r.finished, r.finished + r.torn)
  }

  lemma GoodThen(g: Geo, rq: Req, l: Loop, l1: Loop, r: Outcome)
    requires GoodLoop(g, rq, l.c, l.buf, l.done, l1) && l.done <= l1.done
    requires GoodRun(g, rq, l1.c, l1.buf, l1.done, r)
    requires rq.first + rq.num <= g.n && r.finished + r.torn <= rq.num <= |l.buf|
    ensures GoodRun(g, rq, l.c, l.buf, l.done, r)
  {
    EffectThen(g, rq, l.c, l.buf, l1.c, l1.buf, r.c, r.buf, l.done, l1.done, r.finished, r.finished + r.torn);
  }

  // ----- when a request succeeds -----

  /** The device accepted every operation it was asked for at these log positions. */
  ghost predicate Worked(o: Oracle, from: nat, to: nat) {
    forall i: nat :: from <= i < to ==> o(i).ok
  }

  /** From state c the log grew to c', every operation in between accepted exactly if
      `ok`. */
  ghost predicate Logged(o: Oracle, c: Cache, c': Cache, ok: bool) {
    && c.disk.log <= c'.disk.log
    && (ok <==> Worked(o, |c.disk.log|, |c'.disk.log|))
  }

  lemma LoggedThen(o: Oracle, c: Cache, c1: Cache, ok1: bool, c2: Cache, ok2: bool)
    requires Logged(o, c, c1, ok1) && Logged(o, c1, c2, ok2)
    ensures Logged(o, c, c2, ok1 && ok2)
  {
    assert Worked(o, |c.disk.log|, |c2.disk.log|) <==>
      Worked(o, |c.disk.log|, |c1.disk.log|) && Worked(o, |c1.disk.log|, |c2.disk.log|);
  }

  lemma FlushPageLogged(g: Geo, o: Oracle, c: Cache, k: nat)
    requires Struct(g, c) && k < |c.pages|
    ensures var (c', ok) := FlushPage(g, o, c, k); Logged(o, c, c', ok)
  {
    var (c', ok) := FlushPage(g, o, c, k);
    assert !ok ==> !o(|c.disk.log|).ok;
  }

  lemma RefillLogged(g: Geo, o: Oracle, c: Cache, v: nat, b: nat, load: bool)
    requires Struct(g, c) && v < |c.pages| && c.pages[v].lo >= c.pages[v].hi && v == Victim(c.pages)
    requires Aligned(g.sz, b) && b < g.n
    ensures var (c', ok) := Refill(g, o, c, v, b, load); Logged(o, c, c', ok)
  {
    var (c', ok) := Refill(g, o, c, v, b, load);
    assert !ok ==> !o(|c.disk.log|).ok;
  }

  lemma BypassLogged(o: Oracle, c: Cache, buf: seq<Sector>, first: nat, at: nat, cur: nat, write: bool)
    requires first + cur <= |c.disk.sectors| && at + cur <= |buf|
    ensures var (c', _, ok) := Bypass(o, c, buf, first, at, cur, write); Logged(o, c, c', ok)
  {
    var (c', _, ok) := Bypass(o, c, buf, first, at, cur, write);
    assert !ok ==> !o(|c.disk.log|).ok;
  }

  function CacheAfter(r: StepResult): Cache {
    match r
    case More(l) => l.c
    case Stop(c, _, _) => c
  }

  /** An iteration goes on exactly when the device accepts all it asks for. */
  lemma StepLogged(g: Geo, o: Oracle, refresh: bool, rq: Req, l: Loop)
    requires Ready(g, rq, l) && l.done < rq.num
    ensures var r := Step(g, o, refresh, rq, l); Logged(o, l.c, CacheAfter(r), r.More?)
  {
    var b := CurPage(g, rq, l.done);
    var (p, sb) := Lookup(g, rq, l.c.pages, l.done, l.p, l.sb);
    if p >= 0 && l.c.pages[p].base == b {
    } else if !Direct(g, rq) {
      var v := Victim(l.c.pages);
      FlushPageLogged(g, o, l.c, v);
      var (c1, flushed) := FlushPage(g, o, l.c, v);
      if flushed {
        FlushKeepsVictim(g, o, l.c, v);
        var load := !rq.write || !Whole(g, rq, l.done);
        RefillLogged(g, o, c1, v, b, load);
        var (c2, loaded) := Refill(g, o, c1, v, b, load);
        LoggedThen(o, l.c, c1, true, c2, loaded);
      }
    } else {
      BypassLogged(o, l.c, l.buf, rq.first + l.done, l.done, DirectCount(g, rq, l, p, sb), rq.write);
    }
  }

  /** The loop succeeds exactly when the device accepts every operation it is asked for. */
  lemma {:induction false} RunLogged(g: Geo, o: Oracle, refresh: bool, rq: Req, l: Loop)
    requires Ready(g, rq, l)
    ensures var r := Run(g, o, refresh, rq, l); Logged(o, l.c, r.c, r.ok)
    decreases rq.num - l.done
  {
    if l.done < rq.num {
      StepLogged(g, o, refresh, rq, l);
      var s := Step(g, o, refresh, rq, l);
      if s.More? {
        RunLogged(g, o, refresh, rq, s.l);
        var r := Run(g, o, refresh, rq, s.l);
        LoggedThen(o, l.c, s.l.c, true, r.c, r.ok);
      }
    }
  }
}
