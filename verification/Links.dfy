/** Entries linked by number and one data buffer, as values: what it means that they
    spell out a list of pages, and how single updates carry over. */
module Links {
  import opened Pages
  import opened Device
  import opened CacheModel

  const NULL: int := -1

  /** One cache entry; links are entry numbers or NULL. */
  datatype Entry = Entry(next: int, prev: int, base: sec_t, lo: uint16, hi: uint16)

  /** The entry number at list position i, NULL off either end. */
  function Link(ps: seq<Page>, i: int): int {
    if 0 <= i < |ps| then ps[i].slot else NULL
  }

  ghost predicate SlotsOk(n: nat, ps: seq<Page>) {
    && |ps| == n
    && (forall i :: 0 <= i < |ps| ==> ps[i].slot < n)
    && (forall i: nat, j: nat {:trigger Apart(ps, i, j)} :: i < |ps| && j < |ps| && i != j ==> Apart(ps, i, j))
  }

  predicate Apart(ps: seq<Page>, i: nat, j: nat)
    requires i < |ps| && j < |ps|
  {
    ps[i].slot != ps[j].slot
  }

  /** The entry at position i of the list holds its page and links to its neighbours. */
  ghost predicate EntryAt(es: seq<Entry>, ps: seq<Page>, i: nat) {
    && i < |ps| && ps[i].slot < |es|
    && var e := es[ps[i].slot];
    && e.next == Link(ps, i + 1) && e.prev == Link(ps, i - 1)
    && e.base == ps[i].base && e.lo == ps[i].lo && e.hi == ps[i].hi
  }

  /** Forward and backward chains both spell ps, every entry once. */
  ghost predicate LinksOk(es: seq<Entry>, head: int, tail: int, ps: seq<Page>) {
    && SlotsOk(|es|, ps)
    && head == Link(ps, 0) && tail == Link(ps, |ps| - 1)
    && forall i: nat {:trigger EntryAt(es, ps, i)} :: i < |ps| ==> EntryAt(es, ps, i)
  }

  ghost predicate WindowIs(sz: pos, d: seq<Sector>, p: Page) {
    SlotStart(sz, p.slot) + sz <= |d| && d[SlotStart(sz, p.slot)..SlotStart(sz, p.slot) + sz] == p.data
  }

  ghost predicate DataOk(sz: pos, d: seq<Sector>, ps: seq<Page>) {
    forall i {:trigger WindowIs(sz, d, ps[i])} :: 0 <= i < |ps| ==> WindowIs(sz, d, ps[i])
  }

  // ----- updates that keep the order -----

  /** Entry k gets a new base or dirty interval. */
  lemma UpdateLinks(es: seq<Entry>, head: int, tail: int, ps: seq<Page>, k: nat, q: Page, e: Entry)
    requires LinksOk(es, head, tail, ps) && k < |ps| && q.slot == ps[k].slot
    requires e.next == es[q.slot].next && e.prev == es[q.slot].prev && e.base == q.base && e.lo == q.lo && e.hi == q.hi
    ensures LinksOk(es[q.slot := e], head, tail, ps[k := q])
  {
    var ps', es' := ps[k := q], es[q.slot := e];
    assert forall i: nat, j: nat :: i < |ps| && j < |ps| && i != j && Apart(ps, i, j) ==> Apart(ps', i, j);
    forall i: nat | i < |ps|
      ensures EntryAt(es', ps', i)
    {
      assert EntryAt(es, ps, i);
      if i != k {
        assert Apart(ps, i, k);
      }
    }
  }

  /** Window k of the buffer is overwritten from offset off. */
  lemma UpdateData(sz: pos, d: seq<Sector>, ps: seq<Page>, k: nat, off: nat, b: seq<Sector>, q: Page)
    requires SlotsOk(|ps|, ps) && DataOk(sz, d, ps) && k < |ps| && off + |b| <= sz && |ps[k].data| == sz
    requires q.slot == ps[k].slot && q.data == Blit(ps[k].data, off, b)
    ensures SlotStart(sz, q.slot) + off + |b| <= |d|
    ensures DataOk(sz, Blit(d, SlotStart(sz, q.slot) + off, b), ps[k := q])
  {
    assert WindowIs(sz, d, ps[k]);
    var s := SlotStart(sz, q.slot);
    var d' := Blit(d, s + off, b);
    var ps' := ps[k := q];
    forall i: nat | i < |ps'|
      ensures WindowIs(sz, d', ps'[i])
    {
      assert WindowIs(sz, d, ps[i]);
      if i != k {
        assert Apart(ps, i, k);
        OtherWindow(sz, d, ps[i], q.slot, off, b);
      } else {
        OwnWindow(sz, d, ps[k], off, b);
      }
    }
  }

  lemma OtherWindow(sz: pos, d: seq<Sector>, p: Page, k: nat, off: nat, b: seq<Sector>)
    requires WindowIs(sz, d, p) && p.slot != k && off + |b| <= sz && SlotStart(sz, k) + sz <= |d|
    ensures WindowIs(sz, Blit(d, SlotStart(sz, k) + off, b), p)
  {
    if p.slot < k { SlotsTile(sz, p.slot, k); } else { SlotsTile(sz, k, p.slot); }
    var s := SlotStart(sz, p.slot);
    BlitApart(d, SlotStart(sz, k) + off, b, s, s + sz);
  }

  lemma BlitApart(d: seq<Sector>, at: nat, b: seq<Sector>, from: nat, to: nat)
    requires at + |b| <= |d| && from <= to <= |d| && (to <= at || at + |b| <= from)
    ensures Blit(d, at, b)[from..to] == d[from..to]
  {
  }

  lemma OwnWindow(sz: pos, d: seq<Sector>, p: Page, off: nat, b: seq<Sector>)
    requires WindowIs(sz, d, p) && off + |b| <= sz
    ensures WindowIs(sz, Blit(d, SlotStart(sz, p.slot) + off, b), p.(data := Blit(p.data, off, b)))
  {
    var s := SlotStart(sz, p.slot);
    var d' := Blit(d, s + off, b);
    assert d'[s..s + sz] == Blit(p.data, off, b);
  }

  /** Part of a window, read off the buffer. */
  lemma WindowSlice(sz: pos, d: seq<Sector>, p: Page, lo: nat, hi: nat)
    requires WindowIs(sz, d, p) && lo <= hi <= sz
    ensures |p.data| == sz
    ensures d[SlotStart(sz, p.slot) + lo..SlotStart(sz, p.slot) + hi] == p.data[lo..hi]
  {
    SliceOfSlice(d, SlotStart(sz, p.slot), sz, lo, hi);
  }

  lemma SliceOfSlice(d: seq<Sector>, s: nat, n: nat, lo: nat, hi: nat)
    requires s + n <= |d| && lo <= hi <= n
    ensures d[s..s + n][lo..hi] == d[s + lo..s + hi]
  {
    var window := d[s..s + n];
    forall i | 0 <= i < hi - lo
      ensures window[lo..hi][i] == d[s + lo..s + hi][i]
    {
      assert window[lo + i] == d[s + lo + i];
    }
  }

  lemma SameData(sz: pos, d: seq<Sector>, ps: seq<Page>, k: nat, q: Page)
    requires DataOk(sz, d, ps) && k < |ps| && q.slot == ps[k].slot && q.data == ps[k].data
    ensures DataOk(sz, d, ps[k := q])
  {
    var ps' := ps[k := q];
    forall i | 0 <= i < |ps'|
      ensures WindowIs(sz, d, ps'[i])
    {
      assert WindowIs(sz, d, ps[i]);
    }
  }

  lemma TouchData(sz: pos, d: seq<Sector>, ps: seq<Page>, k: nat)
    requires DataOk(sz, d, ps) && k < |ps|
    ensures DataOk(sz, d, Touch(ps, k))
  {
    var qs := Touch(ps, k);
    forall i | 0 <= i < |qs|
      ensures WindowIs(sz, d, qs[i])
    {
      assert WindowIs(sz, d, ps[if i == 0 then k else if i <= k then i - 1 else i]);
    }
  }

  // ----- the splice -----

  /** The entries after entry p is taken out of its place and linked in front. */
  function Unlinked(es: seq<Entry>, p: nat): (r: seq<Entry>)
    requires p < |es| && 0 <= es[p].prev < |es| && NULL <= es[p].next < |es|
    ensures |r| == |es|
  {
    var prev, next := es[p].prev, es[p].next;
    var es1 := es[prev := es[prev].(next := next)];
    if next != NULL then es1[next := es1[next].(prev := prev)] else es1
  }

  function LinkedInFront(es: seq<Entry>, p: nat, head: nat): (r: seq<Entry>)
    requires p < |es| && head < |es|
    ensures |r| == |es|
  {
    var es1 := es[p := es[p].(next := head)];
    var es2 := es1[head := es1[head].(prev := p)];
    es2[p := es2[p].(prev := NULL)]
  }

  /** Six assignments move an entry to the front of the list and leave every other
      entry in its relative place. */
  lemma SpliceIsTouch(es: seq<Entry>, head: int, tail: int, ps: seq<Page>, k: nat)
    requires LinksOk(es, head, tail, ps) && 0 < k < |ps|
    ensures var p := ps[k].slot;
      && 0 <= es[p].prev < |es| && NULL <= es[p].next < |es| && 0 <= head < |es|
      && var tail' := if es[p].next != NULL then tail else es[p].prev;
         LinksOk(LinkedInFront(Unlinked(es, p), p, head), p, tail', Touch(ps, k))
  {
    var p := ps[k].slot;
    assert EntryAt(es, ps, k);
    var qs := Touch(ps, k);
    var es' := LinkedInFront(Unlinked(es, p), p, head);
    TouchSlots(|es|, ps, k);
    forall i: nat | i < |qs|
      ensures EntryAt(es', qs, i)
    {
      SpliceEntry(es, head, tail, ps, k, i);
    }
  }

  lemma TouchSlots(n: nat, ps: seq<Page>, k: nat)
    requires SlotsOk(n, ps) && k < |ps|
    ensures SlotsOk(n, Touch(ps, k))
  {
    var qs := Touch(ps, k);
    assert forall i :: 0 <= i < |ps| ==> qs[i] == ps[if i == 0 then k else if i <= k then i - 1 else i];
    forall i: nat, j: nat | i < |qs| && j < |qs| && i != j
      ensures Apart(qs, i, j)
    {
      var i' := if i == 0 then k else if i <= k then i - 1 else i;
      var j' := if j == 0 then k else if j <= k then j - 1 else j;
      assert Apart(ps, i', j');
    }
  }

  /** The spliced links of the entry that stood at position j. */
  lemma SplicedFields(es: seq<Entry>, head: int, tail: int, ps: seq<Page>, k: nat, j: nat)
    requires LinksOk(es, head, tail, ps) && 0 < k < |ps| && j < |ps|
    requires var p := ps[k].slot; 0 <= es[p].prev < |es| && NULL <= es[p].next < |es| && 0 <= head < |es|
    ensures var p, e := ps[k].slot, es[ps[j].slot];
      LinkedInFront(Unlinked(es, p), p, head)[ps[j].slot] ==
        Entry(if j == k then Link(ps, 0) else if j == k - 1 then Link(ps, k + 1) else Link(ps, j + 1),
              if j == k then NULL else if j == 0 then p else if j == k + 1 then Link(ps, k - 1) else Link(ps, j - 1),
              e.base, e.lo, e.hi)
  {
    assert EntryAt(es, ps, j);
    assert EntryAt(es, ps, k);
    assert j != k ==> Apart(ps, j, k);
    assert j != k - 1 ==> Apart(ps, j, k - 1);
    assert j != 0 ==> Apart(ps, j, 0);
    if k + 1 < |ps| {
      assert j != k + 1 ==> Apart(ps, j, k + 1);
    }
  }

  lemma SpliceEntry(es: seq<Entry>, head: int, tail: int, ps: seq<Page>, k: nat, i: nat)
    requires LinksOk(es, head, tail, ps) && 0 < k < |ps| && i < |ps|
    requires var p := ps[k].slot; 0 <= es[p].prev < |es| && NULL <= es[p].next < |es| && 0 <= head < |es|
    requires SlotsOk(|es|, Touch(ps, k))
    ensures var p := ps[k].slot;
      EntryAt(LinkedInFront(Unlinked(es, p), p, head), Touch(ps, k), i)
  {
    var j := if i == 0 then k else if i <= k then i - 1 else i;
    SplicedFields(es, head, tail, ps, k, j);
    assert EntryAt(es, ps, j);
    TouchLinks(ps, k, i);
  }

  /** Neighbours in the promoted list. */
  lemma TouchLinks(ps: seq<Page>, k: nat, i: nat)
    requires 0 < k < |ps| && i < |ps|
    ensures var qs := Touch(ps, k);
      var j := if i == 0 then k else if i <= k then i - 1 else i;
      && qs[i] == ps[j]
      && Link(qs, i + 1) == (if j == k then Link(ps, 0) else if j == k - 1 then Link(ps, k + 1) else Link(ps, j + 1))
      && Link(qs, i - 1) ==
           (if j == k then NULL else if j == 0 then Link(ps, k)
            else if j == k + 1 then Link(ps, k - 1) else Link(ps, j - 1))
  {
  }
}
