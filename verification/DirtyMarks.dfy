/** The dirty interval of an entry as it is stored: two 16-bit fields, narrowed at
    every store. */
module DirtyMarks {
  import opened Pages

  datatype Marks = Marks(lo: uint16, hi: uint16)

  function Narrowed(x: nat): uint16 {
    x % 0x1_0000
  }

  /** A clean entry, with pages of sz sectors. */
  function CleanMarks(sz: nat): Marks {
    Marks(Narrowed(sz), 0)
  }

  /** Sectors [start, end) of the page were written. */
  function Widen(m: Marks, start: nat, end: nat): Marks {
    Marks(if start < m.lo then Narrowed(start) else m.lo, if end > m.hi then Narrowed(end) else m.hi)
  }

  /** What the write-back looks at. */
  predicate MarkedDirty(m: Marks) {
    m.lo < m.hi
  }

  predicate Covers(m: Marks, start: nat, end: nat) {
    m.lo <= start && end <= m.hi
  }

  /** A write is taken into the stored interval exactly if its end fits in 16 bits,
      and then so is everything that was in it before. */
  lemma WidenCovers(m: Marks, start: nat, end: nat)
    ensures Covers(Widen(m, start, end), start, end) <==> end < 0x1_0000
    ensures end < 0x1_0000 ==> forall x: nat, y: nat :: Covers(m, x, y) ==> Covers(Widen(m, start, end), x, y)
  {
  }

  /** With pages of at most 2^15 sectors every write is taken in. */
  lemma SmallPagesCovered(k: nat, m: Marks, start: nat, end: nat)
    requires k <= 15 && start < end <= Pow2(k)
    ensures Covers(Widen(m, start, end), start, end)
    ensures Widen(m, start, end) == Marks(if start < m.lo then start else m.lo, if end > m.hi then end else m.hi)
  {
    PageSizeFits16(k);
  }

  /** Writing a whole page of a clean entry marks it dirty exactly if pages have at
      most 2^15 sectors. With larger ones the entry still looks clean, so the write-back
      skips it and the write is lost. */
  lemma WholeWriteMarksDirty(k: nat)
    ensures var sz := Pow2(k); MarkedDirty(Widen(CleanMarks(sz), 0, sz)) <==> k <= 15
  {
    if k <= 15 {
      PageSizeFits16(k);
    } else {
      NarrowedPower(k);
    }
  }

  lemma {:induction false} NarrowedPower(k: nat)
    requires k >= 16
    ensures Narrowed(Pow2(k)) == 0
  {
    if k == 16 {
      Pow2Of16();
    } else {
      NarrowedPower(k - 1);
    }
  }

  /** With pages of 2^16 sectors a write is taken in exactly if it leaves out the last
      sector of the page. */
  lemma LastSectorLost(start: nat, end: nat)
    requires start < end <= Pow2(16)
    ensures Covers(Widen(CleanMarks(Pow2(16)), start, end), start, end) <==> end != Pow2(16)
  {
    Pow2Of16();
  }
}
