/** FAT timestamps: a broken-down time packed into a date word and a time word. */
module FatTime {
  import opened Pages

  /** The year counts from 1900, the month from 0. */
  datatype Tm = Tm(year: int, mon: int, mday: int, hour: int, min: int, sec: int)

  /** What the C library produces; a leap second may read 60. The year is any int. */
  predicate BrokenDown(t: Tm) {
    0 <= t.mon < 12 && 1 <= t.mday <= 31 && 0 <= t.hour < 24 && 0 <= t.min < 60 && 0 <= t.sec <= 60
  }

  /** Fields small enough for their place in the word. */
  predicate Fits(t: Tm) {
    0 <= t.mon + 1 < 16 && 0 <= t.mday < 32 && 0 <= t.hour < 32 && 0 <= t.min < 64 && 0 <= t.sec < 64
  }

  type uint32 = x: int | 0 <= x < 0x1_0000_0000

  /** A C int taken as an unsigned 32-bit number, or the low 32 bits of a product:
      a shift to the left by k multiplies by 2^k. */
  function Word(x: int): uint32 {
    x % 0x1_0000_0000
  }

  /** Bitwise "or" of several words, left to right. */
  function OrAll(ws: seq<nat>): nat
    requires ws != []
  {
    if |ws| == 1 then ws[0] else BitOr(OrAll(ws[..|ws| - 1]), ws[|ws| - 1])
  }

  function Pack(t: Tm): nat {
    OrAll([
      Word((t.year - 80) * 0x200_0000),
      Word((t.mon + 1) * 0x20_0000),
      Word(t.mday * 0x1_0000),
      Word(t.hour * 0x800),
      Word(t.min * 0x20),
      Word(t.sec) / 2])
  }

  function DateOf(w: nat): uint16 {
    w / 0x1_0000 % 0x1_0000
  }

  function TimeOf(w: nat): uint16 {
    w % 0x1_0000
  }

  function Unpack(date: uint16, time: uint16): Tm {
    Tm(date / 512 + 80, BitAnd(date / 32, 0xf) - 1, BitAnd(date, 0x1f),
       time / 2048, BitAnd(time / 32, 0x3f), BitAnd(time, 0x1f) * 2)
  }

  /** Seconds rounded down to even. */
  function Rounded(t: Tm): Tm {
    t.(sec := t.sec - t.sec % 2)
  }

  /** 1980 to 2107. */
  predicate InRange(t: Tm) {
    80 <= t.year <= 207
  }

  /** Calendar order: the first field that differs decides. */
  predicate Earlier(a: Tm, b: Tm) {
    if a.year != b.year then a.year < b.year
    else if a.mon != b.mon then a.mon < b.mon
    else if a.mday != b.mday then a.mday < b.mday
    else if a.hour != b.hour then a.hour < b.hour
    else if a.min != b.min then a.min < b.min
    else a.sec < b.sec
  }

  // ----- the word as a number -----

  lemma PowersUsed()
    ensures Pow2(4) == 16 && Pow2(5) == 32 && Pow2(6) == 64 && Pow2(11) == 2048 && Pow2(16) == 0x1_0000
    ensures Pow2(21) == 0x20_0000 && Pow2(25) == 0x200_0000
  {
    Pow2Of16();
    assert Pow2(21) == 32 * Pow2(16);
    assert Pow2(25) == 16 * Pow2(21);
  }

  /** Years are stored modulo 128. */
  lemma YearWord(y: int)
    ensures Word(y * 0x200_0000) == y % 128 * 0x200_0000
  {
    assert y * 0x200_0000 == y / 128 * 0x1_0000_0000 + y % 128 * 0x200_0000;
  }

  /** Fields that do not overlap make a weighted sum. */
  function Sum(y: int, t: Tm): int {
    y * 0x200_0000 + (t.mon + 1) * 0x20_0000 + t.mday * 0x1_0000 + t.hour * 0x800 + t.min * 0x20 + t.sec / 2
  }

  /** One more field, below the ones so far. */
  lemma OrNext(ws: seq<nat>, sum: nat, q: nat, k: nat, p: nat, w: nat)
    requires ws != [] && OrAll(ws) == sum == q * p && p == Pow2(k) && w < p
    ensures OrAll(ws + [w]) == sum + w
  {
    assert (ws + [w])[..|ws|] == ws;
    OrAdds(q, k, p, w);
  }

  lemma OrFields(y: nat, m: nat, d: nat, h: nat, n: nat, s: nat)
    requires m < 16 && d < 32 && h < 32 && n < 64 && s < 32
    ensures OrAll([y * 0x200_0000, m * 0x20_0000, d * 0x1_0000, h * 0x800, n * 0x20, s])
            == y * 0x200_0000 + m * 0x20_0000 + d * 0x1_0000 + h * 0x800 + n * 0x20 + s
  {
    PowersUsed();
    var y', m', d', h', n' := y * 0x200_0000, m * 0x20_0000, d * 0x1_0000, h * 0x800, n * 0x20;
    assert [y'] + [m'] == [y', m'] && [y', m'] + [d'] == [y', m', d'];
    assert [y', m', d'] + [h'] == [y', m', d', h'] && [y', m', d', h'] + [n'] == [y', m', d', h', n'];
    assert [y', m', d', h', n'] + [s] == [y', m', d', h', n', s];
    OrNext([y'], y', y, 25, 0x200_0000, m');
    OrNext([y', m'], y' + m', y * 16 + m, 21, 0x20_0000, d');
    OrNext([y', m', d'], y' + m' + d', (y * 16 + m) * 32 + d, 16, 0x1_0000, h');
    OrNext([y', m', d', h'], y' + m' + d' + h', ((y * 16 + m) * 32 + d) * 32 + h, 11, 0x800, n');
    OrNext([y', m', d', h', n'], y' + m' + d' + h' + n', (((y * 16 + m) * 32 + d) * 32 + h) * 64 + n, 5, 0x20, s);
  }

  lemma PackSum(t: Tm)
    requires Fits(t)
    ensures Pack(t) == Sum((t.year - 80) % 128, t)
  {
    YearWord(t.year - 80);
    assert Word(t.sec) == t.sec;
    OrFields((t.year - 80) % 128, t.mon + 1, t.mday, t.hour, t.min, t.sec / 2);
  }

  lemma PackSumInRange(t: Tm)
    requires BrokenDown(t) && InRange(t)
    ensures Pack(t) == Sum(t.year - 80, t)
  {
    PackSum(t);
  }

  lemma UnpackSum(date: uint16, time: uint16)
    ensures Unpack(date, time)
            == Tm(date / 512 + 80, date / 32 % 16 - 1, date % 32, time / 2048, time / 32 % 64, time % 32 * 2)
  {
    PowersUsed();
    MaskIsRemainder(date / 32, 4);
    MaskIsRemainder(date, 5);
    MaskIsRemainder(time / 32, 6);
    MaskIsRemainder(time, 5);
  }

  // ----- round trips and order -----

  lemma SumSplits(y: nat, t: Tm, w: nat)
    requires Fits(t) && y < 128 && w == Sum(y, t)
    ensures DateOf(w) == y * 512 + (t.mon + 1) * 32 + t.mday
    ensures TimeOf(w) == t.hour * 2048 + t.min * 32 + t.sec / 2
  {
    assert w == (y * 512 + (t.mon + 1) * 32 + t.mday) * 0x1_0000 + (t.hour * 2048 + t.min * 32 + t.sec / 2);
  }

  /** A time survives packing, seconds rounded down to even, exactly in 1980 to 2107. */
  lemma PackThenUnpack(t: Tm)
    requires BrokenDown(t)
    ensures Unpack(DateOf(Pack(t)), TimeOf(Pack(t))) == Rounded(t) <==> InRange(t)
  {
    PackSum(t);
    SumUnpacks((t.year - 80) % 128, t, Pack(t));
  }

  lemma DateFields(y: nat, m: nat, d: nat)
    requires m < 16 && d < 32
    ensures var w := y * 512 + m * 32 + d; w / 512 == y && w / 32 % 16 == m && w % 32 == d
  {
    assert (y * 512 + m * 32 + d) / 32 == y * 16 + m;
  }

  lemma TimeFields(h: nat, n: nat, s: nat)
    requires n < 64 && s < 32
    ensures var w := h * 2048 + n * 32 + s; w / 2048 == h && w / 32 % 64 == n && w % 32 == s
  {
    assert (h * 2048 + n * 32 + s) / 32 == h * 64 + n;
  }

  /** Where the fields of a time are in the two words: the year from 1980, the month from
      one and the day, in 7, 4 and 5 bits; hours, minutes and pairs of seconds, in 5, 6
      and 5 bits. */
  lemma PackedFields(t: Tm)
    requires BrokenDown(t) && InRange(t)
    ensures DateOf(Pack(t)) as int == (t.year + 1900 - 1980) * 512 + (t.mon + 1) * 32 + t.mday
    ensures TimeOf(Pack(t)) as int == t.hour * 2048 + t.min * 32 + t.sec / 2
  {
    PackSumInRange(t);
    SumSplits(t.year - 80, t, Pack(t));
  }

  lemma SumUnpacks(y: nat, t: Tm, w: nat)
    requires BrokenDown(t) && y == (t.year - 80) % 128 && w == Sum(y, t)
    ensures Unpack(DateOf(w), TimeOf(w)) == Rounded(t) <==> InRange(t)
  {
    SumSplits(y, t, w);
    UnpackSum(DateOf(w), TimeOf(w));
    DateFields(y, t.mon + 1, t.mday);
    TimeFields(t.hour, t.min, t.sec / 2);
  }

  /** Any two words survive unpacking, even ones no packing produces. */
  lemma UnpackThenPack(date: uint16, time: uint16)
    ensures var w := Pack(Unpack(date, time)); DateOf(w) == date && TimeOf(w) == time
  {
    var t := Unpack(date, time);
    UnpackSum(date, time);
    SplitFits(date, time, t);
    PackSum(t);
    SumPacks(date, time, t, Pack(t));
  }

  lemma SplitFits(date: uint16, time: uint16, t: Tm)
    requires t == Tm(date / 512 + 80, date / 32 % 16 - 1, date % 32, time / 2048, time / 32 % 64, time % 32 * 2)
    ensures Fits(t) && t.year - 80 == date / 512 < 128 && (t.year - 80) % 128 == t.year - 80
    ensures date == (t.year - 80) * 512 + (t.mon + 1) * 32 + t.mday
    ensures time == t.hour * 2048 + t.min * 32 + t.sec / 2
  {
    Rejoins(date, 16);
    Rejoins(time, 64);
  }

  /** A word is its low five bits, some middle bits and the rest. */
  lemma Rejoins(w: uint16, mid: pos)
    ensures w == (w / 32 / mid * mid + w / 32 % mid) * 32 + w % 32
  {
  }

  lemma SumPacks(date: uint16, time: uint16, t: Tm, w: nat)
    requires Fits(t) && 80 <= t.year < 208 && w == Sum(t.year - 80, t)
    requires date == (t.year - 80) * 512 + (t.mon + 1) * 32 + t.mday
    requires time == t.hour * 2048 + t.min * 32 + t.sec / 2
    ensures DateOf(w) == date && TimeOf(w) == time
  {
    SumSplits(t.year - 80, t, w);
  }

  /** Packed words compare as the times they stand for. */
  lemma PackKeepsOrder(a: Tm, b: Tm)
    requires BrokenDown(a) && BrokenDown(b) && InRange(a) && InRange(b)
    ensures Pack(a) < Pack(b) <==> Earlier(Rounded(a), Rounded(b))
  {
    PackSumInRange(a);
    PackSumInRange(b);
    SumOrder(a, b, Pack(a), Pack(b));
  }

  lemma SumOrder(a: Tm, b: Tm, v: nat, w: nat)
    requires BrokenDown(a) && BrokenDown(b) && InRange(a) && InRange(b)
    requires v == Sum(a.year - 80, a) && w == Sum(b.year - 80, b)
    ensures v < w <==> Earlier(Rounded(a), Rounded(b))
  {
  }

  // ----- setting a file's times -----

  datatype FileTimes = FileTimes(
    acdate: uint16, actime: uint16, fdate: uint16, ftime: uint16, crdate: uint16, crtime: uint16)

  function Utimes(accessed: nat, modified: nat): FileTimes {
    FileTimes(DateOf(accessed), TimeOf(accessed), DateOf(modified), TimeOf(modified), 0, 0)
  }

  /** Both times given are the ones read back; no creation time is set. */
  lemma UtimesReadBack(accessed: Tm, modified: Tm)
    requires BrokenDown(accessed) && BrokenDown(modified) && InRange(accessed) && InRange(modified)
    ensures var f := Utimes(Pack(accessed), Pack(modified));
      && Unpack(f.acdate, f.actime) == Rounded(accessed)
      && Unpack(f.fdate, f.ftime) == Rounded(modified)
      && f.crdate == 0 && f.crtime == 0
  {
    PackThenUnpack(accessed);
    PackThenUnpack(modified);
  }
}
