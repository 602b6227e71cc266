/** The format of a carryover file, spelled out: the tables as stored, the groups as the scan counts them,
    the words as they are filled, the header's bits, and three small files in full. */
module CarryFormat {
  import opened Bits
  import opened CarryWords
  import opened CarryCode
  import opened CarryLockstep
  import opened CarryProgress

  // ---------- the tables as stored ----------

  // Four entries for each width up to the starter, for either table class, when the selector opens a word
  // and when it does not.

  const TRANS_B1_30_BIG: seq<Row> := [
    ZERO_ROW, Row(1, 2, 3, 28), Row(1, 2, 3, 28), Row(2, 3, 4, 28), Row(3, 4, 5, 28), Row(4, 5, 6, 28),
    Row(5, 6, 7, 28), Row(6, 7, 8, 28), Row(6, 7, 10, 28), Row(8, 10, 15, 28), Row(9, 10, 14, 28),
    ZERO_ROW, ZERO_ROW, ZERO_ROW, Row(10, 15, 16, 28), Row(10, 14, 15, 28), Row(7, 10, 15, 28),
    ZERO_ROW, ZERO_ROW, ZERO_ROW, ZERO_ROW, ZERO_ROW, ZERO_ROW, ZERO_ROW, ZERO_ROW, ZERO_ROW, ZERO_ROW,
    ZERO_ROW, Row(6, 10, 16, 28), ZERO_ROW, ZERO_ROW, ZERO_ROW, ZERO_ROW, Row(4, 9, 15, 28)]

  const TRANS_B1_32_BIG: seq<Row> := [
    ZERO_ROW, Row(1, 2, 3, 28), Row(1, 2, 3, 28), Row(2, 3, 4, 28), Row(3, 4, 5, 28), Row(4, 5, 6, 28),
    Row(5, 6, 7, 28), Row(6, 7, 8, 28), Row(7, 9, 10, 28), Row(7, 10, 15, 28), Row(8, 10, 15, 28),
    ZERO_ROW, ZERO_ROW, ZERO_ROW, Row(7, 10, 15, 28), Row(10, 15, 16, 28), Row(10, 14, 15, 28),
    ZERO_ROW, ZERO_ROW, ZERO_ROW, ZERO_ROW, ZERO_ROW, ZERO_ROW, ZERO_ROW, ZERO_ROW, ZERO_ROW, ZERO_ROW,
    ZERO_ROW, Row(6, 10, 16, 28), ZERO_ROW, ZERO_ROW, ZERO_ROW, ZERO_ROW, Row(4, 10, 16, 28)]

  const TRANS_B1_30_SMALL: seq<Row> := [
    ZERO_ROW, Row(1, 2, 3, 16), Row(1, 2, 3, 16), Row(2, 3, 4, 16), Row(3, 4, 5, 16), Row(4, 5, 6, 16),
    Row(5, 6, 7, 16), Row(6, 7, 8, 16), Row(6, 7, 10, 16), Row(7, 8, 10, 16), Row(9, 10, 14, 16),
    ZERO_ROW, ZERO_ROW, ZERO_ROW, Row(8, 10, 15, 16), Row(10, 14, 15, 16), Row(7, 10, 15, 16),
    ZERO_ROW, ZERO_ROW, ZERO_ROW, ZERO_ROW, ZERO_ROW, ZERO_ROW, ZERO_ROW, ZERO_ROW, ZERO_ROW, ZERO_ROW,
    ZERO_ROW, ZERO_ROW, ZERO_ROW, ZERO_ROW, ZERO_ROW, ZERO_ROW, Row(3, 7, 10, 16)]

  const TRANS_B1_32_SMALL: seq<Row> := [
    ZERO_ROW, Row(1, 2, 3, 16), Row(1, 2, 3, 16), Row(2, 3, 4, 16), Row(3, 4, 5, 16), Row(4, 5, 6, 16),
    Row(5, 6, 7, 16), Row(6, 7, 8, 16), Row(7, 9, 10, 16), Row(7, 10, 15, 16), Row(8, 10, 15, 16),
    ZERO_ROW, ZERO_ROW, ZERO_ROW, Row(7, 10, 15, 16), Row(8, 10, 15, 16), Row(10, 14, 15, 16),
    ZERO_ROW, ZERO_ROW, ZERO_ROW, ZERO_ROW, ZERO_ROW, ZERO_ROW, ZERO_ROW, ZERO_ROW, ZERO_ROW, ZERO_ROW,
    ZERO_ROW, ZERO_ROW, ZERO_ROW, ZERO_ROW, ZERO_ROW, ZERO_ROW, Row(3, 7, 10, 16)]

  lemma Big30IsStored(width: nat)
    requires width < 34
    ensures |TRANS_B1_30_BIG| == 34 && TransRow(false, true, width) == TRANS_B1_30_BIG[width]
  {
  }

  lemma Big32IsStored(width: nat)
    requires width < 34
    ensures |TRANS_B1_32_BIG| == 34 && TransRow(false, false, width) == TRANS_B1_32_BIG[width]
  {
  }

  lemma Small30IsStored(width: nat)
    requires width < 34
    ensures |TRANS_B1_30_SMALL| == 34 && TransRow(true, true, width) == TRANS_B1_30_SMALL[width]
  {
  }

  lemma Small32IsStored(width: nat)
    requires width < 34
    ensures |TRANS_B1_32_SMALL| == 34 && TransRow(true, false, width) == TRANS_B1_32_SMALL[width]
  {
  }

  // ---------- how many gaps a group holds ----------

  /** A group of positive width holds as many gaps as fit its bits and are left in the block, and none at
      all if one of those is too wide. */
  lemma GroupIsFull(avail: nat, len: nat, bits: seq<nat>, i: nat)
    requires i < |bits| && len > 0
    ensures var k := ElemsCoded(avail, len, bits, i);
      && (k > 0 ==>
            && k * len <= avail && i + k <= |bits| && (i + k < |bits| ==> avail < (k + 1) * len)
            && forall m | i <= m < i + k :: bits[m] <= len)
      && (k == 0 <==> len > avail || exists m :: i <= m < |bits| && bits[m] > len && (m - i + 1) * len <= avail)
  {
    hide Quotient;
    var most := Quotient(avail, len);
    forall t: nat ensures t * len <= avail <==> t <= most {
      FitsInQuotient(avail, len, t);
    }
    assert 1 * len == len;
    var k := ElemsCoded(avail, len, bits, i);
    var n := if most <= |bits| - i then most else |bits| - i;
    if k > 0 {
      assert k == n;
      assert i + k < |bits| ==> !((k + 1) * len <= avail);
    } else if len <= avail {
      var m :| i <= m < i + n && bits[m] > len;
      var t: nat := m - i + 1;
      assert t * len <= avail;
    }
    forall m | i <= m < |bits| && bits[m] > len && (m - i + 1) * len <= avail ensures k == 0 {
      var t: nat := m - i + 1;
      assert t <= most;
    }
  }

  lemma FitsInQuotient(a: nat, d: nat, t: nat)
    requires d > 0
    ensures t * d <= a <==> t <= Quotient(a, d)
  {
    QuotientBounds(a, d);
    var q := Quotient(a, d);
    hide Quotient;
    assert q * d + d == (q + 1) * d;
    if t <= q {
      MulMonotonic(d, t, q);
    } else {
      MulMonotonic(d, q + 1, t);
    }
  }

  /** A group of width zero is a run of at least two and at most 64 gaps of one. */
  lemma ZeroGroupIsRun(avail: nat, bits: seq<nat>, i: nat)
    requires i < |bits|
    ensures var k := ElemsCoded(avail, 0, bits, i);
      && (k > 0 ==>
            && 2 <= k <= 64 && i + k <= |bits| && (forall m | i <= m < i + k :: bits[m] == 0)
            && (i + k < |bits| && k < 64 ==> bits[i + k] > 0))
      && (k == 0 <==> bits[i] > 0 || i + 1 == |bits| || bits[i + 1] > 0)
  {
    if bits[i] == 0 && i + 1 < |bits| && bits[i + 1] == 0 {
      assert ZeroRun(bits, i, 64) == 1 + ZeroRun(bits, i + 1, 63);
      assert ZeroRun(bits, i + 1, 63) == 1 + ZeroRun(bits, i + 2, 62);
    }
  }

  // ---------- how words are filled ----------

  /** A field goes into the current word while 32 bits hold it, and opens a new word otherwise. */
  lemma PutFillsWords(w: Writer, f: Field)
    requires Put(w, f).Done?
    ensures Put(w, f).value ==
      if TotalBits(w.pending) + f.bits <= 32 then Writer(w.file, w.pending + [f])
      else Writer(w.file + [Pack(w.pending)], [f])
  {
  }

  /** The one way a field does not go in: 32 fields stand before it in a word that would still hold it. */
  lemma PutOverflows(w: Writer, f: Field)
    ensures Put(w, f).Failed? <==> TotalBits(w.pending) + f.bits <= 32 && |w.pending| == 32
  {
  }

  /** Where a field stands: above all fields before it. */
  lemma FieldPosition(fs: seq<Field>, f: Field)
    ensures TotalBits(fs + [f]) == TotalBits(fs) + f.bits
    ensures Pack(fs + [f]) == Pack(fs) + Pow2(TotalBits(fs)) * f.value
  {
    assert (fs + [f])[..|fs|] == fs;
  }

  // ---------- the header ----------

  lemma {:induction false} LowIsRemainder(x: nat, b: nat)
    ensures exists q: nat :: x == q * Pow2(b) + Low(x, b)
    ensures Low(x, b) < Pow2(b)
  {
    LowBelow(x, b);
    if b == 0 {
      assert x == x * Pow2(0) + Low(x, 0);
    } else {
      LowIsRemainder(x / 2, b - 1);
      var q: nat :| x / 2 == q * Pow2(b - 1) + Low(x / 2, b - 1);
      assert q * Pow2(b) == 2 * (q * Pow2(b - 1));
      assert x == q * Pow2(b) + Low(x, b);
    }
  }

  /** The first word of a file: a short list has its lowest bit set and its length in the next fourteen,
      a longer one has it clear; the bit above is set when the first block needs the big tables. */
  lemma FirstWordIsHeader(ids: seq<nat>)
    requires ValidIds(ids) && ids != [] && Encode(ids).Done?
    ensures var file := Encode(ids).value;
      var wide := exists i :: 0 <= i < |ids| && i < 16384 && ids[i] - (if i == 0 then 0 else ids[i - 1]) > 0x1_0000;
      var big := if wide then 1 else 0;
      && file != []
      && (|ids| < 16384 ==> file[0] % 0x1_0000 == 1 + 2 * |ids| + 0x8000 * big)
      && (|ids| >= 16384 ==> file[0] % 4 == 2 * big)
  {
    hide Gaps, EncodeBlocks, BitsOf, MaxOf, IsSmall, FitsSixteenBits, PutHeader, ExtendedBy, Flush, ValidGaps;
    var gaps := Gaps(ids);
    var n := BlockLength(gaps);
    HeaderExtended(gaps);
    ClassOfPrefix(gaps, n);
    FirstBlockClass(ids);
    hide ValidIds;
    HeaderBits(Encode(ids).value, n, IsSmall(gaps[..n]));
  }

  lemma FirstBlockClass(ids: seq<nat>)
    requires ValidIds(ids) && ids != []
    ensures var gaps := Gaps(ids);
      FitsSixteenBits(gaps[..BlockLength(gaps)])
      <==> !exists i :: 0 <= i < |ids| && i < 16384 && ids[i] - (if i == 0 then 0 else ids[i - 1]) > 0x1_0000
  {
    var gaps := Gaps(ids);
    var block := gaps[..BlockLength(gaps)];
    assert forall i | 0 <= i < |block| :: block[i] == ids[i] - (if i == 0 then 0 else ids[i - 1]);
    if i :| 0 <= i < |ids| && i < 16384 && ids[i] - (if i == 0 then 0 else ids[i - 1]) > 0x1_0000 {
      assert block[i] > 0x1_0000;
    }
  }

  lemma ClassOfPrefix(gaps: seq<nat>, n: nat)
    requires ValidGaps(gaps) && n <= |gaps|
    ensures ValidGaps(gaps[..n]) && (IsSmall(gaps[..n]) <==> FitsSixteenBits(gaps[..n]))
  {
    ClassByGaps(gaps[..n]);
  }

  /** The finished file starts with the fields of the first header. */
  lemma HeaderExtended(gaps: seq<nat>)
    requires ValidGaps(gaps) && gaps != [] && EncodeBlocks(gaps, EncoderStart).Done?
    ensures var block := gaps[..BlockLength(gaps)];
      var h := PutHeader(EmptyWriter, |block|, IsSmall(block));
      h.Done? && ExtendedBy(h.value, Flush(EncodeBlocks(gaps, EncoderStart).value.w))
  {
    hide PutHeader, EncodeGroups, IsSmall, MaxOf, BitsOf, ExtendedBy, Flush;
    var n := BlockLength(gaps);
    var block, rest := gaps[..n], gaps[n..];
    var small := IsSmall(block);
    var e := EncodeBlocks(gaps, EncoderStart).value;
    var e1 := EncodeBlock(block, EncoderStart).value;
    var h := PutHeader(EmptyWriter, n, small).value;
    EncodeBlockOk(block, EncoderStart);
    EncodeBlocksOk(rest, e1);
    FlushExtends(e.w);
    BlocksLockstep(rest, e1, Flush(e.w), 0, []);
    HeaderOk(EmptyWriter, n, small);
    GroupsLockstep(small, block, 0, Encoder(h, TRANS_TABLE_STARTER), Flush(e.w), []);
  }

  lemma HeaderBits(file: seq<nat>, n: nat, small: bool)
    requires 1 <= n <= 16384
    requires PutHeader(EmptyWriter, n, small).Done? && ExtendedBy(PutHeader(EmptyWriter, n, small).value, file)
    ensures var big := if small then 0 else 1;
      && file != []
      && (n < 16384 ==> file[0] % 0x1_0000 == 1 + 2 * n + 0x8000 * big)
      && (n == 16384 ==> file[0] % 4 == 2 * big)
  {
    if n < 16384 {
      ShortHeader(n, small);
    } else {
      LongHeader(small);
    }
    var w := PutHeader(EmptyWriter, n, small).value;
    hide PutHeader, Pack, TotalBits, Low;
    LowSixteen(file[0]);
    LowTwo(file[0]);
  }

  lemma LowSixteen(x: nat)
    ensures Low(x, 16) == x % 0x1_0000
  {
    LowIsRemainder(x, 16);
    Pow2Values();
    hide Low;
  }

  lemma LowTwo(x: nat)
    ensures Low(x, 2) == x % 4
  {
    LowIsRemainder(x, 2);
    assert Pow2(2) == 4;
    hide Low;
  }

  lemma ShortHeader(n: nat, small: bool)
    requires 1 <= n < 16384
    ensures var h := PutHeader(EmptyWriter, n, small);
      && h.Done? && h.value.file == [] && |h.value.pending| == 3 && TotalBits(h.value.pending) == 16
      && Pack(h.value.pending) == 1 + 2 * n + (if small then 0 else 0x8000)
  {
    var f1, f2, f3 := Field(1, 1), Field(n, 14), Field(if small then 0 else 1, 1);
    PackThree(f1, f2, f3);
    Pow2Values();
    hide Pack, TotalBits;
    assert [] + [f1] == [f1] && [f1] + [f2] == [f1, f2] && [f1, f2] + [f3] == [f1, f2, f3];
  }

  lemma PackThree(f1: Field, f2: Field, f3: Field)
    requires f1.bits == 1 && f2.bits == 14
    ensures TotalBits([]) == 0 && TotalBits([f1]) == 1 && TotalBits([f1, f2]) == 15
    ensures TotalBits([f1, f2, f3]) == 15 + f3.bits
    ensures Pack([f1, f2, f3]) == f1.value + 2 * f2.value + 0x8000 * f3.value
  {
    FieldPosition([], f1);
    FieldPosition([f1], f2);
    FieldPosition([f1, f2], f3);
    assert [] + [f1] == [f1] && [f1] + [f2] == [f1, f2] && [f1, f2] + [f3] == [f1, f2, f3];
    assert Pow2(0) == 1 && Pow2(1) == 2;
    Pow2Values();
    Pow2Add(1, 14);
  }

  lemma LongHeader(small: bool)
    ensures var h := PutHeader(EmptyWriter, 16384, small);
      && h.Done? && h.value.file == [] && h.value.pending != [] && TotalBits(h.value.pending) == 2
      && Pack(h.value.pending) == (if small then 0 else 2)
  {
    var f1, f3 := Field(0, 1), Field(if small then 0 else 1, 1);
    FieldPosition([], f1);
    FieldPosition([f1], f3);
    assert [] + [f1] == [f1];
    assert Pow2(0) == 1 && Pow2(1) == 2;
  }

  // ---------- how any file is read ----------

  lemma {:induction false} ShrLow(x: nat, b: nat)
    ensures x == Low(x, b) + Pow2(b) * Shr(x, b) && Low(x, b) < Pow2(b)
  {
    if b > 0 {
      ShrLow(x / 2, b - 1);
      Associate(2, Pow2(b - 1), Shr(x / 2, b - 1));
    }
  }

  /** Taking bits splits the word: the value below, the rest above. */
  lemma TakeSplits(r: Reader, b: nat)
    ensures var (v, r') := Take(r, b);
      && r.word == v + Pow2(b) * r'.word && v < Pow2(b)
      && r'.remaining == r.remaining - b && r'.unread == r.unread
  {
    AndMask(r.word, b);
    ShrLow(r.word, b);
  }

  /** A gap is the value of the width's bits plus one; while the word has them, nothing else is read. */
  lemma GapRead(small: bool, d: Decoder)
    requires d.r.remaining >= d.width
    ensures DecodeElem(small, d).Done?
    ensures var (x, d') := DecodeElem(small, d).value;
      && d.r.word == (x - 1) + Pow2(d.width) * d'.r.word && 1 <= x <= Pow2(d.width)
      && d'.width == d.width && d'.r.remaining == d.r.remaining - d.width && d'.r.unread == d.r.unread
  {
    TakeSplits(d.r, d.width);
    var (v, r') := Take(d.r, d.width);
    assert DecodeElem(small, d) == Done((v + 1, Decoder(r', d.width)));
    hide Take, DecodeElem;
  }

  /** A selector with two bits left in the word: the column they name, in the row for that case; the next word
      is fetched when the new width does not fit what is left. */
  lemma SelectorReadInWord(small: bool, d: Decoder)
    requires d.r.remaining >= 2 && d.r.unread != []
    ensures Selector(small, d).Done?
    ensures var d' := Selector(small, d).value; var j := d.r.word % 4; var row := TransRow(small, false, d.width);
      && d'.width == (if j == 0 then row.c0 else if j == 1 then row.c1 else if j == 2 then row.c2 else row.c3)
      && d'.r == (if d.r.remaining - 2 >= d'.width then Reader(d.r.remaining - 2, d.r.word / 4, d.r.unread)
                  else Reader(32, d.r.unread[0], d.r.unread[1..]))
  {
    TakeSplits(d.r, 2);
    assert Pow2(2) == 4;
    hide Take;
  }

  /** Otherwise the selector is the lowest two bits of the next word, whose other thirty are data. */
  lemma SelectorReadInNext(small: bool, d: Decoder)
    requires d.r.remaining < 2 && d.r.unread != []
    ensures Selector(small, d).Done?
    ensures var d' := Selector(small, d).value; var word := d.r.unread[0]; var j := word % 4;
      var row := TransRow(small, true, d.width);
      && d'.width == (if j == 0 then row.c0 else if j == 1 then row.c1 else if j == 2 then row.c2 else row.c3)
      && d'.r == Reader(30, word / 4, d.r.unread[1..])
  {
    TakeSplits(Reader(32, d.r.unread[0], d.r.unread[1..]), 2);
    assert Pow2(2) == 4;
    hide Take;
  }

  /** The header at the start of a file: a set lowest bit announces a length of fourteen bits, a clear one a
      block of 16384; the bit after that chooses the big tables. */
  lemma HeaderRead(file: seq<nat>)
    requires file != []
    ensures var word := file[0];
      ReadHeader(Reader(-1, 0, file)) ==
        Done(if word % 2 == 1 then (word / 2 % 0x4000, word / 0x8000 % 2 == 0, Reader(16, word / 0x1_0000, file[1..]))
             else (16384, word / 2 % 2 == 0, Reader(30, word / 4, file[1..])))
  {
    var r0 := Reader(32, file[0], file[1..]);
    var r1 := Reader(31, file[0] / 2, file[1..]);
    var r2 := Reader(17, file[0] / 2 / 0x4000, file[1..]);
    TakeOne(r0);
    TakeOne(r1);
    TakeFourteen(r1);
    TakeOne(r2);
    hide Take;
    assert file[0] / 2 / 0x4000 == file[0] / 0x8000 && file[0] / 0x8000 / 2 == file[0] / 0x1_0000;
    assert file[0] / 2 / 2 == file[0] / 4;
    assert ReadHeader(Reader(-1, 0, file)) == ReadHeader(r0);
    if file[0] % 2 == 1 {
      assert Read(r1, 14) == Done((file[0] / 2 % 0x4000, r2));
    }
  }

  lemma TakeOne(r: Reader)
    ensures Take(r, 1) == (r.word % 2, Reader(r.remaining - 1, r.word / 2, r.unread))
  {
    TakeSplits(r, 1);
    assert Pow2(1) == 2;
    hide Take;
  }

  lemma TakeFourteen(r: Reader)
    ensures Take(r, 14) == (r.word % 0x4000, Reader(r.remaining - 14, r.word / 0x4000, r.unread))
  {
    TakeSplits(r, 14);
    var (v, r') := Take(r, 14);
    assert Pow2(14) == 0x4000 by { Pow2Values(); }
    hide Take, Pow2;
    SplitAtFourteen(r.word, v, r'.word, Pow2(14));
  }

  lemma SplitAtFourteen(x: nat, v: nat, w: nat, p: nat)
    requires p == 0x4000 && x == v + p * w && v < p
    ensures x % 0x4000 == v && x / 0x4000 == w
  {
  }

  /** Each gap is added to the sum before it, in unsigned 32-bit arithmetic. */
  lemma SumsStep(curr: nat, gaps: seq<nat>, gap: nat)
    ensures RunningSums(curr, []) == []
    ensures var docs := RunningSums(curr, gaps);
      RunningSums(curr, gaps + [gap])
        == docs + [((if gaps == [] then curr else docs[|docs| - 1]) + gap) % 0x1_0000_0000]
  {
    SumsUnfold(curr, gaps + [gap]);
    assert RunningSums(curr, []) == [];
    hide RunningSums;
    assert (gaps + [gap])[..|gaps|] == gaps;
  }

  lemma SumsUnfold(curr: nat, all: seq<nat>)
    requires all != []
    ensures var docs := RunningSums(curr, all[..|all| - 1]);
      RunningSums(curr, all)
        == docs + [((if docs == [] then curr else docs[|docs| - 1]) + all[|all| - 1]) % 0x1_0000_0000]
  {
  }

  /** The limits on gaps, spelled out. */
  lemma LimitsMean(gaps: seq<nat>)
    ensures InCodeRange(gaps) <==> forall i | 0 <= i < |gaps| :: gaps[i] <= 0x1000_0000
    ensures FitsSixteenBits(gaps) <==> forall i | 0 <= i < |gaps| :: gaps[i] <= 0x1_0000
    ensures ELEMS_PER_BLOCK == 16384 && TRANS_TABLE_STARTER == 33
  {
  }

  // ---------- three files in full ----------

  /** A writer by what its current word holds: its value, its bits and its number of fields. */
  ghost predicate Holds(w: Writer, file: seq<nat>, word: nat, bits: nat, fields: nat) {
    w.file == file && Pack(w.pending) == word && TotalBits(w.pending) == bits && |w.pending| == fields
  }

  lemma PutInWord(w: Writer, f: Field, file: seq<nat>, word: nat, bits: nat, fields: nat)
    requires Holds(w, file, word, bits, fields) && bits + f.bits <= 32 && fields < 32
    ensures Put(w, f).Done?
    ensures Holds(Put(w, f).value, file, word + Pow2(bits) * f.value, bits + f.bits, fields + 1)
  {
    FieldPosition(w.pending, f);
    hide Pack, TotalBits;
  }

  lemma PutInNext(w: Writer, f: Field, file: seq<nat>, word: nat, bits: nat, fields: nat)
    requires Holds(w, file, word, bits, fields) && bits + f.bits > 32
    ensures Put(w, f).Done?
    ensures Holds(Put(w, f).value, file + [word], f.value, f.bits, 1)
  {
    FieldPosition([], f);
    assert [] + [f] == [f];
  }

  lemma HeaderHolds(n: nat, small: bool)
    requires 1 <= n < 16384
    ensures var h := PutHeader(EmptyWriter, n, small);
      h.Done? && Holds(h.value, [], 1 + 2 * n + (if small then 0 else 0x8000), 16, 3)
  {
    ShortHeader(n, small);
  }

  lemma PutGapsStep(w: Writer, gaps: seq<nat>, i: nat, k: nat, size: nat)
    requires i + k <= |gaps| && ValidGaps(gaps)
    requires k > 0 ==> Put(w, Field(gaps[i] - 1, size)).Done?
    ensures PutGaps(w, gaps, i, k, size)
         == if k == 0 then Done(w) else PutGaps(Put(w, Field(gaps[i] - 1, size)).value, gaps, i + 1, k - 1, size)
  {
    hide Put;
  }

  /** A list of one short block, from its header and its groups. */
  lemma OneBlockFile(ids: seq<nat>, gaps: seq<nat>, small: bool, h: Writer, e: Encoder)
    requires ValidIds(ids) && 1 <= |ids| < 16384 && gaps == Gaps(ids)
    requires MaxOf(BitsOf(gaps)) <= 28 && small == IsSmall(gaps)
    requires PutHeader(EmptyWriter, |gaps|, small) == Done(h)
    requires EncodeGroups(small, gaps, 0, Encoder(h, 33)) == Done(e) && e.w.pending != []
    ensures Encode(ids) == Done(e.w.file + [Pack(e.w.pending)])
  {
    hide PutHeader, EncodeGroups, Gaps, MaxOf, BitsOf, Pack;
    assert gaps[..|gaps|] == gaps && gaps[|gaps|..] == [];
    assert EncodeBlock(gaps, EncoderStart) == Done(e);
    assert EncodeBlocks([], e) == Done(e);
  }

  lemma GroupStep(small: bool, gaps: seq<nat>, i: nat, e: Encoder, k: nat, e': Encoder)
    requires i < |gaps| && ValidGaps(gaps) && EncodeGroup(small, gaps, i, e) == Done(Group(k, e'))
    ensures i + k <= |gaps|
    ensures EncodeGroups(small, gaps, i, e)
         == if i + k == |gaps| then Done(e') else EncodeGroups(small, gaps, i + k, e')
  {
    hide EncodeGroup;
    if i + k == |gaps| {
      assert EncodeGroups(small, gaps, i + k, e') == Done(e');
    }
  }

  /** A group from its column: the selector and then the gaps. */
  lemma GroupPuts(small: bool, gaps: seq<nat>, i: nat, e: Encoder, c: Choice, w1: Writer, w2: Writer)
    requires i < |gaps| && ValidGaps(gaps) && Select(small, e, BitsOf(gaps), i) == c && 0 < c.elems
    requires Put(e.w, Field(c.column, 2)) == Done(w1)
    requires i + c.elems <= |gaps| && PutGaps(w1, gaps, i, c.elems, c.size) == Done(w2)
    ensures EncodeGroup(small, gaps, i, e) == Done(Group(c.elems, Encoder(w2, c.size)))
  {
    hide Select, BitsOf, Put, PutGaps;
  }

  /** The first gap of the group is too wide. */
  lemma TooWide(avail: nat, len: nat, bits: seq<nat>, i: nat)
    requires i < |bits| && 0 < len <= avail && bits[i] > len
    ensures ElemsCoded(avail, len, bits, i) == 0
  {
    GroupIsFull(avail, len, bits, i);
    hide ElemsCoded;
    assert (i - i + 1) * len <= avail;
  }

  /** The next k gaps fit, and either no more do or there are no more. */
  lemma AllFit(avail: nat, len: nat, bits: seq<nat>, i: nat, k: nat)
    requires 0 < len && 0 < k && i + k <= |bits| && k * len <= avail
    requires (forall m | i <= m < i + k :: bits[m] <= len) && (i + k < |bits| ==> avail < (k + 1) * len)
    ensures ElemsCoded(avail, len, bits, i) == k
  {
    FitsInQuotient(avail, len, k);
    FitsInQuotient(avail, len, k + 1);
    hide Quotient;
  }

  lemma MaxOfStep(bits: seq<nat>, b: nat)
    ensures MaxOf(bits + [b]) == if MaxOf(bits) < b then b else MaxOf(bits)
  {
    assert (bits + [b])[..|bits|] == bits;
  }

  lemma HighPowers()
    ensures Pow2(2) == 4 && Pow2(9) == 512 && Pow2(16) == 0x1_0000
    ensures Pow2(18) == 0x4_0000 && Pow2(21) == 0x20_0000 && Pow2(24) == 0x100_0000
  {
    Pow2Values();
    assert Pow2(2) == 4 && Pow2(5) == 32 && Pow2(9) == 512;
    Pow2Add(16, 2);
    Pow2Add(16, 5);
    Pow2Add(16, 8);
  }

  /** Three gaps of at most three bits: header, selector 0 and the gaps less one share one word. */
  lemma OneWordFile()
    ensures Encode([2, 5, 9])
         == Done([1 + 2 * 3 + 0x1_0000 * 0 + 0x4_0000 * 1 + 0x20_0000 * 2 + 0x100_0000 * 3])
  {
    var ids, gaps := [2, 5, 9], [2, 3, 4];
    hide Pack, TotalBits, PutHeader, EncodeGroup, EncodeGroups, Gaps, BitsOf, MaxOf, Encode, ValidIds, QCeilLog2;
    OneWordGaps();
    HeaderHolds(3, true);
    var h := PutHeader(EmptyWriter, 3, true).value;
    var w := OneWordGroup(h);
    GroupStep(true, gaps, 0, Encoder(h, 33), 3, Encoder(w, 3));
    OneBlockFile(ids, gaps, true, h, Encoder(w, 3));
    assert [] + [Pack(w.pending)] == [Pack(w.pending)];
  }

  lemma OneWordGaps()
    ensures ValidIds([2, 5, 9]) && Gaps([2, 5, 9]) == [2, 3, 4]
    ensures BitsOf([2, 3, 4]) == [1, 2, 2] && MaxOf([1, 2, 2]) == 2
  {
    SmallWidths();
    MaxOfThree(1, 2, 2);
    hide QCeilLog2, MaxOf;
    assert Gaps([2, 5, 9]) == [2, 3, 4];
    assert BitsOf([2, 3, 4]) == [1, 2, 2];
  }

  lemma SmallWidths()
    ensures QCeilLog2(2) == 1 && QCeilLog2(3) == 2 && QCeilLog2(4) == 2
  {
    hide BitOr;
  }

  lemma MaxOfThree(a: nat, b: nat, c: nat)
    requires a <= b <= c
    ensures MaxOf([a, b, c]) == c
  {
    assert MaxOf([]) == 0;
    hide MaxOf;
    MaxOfStep([], a);
    MaxOfStep([a], b);
    MaxOfStep([a, b], c);
    assert [] + [a] == [a] && [a] + [b] == [a, b] && [a, b] + [c] == [a, b, c];
  }

  lemma OneWordGroup(h: Writer) returns (w: Writer)
    requires Holds(h, [], 7, 16, 3)
    ensures EncodeGroup(true, [2, 3, 4], 0, Encoder(h, 33)) == Done(Group(3, Encoder(w, 3)))
    ensures Holds(w, [], 7 + 0x4_0000 * 1 + 0x20_0000 * 2 + 0x100_0000 * 3, 27, 7)
  {
    var gaps := [2, 3, 4];
    OneWordGaps();
    AllFit(14, 3, [1, 2, 2], 0, 3);
    assert Select(true, Encoder(h, 33), [1, 2, 2], 0) == Choice(0, 3, 3) by { hide ElemsCoded; }
    hide Select, BitsOf, Pack, TotalBits, Put, PutGaps, Pow2, MaxOf;
    HighPowers();
    PutInWord(h, Field(0, 2), [], 7, 16, 3);
    var w1 := Put(h, Field(0, 2)).value;
    PutInWord(w1, Field(1, 3), [], 7, 18, 4);
    PutGapsStep(w1, gaps, 0, 3, 3);
    var w2 := Put(w1, Field(1, 3)).value;
    PutInWord(w2, Field(2, 3), [], 7 + 0x4_0000, 21, 5);
    PutGapsStep(w2, gaps, 1, 2, 3);
    var w3 := Put(w2, Field(2, 3)).value;
    PutInWord(w3, Field(3, 3), [], 7 + 0x4_0000 + 0x20_0000 * 2, 24, 6);
    PutGapsStep(w3, gaps, 2, 1, 3);
    w := Put(w3, Field(3, 3)).value;
    PutGapsStep(w, gaps, 3, 0, 3);
    GroupPuts(true, gaps, 0, Encoder(h, 33), Choice(0, 3, 3), w1, w);
  }

  /** A gap of seventeen bits takes the big tables and selector 3, and its 28 bits open a word. */
  lemma WideFile()
    ensures Encode([70000]) == Done([1 + 2 * 1 + 0x8000 + 0x1_0000 * 3, 69999])
  {
    var ids, gaps := [70000], [70000];
    hide Pack, TotalBits, PutHeader, EncodeGroup, EncodeGroups, Gaps, BitsOf, MaxOf, Encode, ValidIds, QCeilLog2;
    WideGaps();
    HeaderHolds(1, false);
    var h := PutHeader(EmptyWriter, 1, false).value;
    var w := WideGroup(h);
    GroupStep(false, gaps, 0, Encoder(h, 33), 1, Encoder(w, 28));
    OneBlockFile(ids, gaps, false, h, Encoder(w, 28));
    assert w.file + [Pack(w.pending)] == [3 + 0x8000 + 0x1_0000 * 3, 69999];
  }

  lemma WideGaps()
    ensures ValidIds([70000]) && Gaps([70000]) == [70000]
    ensures BitsOf([70000]) == [17] && MaxOf([17]) == 17
  {
    MaxOfStep([], 17);
    assert [] + [17] == [17];
    assert QCeilLog2(70000) == 17 by { assert BitOr(16, 1) == 17; }
    hide QCeilLog2, MaxOf;
    assert Gaps([70000]) == [70000];
    assert BitsOf([70000]) == [17];
  }

  lemma WideGroup(h: Writer) returns (w: Writer)
    requires Holds(h, [], 3 + 0x8000, 16, 3)
    ensures EncodeGroup(false, [70000], 0, Encoder(h, 33)) == Done(Group(1, Encoder(w, 28)))
    ensures Holds(w, [3 + 0x8000 + 0x1_0000 * 3], 69999, 28, 1)
  {
    var gaps := [70000];
    WideGaps();
    WideChoice(h);
    hide Select, BitsOf, Pack, TotalBits, Put, PutGaps, Pow2, MaxOf;
    HighPowers();
    PutInWord(h, Field(3, 2), [], 3 + 0x8000, 16, 3);
    var w1 := Put(h, Field(3, 2)).value;
    PutInNext(w1, Field(69999, 28), [], 3 + 0x8000 + 0x1_0000 * 3, 18, 4);
    PutGapsStep(w1, gaps, 0, 1, 28);
    w := Put(w1, Field(69999, 28)).value;
    PutGapsStep(w, gaps, 1, 0, 28);
    assert [] + [3 + 0x8000 + 0x1_0000 * 3] == [3 + 0x8000 + 0x1_0000 * 3];
    GroupPuts(false, gaps, 0, Encoder(h, 33), Choice(3, 28, 1), w1, w);
  }

  lemma WideChoice(h: Writer)
    requires TotalBits(h.pending) == 16
    ensures Select(false, Encoder(h, 33), [17], 0) == Choice(3, 28, 1)
  {
    var bits := [17];
    TooWide(14, 4, bits, 0);
    TooWide(14, 10, bits, 0);
    TooWide(32, 4, bits, 0);
    TooWide(32, 10, bits, 0);
    TooWide(32, 16, bits, 0);
    AllFit(32, 28, bits, 0, 1);
    hide ElemsCoded, TotalBits;
    var row := Row(4, 10, 16, 28);
    assert FirstFit(row, 32, bits, 0, 3) == Choice(3, 28, 1);
    assert FirstFit(row, 32, bits, 0, 0) == Choice(3, 28, 1);
    assert FirstFit(row, 14, bits, 0, 0) == FirstFit(row, 14, bits, 0, 2) == Choice(3, 28, 1);
  }

  /** Two gaps of sixteen bits fill a word to the last bit; the selector of the next group then opens a word,
      and the group's width comes from the table for that case. */
  lemma FullWordFile()
    ensures Encode([40000, 80000, 80003, 80006]) ==
      Done([1 + 2 * 4 + 0x1_0000 * 3, 39999 + 0x1_0000 * 39999, 0 + 4 * 2 + 512 * 2])
  {
    var ids, gaps := [40000, 80000, 80003, 80006], [40000, 40000, 3, 3];
    hide Pack, TotalBits, PutHeader, EncodeGroup, EncodeGroups, Gaps, BitsOf, MaxOf, Encode, ValidIds, QCeilLog2,
      Put, PutGaps, Select, TransRow, ZeroRun, Quotient, ElemsCoded, Pow2;
    FullWordGaps();
    HeaderHolds(4, true);
    var h := PutHeader(EmptyWriter, 4, true).value;
    var w1 := FillingGroup(h);
    var w2 := NextGroup(w1);
    GroupStep(true, gaps, 2, Encoder(w1, 16), 2, Encoder(w2, 7));
    GroupStep(true, gaps, 0, Encoder(h, 33), 2, Encoder(w1, 16));
    OneBlockFile(ids, gaps, true, h, Encoder(w2, 7));
    ThreeWords(w2.file, Pack(w2.pending));
  }

  lemma ThreeWords(file: seq<nat>, word: nat)
    requires |file| == 2
    ensures file + [word] == [file[0], file[1], word]
  {
  }

  lemma FullWordGaps()
    ensures ValidIds([40000, 80000, 80003, 80006]) && Gaps([40000, 80000, 80003, 80006]) == [40000, 40000, 3, 3]
    ensures BitsOf([40000, 40000, 3, 3]) == [16, 16, 2, 2] && MaxOf([16, 16, 2, 2]) == 16
  {
    hide QCeilLog2, MaxOf, BitOr;
    FullWordWidths();
    FullWordMax();
    assert Gaps([40000, 80000, 80003, 80006]) == [40000, 40000, 3, 3];
    assert BitsOf([40000, 40000, 3, 3]) == [16, 16, 2, 2];
  }

  lemma FullWordWidths()
    ensures QCeilLog2(40000) == 16 && QCeilLog2(3) == 2
  {
    hide BitOr;
  }

  lemma FullWordMax()
    ensures MaxOf([16, 16, 2, 2]) == 16
  {
    MaxOfStep([], 16);
    MaxOfStep([16], 16);
    MaxOfStep([16, 16], 2);
    MaxOfStep([16, 16, 2], 2);
    assert [] + [16] == [16] && [16] + [16] == [16, 16] && [16, 16] + [2] == [16, 16, 2];
    assert [16, 16, 2] + [2] == [16, 16, 2, 2];
  }

  lemma FillingGroup(h: Writer) returns (w: Writer)
    requires Holds(h, [], 9, 16, 3)
    ensures EncodeGroup(true, [40000, 40000, 3, 3], 0, Encoder(h, 33)) == Done(Group(2, Encoder(w, 16)))
    ensures Holds(w, [9 + 0x1_0000 * 3], 39999 + 0x1_0000 * 39999, 32, 2)
  {
    var gaps := [40000, 40000, 3, 3];
    FullWordGaps();
    FillingChoice(h);
    hide Select, BitsOf, Pack, TotalBits, Put, PutGaps, Pow2, MaxOf;
    HighPowers();
    PutInWord(h, Field(3, 2), [], 9, 16, 3);
    var w1 := Put(h, Field(3, 2)).value;
    PutInNext(w1, Field(39999, 16), [], 9 + 0x1_0000 * 3, 18, 4);
    PutGapsStep(w1, gaps, 0, 2, 16);
    var w2 := Put(w1, Field(39999, 16)).value;
    assert [] + [9 + 0x1_0000 * 3] == [9 + 0x1_0000 * 3];
    PutInWord(w2, Field(39999, 16), [9 + 0x1_0000 * 3], 39999, 16, 1);
    PutGapsStep(w2, gaps, 1, 1, 16);
    w := Put(w2, Field(39999, 16)).value;
    PutGapsStep(w, gaps, 2, 0, 16);
    GroupPuts(true, gaps, 0, Encoder(h, 33), Choice(3, 16, 2), w1, w);
  }

  lemma FillingChoice(h: Writer)
    requires TotalBits(h.pending) == 16
    ensures Select(true, Encoder(h, 33), [16, 16, 2, 2], 0) == Choice(3, 16, 2)
  {
    var bits := [16, 16, 2, 2];
    TooWide(14, 3, bits, 0);
    TooWide(14, 7, bits, 0);
    TooWide(14, 10, bits, 0);
    TooWide(32, 3, bits, 0);
    TooWide(32, 7, bits, 0);
    TooWide(32, 10, bits, 0);
    AllFit(32, 16, bits, 0, 2);
    hide ElemsCoded, TotalBits;
    var row := Row(3, 7, 10, 16);
    assert FirstFit(row, 32, bits, 0, 3) == Choice(3, 16, 2);
    assert FirstFit(row, 32, bits, 0, 2) == Choice(3, 16, 2);
    assert FirstFit(row, 32, bits, 0, 0) == Choice(3, 16, 2);
    assert FirstFit(row, 14, bits, 0, 3) == Choice(3, 16, 2);
    assert FirstFit(row, 14, bits, 0, 2) == Choice(3, 16, 2);
    assert FirstFit(row, 14, bits, 0, 0) == Choice(3, 16, 2);
  }

  lemma NextGroup(v: Writer) returns (w: Writer)
    requires Holds(v, [9 + 0x1_0000 * 3], 39999 + 0x1_0000 * 39999, 32, 2)
    ensures EncodeGroup(true, [40000, 40000, 3, 3], 2, Encoder(v, 16)) == Done(Group(2, Encoder(w, 7)))
    ensures Holds(w, [9 + 0x1_0000 * 3, 39999 + 0x1_0000 * 39999], 4 * 2 + 512 * 2, 16, 3)
  {
    var gaps := [40000, 40000, 3, 3];
    var file := [9 + 0x1_0000 * 3, 39999 + 0x1_0000 * 39999];
    FullWordGaps();
    AllFit(30, 7, [16, 16, 2, 2], 2, 2);
    assert Select(true, Encoder(v, 16), [16, 16, 2, 2], 2) == Choice(0, 7, 2) by { hide ElemsCoded; }
    hide Select, BitsOf, Pack, TotalBits, Put, PutGaps, Pow2, MaxOf;
    HighPowers();
    PutInNext(v, Field(0, 2), [9 + 0x1_0000 * 3], 39999 + 0x1_0000 * 39999, 32, 2);
    assert [9 + 0x1_0000 * 3] + [39999 + 0x1_0000 * 39999] == file;
    var w1 := Put(v, Field(0, 2)).value;
    PutInWord(w1, Field(2, 7), file, 0, 2, 1);
    PutGapsStep(w1, gaps, 2, 2, 7);
    var w2 := Put(w1, Field(2, 7)).value;
    PutInWord(w2, Field(2, 7), file, 4 * 2, 9, 2);
    PutGapsStep(w2, gaps, 3, 1, 7);
    w := Put(w2, Field(2, 7)).value;
    PutGapsStep(w, gaps, 4, 0, 7);
    GroupPuts(true, gaps, 2, Encoder(v, 16), Choice(0, 7, 2), w1, w);
  }
}
