/** The decoder walks the finished file in step with the encoder, and so gives the list back. */
module CarryLockstep {
  import opened Bits
  import opened CarryWords
  import opened CarryCode

  // ---------- widths ----------

  /** v is the least width whose 2^v values reach x. */
  ghost predicate IsCeilLog(x: nat, v: nat) {
    x <= Pow2(v) && (v > 0 ==> Pow2(v - 1) < x)
  }

  lemma TabIsBitLength(i: nat)
    requires i < 256
    ensures i < Pow2(Clog2Tab(i)) && (i > 0 ==> Clog2Tab(i) > 0 && Pow2(Clog2Tab(i) - 1) <= i)
  {
    assert Pow2(0) == 1 && Pow2(1) == 2 && Pow2(2) == 4 && Pow2(3) == 8 && Pow2(4) == 16;
    assert Pow2(5) == 32 && Pow2(6) == 64 && Pow2(7) == 128 && Pow2(8) == 256;
  }

  lemma HighPart(b: nat, shift: nat, v: nat, q: nat, r: nat)
    requires b == q * Pow2(shift) + r && r < Pow2(shift)
    requires v > 0 && Pow2(v - 1) <= q < Pow2(v)
    ensures Pow2(shift + v - 1) <= b < Pow2(shift + v)
  {
    Pow2Add(v - 1, shift);
    Pow2Add(v, shift);
    MulMonotonic(Pow2(shift), Pow2(v - 1), q);
    MulMonotonic(Pow2(shift), q + 1, Pow2(v));
    assert Pow2(shift) * (q + 1) == q * Pow2(shift) + Pow2(shift);
  }

  lemma HighBits(b: nat, shift: nat, q: nat, r: nat)
    requires b == q * Pow2(shift) + r && r < Pow2(shift) && 0 < q < 256
    ensures Clog2Tab(q) > 0 && Pow2(shift + Clog2Tab(q) - 1) <= b < Pow2(shift + Clog2Tab(q))
  {
    TabIsBitLength(q);
    hide Clog2Tab, Pow2;
    HighPart(b, shift, Clog2Tab(q), q, r);
  }

  /** The table-driven QCEILLOG_2 is the rounded-up base-2 logarithm. */
  lemma QCeilLog2IsCeilLog(x: nat)
    requires 1 <= x <= WORD
    ensures IsCeilLog(x, QCeilLog2(x))
  {
    var b := x - 1;
    Pow2Values();
    Pow2Add(8, 16);
    hide BitOr;
    if b >= 0x100_0000 {
      hide Clog2Tab, Pow2;
      HighBits(b, 24, b / 0x100_0000, b % 0x100_0000);
    } else if b >= 0x1_0000 {
      hide Clog2Tab, Pow2;
      HighBits(b, 16, b / 0x1_0000, b % 0x1_0000);
      TabBelow(b / 0x1_0000);
      OrSixteen(Clog2Tab(b / 0x1_0000));
    } else if b >= 0x100 {
      hide Clog2Tab, Pow2;
      HighBits(b, 8, b / 0x100, b % 0x100);
    } else {
      hide Clog2Tab;
      TabIsBitLength(b);
    }
  }

  lemma OrSixteen(t: nat)
    requires t < 16
    ensures BitOr(16, t) == 16 + t
  {
    assert Pow2(4) == 16;
    OrShifted(1, t, 4);
  }

  lemma TabBelow(i: nat)
    requires i < 256
    ensures Clog2Tab(i) <= 8
  {
  }

  lemma GapFits(gap: nat, size: nat)
    requires 1 <= gap <= WORD && QCeilLog2(gap) <= size
    ensures gap - 1 < Pow2(size)
  {
    QCeilLog2IsCeilLog(gap);
    Pow2Monotonic(QCeilLog2(gap), size);
  }

  // ---------- the column search ----------

  /** A width that fails to code a group in few bits also fails in more bits. */
  lemma FailureIsMonotonic(few: nat, many: nat, len: nat, bits: seq<nat>, i: nat)
    requires i < |bits| && len <= few <= many
    requires ElemsCoded(few, len, bits, i) == 0
    ensures ElemsCoded(many, len, bits, i) == 0
  {
    if len > 0 {
      QuotientMonotonic(few, many, len);
    }
  }

  lemma {:induction false} QuotientMonotonic(a: nat, b: nat, d: nat)
    requires 0 < d && a <= b
    ensures Quotient(a, d) <= Quotient(b, d)
  {
    if a < d {
    } else {
      QuotientMonotonic(a - d, b - d, d);
    }
  }

  lemma {:induction false} QuotientBounds(a: nat, d: nat)
    requires d > 0
    ensures Quotient(a, d) * d <= a < Quotient(a, d) * d + d
  {
    if a < d {
    } else {
      QuotientBounds(a - d, d);
      assert Quotient(a, d) * d == Quotient(a - d, d) * d + d;
    }
  }

  /** With a whole word there is no restart: the first column that codes something is taken. */
  lemma FirstFitFull(row: Row, bits: seq<nat>, i: nat, j: nat)
    requires i < |bits| && j <= 4 && row.c0 <= row.c1 <= row.c2 <= row.c3 <= 28
    ensures var c := FirstFit(row, 32, bits, i, j);
      c.elems > 0 ==>
        j <= c.column < 4 && c.size == Column(row, c.column) && c.elems == ElemsCoded(32, c.size, bits, i)
    ensures j < 4 && ElemsCoded(32, row.c3, bits, i) > 0 ==> FirstFit(row, 32, bits, i, j).elems > 0
    decreases 4 - j
  {
    if j < 4 {
      FirstFitFull(row, bits, i, j + 1);
    }
  }

  /** The restart with a fresh word can only pick a width that did not fit before. */
  lemma {:induction false} FirstFitRestart(row: Row, avail: nat, bits: seq<nat>, i: nat, j: nat)
    requires i < |bits| && j <= 4 && row.c0 <= row.c1 <= row.c2 <= row.c3 <= 28 && avail < 32
    requires forall m | 0 <= m < j ::
      Column(row, m) <= avail && ElemsCoded(avail, Column(row, m), bits, i) == 0
    ensures var c := FirstFit(row, avail, bits, i, j);
      c.elems > 0 ==>
        && c.column < 4 && c.size == Column(row, c.column)
        && c.elems == ElemsCoded(if c.size <= avail then avail else 32, c.size, bits, i)
    decreases 4 - j
  {
    if j < 4 {
      if Column(row, j) > avail {
        FirstFitFull(row, bits, i, 0);
        var c := FirstFit(row, 32, bits, i, 0);
        if c.elems > 0 && c.column < j {
          FailureIsMonotonic(avail, 32, Column(row, c.column), bits, i);
        }
      } else if ElemsCoded(avail, Column(row, j), bits, i) == 0 {
        FirstFitRestart(row, avail, bits, i, j + 1);
      }
    }
  }

  /** With a whole word the first column that codes something is taken, and none is passed over. */
  lemma {:induction false} FirstFitFullLeast(row: Row, bits: seq<nat>, i: nat, j: nat)
    requires i < |bits| && j <= 4 && row.c0 <= row.c1 <= row.c2 <= row.c3 <= 28
    ensures var c := FirstFit(row, 32, bits, i, j);
      && (c.elems > 0 ==> c.column < 4)
      && forall m | j <= m < (if c.elems > 0 then c.column else 4) :: ElemsCoded(32, Column(row, m), bits, i) == 0
    decreases 4 - j
  {
    if j < 4 && ElemsCoded(32, Column(row, j), bits, i) == 0 {
      FirstFitFullLeast(row, bits, i, j + 1);
    }
  }

  /** The search takes the least column that codes a gap in the bits its width would have: those left in
      the word, or a fresh word's when it is too wide for them. It fails only when every column does. */
  lemma {:induction false} FirstFitLeast(row: Row, avail: nat, bits: seq<nat>, i: nat, j: nat)
    requires i < |bits| && j <= 4 && row.c0 <= row.c1 <= row.c2 <= row.c3 <= 28 && avail < 32
    requires forall m | 0 <= m < j ::
      Column(row, m) <= avail && ElemsCoded(avail, Column(row, m), bits, i) == 0
    ensures var c := FirstFit(row, avail, bits, i, j);
      forall m | 0 <= m < (if c.elems > 0 && c.column < 4 then c.column else 4) ::
        ElemsCoded(if Column(row, m) <= avail then avail else 32, Column(row, m), bits, i) == 0
    decreases 4 - j
  {
    if j < 4 {
      if Column(row, j) > avail {
        FirstFitFullLeast(row, bits, i, 0);
      } else if ElemsCoded(avail, Column(row, j), bits, i) == 0 {
        FirstFitLeast(row, avail, bits, i, j + 1);
      }
    }
  }

  /** The bits the chosen group may use: what is left after the selector, or a fresh word. */
  function GroupBits(w: Writer, size: nat): nat {
    if size <= DataBits(w) then DataBits(w) else 32
  }

  /** A coded group holds only gaps of its width, and fills its bits unless the block ends. */
  lemma CodedGroupFills(avail: nat, size: nat, bits: seq<nat>, i: nat)
    requires i < |bits| && size <= avail && ElemsCoded(avail, size, bits, i) > 0
    ensures var k := ElemsCoded(avail, size, bits, i);
      && k * size <= avail
      && (forall m | i <= m < i + k :: bits[m] <= size)
      && (i + k < |bits| && size > 0 ==> avail - k * size < size)
  {
    if size > 0 {
      QuotientBounds(avail, size);
      MulMonotonic(size, ElemsCoded(avail, size, bits, i), Quotient(avail, size));
    }
  }

  ghost predicate Chosen(c: Choice, row: Row, most: nat, bits: seq<nat>, i: nat) {
    && 0 < c.elems && c.column < 4 && c.size == Column(row, c.column) && c.size <= 28
    && i + c.elems <= |bits| && c.elems * c.size <= most
    && (forall m | i <= m < i + c.elems :: bits[m] <= c.size)
    && (i + c.elems < |bits| && c.size > 0 ==> most - c.elems * c.size < c.size)
  }

  ghost function RowOf(small: bool, e: Encoder): Row {
    TransRow(small, Remaining(e.w) < 2, e.width)
  }

  /** What the decoder relies on: the group fits, and it fills its bits unless it ends the block. */
  lemma SelectFillsGroup(small: bool, e: Encoder, bits: seq<nat>, i: nat)
    requires i < |bits| && WriterOk(e.w)
    requires Select(small, e, bits, i).elems > 0
    ensures var c := Select(small, e, bits, i); Chosen(c, RowOf(small, e), GroupBits(e.w, c.size), bits, i)
  {
    SearchFillsGroup(RowOf(small, e), DataBits(e.w), bits, i);
  }

  /** Which column a group takes: the least one of the previous width's row that codes a gap, in the bits
      left after the selector or, if its width exceeds them, in a fresh word's 32. */
  lemma SelectTakesLeast(small: bool, e: Encoder, bits: seq<nat>, i: nat)
    requires i < |bits| && WriterOk(e.w)
    ensures var left := 32 - TotalBits(e.w.pending);
      var avail := if left < 2 then 30 else left - 2;
      var row := TransRow(small, left < 2, e.width);
      var c := Select(small, e, bits, i);
      && (c.elems > 0 ==>
            && c.column < 4 && c.size == Column(row, c.column)
            && c.elems == ElemsCoded(if c.size <= avail then avail else 32, c.size, bits, i))
      && forall m | 0 <= m < (if c.elems > 0 then c.column else 4) ::
           ElemsCoded(if Column(row, m) <= avail then avail else 32, Column(row, m), bits, i) == 0
  {
    FirstFitRestart(RowOf(small, e), DataBits(e.w), bits, i, 0);
    FirstFitLeast(RowOf(small, e), DataBits(e.w), bits, i, 0);
  }

  lemma SearchFillsGroup(row: Row, avail: nat, bits: seq<nat>, i: nat)
    requires i < |bits| && row.c0 <= row.c1 <= row.c2 <= row.c3 <= 28 && avail < 32
    requires FirstFit(row, avail, bits, i, 0).elems > 0
    ensures var c := FirstFit(row, avail, bits, i, 0);
      Chosen(c, row, if c.size <= avail then avail else 32, bits, i)
  {
    FirstFitRestart(row, avail, bits, i, 0);
    var c := FirstFit(row, avail, bits, i, 0);
    CodedGroupFills(if c.size <= avail then avail else 32, c.size, bits, i);
  }

  // ---------- lockstep ----------

  /** CARRY_DECODE_GET_SELECTOR finds the selector the encoder put and fetches a word exactly
      when the encoder will open one for the group's first gap. */
  lemma SelectorLockstep(small: bool, e: Encoder, column: nat, file: seq<nat>)
    requires WriterOk(e.w) && e.w.pending != [] && column < 4
    requires Put(e.w, Field(column, 2)).Done? && ExtendedBy(Put(e.w, Field(column, 2)).value, file)
    ensures ExtendedBy(e.w, file)
    ensures var size := Column(TransRow(small, Remaining(e.w) < 2, e.width), column);
      Selector(small, Decoder(At(e.w, file), e.width))
      == var r :- Need(At(Put(e.w, Field(column, 2)).value, file), size); Done(Decoder(r, size))
  {
    assert Pow2(2) == 4;
    ReadsBack(e.w, Field(column, 2), file);
    PutOk(e.w, Field(column, 2));
  }

  lemma {:induction false} PutGapsExtends(w: Writer, gaps: seq<nat>, i: nat, k: nat, size: nat, file: seq<nat>)
    requires WriterOk(w) && ValidGaps(gaps) && i + k <= |gaps| && size <= 28
    requires forall m | i <= m < i + k :: gaps[m] - 1 < Pow2(size)
    requires PutGaps(w, gaps, i, k, size).Done? && ExtendedBy(PutGaps(w, gaps, i, k, size).value, file)
    ensures ExtendedBy(w, file)
    ensures WriterOk(PutGaps(w, gaps, i, k, size).value)
    ensures w.pending != [] ==> PutGaps(w, gaps, i, k, size).value.pending != []
    decreases k
  {
    if k == 0 {
    } else {
      var f := Field(gaps[i] - 1, size);
      PutOk(w, f);
      PutGapsExtends(Put(w, f).value, gaps, i + 1, k - 1, size, file);
      ReadsBack(w, f, file);
    }
  }

  /** Decoding k gaps of one group; r is the reader once it has the word of the first gap. */
  lemma {:induction false} GapsLockstep(
      small: bool, w: Writer, gaps: seq<nat>, i: nat, k: nat, size: nat,
      file: seq<nat>, r: Reader, more: nat, acc: seq<nat>)
    requires WriterOk(w) && w.pending != [] && ValidGaps(gaps) && i + k <= |gaps| && 1 <= k && size <= 28
    requires forall m | i <= m < i + k :: gaps[m] - 1 < Pow2(size)
    requires PutGaps(w, gaps, i, k, size).Done? && ExtendedBy(PutGaps(w, gaps, i, k, size).value, file)
    requires ExtendedBy(w, file) && Need(At(w, file), size) == Done(r) && k * size <= r.remaining
    ensures var w' := PutGaps(w, gaps, i, k, size).value;
      && Remaining(w') == r.remaining - k * size
      && DecodeElems(small, Decoder(r, size), k + more, acc)
         == DecodeElems(small, Decoder(At(w', file), size), more, acc + gaps[i..i + k])
    decreases k
  {
    hide At, Take, Put, ExtendedBy, WriterOk;
    var f := Field(gaps[i] - 1, size);
    var w1 := Put(w, f).value;
    PutOk(w, f);
    PutGapsExtends(w1, gaps, i + 1, k - 1, size, file);
    GapLockstep(small, w, gaps[i], size, file, r);
    TimesStep(k, size);
    if k == 1 {
      assert gaps[i..i + 1] == [gaps[i]];
    } else {
      TimesStep(k - 1, size);
      GapsLockstep(small, w1, gaps, i + 1, k - 1, size, file, At(w1, file), more, acc + [gaps[i]]);
      assert acc + [gaps[i]] + gaps[i + 1..i + k] == acc + gaps[i..i + k];
    }
  }

  lemma TimesStep(k: nat, size: nat)
    requires k >= 1
    ensures k * size == (k - 1) * size + size && (k - 1) * size >= 0
  {
  }

  lemma GapLockstep(small: bool, w: Writer, gap: nat, size: nat, file: seq<nat>, r: Reader)
    requires WriterOk(w) && w.pending != [] && 1 <= gap && gap - 1 < Pow2(size) && size <= 28
    requires Put(w, Field(gap - 1, size)).Done? && ExtendedBy(Put(w, Field(gap - 1, size)).value, file)
    requires ExtendedBy(w, file) && Need(At(w, file), size) == Done(r) && size <= r.remaining
    ensures var w1 := Put(w, Field(gap - 1, size)).value;
      && WriterOk(w1) && w1.pending != []
      && DecodeElem(small, Decoder(r, size)) == Done((gap, Decoder(At(w1, file), size)))
      && Remaining(w1) == At(w1, file).remaining == r.remaining - size
  {
    PutOk(w, Field(gap - 1, size));
    ReadsBack(w, Field(gap - 1, size), file);
  }

  /** After a zero-width group that leaves gaps over, the encoder is stuck. */
  lemma ZeroWidthEndsBlock(small: bool, e: Encoder, gaps: seq<nat>, i: nat)
    requires WriterOk(e.w) && ValidGaps(gaps) && i < |gaps| && EncodeGroup(small, gaps, i, e).Done?
    requires var g := EncodeGroup(small, gaps, i, e).value; g.e.width == 0 && i + g.k < |gaps|
    ensures var g := EncodeGroup(small, gaps, i, e).value;
      EncodeGroup(small, gaps, i + g.k, g.e) == Failed(NoColumnFits)
  {
    hide FirstFit, ElemsCoded, TransRow, Put;
    var bits := BitsOf(gaps);
    var c := Select(small, e, bits, i);
    SelectFillsGroup(small, e, bits, i);
    assert Pow2(2) == 4;
    PutOk(e.w, Field(c.column, 2));
    var w1 := Put(e.w, Field(c.column, 2)).value;
    ZeroFieldsCount(w1, gaps, i, c.elems);
    var g := EncodeGroup(small, gaps, i, e).value;
    assert c.elems < 32 && g.e.width == 0;
    ZeroWidthRunEnds(small, e, bits, i, c, DataBits(g.e.w));
    ZeroWidthStuck(small, g.e, gaps, i + c.elems);
  }

  lemma ZeroWidthStuck(small: bool, e: Encoder, gaps: seq<nat>, i: nat)
    requires ValidGaps(gaps) && i < |gaps| && e.width == 0
    requires ElemsCoded(DataBits(e.w), 0, BitsOf(gaps), i) == 0
    ensures EncodeGroup(small, gaps, i, e) == Failed(NoColumnFits)
  {
    assert TransRow(small, Remaining(e.w) < 2, e.width) == ZERO_ROW;
    hide TransRow, ElemsCoded;
    ZeroRowStuck(DataBits(e.w), BitsOf(gaps), i, 0);
  }

  lemma ZeroWidthRunEnds(small: bool, e: Encoder, bits: seq<nat>, i: nat, c: Choice, avail: nat)
    requires i < |bits| && WriterOk(e.w) && c == Select(small, e, bits, i)
    requires c.size == 0 && 0 < c.elems < 32 && i + c.elems < |bits|
    ensures ElemsCoded(avail, 0, bits, i + c.elems) == 0
  {
    hide TransRow;
    FirstFitRestart(RowOf(small, e), DataBits(e.w), bits, i, 0);
    assert c.elems == ZeroRun(bits, i, MAX_ELEM_PER_WORD);
    assert ZeroRun(bits, i + c.elems, MAX_ELEM_PER_WORD) == 0;
  }

  lemma {:induction false} ZeroFieldsCount(w: Writer, gaps: seq<nat>, i: nat, k: nat)
    requires ValidGaps(gaps) && i + k <= |gaps| && TotalBits(w.pending) <= 32
    requires PutGaps(w, gaps, i, k, 0).Done?
    ensures |w.pending| <= 32 ==> |w.pending| + k <= 32
    ensures PutGaps(w, gaps, i, k, 0).value.file == w.file
    ensures TotalBits(PutGaps(w, gaps, i, k, 0).value.pending) == TotalBits(w.pending)
    ensures |PutGaps(w, gaps, i, k, 0).value.pending| == |w.pending| + k
    decreases k
  {
    if k == 0 {
    } else {
      var w1 := Put(w, Field(gaps[i] - 1, 0)).value;
      assert w1.pending[..|w1.pending| - 1] == w.pending;
      ZeroFieldsCount(w1, gaps, i + 1, k - 1);
    }
  }

  lemma ZeroRowStuck(avail: nat, bits: seq<nat>, i: nat, j: nat)
    requires i < |bits| && j <= 4 && ElemsCoded(avail, 0, bits, i) == 0
    ensures FirstFit(ZERO_ROW, avail, bits, i, j).elems == 0
    decreases 4 - j
  {
    if j < 4 {
      ZeroRowStuck(avail, bits, i, j + 1);
    }
  }

  /** One group: the decoder's next k gaps are the group's, and it ends at the encoder's bit. */
  lemma GroupLockstep(small: bool, gaps: seq<nat>, i: nat, e: Encoder, file: seq<nat>, more: nat, acc: seq<nat>)
    requires ValidGaps(gaps) && i < |gaps| && WriterOk(e.w) && e.w.pending != []
    requires EncodeGroup(small, gaps, i, e).Done?
    requires ExtendedBy(EncodeGroup(small, gaps, i, e).value.e.w, file)
    ensures var g := EncodeGroup(small, gaps, i, e).value;
      && ExtendedBy(e.w, file)
      && var d := Selector(small, Decoder(At(e.w, file), e.width));
      && d.Done?
      && DecodeElems(small, d.value, g.k + more, acc)
         == DecodeElems(small, Decoder(At(g.e.w, file), g.e.width), more, acc + gaps[i..i + g.k])
      && (i + g.k < |gaps| && g.e.width > 0 ==> Remaining(g.e.w) < g.e.width)
  {
    hide TransRow, Select, At, Put, ExtendedBy, WriterOk, BitsOf, Selector, Need, DecodeElems, PutGaps;
    var bits := BitsOf(gaps);
    var c := Select(small, e, bits, i);
    SelectFillsGroup(small, e, bits, i);
    var k, size, sel := c.elems, c.size, Field(c.column, 2);
    assert Pow2(2) == 4;
    PutOk(e.w, sel);
    var w1 := Put(e.w, sel).value;
    forall m | i <= m < i + k ensures gaps[m] - 1 < Pow2(size) { GapFits(gaps[m], size); }
    FirstGapWord(w1, gaps, i, k, size, file);
    SelectorLockstep(small, e, c.column, file);
    var r := Need(At(w1, file), size).value;
    SelectorBits(e.w, sel, size, file);
    GapsLockstep(small, w1, gaps, i, k, size, file, r, more, acc);
  }

  lemma GroupOk(small: bool, gaps: seq<nat>, i: nat, e: Encoder)
    requires ValidGaps(gaps) && i < |gaps| && WriterOk(e.w) && EncodeGroup(small, gaps, i, e).Done?
    ensures var g := EncodeGroup(small, gaps, i, e).value; WriterOk(g.e.w) && g.e.w.pending != []
  {
    hide TransRow, Select, Put, WriterOk, BitsOf;
    var c := Select(small, e, BitsOf(gaps), i);
    SelectFillsGroup(small, e, BitsOf(gaps), i);
    assert Pow2(2) == 4;
    PutOk(e.w, Field(c.column, 2));
    forall m | i <= m < i + c.elems ensures gaps[m] - 1 < Pow2(c.size) { GapFits(gaps[m], c.size); }
    PutGapsOk(Put(e.w, Field(c.column, 2)).value, gaps, i, c.elems, c.size);
  }

  lemma {:induction false} GroupsLockstep(
      small: bool, gaps: seq<nat>, i: nat, e: Encoder, file: seq<nat>, acc: seq<nat>)
    requires ValidGaps(gaps) && i < |gaps| && WriterOk(e.w) && e.w.pending != []
    requires EncodeGroups(small, gaps, i, e).Done?
    requires ExtendedBy(EncodeGroups(small, gaps, i, e).value.w, file)
    ensures var e' := EncodeGroups(small, gaps, i, e).value;
      && ExtendedBy(e.w, file)
      && var d := Selector(small, Decoder(At(e.w, file), e.width));
      && d.Done?
      && DecodeElems(small, d.value, |gaps| - i, acc)
         == Done((acc + gaps[i..], Decoder(At(e'.w, file), e'.width)))
    decreases |gaps| - i
  {
    hide EncodeGroup, Selector, ExtendedBy, WriterOk, ValidGaps;
    var g := EncodeGroup(small, gaps, i, e).value;
    GroupOk(small, gaps, i, e);
    var rest := |gaps| - i - g.k;
    var acc' := acc + gaps[i..i + g.k];
    assert acc' + gaps[i + g.k..] == acc + gaps[i..];
    if rest > 0 {
      GroupsLockstep(small, gaps, i + g.k, g.e, file, acc');
      if g.e.width == 0 {
        ZeroWidthEndsBlock(small, e, gaps, i);
      }
      GroupLockstep(small, gaps, i, e, file, rest, acc);
      AtRemaining(g.e.w, file);
      SelectorThenElems(small, Decoder(At(g.e.w, file), g.e.width), rest, acc');
    } else {
      assert EncodeGroups(small, gaps, i + g.k, g.e) == Done(g.e);
      GroupLockstep(small, gaps, i, e, file, 0, acc);
      assert g.k + 0 == |gaps| - i && gaps[i..i + g.k] == gaps[i..];
      var d := Decoder(At(g.e.w, file), g.e.width);
      assert DecodeElems(small, d, 0, acc') == Done((acc', d));
    }
  }

  lemma AtRemaining(w: Writer, file: seq<nat>)
    requires WriterOk(w) && w.pending != [] && ExtendedBy(w, file)
    ensures At(w, file).remaining == Remaining(w) >= 0
  {
  }

  lemma {:induction false} PutGapsOk(w: Writer, gaps: seq<nat>, i: nat, k: nat, size: nat)
    requires WriterOk(w) && ValidGaps(gaps) && i + k <= |gaps| && size <= 28 && w.pending != []
    requires forall m | i <= m < i + k :: gaps[m] - 1 < Pow2(size)
    requires PutGaps(w, gaps, i, k, size).Done?
    ensures WriterOk(PutGaps(w, gaps, i, k, size).value)
    ensures PutGaps(w, gaps, i, k, size).value.pending != []
    decreases k
  {
    if k == 0 {
    } else {
      var f := Field(gaps[i] - 1, size);
      PutOk(w, f);
      PutGapsOk(Put(w, f).value, gaps, i + 1, k - 1, size);
    }
  }

  /** The word of the group's first gap is in the file. */
  lemma FirstGapWord(w: Writer, gaps: seq<nat>, i: nat, k: nat, size: nat, file: seq<nat>)
    requires WriterOk(w) && w.pending != [] && ValidGaps(gaps) && i + k <= |gaps| && 1 <= k && size <= 28
    requires forall m | i <= m < i + k :: gaps[m] - 1 < Pow2(size)
    requires PutGaps(w, gaps, i, k, size).Done? && ExtendedBy(PutGaps(w, gaps, i, k, size).value, file)
    ensures ExtendedBy(w, file) && Need(At(w, file), size).Done?
  {
    var f := Field(gaps[i] - 1, size);
    PutOk(w, f);
    PutGapsExtends(Put(w, f).value, gaps, i + 1, k - 1, size, file);
    ReadsBack(w, f, file);
  }

  lemma SelectorBits(w: Writer, sel: Field, size: nat, file: seq<nat>)
    requires WriterOk(w) && w.pending != [] && sel.bits == 2 && sel.value < Pow2(2) && size <= 28
    requires Put(w, sel).Done? && ExtendedBy(Put(w, sel).value, file)
    requires Need(At(Put(w, sel).value, file), size).Done?
    ensures Need(At(Put(w, sel).value, file), size).value.remaining == GroupBits(w, size)
  {
    PutOk(w, sel);
    var w1 := Put(w, sel).value;
    assert w1.pending[..|w1.pending| - 1] == if Remaining(w) < 2 then [] else w.pending;
    assert Remaining(w1) == DataBits(w);
  }

  lemma SelectorThenElems(small: bool, d: Decoder, n: nat, acc: seq<nat>)
    requires n > 0 && 0 <= d.r.remaining < d.width && Selector(small, d).Done?
    ensures DecodeElems(small, d, n, acc) == DecodeElems(small, Selector(small, d).value, n, acc)
  {
    SelectorThenElem(small, d);
    hide DecodeElem;
  }

  lemma SelectorThenElem(small: bool, d: Decoder)
    requires 0 <= d.r.remaining < d.width && Selector(small, d).Done?
    ensures DecodeElem(small, d) == DecodeElem(small, Selector(small, d).value)
  {
    SelectorConsumes(small, d);
    hide Selector, Take;
  }

  lemma HeaderLockstep(w: Writer, n: nat, small: bool, file: seq<nat>)
    requires WriterOk(w) && 1 <= n <= ELEMS_PER_BLOCK
    requires PutHeader(w, n, small).Done? && ExtendedBy(PutHeader(w, n, small).value, file)
    ensures var w' := PutHeader(w, n, small).value;
      && WriterOk(w') && w'.pending != [] && ExtendedBy(w, file)
      && ReadHeader(At(w, file)) == Done((n, small, At(w', file)))
  {
    Pow2Values();
    assert Pow2(1) == 2;
    var f1 := Field(if n == ELEMS_PER_BLOCK then 0 else 1, 1);
    var f2 := Field(n, BITS_FOR_ELEMS_PER_BLOCK);
    var f3 := Field(if small then 0 else 1, 1);
    PutOk(w, f1);
    var w1 := Put(w, f1).value;
    if n < ELEMS_PER_BLOCK {
      PutOk(w1, f2);
    }
    var w2 := if n == ELEMS_PER_BLOCK then w1 else Put(w1, f2).value;
    PutOk(w2, f3);
    ReadsBack(w2, f3, file);
    if n < ELEMS_PER_BLOCK {
      ReadsBack(w1, f2, file);
    }
    ReadsBack(w, f1, file);
  }

  /** One block: the decoder yields its gaps and stops at the encoder's bit, with its width. */
  lemma BlockLockstep(gaps: seq<nat>, e: Encoder, file: seq<nat>)
    requires ValidGaps(gaps) && 1 <= |gaps| <= ELEMS_PER_BLOCK && WriterOk(e.w)
    requires EncodeBlock(gaps, e).Done? && ExtendedBy(EncodeBlock(gaps, e).value.w, file)
    ensures var e' := EncodeBlock(gaps, e).value;
      && WriterOk(e'.w) && e'.w.pending != [] && ExtendedBy(e.w, file)
      && DecodeBlock(Decoder(At(e.w, file), e.width)) == Done((gaps, Decoder(At(e'.w, file), e'.width)))
  {
    hide EncodeGroups, Selector, ExtendedBy, WriterOk, ValidGaps, ReadHeader, PutHeader, At,
      DecodeElems, MaxOf, BitsOf;
    var small := IsSmall(gaps);
    var w := PutHeader(e.w, |gaps|, small).value;
    HeaderOk(e.w, |gaps|, small);
    EncodeGroupsOk(small, gaps, 0, Encoder(w, e.width));
    GroupsLockstep(small, gaps, 0, Encoder(w, e.width), file, []);
    HeaderLockstep(e.w, |gaps|, small, file);
    assert [] + gaps[0..] == gaps;
  }

  lemma HeaderOk(w: Writer, n: nat, small: bool)
    requires WriterOk(w) && 1 <= n <= ELEMS_PER_BLOCK && PutHeader(w, n, small).Done?
    ensures WriterOk(PutHeader(w, n, small).value) && PutHeader(w, n, small).value.pending != []
  {
    Pow2Values();
    assert Pow2(1) == 2;
    var f1 := Field(if n == ELEMS_PER_BLOCK then 0 else 1, 1);
    PutOk(w, f1);
    var w1 := Put(w, f1).value;
    if n < ELEMS_PER_BLOCK {
      PutOk(w1, Field(n, BITS_FOR_ELEMS_PER_BLOCK));
      PutOk(Put(w1, Field(n, BITS_FOR_ELEMS_PER_BLOCK)).value, Field(if small then 0 else 1, 1));
    } else {
      PutOk(w1, Field(if small then 0 else 1, 1));
    }
  }

  lemma {:induction false} EncodeBlocksOk(gaps: seq<nat>, e: Encoder)
    requires ValidGaps(gaps) && WriterOk(e.w) && EncodeBlocks(gaps, e).Done?
    ensures WriterOk(EncodeBlocks(gaps, e).value.w)
    decreases |gaps|
  {
    if gaps == [] {
    } else {
      var n := BlockLength(gaps);
      EncodeBlockOk(gaps[..n], e);
      EncodeBlocksOk(gaps[n..], EncodeBlock(gaps[..n], e).value);
    }
  }

  lemma EncodeBlockOk(gaps: seq<nat>, e: Encoder)
    requires ValidGaps(gaps) && 1 <= |gaps| <= ELEMS_PER_BLOCK && WriterOk(e.w) && EncodeBlock(gaps, e).Done?
    ensures WriterOk(EncodeBlock(gaps, e).value.w)
    ensures EncodeBlock(gaps, e).value.w.pending != []
  {
    var w := PutHeader(e.w, |gaps|, IsSmall(gaps)).value;
    HeaderOk(e.w, |gaps|, IsSmall(gaps));
    EncodeGroupsOk(IsSmall(gaps), gaps, 0, Encoder(w, e.width));
  }

  lemma {:induction false} EncodeGroupsOk(small: bool, gaps: seq<nat>, i: nat, e: Encoder)
    requires ValidGaps(gaps) && i <= |gaps| && WriterOk(e.w) && e.w.pending != []
    requires EncodeGroups(small, gaps, i, e).Done?
    ensures WriterOk(EncodeGroups(small, gaps, i, e).value.w)
    ensures EncodeGroups(small, gaps, i, e).value.w.pending != []
    decreases |gaps| - i
  {
    hide EncodeGroup, WriterOk, ValidGaps;
    if i == |gaps| {
    } else {
      GroupOk(small, gaps, i, e);
      var g := EncodeGroup(small, gaps, i, e).value;
      EncodeGroupsOk(small, gaps, i + g.k, g.e);
    }
  }

  // ---------- whole lists ----------

  lemma {:induction false} SumsConcat(curr: nat, a: seq<nat>, b: seq<nat>)
    ensures RunningSums(curr, a + b)
         == RunningSums(curr, a) + RunningSums(LastSum(curr, a), b)
  {
    if b == [] {
      assert a + b == a;
    } else {
      var b0 := b[..|b| - 1];
      SumsConcat(curr, a, b0);
      assert (a + b)[..|a + b| - 1] == a + b0;
    }
  }

  function LastSum(curr: nat, gaps: seq<nat>): nat {
    var docs := RunningSums(curr, gaps);
    if docs == [] then curr else docs[|docs| - 1]
  }

  /** The running sums of the gaps are the ids. */
  lemma {:induction false} SumsOfGaps(ids: seq<nat>)
    requires ValidIds(ids)
    ensures RunningSums(0, Gaps(ids)) == ids
  {
    if ids == [] {
    } else {
      var n := |ids| - 1;
      var gaps := Gaps(ids);
      SumsOfGaps(ids[..n]);
      GapsPrefix(ids, n);
      LastGap(ids, gaps);
      hide Gaps;
    }
  }

  lemma GapsPrefix(ids: seq<nat>, n: nat)
    requires ValidIds(ids) && n <= |ids|
    ensures ValidIds(ids[..n]) && Gaps(ids)[..n] == Gaps(ids[..n])
  {
  }

  lemma LastGap(ids: seq<nat>, gaps: seq<nat>)
    requires ids != [] && ValidIds(ids) && gaps == Gaps(ids)
    requires RunningSums(0, gaps[..|ids| - 1]) == ids[..|ids| - 1]
    ensures RunningSums(0, gaps) == ids
  {
    var n := |ids| - 1;
    var prev := if n == 0 then 0 else ids[n - 1];
    assert gaps[n] == ids[n] - prev && ids[n] % WORD == ids[n];
    assert RunningSums(0, gaps) == ids[..n] + [(prev + gaps[n]) % WORD];
    assert ids == ids[..n] + [ids[n]];
  }

  /** Decoding from d yields the gaps' running sums; after full blocks it carries on from d'. */
  ghost predicate DecodesTo(d: Decoder, curr: nat, out: seq<nat>, gaps: seq<nat>, d': Decoder)
    requires d.r.remaining >= -1 && d'.r.remaining >= -1
  {
    var out' := out + RunningSums(curr, gaps);
    DecodeBlocks(d, curr, out)
    == if |gaps| % ELEMS_PER_BLOCK != 0 then Done(out') else DecodeBlocks(d', LastSum(curr, gaps), out')
  }

  lemma {:induction false} BlocksLockstep(gaps: seq<nat>, e: Encoder, file: seq<nat>, curr: nat, out: seq<nat>)
    requires ValidGaps(gaps) && WriterOk(e.w) && EncodeBlocks(gaps, e).Done?
    requires WriterOk(EncodeBlocks(gaps, e).value.w) && ExtendedBy(EncodeBlocks(gaps, e).value.w, file)
    ensures ExtendedBy(e.w, file)
    ensures var e' := EncodeBlocks(gaps, e).value;
      DecodesTo(Decoder(At(e.w, file), e.width), curr, out, gaps, Decoder(At(e'.w, file), e'.width))
    decreases |gaps|
  {
    hide EncodeBlock, DecodesTo, DecodeBlocks, DecodeBlock, ExtendedBy, WriterOk, At, RunningSums, LastSum;
    if gaps == [] {
      AtRemainingOrStart(e.w, file);
      NothingToDecode(Decoder(At(e.w, file), e.width), curr, out);
    } else {
      var n := BlockLength(gaps);
      var block, rest := gaps[..n], gaps[n..];
      EncodeBlockOk(block, e);
      var e1 := EncodeBlock(block, e).value;
      BlocksLockstep(rest, e1, file, LastSum(curr, block), out + RunningSums(curr, block));
      BlockLockstep(block, e, file);
      var e' := EncodeBlocks(rest, e1).value;
      AtRemainingOrStart(e.w, file);
      AtRemainingOrStart(e1.w, file);
      AtRemainingOrStart(e'.w, file);
      BlockThenRest(Decoder(At(e.w, file), e.width), Decoder(At(e1.w, file), e1.width),
                    Decoder(At(e'.w, file), e'.width), curr, out, block, rest);
      assert block + rest == gaps;
    }
  }

  lemma NothingToDecode(d: Decoder, curr: nat, out: seq<nat>)
    requires d.r.remaining >= -1
    ensures DecodesTo(d, curr, out, [], d)
  {
    hide DecodeBlocks;
    assert out + RunningSums(curr, []) == out;
  }

  lemma LengthModulo(n: nat, m: nat)
    requires 0 < n <= ELEMS_PER_BLOCK
    ensures n % ELEMS_PER_BLOCK == 0 <==> n == ELEMS_PER_BLOCK
    ensures (ELEMS_PER_BLOCK + m) % ELEMS_PER_BLOCK == m % ELEMS_PER_BLOCK
  {
  }

  lemma AtRemainingOrStart(w: Writer, file: seq<nat>)
    requires WriterOk(w) && ExtendedBy(w, file)
    ensures At(w, file).remaining >= -1
  {
  }

  lemma BlockThenRest(d: Decoder, d1: Decoder, d': Decoder, curr: nat, out: seq<nat>, block: seq<nat>, rest: seq<nat>)
    requires d.r.remaining >= -1 && d1.r.remaining >= -1 && d'.r.remaining >= -1
    requires DecodeBlock(d) == Done((block, d1)) && 0 < |block| <= ELEMS_PER_BLOCK
    requires |block| < ELEMS_PER_BLOCK ==> rest == []
    requires DecodesTo(d1, LastSum(curr, block), out + RunningSums(curr, block), rest, d')
    ensures DecodesTo(d, curr, out, block + rest, d')
  {
    hide DecodeBlocks, DecodeBlock, RunningSums;
    OneBlock(d, d1, curr, out, block);
    SumsConcat(curr, block, rest);
    var out1 := out + RunningSums(curr, block);
    assert out1 + RunningSums(LastSum(curr, block), rest) == out + RunningSums(curr, block + rest);
    LengthModulo(|block|, |rest|);
    assert rest == [] ==> block + rest == block;
  }

  lemma OneBlock(d: Decoder, d1: Decoder, curr: nat, out: seq<nat>, block: seq<nat>)
    requires d.r.remaining >= -1 && d1.r.remaining >= -1
    requires DecodeBlock(d) == Done((block, d1)) && block != []
    ensures var out' := out + RunningSums(curr, block);
      DecodeBlocks(d, curr, out)
      == if |block| < ELEMS_PER_BLOCK then Done(out') else DecodeBlocks(d1, LastSum(curr, block), out')
  {
    BlockConsumes(d);
    hide DecodeBlock;
  }

  /** Once only zero padding is left, every header reads as a full block until the words run out. */
  lemma {:induction false} PaddingNeverEnds(d: Decoder, curr: nat, out: seq<nat>)
    requires d.r.remaining >= -1 && d.r.unread == [] && d.r.word == 0
    ensures DecodeBlocks(d, curr, out) == Failed(EndOfInput)
    decreases Supply(d.r)
  {
    ZeroReads(d.r, 1);
    match DecodeBlock(d)
    case Failed(_) =>
      PaddingBlock(d);
    case Done((gaps, d')) =>
      BlockConsumes(d);
      PaddingBlock(d);
      var docs := RunningSums(curr, gaps);
      PaddingNeverEnds(d', docs[|docs| - 1], out + docs);
  }

  lemma ZeroReads(r: Reader, b: nat)
    requires r.word == 0 && r.unread == [] && b <= 28
    ensures Read(r, b).Done? ==>
      Read(r, b).value.0 == 0 && Read(r, b).value.1.word == 0 && Read(r, b).value.1.unread == []
    ensures Take(r, b).0 == 0 && Take(r, b).1.word == 0 && Take(r, b).1.unread == []
    ensures Read(r, b).Failed? ==> Read(r, b) == Failed(EndOfInput)
  {
    AndMask(0, b);
    ShrZero(b);
  }

  lemma PaddingBlock(d: Decoder)
    requires d.r.remaining >= -1 && d.r.unread == [] && d.r.word == 0
    ensures match DecodeBlock(d)
            case Failed(f) => f == EndOfInput
            case Done((gaps, d')) => |gaps| == ELEMS_PER_BLOCK && d'.r.unread == [] && d'.r.word == 0
  {
    ZeroReads(d.r, 1);
    if Read(d.r, 1).Done? {
      var r1 := Read(d.r, 1).value.1;
      ZeroReads(r1, 1);
      if Read(r1, 1).Done? {
        var r2 := Read(r1, 1).value.1;
        PaddingSelector(true, Decoder(r2, d.width));
        var d1 := Selector(true, Decoder(r2, d.width));
        if d1.Done? {
          ReadConsumes(d.r, 1);
          ReadConsumes(r1, 1);
          SelectorConsumes(true, Decoder(r2, d.width));
          PaddingElems(true, d1.value, ELEMS_PER_BLOCK, []);
        }
      }
    }
  }

  lemma PaddingSelector(small: bool, d: Decoder)
    requires d.r.unread == [] && d.r.word == 0
    ensures match Selector(small, d)
            case Failed(f) => f == EndOfInput
            case Done(d') => d'.r.unread == [] && d'.r.word == 0
  {
    ZeroReads(d.r, 2);
  }

  lemma {:induction false} PaddingElems(small: bool, d: Decoder, n: nat, acc: seq<nat>)
    requires d.r.remaining >= 0 && d.r.unread == [] && d.r.word == 0 && d.width <= 28
    ensures match DecodeElems(small, d, n, acc)
            case Failed(f) => f == EndOfInput
            case Done((gaps, d')) => |gaps| == |acc| + n && d'.r.unread == [] && d'.r.word == 0
    decreases n
  {
    hide DecodeElem, Selector;
    if n > 0 {
      if d.r.remaining < d.width && Selector(small, d).Failed? {
        PaddingRunsOut(small, d);
      } else {
        PaddingElem(small, d);
        var (x, d') := DecodeElem(small, d).value;
        PaddingElems(small, d', n - 1, acc + [x]);
      }
    }
  }

  lemma PaddingRunsOut(small: bool, d: Decoder)
    requires d.r.unread == [] && d.r.word == 0 && d.r.remaining < d.width && Selector(small, d).Failed?
    ensures DecodeElem(small, d) == Failed(EndOfInput)
  {
    PaddingSelector(small, d);
    hide Selector;
  }

  lemma PaddingElem(small: bool, d: Decoder)
    requires d.r.remaining >= 0 && d.r.unread == [] && d.r.word == 0 && d.width <= 28
    requires d.r.remaining < d.width ==> Selector(small, d).Done?
    ensures DecodeElem(small, d).Done?
    ensures var (x, d') := DecodeElem(small, d).value;
      d'.r.remaining >= 0 && d'.r.unread == [] && d'.r.word == 0 && d'.width <= 28
  {
    PaddingSelector(small, d);
    if d.r.remaining < d.width {
      SelectorConsumes(small, d);
    }
    hide Selector;
    var d1 := if d.r.remaining < d.width then Selector(small, d) else Done(d);
    ZeroReads(d1.value.r, d1.value.width);
  }

  lemma NothingLeft(w: Writer)
    requires WriterOk(w)
    ensures ExtendedBy(w, Flush(w))
    ensures At(w, Flush(w)).unread == [] && At(w, Flush(w)).word == 0 && At(w, Flush(w)).remaining >= -1
  {
    FlushExtends(w);
    if w.pending != [] {
      var t := TotalBits(w.pending);
      PackBelow(w.pending);
      ShrOfSmall(Pack(w.pending), t);
    }
  }

  lemma {:induction false} ShrOfSmall(x: nat, b: nat)
    requires x < Pow2(b)
    ensures Shr(x, b) == 0
  {
    if b == 0 {
    } else {
      ShrOfSmall(x / 2, b - 1);
    }
  }

  /** The codec law: a list the encoder finishes is decoded to itself exactly when its length is
      not a multiple of the block size; otherwise the decoder runs off the end of the file. */
  lemma RoundTrip(ids: seq<nat>)
    requires ValidIds(ids) && Encode(ids).Done?
    ensures |ids| % ELEMS_PER_BLOCK != 0 ==> Decode(Encode(ids).value) == Done(ids)
    ensures |ids| % ELEMS_PER_BLOCK == 0 ==> Decode(Encode(ids).value) == Failed(EndOfInput)
  {
    var gaps := Gaps(ids);
    var e := EncodeBlocks(gaps, EncoderStart).value;
    EncodeBlocksOk(gaps, EncoderStart);
    var file := Flush(e.w);
    NothingLeft(e.w);
    BlocksLockstep(gaps, EncoderStart, file, 0, []);
    assert At(EmptyWriter, file) == Reader(-1, 0, file) by { assert file[0..] == file; }
    SumsOfGaps(ids);
    assert [] + RunningSums(0, gaps) == ids;
    if |ids| % ELEMS_PER_BLOCK == 0 {
      PaddingNeverEnds(Decoder(At(e.w, file), e.width), LastSum(0, gaps), [] + RunningSums(0, gaps));
    }
  }
}
