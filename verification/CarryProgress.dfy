/** When the encoder finishes: every reachable table row codes a gap, except the dead small row. */
module CarryProgress {
  import opened Bits
  import opened CarryWords
  import opened CarryCode
  import opened CarryLockstep

  /** Widths the tables can lead to, from the starter. */
  predicate TableWidth(width: nat) {
    1 <= width <= 10 || 14 <= width <= 16 || width == 28 || width == 33
  }

  /** A row that is not all zero: the small tables have no row for width 28. */
  predicate Live(small: bool, width: nat) {
    TableWidth(width) && (small ==> width != 28)
  }

  function TopWidth(small: bool): nat {
    if small then 16 else 28
  }

  /** A live row ends in the class's top width and leads only to live rows. */
  lemma LiveRow(small: bool, thirty: bool, width: nat)
    requires Live(small, width)
    ensures var row := TransRow(small, thirty, width);
      row.c3 == TopWidth(small) && forall j | 0 <= j < 4 :: 1 <= Column(row, j) && Live(small, Column(row, j))
  {
    forall j | 0 <= j < 4
      ensures 1 <= Column(TransRow(small, thirty, width), j) && Live(small, Column(TransRow(small, thirty, width), j))
    {
    }
  }

  /** The top width always codes at least one gap in a whole word. */
  lemma TopWidthCodes(size: nat, bits: seq<nat>, i: nat)
    requires i < |bits| && 1 <= size <= 32
    requires forall m | 0 <= m < |bits| :: bits[m] <= size
    ensures forall avail: nat | size <= avail :: ElemsCoded(avail, size, bits, i) > 0
  {
    forall avail: nat | size <= avail ensures ElemsCoded(avail, size, bits, i) > 0 {
      assert Quotient(avail, size) >= 1;
    }
  }

  lemma {:induction false} SearchSucceeds(row: Row, avail: nat, bits: seq<nat>, i: nat, j: nat)
    requires i < |bits| && j < 4 && row.c0 <= row.c1 <= row.c2 <= row.c3 <= 28 && 1 <= row.c3 && avail <= 32
    requires forall m | 0 <= m < |bits| :: bits[m] <= row.c3
    ensures FirstFit(row, avail, bits, i, j).elems > 0
    decreases 4 - j
  {
    TopWidthCodes(row.c3, bits, i);
    hide ElemsCoded;
    FirstFitFull(row, bits, i, 0);
    if Column(row, j) <= avail && ElemsCoded(avail, Column(row, j), bits, i) == 0 && j < 3 {
      SearchSucceeds(row, avail, bits, i, j + 1);
    }
  }

  /** Every field of the pending word takes at least one bit. */
  ghost predicate NoEmptyFields(w: Writer) {
    forall i | 0 <= i < |w.pending| :: w.pending[i].bits >= 1
  }

  lemma {:induction false} FieldsWithinBits(fs: seq<Field>)
    requires forall i | 0 <= i < |fs| :: fs[i].bits >= 1
    ensures |fs| <= TotalBits(fs)
  {
    if fs == [] {
    } else {
      FieldsWithinBits(fs[..|fs| - 1]);
    }
  }

  /** A field of at least one bit always finds room: no 33rd field in a 32-bit word. */
  lemma PutSucceeds(w: Writer, f: Field)
    requires WriterOk(w) && NoEmptyFields(w) && 1 <= f.bits <= 28 && f.value < Pow2(f.bits)
    ensures Put(w, f).Done? && WriterOk(Put(w, f).value) && NoEmptyFields(Put(w, f).value)
    ensures Put(w, f).value.pending != []
  {
    FieldsWithinBits(w.pending);
    PutOk(w, f);
  }

  lemma {:induction false} PutGapsSucceeds(w: Writer, gaps: seq<nat>, i: nat, k: nat, size: nat)
    requires WriterOk(w) && NoEmptyFields(w) && ValidGaps(gaps) && i + k <= |gaps| && 1 <= size <= 28
    requires forall m | i <= m < i + k :: gaps[m] - 1 < Pow2(size)
    ensures PutGaps(w, gaps, i, k, size).Done?
    ensures var w' := PutGaps(w, gaps, i, k, size).value; WriterOk(w') && NoEmptyFields(w')
    decreases k
  {
    if k == 0 {
    } else {
      PutSucceeds(w, Field(gaps[i] - 1, size));
      PutGapsSucceeds(Put(w, Field(gaps[i] - 1, size)).value, gaps, i + 1, k - 1, size);
    }
  }

  ghost predicate Healthy(small: bool, e: Encoder) {
    WriterOk(e.w) && NoEmptyFields(e.w) && Live(small, e.width)
  }

  lemma GroupSucceeds(small: bool, gaps: seq<nat>, i: nat, e: Encoder)
    requires ValidGaps(gaps) && i < |gaps| && Healthy(small, e)
    requires MaxOf(BitsOf(gaps)) <= TopWidth(small)
    ensures EncodeGroup(small, gaps, i, e).Done? && Healthy(small, EncodeGroup(small, gaps, i, e).value.e)
  {
    var bits := BitsOf(gaps);
    var row := RowOf(small, e);
    LiveRow(small, Remaining(e.w) < 2, e.width);
    hide TransRow, ElemsCoded, FirstFit, Put, PutGaps;
    SearchSucceeds(row, DataBits(e.w), bits, i, 0);
    SelectFillsGroup(small, e, bits, i);
    var c := Select(small, e, bits, i);
    assert Pow2(2) == 4;
    PutSucceeds(e.w, Field(c.column, 2));
    forall m | i <= m < i + c.elems ensures gaps[m] - 1 < Pow2(c.size) { GapFits(gaps[m], c.size); }
    PutGapsSucceeds(Put(e.w, Field(c.column, 2)).value, gaps, i, c.elems, c.size);
  }

  lemma {:induction false} GroupsSucceed(small: bool, gaps: seq<nat>, i: nat, e: Encoder)
    requires ValidGaps(gaps) && i <= |gaps| && Healthy(small, e)
    requires MaxOf(BitsOf(gaps)) <= TopWidth(small)
    ensures EncodeGroups(small, gaps, i, e).Done? && Healthy(small, EncodeGroups(small, gaps, i, e).value)
    decreases |gaps| - i
  {
    hide EncodeGroup, Healthy, MaxOf, BitsOf, TopWidth, ValidGaps;
    if i == |gaps| {
    } else {
      GroupSucceeds(small, gaps, i, e);
      var g := EncodeGroup(small, gaps, i, e).value;
      GroupsSucceed(small, gaps, i + g.k, g.e);
    }
  }

  lemma HeaderSucceeds(w: Writer, n: nat, small: bool)
    requires WriterOk(w) && NoEmptyFields(w) && 1 <= n <= ELEMS_PER_BLOCK
    ensures PutHeader(w, n, small).Done?
    ensures var w' := PutHeader(w, n, small).value; WriterOk(w') && NoEmptyFields(w') && w'.pending != []
  {
    Pow2Values();
    assert Pow2(1) == 2;
    var f1 := Field(if n == ELEMS_PER_BLOCK then 0 else 1, 1);
    PutSucceeds(w, f1);
    var w1 := Put(w, f1).value;
    var w2 := w1;
    if n < ELEMS_PER_BLOCK {
      PutSucceeds(w1, Field(n, BITS_FOR_ELEMS_PER_BLOCK));
      w2 := Put(w1, Field(n, BITS_FOR_ELEMS_PER_BLOCK)).value;
    }
    PutSucceeds(w2, Field(if small then 0 else 1, 1));
  }

  /** A block in range whose first row is live is always coded. */
  lemma BlockSucceeds(gaps: seq<nat>, e: Encoder)
    requires ValidGaps(gaps) && 1 <= |gaps| <= ELEMS_PER_BLOCK && MaxOf(BitsOf(gaps)) <= 28
    requires Healthy(IsSmall(gaps), e)
    ensures EncodeBlock(gaps, e).Done? && Healthy(IsSmall(gaps), EncodeBlock(gaps, e).value)
  {
    hide EncodeGroups, PutHeader;
    HeaderSucceeds(e.w, |gaps|, IsSmall(gaps));
    GroupsSucceed(IsSmall(gaps), gaps, 0, Encoder(PutHeader(e.w, |gaps|, IsSmall(gaps)).value, e.width));
  }

  // ---------- the dead row ----------

  /** A small block that starts with width 28 meets an all-zero row. */
  predicate DeadStart(gaps: seq<nat>, e: Encoder)
    requires ValidGaps(gaps)
  {
    IsSmall(gaps) && e.width == 28
  }

  /** The writer once the header and the first selector (column 0) of a block are put. */
  function AfterSelector(gaps: seq<nat>, e: Encoder): Outcome<Writer>
    requires ValidGaps(gaps)
  {
    var w :- PutHeader(e.w, |gaps|, IsSmall(gaps));
    Put(w, Field(0, 2))
  }

  /** The one way past a dead row: a block of ones that fits the current word's field array. */
  predicate OnesFit(gaps: seq<nat>, e: Encoder)
    requires ValidGaps(gaps)
  {
    && 2 <= |gaps| && (forall i | 0 <= i < |gaps| :: gaps[i] == 1)
    && AfterSelector(gaps, e).Done? && |AfterSelector(gaps, e).value.pending| + |gaps| <= 32
  }

  lemma DeadRow(small: bool, thirty: bool, width: nat)
    requires small && width == 28
    ensures TransRow(small, thirty, width) == ZERO_ROW
  {
  }

  lemma {:induction false} ZeroRowSearch(avail: nat, bits: seq<nat>, i: nat, j: nat)
    requires i < |bits| && j < 4
    ensures var k := ElemsCoded(avail, 0, bits, i);
      k > 0 ==> FirstFit(ZERO_ROW, avail, bits, i, j) == Choice(j, 0, k)
    ensures ElemsCoded(avail, 0, bits, i) == 0 ==> FirstFit(ZERO_ROW, avail, bits, i, j).elems == 0
  {
    if ElemsCoded(avail, 0, bits, i) == 0 {
      ZeroRowStuck(avail, bits, i, j);
    }
  }

  lemma ZeroBitsIsOne(gap: nat)
    requires 1 <= gap <= WORD
    ensures QCeilLog2(gap) == 0 <==> gap == 1
  {
    QCeilLog2IsCeilLog(gap);
    if QCeilLog2(gap) > 0 {
      assert Pow2(QCeilLog2(gap) - 1) >= 1;
    }
  }

  lemma {:induction false} ZeroFieldsPut(w: Writer, gaps: seq<nat>, i: nat, k: nat)
    requires ValidGaps(gaps) && i + k <= |gaps| && TotalBits(w.pending) <= 32
    requires |w.pending| + k <= 32
    ensures PutGaps(w, gaps, i, k, 0).Done?
    decreases k
  {
    if k == 0 {
    } else {
      var w1 := Put(w, Field(gaps[i] - 1, 0)).value;
      assert w1.pending[..|w1.pending| - 1] == w.pending;
      ZeroFieldsPut(w1, gaps, i + 1, k - 1);
    }
  }

  lemma {:induction false} ZeroRunAll(bits: seq<nat>, i: nat, limit: nat)
    requires i <= |bits| && forall m | i <= m < |bits| :: bits[m] == 0
    ensures ZeroRun(bits, i, limit) == if limit < |bits| - i then limit else |bits| - i
    decreases limit
  {
    if i == |bits| || limit == 0 {
    } else {
      ZeroRunAll(bits, i + 1, limit - 1);
    }
  }

  lemma OnesAreZeroBits(gaps: seq<nat>)
    requires ValidGaps(gaps)
    ensures forall m | 0 <= m < |gaps| :: BitsOf(gaps)[m] == 0 <==> gaps[m] == 1
  {
    forall m | 0 <= m < |gaps| ensures BitsOf(gaps)[m] == 0 <==> gaps[m] == 1 { ZeroBitsIsOne(gaps[m]); }
  }

  /** What the encoder does at a dead start: k ones at width zero, or nothing. */
  lemma DeadGroup(gaps: seq<nat>, w: Writer)
    requires ValidGaps(gaps) && 1 <= |gaps| && WriterOk(w) && NoEmptyFields(w)
    ensures var g := EncodeGroup(true, gaps, 0, Encoder(w, 28));
      var k := ElemsCoded(DataBits(w), 0, BitsOf(gaps), 0);
      && Put(w, Field(0, 2)).Done?
      && (g.Done? <==> 0 < k && |Put(w, Field(0, 2)).value.pending| + k <= 32)
      && (g.Done? ==> g.value.k == k && g.value.e.width == 0)
  {
    var e := Encoder(w, 28);
    DeadRow(true, Remaining(w) < 2, 28);
    hide TransRow, ElemsCoded, FirstFit, Put;
    ZeroRowSearch(DataBits(w), BitsOf(gaps), 0, 0);
    var k := ElemsCoded(DataBits(w), 0, BitsOf(gaps), 0);
    assert Pow2(2) == 4;
    PutSucceeds(w, Field(0, 2));
    var w1 := Put(w, Field(0, 2)).value;
    if 0 < k {
      if |w1.pending| + k <= 32 {
        ZeroFieldsPut(w1, gaps, 0, k);
      }
      if PutGaps(w1, gaps, 0, k, 0).Done? {
        ZeroFieldsCount(w1, gaps, 0, k);
      }
    }
  }

  /** At a dead start the block is coded exactly when it is a short block of ones that fits. */
  lemma DeadBlock(gaps: seq<nat>, e: Encoder)
    requires ValidGaps(gaps) && 1 <= |gaps| <= ELEMS_PER_BLOCK
    requires WriterOk(e.w) && NoEmptyFields(e.w) && DeadStart(gaps, e)
    ensures EncodeBlock(gaps, e).Done? <==> OnesFit(gaps, e)
  {
    HeaderSucceeds(e.w, |gaps|, true);
    hide PutHeader;
    var w := PutHeader(e.w, |gaps|, true).value;
    var e1 := Encoder(w, 28);
    var bits := BitsOf(gaps);
    DeadGroup(gaps, w);
    OnesAreZeroBits(gaps);
    var k := ElemsCoded(DataBits(w), 0, bits, 0);
    if forall m | 0 <= m < |gaps| :: gaps[m] == 1 {
      ZeroRunAll(bits, 0, MAX_ELEM_PER_WORD);
    }
    hide ElemsCoded;
    DeadGroups(gaps, w, k);
  }

  lemma DeadGroups(gaps: seq<nat>, w: Writer, k: nat)
    requires ValidGaps(gaps) && 1 <= |gaps| && WriterOk(w) && NoEmptyFields(w) && k <= |gaps|
    requires EncodeGroup(true, gaps, 0, Encoder(w, 28)).Done? ==>
      var g := EncodeGroup(true, gaps, 0, Encoder(w, 28)).value; g.k == k && g.e.width == 0
    ensures EncodeGroups(true, gaps, 0, Encoder(w, 28)).Done?
       <==> EncodeGroup(true, gaps, 0, Encoder(w, 28)).Done? && k == |gaps|
  {
    hide EncodeGroup;
    var e := Encoder(w, 28);
    if EncodeGroup(true, gaps, 0, e).Done? {
      var g := EncodeGroup(true, gaps, 0, e).value;
      if k < |gaps| {
        ZeroWidthEndsBlock(true, e, gaps, 0);
      } else {
        assert EncodeGroups(true, gaps, k, g.e) == Done(g.e);
      }
    }
  }

  // ---------- whole lists ----------

  const MAXVALUE := 0x1000_0000

  predicate InCodeRange(gaps: seq<nat>) {
    forall i | 0 <= i < |gaps| :: gaps[i] <= MAXVALUE
  }

  predicate FitsSixteenBits(gaps: seq<nat>) {
    forall i | 0 <= i < |gaps| :: gaps[i] <= 0x1_0000
  }

  lemma WidthByGap(gap: nat, v: nat)
    requires 1 <= gap <= WORD
    ensures QCeilLog2(gap) <= v <==> gap <= Pow2(v)
  {
    QCeilLog2IsCeilLog(gap);
    var q := QCeilLog2(gap);
    if q <= v {
      Pow2Monotonic(q, v);
    } else {
      Pow2Monotonic(v, q - 1);
    }
  }

  lemma {:induction false} MaxByGaps(gaps: seq<nat>, v: nat)
    requires ValidGaps(gaps)
    ensures MaxOf(BitsOf(gaps)) <= v <==> forall i | 0 <= i < |gaps| :: gaps[i] <= Pow2(v)
  {
    if gaps == [] {
    } else {
      var n := |gaps| - 1;
      assert BitsOf(gaps)[..n] == BitsOf(gaps[..n]);
      MaxByGaps(gaps[..n], v);
      WidthByGap(gaps[n], v);
      assert gaps == gaps[..n] + [gaps[n]];
    }
  }

  /** CalcMinBits's limit and the table class, read off the gaps themselves. */
  lemma ClassByGaps(gaps: seq<nat>)
    requires ValidGaps(gaps)
    ensures MaxOf(BitsOf(gaps)) <= 28 <==> InCodeRange(gaps)
    ensures IsSmall(gaps) <==> FitsSixteenBits(gaps)
  {
    Pow2Values();
    MaxByGaps(gaps, 28);
    MaxByGaps(gaps, 16);
  }

  /** No gap is too large, and no block of 16-bit gaps starts at width 28 except as OnesFit allows. */
  predicate Codable(gaps: seq<nat>, e: Encoder)
    requires ValidGaps(gaps)
    decreases |gaps|
  {
    hide EncodeBlock, OnesFit;
    if gaps == [] then true
    else
      var block, rest := gaps[..BlockLength(gaps)], gaps[BlockLength(gaps)..];
      && InCodeRange(block)
      && (FitsSixteenBits(block) && e.width == 28 ==> OnesFit(block, e))
      && (EncodeBlock(block, e).Done? ==> Codable(rest, EncodeBlock(block, e).value))
  }

  lemma {:induction false} BlocksDoneIffCodable(gaps: seq<nat>, e: Encoder)
    requires ValidGaps(gaps) && WriterOk(e.w) && NoEmptyFields(e.w) && TableWidth(e.width)
    ensures EncodeBlocks(gaps, e).Done? <==> Codable(gaps, e)
    decreases |gaps|
  {
    hide EncodeBlock, OnesFit, InCodeRange, FitsSixteenBits;
    if gaps == [] {
    } else {
      var n := BlockLength(gaps);
      var block, rest := gaps[..n], gaps[n..];
      ClassByGaps(block);
      BlockDoneIff(block, e);
      if EncodeBlock(block, e).Done? {
        var e1 := EncodeBlock(block, e).value;
        if rest != [] {
          BlocksDoneIffCodable(rest, e1);
        }
      }
    }
  }

  lemma BlockDoneIff(block: seq<nat>, e: Encoder)
    requires ValidGaps(block) && 1 <= |block| <= ELEMS_PER_BLOCK
    requires WriterOk(e.w) && NoEmptyFields(e.w) && TableWidth(e.width)
    ensures EncodeBlock(block, e).Done? <==> MaxOf(BitsOf(block)) <= 28 && (DeadStart(block, e) ==> OnesFit(block, e))
    ensures EncodeBlock(block, e).Done? && |block| == ELEMS_PER_BLOCK ==>
      var e1 := EncodeBlock(block, e).value; WriterOk(e1.w) && NoEmptyFields(e1.w) && TableWidth(e1.width)
  {
    if MaxOf(BitsOf(block)) <= 28 {
      hide EncodeBlock;
      if DeadStart(block, e) {
        DeadBlock(block, e);
      } else {
        BlockSucceeds(block, e);
      }
    }
  }

  /** The codec law, exactly: encoding then decoding gives the list back if and only if its
      length is not a multiple of the block size and its gaps are codable. */
  lemma CodecExact(ids: seq<nat>)
    requires ValidIds(ids)
    ensures Encode(ids).Done? && Decode(Encode(ids).value) == Done(ids)
       <==> |ids| % ELEMS_PER_BLOCK != 0 && Codable(Gaps(ids), EncoderStart)
  {
    hide Decode, Codable;
    BlocksDoneIffCodable(Gaps(ids), EncoderStart);
    if Encode(ids).Done? {
      RoundTrip(ids);
    }
  }

  /** Gaps in range where no block of 16-bit gaps directly follows a block with a wider gap. */
  predicate ClassesAscend(gaps: seq<nat>)
    decreases |gaps|
  {
    if gaps == [] then true
    else
      var block, rest := gaps[..BlockLength(gaps)], gaps[BlockLength(gaps)..];
      && InCodeRange(block)
      && (!FitsSixteenBits(block) && rest != [] ==> !FitsSixteenBits(rest[..BlockLength(rest)]))
      && ClassesAscend(rest)
  }

  lemma {:induction false} AscendingIsCodable(gaps: seq<nat>, e: Encoder)
    requires ValidGaps(gaps) && ClassesAscend(gaps)
    requires gaps != [] ==> Healthy(FitsSixteenBits(gaps[..BlockLength(gaps)]), e)
    ensures Codable(gaps, e)
    decreases |gaps|
  {
    hide EncodeBlock, OnesFit, InCodeRange, FitsSixteenBits;
    if gaps == [] {
    } else {
      var n := BlockLength(gaps);
      var block, rest := gaps[..n], gaps[n..];
      ClassByGaps(block);
      BlockSucceeds(block, e);
      AscendingIsCodable(rest, EncodeBlock(block, e).value);
    }
  }

  /** Every such list, in particular every list of one block, survives the round trip. */
  lemma AscendingRoundTrip(ids: seq<nat>)
    requires ValidIds(ids) && |ids| % ELEMS_PER_BLOCK != 0
    requires ClassesAscend(Gaps(ids)) || (|ids| < ELEMS_PER_BLOCK && InCodeRange(Gaps(ids)))
    ensures Encode(ids).Done? && Decode(Encode(ids).value) == Done(ids)
  {
    var gaps := Gaps(ids);
    if |ids| < ELEMS_PER_BLOCK {
      assert gaps[..BlockLength(gaps)] == gaps && gaps[BlockLength(gaps)..] == [];
      assert ClassesAscend([]);
    }
    AscendingIsCodable(gaps, EncoderStart);
    CodecExact(ids);
  }

  // ---------- a list the encoder cannot finish ----------

  /** The last group of a block is wide enough for the block's last gap. */
  lemma {:induction false} LastWidth(small: bool, gaps: seq<nat>, i: nat, e: Encoder)
    requires ValidGaps(gaps) && i < |gaps| && WriterOk(e.w) && EncodeGroups(small, gaps, i, e).Done?
    ensures BitsOf(gaps)[|gaps| - 1] <= EncodeGroups(small, gaps, i, e).value.width
    decreases |gaps| - i
  {
    hide EncodeGroup, BitsOf;
    var g := EncodeGroup(small, gaps, i, e).value;
    if i + g.k < |gaps| {
      GroupOk(small, gaps, i, e);
      LastWidth(small, gaps, i + g.k, g.e);
    } else {
      assert EncodeGroups(small, gaps, i + g.k, g.e) == Done(g.e);
      LastGroupWidth(small, gaps, i, e);
    }
  }

  lemma LastGroupWidth(small: bool, gaps: seq<nat>, i: nat, e: Encoder)
    requires ValidGaps(gaps) && i < |gaps| && WriterOk(e.w) && EncodeGroup(small, gaps, i, e).Done?
    requires i + EncodeGroup(small, gaps, i, e).value.k == |gaps|
    ensures BitsOf(gaps)[|gaps| - 1] <= EncodeGroup(small, gaps, i, e).value.e.width
  {
    hide TransRow, Select, Put, PutGaps;
    SelectFillsGroup(small, e, BitsOf(gaps), i);
  }

  /** A block of ones short enough to share the field array with a header and a selector. */
  predicate FewOnes(gaps: seq<nat>) {
    2 <= |gaps| <= 31 && forall i | 0 <= i < |gaps| :: gaps[i] == 1
  }

  /** The block that starts at position m holds 16-bit gaps and is more than a few ones. */
  predicate NarrowAt(gaps: seq<nat>, m: nat)
    requires m < |gaps|
  {
    var rest := gaps[m..];
    var block := rest[..BlockLength(rest)];
    FitsSixteenBits(block) && !FewOnes(block)
  }

  /** At any block boundary: a block that ends in a gap above 2^16, followed by a block of 16-bit
      gaps, stops the encoder, because its table has no row to continue from. Only a few ones may
      get past it. */
  lemma WideThenNarrowFails(ids: seq<nat>, m: nat)
    requires ValidIds(ids) && 0 < m < |ids| && m % ELEMS_PER_BLOCK == 0
    requires Gaps(ids)[m - 1] > 0x1_0000 && NarrowAt(Gaps(ids), m)
    ensures Encode(ids).Failed?
  {
    hide Gaps, EncodeBlocks, NarrowAt;
    WideThenNarrowGaps(Gaps(ids), m, EncoderStart);
  }

  lemma {:induction false} WideThenNarrowGaps(gaps: seq<nat>, m: nat, e: Encoder)
    requires ValidGaps(gaps) && 0 < m < |gaps| && m % ELEMS_PER_BLOCK == 0
    requires gaps[m - 1] > 0x1_0000 && NarrowAt(gaps, m)
    requires WriterOk(e.w) && NoEmptyFields(e.w) && TableWidth(e.width)
    ensures EncodeBlocks(gaps, e).Failed?
    decreases |gaps|
  {
    hide EncodeBlock, OnesFit, NarrowAt, BitsOf, MaxOf, IsSmall;
    var n := ELEMS_PER_BLOCK;
    var block, rest := gaps[..n], gaps[n..];
    BlockDoneIff(block, e);
    if EncodeBlock(block, e).Done? {
      var e1 := EncodeBlock(block, e).value;
      if m == n {
        WideBlockWidth(block, e);
        NarrowStuck(gaps, e1);
      } else {
        assert rest[m - n..] == gaps[m..];
        assert NarrowAt(rest, m - n) by { SameBlock(gaps, rest, m); }
        WideThenNarrowGaps(rest, m - n, e1);
      }
    }
  }

  lemma SameBlock(gaps: seq<nat>, rest: seq<nat>, m: nat)
    requires ELEMS_PER_BLOCK <= m < |gaps| && rest == gaps[ELEMS_PER_BLOCK..] && NarrowAt(gaps, m)
    ensures NarrowAt(rest, m - ELEMS_PER_BLOCK)
  {
    assert rest[m - ELEMS_PER_BLOCK..] == gaps[m..];
  }

  lemma NarrowStuck(gaps: seq<nat>, e: Encoder)
    requires ValidGaps(gaps) && |gaps| > ELEMS_PER_BLOCK && NarrowAt(gaps, ELEMS_PER_BLOCK)
    requires WriterOk(e.w) && NoEmptyFields(e.w) && e.width == 28
    ensures EncodeBlocks(gaps[ELEMS_PER_BLOCK..], e).Failed?
  {
    hide EncodeBlock, OnesFit, FitsSixteenBits, FewOnes;
    var rest := gaps[ELEMS_PER_BLOCK..];
    var next := rest[..BlockLength(rest)];
    ClassByGaps(next);
    BlockDoneIff(next, e);
    NotFewOnes(next, e);
  }

  lemma NotFewOnes(gaps: seq<nat>, e: Encoder)
    requires ValidGaps(gaps) && 1 <= |gaps| <= ELEMS_PER_BLOCK && !FewOnes(gaps)
    requires WriterOk(e.w) && NoEmptyFields(e.w)
    ensures !OnesFit(gaps, e)
  {
    HeaderSucceeds(e.w, |gaps|, IsSmall(gaps));
    var w := PutHeader(e.w, |gaps|, IsSmall(gaps)).value;
    hide PutHeader;
    assert Pow2(2) == 4;
    PutSucceeds(w, Field(0, 2));
  }

  lemma WideBlockWidth(block: seq<nat>, e: Encoder)
    requires ValidGaps(block) && 1 <= |block| <= ELEMS_PER_BLOCK && block[|block| - 1] > 0x1_0000
    requires WriterOk(e.w) && NoEmptyFields(e.w) && TableWidth(e.width)
    ensures EncodeBlock(block, e).Done? ==> EncodeBlock(block, e).value.width == 28
  {
    ClassByGaps(block);
    BlockDoneIff(block, e);
    if EncodeBlock(block, e).Done? {
      WideWidth(block, e);
    }
  }

  lemma WideWidth(block: seq<nat>, e: Encoder)
    requires ValidGaps(block) && 1 <= |block| <= ELEMS_PER_BLOCK && block[|block| - 1] > 0x1_0000
    requires !IsSmall(block) && MaxOf(BitsOf(block)) <= 28 && Healthy(false, e) && EncodeBlock(block, e).Done?
    ensures EncodeBlock(block, e).value.width == 28
  {
    HeaderSucceeds(e.w, |block|, IsSmall(block));
    var e0 := Encoder(PutHeader(e.w, |block|, IsSmall(block)).value, e.width);
    hide PutHeader, EncodeGroups;
    LastWidth(IsSmall(block), block, 0, e0);
    GroupsSucceed(IsSmall(block), block, 0, e0);
    Pow2Values();
    WidthByGap(block[|block| - 1], 16);
    WidthAtMost28(IsSmall(block), block, 0, e0);
  }

  lemma {:induction false} WidthAtMost28(small: bool, gaps: seq<nat>, i: nat, e: Encoder)
    requires ValidGaps(gaps) && i < |gaps| && WriterOk(e.w) && EncodeGroups(small, gaps, i, e).Done?
    ensures EncodeGroups(small, gaps, i, e).value.width <= 28
    decreases |gaps| - i
  {
    hide EncodeGroup;
    var g := EncodeGroup(small, gaps, i, e).value;
    if i + g.k < |gaps| {
      GroupOk(small, gaps, i, e);
      WidthAtMost28(small, gaps, i + g.k, g.e);
    } else {
      assert EncodeGroups(small, gaps, i + g.k, g.e) == Done(g.e);
      GroupWidthAtMost28(small, gaps, i, e);
    }
  }

  lemma GroupWidthAtMost28(small: bool, gaps: seq<nat>, i: nat, e: Encoder)
    requires ValidGaps(gaps) && i < |gaps| && WriterOk(e.w) && EncodeGroup(small, gaps, i, e).Done?
    ensures EncodeGroup(small, gaps, i, e).value.e.width <= 28
  {
    hide TransRow, Select, Put, PutGaps;
    SelectFillsGroup(small, e, BitsOf(gaps), i);
  }

  /** 1, 2, ..., 16383, then a jump of 65537, then a step of 2. */
  function DeadIds(): seq<nat> {
    seq(ELEMS_PER_BLOCK + 1, i requires 0 <= i <= ELEMS_PER_BLOCK =>
      if i < ELEMS_PER_BLOCK - 1 then i + 1
      else if i == ELEMS_PER_BLOCK - 1 then i + 0x1_0001
      else i + 0x1_0002)
  }

  /** A valid list of 16385 ids that the encoder never finishes. */
  lemma DeadIdsFail()
    ensures ValidIds(DeadIds()) && InCodeRange(Gaps(DeadIds())) && |DeadIds()| % ELEMS_PER_BLOCK == 1
    ensures Encode(DeadIds()).Failed?
  {
    var ids := DeadIds();
    var gaps := Gaps(ids);
    assert gaps[ELEMS_PER_BLOCK] == 2 && gaps[ELEMS_PER_BLOCK - 1] == 0x1_0001;
    var rest := gaps[ELEMS_PER_BLOCK..];
    assert rest == [2] && rest[..1] == [2];
    WideThenNarrowFails(ids, ELEMS_PER_BLOCK);
  }
}
