/** The carryover-12 code: widths, transition tables, and what the encoder and decoder compute. */
module CarryCode {
  import opened Bits
  import opened CarryWords

  const ELEMS_PER_BLOCK := 16384
  const BITS_FOR_ELEMS_PER_BLOCK := 14
  const MAX_ELEM_PER_WORD := 64
  const TRANS_TABLE_STARTER := 33

  // ---------- bits needed for a gap ----------

  /** CLOG2TAB[i], the number of bits of i, by the ranges of its 256 entries. */
  function Clog2Tab(i: nat): nat
    requires i < 256
  {
    if i < 1 then 0 else if i < 2 then 1 else if i < 4 then 2 else if i < 8 then 3
    else if i < 16 then 4 else if i < 32 then 5 else if i < 64 then 6 else if i < 128 then 7 else 8
  }

  /** QCEILLOG_2. */
  function QCeilLog2(x: nat): nat
    requires 1 <= x <= WORD
  {
    var b := x - 1;
    if b / 0x1_0000 != 0 then
      if b / 0x100_0000 != 0 then 24 + Clog2Tab(b / 0x100_0000)
      else BitOr(16, Clog2Tab(b / 0x1_0000))
    else
      if b / 0x100 != 0 then 8 + Clog2Tab(b / 0x100) else Clog2Tab(b)
  }

  function BitsOf(gaps: seq<nat>): (bits: seq<nat>)
    requires ValidGaps(gaps)
    ensures |bits| == |gaps|
    ensures forall i | 0 <= i < |gaps| :: bits[i] == QCeilLog2(gaps[i])
  {
    seq(|gaps|, i requires 0 <= i < |gaps| => QCeilLog2(gaps[i]))
  }

  predicate ValidGaps(gaps: seq<nat>) {
    forall i | 0 <= i < |gaps| :: 1 <= gaps[i] <= WORD
  }

  function MaxOf(bits: seq<nat>): (m: nat)
    ensures forall i | 0 <= i < |bits| :: bits[i] <= m
  {
    if bits == [] then 0
    else
      var m := MaxOf(bits[..|bits| - 1]);
      if m < bits[|bits| - 1] then bits[|bits| - 1] else m
  }

  // ---------- transition tables ----------

  datatype Row = Row(c0: nat, c1: nat, c2: nat, c3: nat)

  const ZERO_ROW := Row(0, 0, 0, 0)

  function Column(row: Row, j: nat): nat
    requires j < 4
  {
    if j == 0 then row.c0 else if j == 1 then row.c1 else if j == 2 then row.c2 else row.c3
  }

  function Trans30Big(width: nat): Row {
    match width
    case 1 => Row(1, 2, 3, 28)
    case 2 => Row(1, 2, 3, 28)
    case 3 => Row(2, 3, 4, 28)
    case 4 => Row(3, 4, 5, 28)
    case 5 => Row(4, 5, 6, 28)
    case 6 => Row(5, 6, 7, 28)
    case 7 => Row(6, 7, 8, 28)
    case 8 => Row(6, 7, 10, 28)
    case 9 => Row(8, 10, 15, 28)
    case 10 => Row(9, 10, 14, 28)
    case 14 => Row(10, 15, 16, 28)
    case 15 => Row(10, 14, 15, 28)
    case 16 => Row(7, 10, 15, 28)
    case 28 => Row(6, 10, 16, 28)
    case 33 => Row(4, 9, 15, 28)
    case _ => ZERO_ROW
  }

  function Trans32Big(width: nat): Row {
    match width
    case 1 => Row(1, 2, 3, 28)
    case 2 => Row(1, 2, 3, 28)
    case 3 => Row(2, 3, 4, 28)
    case 4 => Row(3, 4, 5, 28)
    case 5 => Row(4, 5, 6, 28)
    case 6 => Row(5, 6, 7, 28)
    case 7 => Row(6, 7, 8, 28)
    case 8 => Row(7, 9, 10, 28)
    case 9 => Row(7, 10, 15, 28)
    case 10 => Row(8, 10, 15, 28)
    case 14 => Row(7, 10, 15, 28)
    case 15 => Row(10, 15, 16, 28)
    case 16 => Row(10, 14, 15, 28)
    case 28 => Row(6, 10, 16, 28)
    case 33 => Row(4, 10, 16, 28)
    case _ => ZERO_ROW
  }

  function Trans30Small(width: nat): Row {
    match width
    case 1 => Row(1, 2, 3, 16)
    case 2 => Row(1, 2, 3, 16)
    case 3 => Row(2, 3, 4, 16)
    case 4 => Row(3, 4, 5, 16)
    case 5 => Row(4, 5, 6, 16)
    case 6 => Row(5, 6, 7, 16)
    case 7 => Row(6, 7, 8, 16)
    case 8 => Row(6, 7, 10, 16)
    case 9 => Row(7, 8, 10, 16)
    case 10 => Row(9, 10, 14, 16)
    case 14 => Row(8, 10, 15, 16)
    case 15 => Row(10, 14, 15, 16)
    case 16 => Row(7, 10, 15, 16)
    case 33 => Row(3, 7, 10, 16)
    case _ => ZERO_ROW
  }

  function Trans32Small(width: nat): Row {
    match width
    case 1 => Row(1, 2, 3, 16)
    case 2 => Row(1, 2, 3, 16)
    case 3 => Row(2, 3, 4, 16)
    case 4 => Row(3, 4, 5, 16)
    case 5 => Row(4, 5, 6, 16)
    case 6 => Row(5, 6, 7, 16)
    case 7 => Row(6, 7, 8, 16)
    case 8 => Row(7, 9, 10, 16)
    case 9 => Row(7, 10, 15, 16)
    case 10 => Row(8, 10, 15, 16)
    case 14 => Row(7, 10, 15, 16)
    case 15 => Row(8, 10, 15, 16)
    case 16 => Row(10, 14, 15, 16)
    case 33 => Row(3, 7, 10, 16)
    case _ => ZERO_ROW
  }

  /** GET_TRANS_TABLE and the row of the previous width: 30 data bits when the selector opens a word. */
  function TransRow(small: bool, thirty: bool, width: nat): (row: Row)
    ensures row.c0 <= row.c1 <= row.c2 <= row.c3 <= 28
  {
    if small then if thirty then Trans30Small(width) else Trans32Small(width)
    else if thirty then Trans30Big(width) else Trans32Big(width)
  }

  // ---------- encoder ----------

  /** Length of the run of zero-width gaps from i, counting at most `limit`. */
  function ZeroRun(bits: seq<nat>, i: nat, limit: nat): (k: nat)
    requires i <= |bits|
    ensures k <= limit && i + k <= |bits|
    ensures forall m | i <= m < i + k :: bits[m] == 0
    ensures i + k < |bits| && k < limit ==> bits[i + k] != 0
    decreases limit
  {
    if i == |bits| || limit == 0 || bits[i] != 0 then 0 else 1 + ZeroRun(bits, i + 1, limit - 1)
  }

  /** a / d, by the number of times d can be taken away from a. */
  function Quotient(a: nat, d: nat): nat
    requires d > 0
  {
    if a < d then 0 else 1 + Quotient(a - d, d)
  }

  /** How many gaps from i on a group of `avail` bits codes at `len` bits each; 0 if it cannot. */
  function ElemsCoded(avail: nat, len: nat, bits: seq<nat>, i: nat): (k: nat)
    requires i < |bits|
    ensures i + k <= |bits|
  {
    if len > 0 then
      var most := Quotient(avail, len);
      var k := if most <= |bits| - i then most else |bits| - i;
      if forall m | i <= m < i + k :: bits[m] <= len then k else 0
    else
      var k := ZeroRun(bits, i, MAX_ELEM_PER_WORD);
      if k < 2 then 0 else k
  }

  /** A column of the row, its width and the number of gaps it codes. */
  datatype Choice = Choice(column: nat, size: nat, elems: nat)

  /** The column search from column j on; a width above `avail` restarts it with a fresh word. */
  function FirstFit(row: Row, avail: nat, bits: seq<nat>, i: nat, j: nat): Choice
    requires i < |bits| && j <= 4 && row.c0 <= row.c1 <= row.c2 <= row.c3 <= 28
    decreases if avail < 32 then 1 else 0, 4 - j
  {
    if j == 4 then Choice(4, row.c3, 0)
    else
      var size := Column(row, j);
      if size > avail then FirstFit(row, 32, bits, i, 0)
      else
        var k := ElemsCoded(avail, size, bits, i);
        if k != 0 then Choice(j, size, k) else FirstFit(row, avail, bits, i, j + 1)
  }

  /** The packing state and the width of the last group. */
  datatype Encoder = Encoder(w: Writer, width: nat)

  function DataBits(w: Writer): nat {
    if Remaining(w) < 2 then 30 else Remaining(w) - 2
  }

  function Select(small: bool, e: Encoder, bits: seq<nat>, i: nat): Choice
    requires i < |bits|
  {
    FirstFit(TransRow(small, Remaining(e.w) < 2, e.width), DataBits(e.w), bits, i, 0)
  }

  function PutGaps(w: Writer, gaps: seq<nat>, i: nat, k: nat, size: nat): Outcome<Writer>
    requires i + k <= |gaps| && ValidGaps(gaps)
    decreases k
  {
    if k == 0 then Done(w)
    else
      var w' :- Put(w, Field(gaps[i] - 1, size));
      PutGaps(w', gaps, i + 1, k - 1, size)
  }

  /** One group: how many gaps it codes and the encoder after it. */
  datatype Group = Group(k: nat, e: Encoder)

  /** One turn of the loop over the gaps of a block: pick a column, put it and its gaps. */
  function EncodeGroup(small: bool, gaps: seq<nat>, i: nat, e: Encoder): (g: Outcome<Group>)
    requires i < |gaps| && ValidGaps(gaps)
    ensures g.Done? ==> 0 < g.value.k && i + g.value.k <= |gaps|
  {
    var c := Select(small, e, BitsOf(gaps), i);
    if c.elems == 0 then Failed(NoColumnFits)
    else
      assert i + c.elems <= |gaps| by {
        FirstFitInRange(TransRow(small, Remaining(e.w) < 2, e.width), DataBits(e.w), BitsOf(gaps), i, 0);
      }
      var w1 :- Put(e.w, Field(c.column, 2));
      var w2 :- PutGaps(w1, gaps, i, c.elems, c.size);
      Done(Group(c.elems, Encoder(w2, c.size)))
  }

  /** The loop over the gaps of one block (src/carry.c:393-417). */
  function EncodeGroups(small: bool, gaps: seq<nat>, i: nat, e: Encoder): Outcome<Encoder>
    requires i <= |gaps| && ValidGaps(gaps)
    decreases |gaps| - i
  {
    if i == |gaps| then Done(e)
    else
      var g :- EncodeGroup(small, gaps, i, e);
      EncodeGroups(small, gaps, i + g.k, g.e)
  }

  lemma FirstFitInRange(row: Row, avail: nat, bits: seq<nat>, i: nat, j: nat)
    requires i < |bits| && j <= 4 && row.c0 <= row.c1 <= row.c2 <= row.c3 <= 28
    ensures i + FirstFit(row, avail, bits, i, j).elems <= |bits|
    decreases if avail < 32 then 1 else 0, 4 - j
  {
  }

  /** CARRY_BLOCK_ENCODE_START. */
  function PutHeader(w: Writer, n: nat, small: bool): Outcome<Writer>
  {
    var w1 :- Put(w, Field(if n == ELEMS_PER_BLOCK then 0 else 1, 1));
    var w2 :- if n == ELEMS_PER_BLOCK then Done(w1) else Put(w1, Field(n, BITS_FOR_ELEMS_PER_BLOCK));
    Put(w2, Field(if small then 0 else 1, 1))
  }

  predicate IsSmall(gaps: seq<nat>)
    requires ValidGaps(gaps)
  {
    MaxOf(BitsOf(gaps)) <= 16
  }

  function EncodeBlock(gaps: seq<nat>, e: Encoder): Outcome<Encoder>
    requires ValidGaps(gaps)
  {
    if MaxOf(BitsOf(gaps)) > 28 then Failed(GapTooLarge)
    else
      var w :- PutHeader(e.w, |gaps|, IsSmall(gaps));
      EncodeGroups(IsSmall(gaps), gaps, 0, Encoder(w, e.width))
  }

  function BlockLength(gaps: seq<nat>): nat {
    if |gaps| < ELEMS_PER_BLOCK then |gaps| else ELEMS_PER_BLOCK
  }

  function EncodeBlocks(gaps: seq<nat>, e: Encoder): Outcome<Encoder>
    requires ValidGaps(gaps)
    decreases |gaps|
  {
    if gaps == [] then Done(e)
    else
      var n := BlockLength(gaps);
      var e' :- EncodeBlock(gaps[..n], e);
      EncodeBlocks(gaps[n..], e')
  }

  /** What DpsCarryLimitWrite is given: positive 32-bit ids in strictly increasing order. */
  predicate ValidIds(ids: seq<nat>) {
    && (forall i | 0 <= i < |ids| :: 0 < ids[i] < WORD)
    && (forall i | 0 < i < |ids| :: ids[i - 1] < ids[i])
  }

  function Gaps(ids: seq<nat>): (gaps: seq<nat>)
    requires ValidIds(ids)
    ensures |gaps| == |ids| && ValidGaps(gaps)
  {
    seq(|ids|, i requires 0 <= i < |ids| => if i == 0 then ids[0] else ids[i] - ids[i - 1])
  }

  const EncoderStart := Encoder(EmptyWriter, TRANS_TABLE_STARTER)

  function Encode(ids: seq<nat>): Outcome<seq<nat>>
    requires ValidIds(ids)
  {
    var e :- EncodeBlocks(Gaps(ids), EncoderStart);
    Done(Flush(e.w))
  }

  // ---------- decoder ----------

  datatype Decoder = Decoder(r: Reader, width: nat)

  /** CARRY_DECODE_GET_SELECTOR. */
  function Selector(small: bool, d: Decoder): Outcome<Decoder> {
    if d.r.remaining >= 2 then
      var (v, r) := Take(d.r, 2);
      var width := Column(TransRow(small, false, d.width), Low2(d.r.word, v));
      var r' :- Need(r, width);
      Done(Decoder(r', width))
    else
      var r :- Need(d.r, 2);
      var (v, r') := Take(r, 2);
      Done(Decoder(r', Column(TransRow(small, true, d.width), Low2(r.word, v))))
  }

  /** `word & 3` as a column number. */
  function Low2(word: nat, v: nat): (j: nat)
    requires v == BitAnd(word, Pow2(2) - 1)
    ensures j == v && j < 4
  {
    AndMask(word, 2);
    LowBelow(word, 2);
    assert Pow2(2) == 4;
    v
  }

  /** CARRY_DECODE. */
  function DecodeElem(small: bool, d: Decoder): Outcome<(nat, Decoder)> {
    var d' :- if d.r.remaining < d.width then Selector(small, d) else Done(d);
    var (v, r) := Take(d'.r, d'.width);
    Done((v + 1, Decoder(r, d'.width)))
  }

  function DecodeElems(small: bool, d: Decoder, n: nat, gaps: seq<nat>): Outcome<(seq<nat>, Decoder)>
    decreases n
  {
    if n == 0 then Done((gaps, d))
    else
      var (x, d') :- DecodeElem(small, d);
      DecodeElems(small, d', n - 1, gaps + [x])
  }

  /** The header of CARRY_BLOCK_DECODE_START: the number of elements and the table class. */
  function ReadHeader(r: Reader): Outcome<(nat, bool, Reader)> {
    var (v, r1) :- Read(r, 1);
    var (n, r2) :- if v + 1 == 2 then Read(r1, BITS_FOR_ELEMS_PER_BLOCK) else Done((ELEMS_PER_BLOCK, r1));
    var (t, r3) :- Read(r2, 1);
    Done((n, t + 1 == 1, r3))
  }

  function DecodeBlock(d: Decoder): Outcome<(seq<nat>, Decoder)> {
    var (n, small, r) :- ReadHeader(d.r);
    var d1 :- Selector(small, Decoder(r, d.width));
    DecodeElems(small, d1, n, [])
  }

  /** WriteDocGaps in DOCNUM mode: running sums in unsigned 32-bit arithmetic. */
  function RunningSums(curr: nat, gaps: seq<nat>): (docs: seq<nat>)
    ensures |docs| == |gaps|
  {
    if gaps == [] then []
    else
      var docs := RunningSums(curr, gaps[..|gaps| - 1]);
      var last := if docs == [] then curr else docs[|docs| - 1];
      docs + [(last + gaps[|gaps| - 1]) % WORD]
  }

  /** Bits and words not yet consumed, so that every block header makes it smaller. */
  ghost function Supply(r: Reader): int {
    33 * |r.unread| + r.remaining + 1
  }

  ghost predicate Consumes(before: Reader, after: Reader) {
    after.remaining >= 0 && Supply(after) <= Supply(before)
  }

  lemma ReadConsumes(r: Reader, b: nat)
    requires b <= 28 && r.remaining >= -1 && Read(r, b).Done?
    ensures Consumes(r, Read(r, b).value.1)
    ensures b > 0 ==> Supply(Read(r, b).value.1) < Supply(r)
  {
  }

  lemma SelectorConsumes(small: bool, d: Decoder)
    requires d.r.remaining >= 0 && Selector(small, d).Done?
    ensures Consumes(d.r, Selector(small, d).value.r)
    ensures Selector(small, d).value.width <= Selector(small, d).value.r.remaining
  {
  }

  lemma {:induction false} ElemsConsume(small: bool, d: Decoder, n: nat, gaps: seq<nat>)
    requires d.r.remaining >= 0 && DecodeElems(small, d, n, gaps).Done?
    ensures Consumes(d.r, DecodeElems(small, d, n, gaps).value.1.r)
    ensures |DecodeElems(small, d, n, gaps).value.0| == |gaps| + n
    decreases n
  {
    if n == 0 {
    } else {
      if d.r.remaining < d.width {
        SelectorConsumes(small, d);
      }
      var (x, d') := DecodeElem(small, d).value;
      ElemsConsume(small, d', n - 1, gaps + [x]);
    }
  }

  lemma BlockConsumes(d: Decoder)
    requires d.r.remaining >= -1 && DecodeBlock(d).Done?
    ensures Consumes(d.r, DecodeBlock(d).value.1.r)
    ensures Supply(DecodeBlock(d).value.1.r) < Supply(d.r)
  {
    ReadConsumes(d.r, 1);
    var (v, r1) := Read(d.r, 1).value;
    if v + 1 == 2 {
      ReadConsumes(r1, BITS_FOR_ELEMS_PER_BLOCK);
    }
    var (n, r2) := if v + 1 == 2 then Read(r1, BITS_FOR_ELEMS_PER_BLOCK).value else (ELEMS_PER_BLOCK, r1);
    ReadConsumes(r2, 1);
    var (n', small, r) := ReadHeader(d.r).value;
    SelectorConsumes(small, Decoder(r, d.width));
    ElemsConsume(small, Selector(small, Decoder(r, d.width)).value, n', []);
  }

  /** The while loop of CarryDecodeFile: it ends at the first short block. */
  function DecodeBlocks(d: Decoder, curr: nat, out: seq<nat>): Outcome<seq<nat>>
    requires d.r.remaining >= -1
    decreases Supply(d.r)
  {
    var (gaps, d') :- DecodeBlock(d);
    if gaps == [] then Failed(EmptyBlock)
    else
      var docs := RunningSums(curr, gaps);
      if |gaps| < ELEMS_PER_BLOCK then Done(out + docs)
      else
        assert Supply(d'.r) < Supply(d.r) && d'.r.remaining >= 0 by { BlockConsumes(d); }
        DecodeBlocks(d', docs[|docs| - 1], out + docs)
  }

  function Decode(file: seq<nat>): Outcome<seq<nat>> {
    DecodeBlocks(Decoder(Reader(-1, 0, file), TRANS_TABLE_STARTER), 0, [])
  }
}
