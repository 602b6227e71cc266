/** The encoder and decoder loops of src/carry.c, proved against CarryCode. */
module CarryCoder {
  import opened Bits
  import W = CarryWords
  import C = CarryCode
  import opened CarryLockstep

  type Outcome<+T> = W.Outcome<T>

  /** The state of the WORD_ENCODE macros. */
  class WordWriter {
    const value: array<nat>
    const bits: array<nat>
    var pvalue: nat
    var remaining: int
    var file: seq<nat>

    ghost function Fields(): seq<W.Field>
      reads this, value, bits
      requires pvalue <= value.Length && pvalue <= bits.Length
    {
      seq(pvalue, i requires 0 <= i < pvalue <= value.Length && pvalue <= bits.Length reads this, value, bits =>
        W.Field(value[i], bits[i]))
    }

    ghost predicate Shape()
      reads this, value, bits
    {
      && value != bits && value.Length == 32 && bits.Length == 32 && pvalue <= 32
      && W.InRange(Fields()) && W.TotalBits(Fields()) <= 32
      && remaining == 32 - W.TotalBits(Fields())
    }

    ghost predicate Valid()
      reads this, value, bits
    {
      Shape() && (pvalue == 0 ==> file == [])
    }

    ghost function State(): W.Writer
      reads this, value, bits
      requires Shape()
    {
      W.Writer(file, Fields())
    }

    constructor ()
      ensures Valid() && State() == W.EmptyWriter && fresh(value) && fresh(bits)
    {
      value, bits := new nat[32], new nat[32];
      pvalue, remaining, file := 0, 32, [];
    }

    /** WORD_ENCODE_WRITE. */
    method WriteWord()
      requires Shape() && pvalue > 0
      modifies this
      ensures Shape() && pvalue == 0 && State() == W.Writer(old(file) + [W.Pack(old(Fields()))], [])
    {
      ghost var fs := Fields();
      var p := pvalue - 1;
      var word := value[p];
      while p > 0
        invariant 0 <= p < pvalue && word == W.ShiftOr(fs, p)
      {
        p := p - 1;
        word := BitOr((word * Pow2(bits[p])) % WORD, value[p]);
      }
      W.ShiftOrIsPack(fs);
      file := file + [word];
      remaining := 32;
      pvalue := 0;
    }

    /** WORD_ENCODE and WORD_ZERO_ENCODE; false when the field array is full. */
    method Put(v: nat, b: nat) returns (ok: bool)
      requires Valid() && b <= 28 && v < Pow2(b)
      modifies this, value, bits
      ensures ok == W.Put(old(State()), W.Field(v, b)).Done?
      ensures ok ==> Valid() && State() == W.Put(old(State()), W.Field(v, b)).value
    {
      ghost var before := State();
      if remaining < b {
        WriteWord();
      }
      if pvalue == 32 {
        return false;
      }
      ghost var fs := Fields();
      value[pvalue] := v;
      bits[pvalue] := b;
      pvalue := pvalue + 1;
      remaining := remaining - b;
      assert Fields() == fs + [W.Field(v, b)];
      assert Fields()[..pvalue - 1] == fs;
      return true;
    }

    /** WORD_ENCODE_END. */
    method Finish()
      requires Valid()
      modifies this
      ensures file == W.Flush(old(State()))
    {
      if pvalue != 0 {
        WriteWord();
      }
    }
  }

  /** CEILLOG_2: the shift loop agrees with the table-driven QCEILLOG_2. */
  method CeilLog2(x: nat) returns (v: nat)
    requires 1 <= x <= WORD
    ensures IsCeilLog(x, v) && v == C.QCeilLog2(x)
  {
    hide LeadingPart, C.QCeilLog2;
    var b: nat := x - 1;
    v := 0;
    LeadingStart(b);
    while b != 0
      invariant LeadingPart(b, v, x - 1)
      decreases b
    {
      LeadingStep(b, v, x - 1);
      b := b / 2;
      v := v + 1;
    }
    LeadingEnd(v, x - 1);
    QCeilLog2IsCeilLog(x);
    CeilLogUnique(x, v, C.QCeilLog2(x));
  }

  /** b is what is left of x after v right shifts, none of them of zero. */
  ghost predicate LeadingPart(b: nat, v: nat, x: nat) {
    b * Pow2(v) <= x < b * Pow2(v) + Pow2(v) && (v > 0 ==> Pow2(v - 1) <= x)
  }

  lemma LeadingStart(x: nat)
    ensures LeadingPart(x, 0, x)
  {
  }

  lemma LeadingStep(b: nat, v: nat, x: nat)
    requires b > 0 && LeadingPart(b, v, x)
    ensures LeadingPart(b / 2, v + 1, x)
  {
    var h, r, p := b / 2, b % 2, Pow2(v);
    assert b * p == h * (2 * p) + r * p by { assert b == 2 * h + r; }
    MulAtLeast(p, b);
  }

  lemma LeadingEnd(v: nat, x: nat)
    requires LeadingPart(0, v, x)
    ensures x < Pow2(v) && (v > 0 ==> Pow2(v - 1) <= x)
  {
  }

  lemma CeilLogUnique(x: nat, v: nat, u: nat)
    requires IsCeilLog(x, v) && IsCeilLog(x, u)
    ensures v == u
  {
    if v < u {
      Pow2Monotonic(v, u - 1);
    } else if u < v {
      Pow2Monotonic(u, v - 1);
    }
  }

  /** CalcMinBits: the width of each gap and the largest width. */
  method CalcMinBits(gaps: array<nat>, bits: array<nat>, n: nat) returns (max: nat)
    requires gaps != bits && n <= gaps.Length && n <= bits.Length && C.ValidGaps(gaps[..n])
    modifies bits
    ensures bits[..n] == C.BitsOf(gaps[..n]) && max == C.MaxOf(C.BitsOf(gaps[..n]))
  {
    max := 0;
    for i := 0 to n
      invariant forall k | 0 <= k < i :: bits[k] == C.QCeilLog2(gaps[k])
      invariant max == C.MaxOf(bits[..i])
    {
      assert gaps[..n][i] == gaps[i];
      bits[i] := C.QCeilLog2(gaps[i]);
      assert bits[..i + 1][..i] == bits[..i];
      if max < bits[i] {
        max := bits[i];
      }
    }
    assert bits[..n] == C.BitsOf(gaps[..n]);
  }

  /** elems_coded. */
  method ElemsCoded(avail: nat, len: nat, bits: array<nat>, start: nat, n: nat) returns (k: nat)
    requires start < n <= bits.Length
    ensures k == C.ElemsCoded(avail, len, bits[..n], start)
  {
    ghost var s := bits[..n];
    if len > 0 {
      var most := Divide(avail, len);
      var end := if most <= n - start then start + most else n;
      var i := start;
      while i < end && bits[i] <= len
        invariant start <= i <= end
        invariant forall m | start <= m < i :: s[m] <= len
      {
        i := i + 1;
      }
      if i < end {
        assert s[i] > len;
        return 0;
      }
      return end - start;
    } else {
      var i := start;
      while i < start + C.MAX_ELEM_PER_WORD && i < n && bits[i] <= len
        invariant start <= i <= n && i - start <= C.MAX_ELEM_PER_WORD
        invariant C.ZeroRun(s, start, C.MAX_ELEM_PER_WORD)
               == i - start + C.ZeroRun(s, i, C.MAX_ELEM_PER_WORD - (i - start))
      {
        i := i + 1;
      }
      if i - start < 2 {
        return 0;
      }
      return i - start;
    }
  }

  method Divide(a: nat, d: nat) returns (q: nat)
    requires d > 0
    ensures q == C.Quotient(a, d)
  {
    DivIsQuotient(a, d);
    q := a / d;
  }

  lemma DivIsQuotient(a: nat, d: nat)
    requires d > 0
    ensures a / d == C.Quotient(a, d)
  {
    QuotientBounds(a, d);
    DigitsUnique(d, a / d, a % d, C.Quotient(a, d), a - C.Quotient(a, d) * d);
  }

  /** The column loop of the encoder, with its restart at a fresh word. */
  method PickColumn(row: C.Row, avail0: nat, bits: array<nat>, i: nat, n: nat) returns (j: nat, size: nat, elems: nat)
    requires i < n <= bits.Length && row.c0 <= row.c1 <= row.c2 <= row.c3 <= 28 && avail0 <= 32
    ensures C.Choice(j, size, elems) == C.FirstFit(row, avail0, bits[..n], i, 0)
  {
    var avail := avail0;
    j, size, elems := 0, row.c3, 0;
    while j < 4
      invariant j <= 4 && avail <= 32 && elems == 0
      invariant j == 4 ==> size == row.c3
      invariant C.FirstFit(row, avail, bits[..n], i, j) == C.FirstFit(row, avail0, bits[..n], i, 0)
      decreases 32 - avail, 4 - j
    {
      size := C.Column(row, j);
      if size > avail {
        avail, j := 32, 0;
      } else {
        elems := ElemsCoded(avail, size, bits, i, n);
        if elems != 0 {
          return;
        }
        j := j + 1;
      }
    }
  }

  /** The gaps of one group. */
  method PutGaps(a: array<nat>, i: nat, k: nat, n: nat, size: nat, w: WordWriter) returns (ok: bool)
    requires i + k <= n <= a.Length && C.ValidGaps(a[..n]) && size <= 28
    requires forall m | i <= m < i + k :: a[..n][m] - 1 < Pow2(size)
    requires w.Valid() && a != w.value && a != w.bits
    modifies w, w.value, w.bits
    ensures ok == C.PutGaps(old(w.State()), a[..n], i, k, size).Done?
    ensures ok ==> w.Valid() && w.State() == C.PutGaps(old(w.State()), a[..n], i, k, size).value
    ensures !ok ==> C.PutGaps(old(w.State()), a[..n], i, k, size) == W.Failed(W.FieldOverflow)
  {
    hide W.Put;
    ghost var gaps, w0 := a[..n], w.State();
    var z := i;
    while z < i + k
      invariant i <= z <= i + k && w.Valid() && a[..n] == gaps
      invariant C.PutGaps(w.State(), gaps, z, i + k - z, size) == C.PutGaps(w0, gaps, i, k, size)
    {
      assert gaps[z] == a[z];
      ghost var before := w.State();
      var ok1 := w.Put(a[z] - 1, size);
      if !ok1 {
        PutFailure(before, W.Field(gaps[z] - 1, size));
        return false;
      }
      z := z + 1;
    }
    return true;
  }

  lemma PutFailure(w: W.Writer, f: W.Field)
    ensures W.Put(w, f).Failed? ==> W.Put(w, f) == W.Failed(W.FieldOverflow)
  {
  }

  /** One turn of the encoder loop: choose a column, put the selector, put the gaps. */
  method EncodeGroup(
      small: bool, a: array<nat>, bits: array<nat>, i: nat, n: nat, size: nat, w: WordWriter, ghost e: C.Encoder)
    returns (r: Outcome<nat>, size': nat)
    requires i < n <= a.Length && n <= bits.Length && C.ValidGaps(a[..n]) && bits[..n] == C.BitsOf(a[..n])
    requires w.Valid() && e == C.Encoder(w.State(), size)
    requires a != w.value && a != w.bits && bits != w.value && bits != w.bits
    modifies w, w.value, w.bits
    ensures var g := C.EncodeGroup(small, a[..n], i, e);
      && (r.Failed? ==> g == W.Failed(r.failure))
      && (r.Done? ==> w.Valid() && g == W.Done(C.Group(r.value, C.Encoder(w.State(), size'))))
  {
    size' := size;
    ghost var gaps := a[..n];
    var thirty := w.remaining < 2;
    var avail := if thirty then 30 else w.remaining - 2;
    var row := C.TransRow(small, thirty, size);
    hide C.TransRow, W.Put, C.PutGaps, C.FirstFit;
    var j, width, elems := PickColumn(row, avail, bits, i, n);
    ghost var c := C.Select(small, e, C.BitsOf(gaps), i);
    assert C.Choice(j, width, elems) == c;
    if elems == 0 {
      return W.Failed(W.NoColumnFits), size;
    }
    SelectFillsGroup(small, e, C.BitsOf(gaps), i);
    size' := width;
    assert Pow2(2) == 4;
    PutFailure(e.w, W.Field(j, 2));
    var ok := w.Put(j, 2);
    if !ok {
      return W.Failed(W.FieldOverflow), width;
    }
    forall m | i <= m < i + elems ensures gaps[m] - 1 < Pow2(width) { GapFits(gaps[m], width); }
    ok := PutGaps(a, i, elems, n, width, w);
    if !ok {
      return W.Failed(W.FieldOverflow), width;
    }
    return W.Done(elems), width;
  }

  /** CARRY_BLOCK_ENCODE_START. */
  method PutHeader(w: WordWriter, n: nat, small: bool) returns (ok: bool)
    requires w.Valid() && 1 <= n <= C.ELEMS_PER_BLOCK
    modifies w, w.value, w.bits
    ensures ok == C.PutHeader(old(w.State()), n, small).Done?
    ensures ok ==> w.Valid() && w.State() == C.PutHeader(old(w.State()), n, small).value
  {
    Pow2Values();
    assert Pow2(1) == 2;
    if n == C.ELEMS_PER_BLOCK {
      ok := w.Put(0, 1);
    } else {
      ok := w.Put(1, 1);
      if ok {
        ok := w.Put(n, C.BITS_FOR_ELEMS_PER_BLOCK);
      }
    }
    if ok {
      ok := w.Put(if small then 0 else 1, 1);
    }
  }

  lemma HeaderFailure(w: W.Writer, n: nat, small: bool)
    ensures C.PutHeader(w, n, small).Failed? ==> C.PutHeader(w, n, small) == W.Failed(W.FieldOverflow)
  {
  }

  /** The loop over the gaps of one block. */
  method EncodeGroups(small: bool, a: array<nat>, bits: array<nat>, n: nat, size: nat, w: WordWriter)
    returns (r: Outcome<nat>)
    requires n <= a.Length && n <= bits.Length && C.ValidGaps(a[..n]) && bits[..n] == C.BitsOf(a[..n])
    requires w.Valid() && a != w.value && a != w.bits && bits != w.value && bits != w.bits
    modifies w, w.value, w.bits
    ensures var b := C.EncodeGroups(small, a[..n], 0, C.Encoder(old(w.State()), size));
      && (r.Failed? ==> b == W.Failed(r.failure))
      && (r.Done? ==> w.Valid() && b == W.Done(C.Encoder(w.State(), r.value)))
  {
    hide C.EncodeGroup;
    ghost var gaps, e0 := a[..n], C.Encoder(w.State(), size);
    var i: nat, width: nat := 0, size;
    while i < n
      invariant i <= n && w.Valid() && a[..n] == gaps && bits[..n] == C.BitsOf(gaps)
      invariant C.EncodeGroups(small, gaps, i, C.Encoder(w.State(), width)) == C.EncodeGroups(small, gaps, 0, e0)
    {
      var g, width' := EncodeGroup(small, a, bits, i, n, width, w, C.Encoder(w.State(), width));
      if g.Failed? {
        return W.Failed(g.failure);
      }
      i, width := i + g.value, width';
    }
    return W.Done(width);
  }

  /** One block of n gaps in a[..n]. */
  method EncodeBlock(a: array<nat>, bits: array<nat>, n: nat, size: nat, w: WordWriter)
    returns (r: Outcome<nat>)
    requires a != bits && 1 <= n <= C.ELEMS_PER_BLOCK && n <= a.Length && n <= bits.Length && C.ValidGaps(a[..n])
    requires w.Valid() && a != w.value && a != w.bits && bits != w.value && bits != w.bits
    modifies bits, w, w.value, w.bits
    ensures var b := C.EncodeBlock(a[..n], C.Encoder(old(w.State()), size));
      && (r.Failed? ==> b == W.Failed(r.failure))
      && (r.Done? ==> w.Valid() && b == W.Done(C.Encoder(w.State(), r.value)))
  {
    ghost var gaps := a[..n];
    ghost var before := w.State();
    var max := CalcMinBits(a, bits, n);
    if max > 28 {
      return W.Failed(W.GapTooLarge);
    }
    var small := max <= 16;
    HeaderFailure(before, n, small);
    hide C.PutHeader, C.EncodeGroups;
    var ok := PutHeader(w, n, small);
    if !ok {
      return W.Failed(W.FieldOverflow);
    }
    r := EncodeGroups(small, a, bits, n, size, w);
  }

  /** The gap loop of DpsCarryLimitWrite: the gaps of the next block. */
  method FillBlock(ids: seq<nat>, z: nat, curr: nat, a: array<nat>) returns (n: nat, curr': nat)
    requires C.ValidIds(ids) && z < |ids| && a.Length == C.ELEMS_PER_BLOCK
    requires curr == if z == 0 then 0 else ids[z - 1]
    modifies a
    ensures n == C.BlockLength(C.Gaps(ids)[z..]) && z + n <= |ids|
    ensures a[..n] == C.Gaps(ids)[z..z + n]
    ensures curr' == ids[z + n - 1]
  {
    n, curr' := 0, curr;
    while n < C.ELEMS_PER_BLOCK && z + n < |ids|
      invariant n <= C.ELEMS_PER_BLOCK && z + n <= |ids|
      invariant curr' == if z + n == 0 then 0 else ids[z + n - 1]
      invariant forall m | 0 <= m < n :: a[m] == C.Gaps(ids)[z + m]
    {
      a[n] := ids[z + n] - curr';
      curr' := ids[z + n];
      n := n + 1;
    }
  }

  /** DpsCarryLimitWrite: the words written to the file, or the way the program stops. */
  method CarryLimitWrite(ids: seq<nat>) returns (r: Outcome<seq<nat>>)
    requires C.ValidIds(ids)
    ensures r == C.Encode(ids)
  {
    var a := new nat[C.ELEMS_PER_BLOCK];
    var bits := new nat[C.ELEMS_PER_BLOCK];
    var w := new WordWriter();
    ghost var gaps := C.Gaps(ids);
    var size: nat, curr: nat, z: nat := C.TRANS_TABLE_STARTER, 0, 0;
    hide C.EncodeBlocks, C.Gaps;
    assert gaps[0..] == gaps;
    while z < |ids|
      invariant z <= |ids| && w.Valid() && fresh(w) && fresh(w.value) && fresh(w.bits)
      invariant a != w.value && a != w.bits && bits != w.value && bits != w.bits && a != bits
      invariant curr == if z == 0 then 0 else ids[z - 1]
      invariant C.EncodeBlocks(gaps[z..], C.Encoder(w.State(), size)) == C.EncodeBlocks(gaps, C.EncoderStart)
    {
      var b;
      b, z, curr := EncodeNext(ids, z, curr, a, bits, size, w);
      if b.Failed? {
        return W.Failed(b.failure);
      }
      size := b.value;
    }
    assert gaps[z..] == [];
    NothingToEncode(C.Encoder(w.State(), size));
    w.Finish();
    return W.Done(w.file);
  }

  /** One turn of the outer loop of DpsCarryLimitWrite. */
  method EncodeNext(ids: seq<nat>, z: nat, curr: nat, a: array<nat>, bits: array<nat>, size: nat, w: WordWriter)
    returns (r: Outcome<nat>, z': nat, curr': nat)
    requires C.ValidIds(ids) && z < |ids| && curr == if z == 0 then 0 else ids[z - 1]
    requires a != bits && a.Length == bits.Length == C.ELEMS_PER_BLOCK
    requires w.Valid() && a != w.value && a != w.bits && bits != w.value && bits != w.bits
    modifies a, bits, w, w.value, w.bits
    ensures z < z' <= |ids| && curr' == ids[z' - 1]
    ensures var b := C.EncodeBlocks(C.Gaps(ids)[z..], C.Encoder(old(w.State()), size));
      && (r.Failed? ==> b == W.Failed(r.failure))
      && (r.Done? ==> w.Valid() && b == C.EncodeBlocks(C.Gaps(ids)[z'..], C.Encoder(w.State(), r.value)))
  {
    hide C.EncodeBlock, C.EncodeBlocks, C.Gaps;
    var n: nat;
    n, curr' := FillBlock(ids, z, curr, a);
    EncodeOneBlock(C.Gaps(ids), z, n, C.Encoder(w.State(), size));
    r := EncodeBlock(a, bits, n, size, w);
    z' := z + n;
  }

  lemma NothingToEncode(e: C.Encoder)
    ensures C.EncodeBlocks([], e) == W.Done(e)
  {
  }

  lemma EncodeOneBlock(gaps: seq<nat>, z: nat, n: nat, e: C.Encoder)
    requires C.ValidGaps(gaps) && z < |gaps| && n == C.BlockLength(gaps[z..])
    ensures 1 <= n <= C.ELEMS_PER_BLOCK && z + n <= |gaps|
    ensures C.EncodeBlocks(gaps[z..], e)
         == var e' :- C.EncodeBlock(gaps[z..z + n], e); C.EncodeBlocks(gaps[z + n..], e')
  {
    hide C.EncodeBlock;
    assert gaps[z..][..n] == gaps[z..z + n] && gaps[z..][n..] == gaps[z + n..];
  }

  // ---------- decoder ----------

  const WORD_BUFFER_SIZE := 1024

  /** The state of the WORD_DECODE macros. */
  class WordReader {
    const buffer: array<nat>
    var pos: nat
    var end: nat
    var file: seq<nat>
    var remaining: int
    var word: nat

    ghost predicate Valid()
      reads this, buffer
    {
      buffer.Length == WORD_BUFFER_SIZE && end <= WORD_BUFFER_SIZE && remaining >= -1
    }

    ghost function State(): W.Reader
      reads this, buffer
      requires Valid()
    {
      W.Reader(remaining, word, (if pos < end then buffer[pos..end] else []) + file)
    }

    constructor (f: seq<nat>)
      ensures Valid() && State() == W.Reader(-1, 0, f) && fresh(buffer)
    {
      buffer := new nat[WORD_BUFFER_SIZE];
      pos, end, file, remaining, word := 1, 0, f, -1, 0;
      new;
      assert State().unread == f;
    }

    /** GET_NEW_WORD; false when the file is exhausted. */
    method GetNewWord() returns (ok: bool)
      requires Valid()
      modifies this, buffer
      ensures Valid() && remaining == old(remaining) && ok == (old(State()).unread != [])
      ensures ok ==> State() == W.Reader(remaining, old(State()).unread[0], old(State()).unread[1..])
    {
      if pos >= end {
        ok := Refill();
        if !ok {
          return;
        }
      }
      ghost var unread := State().unread;
      word := buffer[pos];
      pos := pos + 1;
      assert buffer[pos - 1..end][1..] == buffer[pos..end];
      assert State().unread == unread[1..];
      ok := true;
    }

    /** The fread of GET_NEW_WORD. */
    method Refill() returns (ok: bool)
      requires Valid() && pos >= end
      modifies this, buffer
      ensures Valid() && State() == old(State()) && remaining == old(remaining)
      ensures ok == (old(State()).unread != []) && (ok ==> pos < end)
    {
      var tmp := if |file| < WORD_BUFFER_SIZE then |file| else WORD_BUFFER_SIZE;
      if tmp < 1 {
        return false;
      }
      forall k | 0 <= k < tmp {
        buffer[k] := file[k];
      }
      assert buffer[0..tmp] == file[..tmp];
      assert file[..tmp] + file[tmp..] == file;
      file := file[tmp..];
      pos, end := 0, tmp;
      ok := true;
    }

    /** The fetch in front of a field of b bits. */
    method Need(b: nat) returns (ok: bool)
      requires Valid() && b <= 32
      modifies this, buffer
      ensures Valid() && ok == W.Need(old(State()), b).Done?
      ensures ok ==> State() == W.Need(old(State()), b).value
    {
      if remaining < b {
        ok := GetNewWord();
        if ok {
          remaining := 32;
        }
      } else {
        ok := true;
      }
    }

    method Take(b: nat) returns (v: nat)
      requires Valid() && b <= remaining
      modifies this
      ensures Valid() && (v, State()) == W.Take(old(State()), b)
    {
      v := BitAnd(word, Pow2(b) - 1);
      word := Shr(word, b);
      remaining := remaining - b;
    }

    /** WORD_ZERO_DECODE. */
    method Read(b: nat) returns (ok: bool, v: nat)
      requires Valid() && b <= 28
      modifies this, buffer
      ensures Valid() && ok == W.Read(old(State()), b).Done?
      ensures ok ==> (v, State()) == W.Read(old(State()), b).value
    {
      v := 0;
      ok := Need(b);
      if ok {
        v := Take(b);
      }
    }
  }

  /** CARRY_DECODE_GET_SELECTOR. */
  method GetSelector(small: bool, r: WordReader, width: nat) returns (ok: bool, width': nat)
    requires r.Valid()
    modifies r, r.buffer
    ensures r.Valid()
    ensures var d := C.Selector(small, C.Decoder(old(r.State()), width));
      ok == d.Done? && (ok ==> d.value == C.Decoder(r.State(), width'))
  {
    assert Pow2(2) == 4;
    if r.remaining >= 2 {
      AndMask(r.word, 2);
      LowBelow(r.word, 2);
      var v := r.Take(2);
      width' := C.Column(C.TransRow(small, false, width), v);
      hide C.TransRow;
      ok := r.Need(width');
    } else {
      width' := width;
      ok := r.Need(2);
      if ok {
        AndMask(r.word, 2);
        LowBelow(r.word, 2);
        var v := r.Take(2);
        width' := C.Column(C.TransRow(small, true, width), v);
      }
    }
  }

  /** CARRY_DECODE. */
  method DecodeElem(small: bool, r: WordReader, width: nat) returns (ok: bool, x: nat, width': nat)
    requires r.Valid() && r.remaining >= 0
    modifies r, r.buffer
    ensures r.Valid()
    ensures var d := C.DecodeElem(small, C.Decoder(old(r.State()), width));
      ok == d.Done? && (ok ==> r.remaining >= 0 && d.value == (x, C.Decoder(r.State(), width')))
  {
    SelectorKeeps(small, C.Decoder(r.State(), width));
    hide C.Selector;
    ok, x, width' := true, 0, width;
    if r.remaining < width {
      ok, width' := GetSelector(small, r, width);
    }
    if ok {
      var v := r.Take(width');
      x := v + 1;
    }
  }

  /** The element loop of a block, into a. */
  method DecodeElems(small: bool, r: WordReader, width: nat, n: nat, a: array<nat>) returns (ok: bool, width': nat)
    requires r.Valid() && n <= a.Length && a != r.buffer && r.remaining >= 0
    modifies r, r.buffer, a
    ensures r.Valid()
    ensures var d := C.DecodeElems(small, C.Decoder(old(r.State()), width), n, []);
      ok == d.Done? && (ok ==> d.value == (a[..n], C.Decoder(r.State(), width')))
  {
    hide C.DecodeElem;
    ghost var d0 := C.Decoder(r.State(), width);
    width', ok := width, true;
    for i := 0 to n
      invariant r.Valid() && ok && r.remaining >= 0
      invariant C.DecodeElems(small, C.Decoder(r.State(), width'), n - i, a[..i]) == C.DecodeElems(small, d0, n, [])
    {
      var x: nat;
      ok, x, width' := DecodeElem(small, r, width');
      if !ok {
        return;
      }
      a[i] := x;
      assert a[..i + 1] == a[..i] + [x];
    }
  }

  lemma SelectorKeeps(small: bool, d: C.Decoder)
    requires d.r.remaining >= 0
    ensures C.Selector(small, d).Done? ==>
      var d' := C.Selector(small, d).value; d'.width <= d'.r.remaining
  {
    if C.Selector(small, d).Done? {
      C.SelectorConsumes(small, d);
    }
  }

  /** The header of CARRY_BLOCK_DECODE_START. */
  method ReadHeader(r: WordReader) returns (ok: bool, n: nat, small: bool)
    requires r.Valid()
    modifies r, r.buffer
    ensures r.Valid()
    ensures var h := C.ReadHeader(old(r.State()));
      ok == h.Done? && (ok ==> r.remaining >= 0 && h.value == (n, small, r.State()))
    ensures ok ==> n <= C.ELEMS_PER_BLOCK
  {
    small := false;
    Pow2Values();
    ok, n := r.Read(1);
    if !ok {
      return;
    }
    if n + 1 == 2 {
      AndMask(r.word, C.BITS_FOR_ELEMS_PER_BLOCK);
      ok, n := ReadCount(r);
      if !ok {
        return;
      }
    } else {
      n := C.ELEMS_PER_BLOCK;
    }
    var t: nat;
    ok, t := r.Read(1);
    small := t + 1 == 1;
  }

  method ReadCount(r: WordReader) returns (ok: bool, n: nat)
    requires r.Valid()
    modifies r, r.buffer
    ensures r.Valid() && ok == W.Read(old(r.State()), C.BITS_FOR_ELEMS_PER_BLOCK).Done?
    ensures ok ==> (n, r.State()) == W.Read(old(r.State()), C.BITS_FOR_ELEMS_PER_BLOCK).value
    ensures ok ==> n < C.ELEMS_PER_BLOCK
  {
    Pow2Values();
    ok, n := r.Read(C.BITS_FOR_ELEMS_PER_BLOCK);
    if ok {
      ghost var word := W.Need(old(r.State()), C.BITS_FOR_ELEMS_PER_BLOCK).value.word;
      AndMask(word, C.BITS_FOR_ELEMS_PER_BLOCK);
      LowBelow(word, C.BITS_FOR_ELEMS_PER_BLOCK);
    }
  }

  /** WriteDocGaps in DOCNUM mode: turn gaps into ids in place. */
  method WriteDocGaps(a: array<nat>, n: nat, curr: nat) returns (curr': nat)
    requires 1 <= n <= a.Length
    modifies a
    ensures a[..n] == C.RunningSums(curr, old(a[..n])) && curr' == a[n - 1]
  {
    ghost var gaps := a[..n];
    a[0] := (curr + a[0]) % WORD;
    assert gaps[..1][..0] == [];
    var i := 1;
    while i < n
      invariant 1 <= i <= n && a[..i] == C.RunningSums(curr, gaps[..i])
      invariant forall k | i <= k < n :: a[k] == gaps[k]
    {
      a[i] := (a[i] + a[i - 1]) % WORD;
      assert gaps[..i + 1][..i] == gaps[..i];
      assert a[..i + 1] == a[..i] + [a[i]];
      i := i + 1;
    }
    assert gaps[..n] == gaps;
    curr' := a[n - 1];
  }

  /** One block: header, selector, elements. */
  method DecodeBlock(r: WordReader, width: nat, a: array<nat>) returns (ok: bool, n: nat, width': nat)
    requires r.Valid() && a.Length == C.ELEMS_PER_BLOCK && a != r.buffer
    modifies r, r.buffer, a
    ensures r.Valid()
    ensures var d := C.DecodeBlock(C.Decoder(old(r.State()), width));
      ok == d.Done? && (ok ==> n <= a.Length && d.value == (a[..n], C.Decoder(r.State(), width')))
  {
    hide C.ReadHeader, C.Selector, C.DecodeElems;
    width' := width;
    var small: bool;
    ok, n, small := ReadHeader(r);
    if !ok {
      return;
    }
    SelectorRemaining(small, C.Decoder(r.State(), width));
    ok, width' := GetSelector(small, r, width);
    if !ok {
      return;
    }
    ok, width' := DecodeElems(small, r, width', n, a);
  }

  lemma SelectorRemaining(small: bool, d: C.Decoder)
    requires d.r.remaining >= 0
    ensures C.Selector(small, d).Done? ==> C.Selector(small, d).value.r.remaining >= 0
  {
    SelectorKeeps(small, d);
  }

  /** CarryDecodeFile in DOCNUM mode: the ids it writes, or the way it stops. */
  method CarryDecodeFile(file: seq<nat>, a: array<nat>) returns (r: Outcome<seq<nat>>)
    requires a.Length == C.ELEMS_PER_BLOCK
    modifies a
    ensures r == C.Decode(file)
  {
    hide C.DecodeBlock, C.DecodeBlocks, C.RunningSums;
    var rd := new WordReader(file);
    var width: nat, curr: nat, out: seq<nat> := C.TRANS_TABLE_STARTER, 0, [];
    while true
      invariant rd.Valid() && fresh(rd) && fresh(rd.buffer) && a != rd.buffer
      invariant C.DecodeBlocks(C.Decoder(rd.State(), width), curr, out) == C.Decode(file)
      decreases C.Supply(rd.State())
    {
      ghost var d := C.Decoder(rd.State(), width);
      var ok, n, width' := DecodeBlock(rd, width, a);
      BlocksStep(d, curr, out);
      if !ok {
        return W.Failed(W.EndOfInput);
      }
      if n == 0 {
        return W.Failed(W.EmptyBlock);
      }
      width := width';
      curr := WriteDocGaps(a, n, curr);
      out := out + a[..n];
      if n < C.ELEMS_PER_BLOCK {
        return W.Done(out);
      }
    }
  }

  /** One turn of the decoder's loop; a block can only fail for want of input. */
  lemma BlocksStep(d: C.Decoder, curr: nat, out: seq<nat>)
    requires d.r.remaining >= -1
    ensures C.DecodeBlock(d).Failed? ==> C.DecodeBlocks(d, curr, out) == W.Failed(W.EndOfInput)
    ensures C.DecodeBlock(d).Done? ==>
      var b := C.DecodeBlock(d).value;
      var docs := C.RunningSums(curr, b.0);
      && C.Supply(b.1.r) < C.Supply(d.r) && b.1.r.remaining >= 0
      && C.DecodeBlocks(d, curr, out)
         == if b.0 == [] then W.Failed(W.EmptyBlock)
            else if |b.0| < C.ELEMS_PER_BLOCK then W.Done(out + docs)
            else C.DecodeBlocks(b.1, docs[|docs| - 1], out + docs)
  {
    if C.DecodeBlock(d).Done? {
      C.BlockConsumes(d);
    } else {
      BlockFailure(d);
    }
    hide C.DecodeBlock;
  }

  lemma BlockFailure(d: C.Decoder)
    requires C.DecodeBlock(d).Failed?
    ensures C.DecodeBlock(d) == W.Failed(W.EndOfInput)
  {
    hide C.DecodeElems, C.TransRow, W.Take;
    if C.ReadHeader(d.r).Done? {
      var (n, small, r) := C.ReadHeader(d.r).value;
      var d1 := C.Selector(small, C.Decoder(r, d.width));
      if d1.Done? {
        ElemsFailure(small, d1.value, n, []);
      }
    }
  }

  lemma {:induction false} ElemsFailure(small: bool, d: C.Decoder, n: nat, acc: seq<nat>)
    ensures C.DecodeElems(small, d, n, acc).Failed? ==> C.DecodeElems(small, d, n, acc) == W.Failed(W.EndOfInput)
    decreases n
  {
    hide C.TransRow, W.Take;
    if n > 0 && C.DecodeElem(small, d).Done? {
      var (x, d') := C.DecodeElem(small, d).value;
      ElemsFailure(small, d', n - 1, acc + [x]);
    }
  }
}
