/** Word-level packing of bit fields (WORD_ENCODE and WORD_DECODE in include/dps_carry.h). */
module CarryWords {
  import opened Bits

  /** One entry of the encoder's __value / __bits arrays. */
  datatype Field = Field(value: nat, bits: nat)

  /** Results of the encoder and the decoder; each failure is one way the program stops short. */
  datatype Failure =
    | GapTooLarge      // CalcMinBits exits: a gap exceeds 2^28
    | NoColumnFits     // no column codes a gap: the encoder loop never advances again
    | FieldOverflow    // a 33rd field for the 32-entry __value array
    | EndOfInput       // the decoder exits: fread finds no more words
    | EmptyBlock       // a short block of zero elements reads a[-1]

  datatype Outcome<+T> = Done(value: T) | Failed(failure: Failure) {
    predicate IsFailure() { Failed? }

    function PropagateFailure<U>(): Outcome<U>
      requires Failed?
    {
      Failed(failure)
    }

    function Extract(): T
      requires Done?
    {
      value
    }
  }

  predicate InRange(fs: seq<Field>) {
    forall i | 0 <= i < |fs| :: fs[i].bits <= 28 && fs[i].value < Pow2(fs[i].bits)
  }

  function TotalBits(fs: seq<Field>): nat {
    if fs == [] then 0 else TotalBits(fs[..|fs| - 1]) + fs[|fs| - 1].bits
  }

  /** The word whose lowest bits hold fs[0], then fs[1], and so on. */
  function Pack(fs: seq<Field>): nat {
    if fs == [] then 0
    else Pack(fs[..|fs| - 1]) + Pow2(TotalBits(fs[..|fs| - 1])) * fs[|fs| - 1].value
  }

  lemma {:induction false} PackBelow(fs: seq<Field>)
    requires InRange(fs)
    ensures Pack(fs) < Pow2(TotalBits(fs))
  {
    if fs == [] {
    } else {
      var init, last := fs[..|fs| - 1], fs[|fs| - 1];
      PackBelow(init);
      var t := TotalBits(init);
      Pow2Add(t, last.bits);
      assert Pow2(t) * last.value <= Pow2(t) * (Pow2(last.bits) - 1) by {
        MulMonotonic(Pow2(t), last.value, Pow2(last.bits) - 1);
      }
      Distribute(Pow2(t), Pow2(last.bits), 1);
    }
  }

  /** What WORD_ENCODE_WRITE computes from position p on: shift left, then or in the lower field. */
  function ShiftOr(fs: seq<Field>, p: nat): nat
    requires p < |fs|
    decreases |fs| - p
  {
    if p == |fs| - 1 then fs[p].value
    else BitOr((ShiftOr(fs, p + 1) * Pow2(fs[p].bits)) % WORD, fs[p].value)
  }

  function SuffixPack(fs: seq<Field>, p: nat): nat
    requires p <= |fs|
    decreases |fs| - p
  {
    if p == |fs| then 0 else fs[p].value + Pow2(fs[p].bits) * SuffixPack(fs, p + 1)
  }

  function SuffixBits(fs: seq<Field>, p: nat): nat
    requires p <= |fs|
    decreases |fs| - p
  {
    if p == |fs| then 0 else fs[p].bits + SuffixBits(fs, p + 1)
  }

  lemma {:induction false} PackSplit(fs: seq<Field>, p: nat)
    requires p <= |fs|
    ensures Pack(fs) == Pack(fs[..p]) + Pow2(TotalBits(fs[..p])) * SuffixPack(fs, p)
    ensures TotalBits(fs) == TotalBits(fs[..p]) + SuffixBits(fs, p)
    decreases |fs| - p
  {
    if p == |fs| {
      assert fs[..p] == fs;
    } else {
      PackSplit(fs, p + 1);
      var head := fs[..p + 1];
      assert head[..|head| - 1] == fs[..p] && head[|head| - 1] == fs[p];
      var t := TotalBits(fs[..p]);
      Pow2Add(t, fs[p].bits);
      FactorOut(Pow2(t), fs[p].value, Pow2(fs[p].bits), SuffixPack(fs, p + 1));
    }
  }

  lemma FactorOut(t: nat, v: nat, b: nat, s: nat)
    ensures t * v + (t * b) * s == t * (v + b * s)
  {
    Associate(t, b, s);
  }

  lemma {:induction false} SuffixBelow(fs: seq<Field>, p: nat)
    requires p <= |fs| && InRange(fs)
    ensures SuffixPack(fs, p) < Pow2(SuffixBits(fs, p))
    decreases |fs| - p
  {
    if p == |fs| {
    } else {
      SuffixBelow(fs, p + 1);
      var b, s := Pow2(fs[p].bits), SuffixPack(fs, p + 1);
      Pow2Add(fs[p].bits, SuffixBits(fs, p + 1));
      MulMonotonic(b, s, Pow2(SuffixBits(fs, p + 1)) - 1);
      Distribute(b, Pow2(SuffixBits(fs, p + 1)), 1);
    }
  }

  lemma {:induction false} ShiftOrIsSuffixPack(fs: seq<Field>, p: nat)
    requires p < |fs| && InRange(fs) && SuffixBits(fs, p) <= 32
    ensures ShiftOr(fs, p) == SuffixPack(fs, p)
    decreases |fs| - p
  {
    if p == |fs| - 1 {
      assert SuffixPack(fs, p + 1) == 0;
    } else {
      ShiftOrIsSuffixPack(fs, p + 1);
      SuffixBelow(fs, p);
      Pow2Monotonic(SuffixBits(fs, p), 32);
      Pow2Values();
      ShiftOrStep(ShiftOr(fs, p + 1), fs[p]);
    }
  }

  lemma ShiftOrStep(w: nat, f: Field)
    requires f.value < Pow2(f.bits) && f.value + Pow2(f.bits) * w < WORD
    ensures BitOr((w * Pow2(f.bits)) % WORD, f.value) == f.value + Pow2(f.bits) * w
  {
    hide BitOr;
    var shifted := Pow2(f.bits) * w;
    assert w * Pow2(f.bits) == shifted;
    assert shifted % WORD == shifted;
    OrShifted(w, f.value, f.bits);
  }

  /** The shift-and-or loop builds the packed word whenever the fields fit in 32 bits. */
  lemma ShiftOrIsPack(fs: seq<Field>)
    requires fs != [] && InRange(fs) && TotalBits(fs) <= 32
    ensures ShiftOr(fs, 0) == Pack(fs) < WORD
  {
    PackSplit(fs, 0);
    assert fs[..0] == [];
    ShiftOrIsSuffixPack(fs, 0);
    PackBelow(fs);
    Pow2Monotonic(TotalBits(fs), 32);
    Pow2Values();
  }

  /** Words already in the file and fields waiting for the current word. */
  datatype Writer = Writer(file: seq<nat>, pending: seq<Field>)

  function Remaining(w: Writer): int {
    32 - TotalBits(w.pending)
  }

  ghost predicate WriterOk(w: Writer) {
    && InRange(w.pending) && TotalBits(w.pending) <= 32 && |w.pending| <= 32
    && (w.pending == [] ==> w.file == [])
  }

  const EmptyWriter := Writer([], [])

  /** WORD_ENCODE: close the current word when the field does not fit, then add the field. */
  function Put(w: Writer, f: Field): Outcome<Writer> {
    if Remaining(w) < f.bits then Done(Writer(w.file + [Pack(w.pending)], [f]))
    else if |w.pending| == 32 then Failed(FieldOverflow)
    else Done(Writer(w.file, w.pending + [f]))
  }

  /** WORD_ENCODE_END. */
  function Flush(w: Writer): seq<nat> {
    if w.pending == [] then w.file else w.file + [Pack(w.pending)]
  }

  lemma PutOk(w: Writer, f: Field)
    requires WriterOk(w) && f.bits <= 28 && f.value < Pow2(f.bits) && Put(w, f).Done?
    ensures WriterOk(Put(w, f).value)
    ensures Put(w, f).value.pending != []
  {
    var w' := Put(w, f).value;
    assert w'.pending[..|w'.pending| - 1] == if Remaining(w) < f.bits then [] else w.pending;
  }

  /** What the decoder still has: bits of the current word, their value, and unread words. */
  datatype Reader = Reader(remaining: int, word: nat, unread: seq<nat>)

  /** GET_NEW_WORD when fewer than b bits remain. */
  function Need(r: Reader, b: nat): Outcome<Reader> {
    if r.remaining >= b then Done(r)
    else if r.unread == [] then Failed(EndOfInput)
    else Done(Reader(32, r.unread[0], r.unread[1..]))
  }

  function Take(r: Reader, b: nat): (nat, Reader) {
    (BitAnd(r.word, Pow2(b) - 1), Reader(r.remaining - b, Shr(r.word, b), r.unread))
  }

  /** WORD_ZERO_DECODE; WORD_DECODE adds one to the value. */
  function Read(r: Reader, b: nat): Outcome<(nat, Reader)> {
    var r' :- Need(r, b);
    Done(Take(r', b))
  }

  /** The finished file starts with everything the writer has committed or holds pending. */
  ghost predicate ExtendedBy(w: Writer, file: seq<nat>) {
    && w.file <= file
    && (w.pending != [] ==>
          && |w.file| < |file|
          && Low(file[|w.file|], TotalBits(w.pending)) == Pack(w.pending))
  }

  /** Where the decoder of the finished file stands after the fields the writer has put so far. */
  ghost function At(w: Writer, file: seq<nat>): Reader
    requires ExtendedBy(w, file)
  {
    if w.pending == [] then Reader(-1, 0, file[|w.file|..])
    else Reader(Remaining(w), Shr(file[|w.file|], TotalBits(w.pending)), file[|w.file| + 1..])
  }

  lemma FlushExtends(w: Writer)
    requires WriterOk(w)
    ensures ExtendedBy(w, Flush(w))
  {
    PackBelow(w.pending);
    if w.pending != [] {
      LowOfSmall(Pack(w.pending), TotalBits(w.pending));
    }
  }

  /** Reading the width of the field just put yields that field and keeps the decoder in step. */
  lemma ReadsBack(w: Writer, f: Field, file: seq<nat>)
    requires WriterOk(w) && f.bits <= 28 && f.value < Pow2(f.bits)
    requires Put(w, f).Done? && ExtendedBy(Put(w, f).value, file)
    ensures ExtendedBy(w, file)
    ensures Read(At(w, file), f.bits) == Done((f.value, At(Put(w, f).value, file)))
  {
    if Remaining(w) < f.bits || w.pending == [] {
      ReadsBackNewWord(w, f, file);
    } else {
      ReadsBackSameWord(w, f, file);
    }
  }

  lemma ReadsBackNewWord(w: Writer, f: Field, file: seq<nat>)
    requires WriterOk(w) && f.bits <= 28 && f.value < Pow2(f.bits)
    requires Remaining(w) < f.bits || w.pending == []
    requires Put(w, f).Done? && ExtendedBy(Put(w, f).value, file)
    ensures ExtendedBy(w, file)
    ensures Read(At(w, file), f.bits) == Done((f.value, At(Put(w, f).value, file)))
  {
    var w' := Put(w, f).value;
    var next := |w'.file|;
    assert w'.pending == [f] && [f][..0] == [];
    assert TotalBits([f]) == f.bits && Pack([f]) == f.value;
    AndMask(file[next], f.bits);
    assert file[next..][0] == file[next] && file[next..][1..] == file[next + 1..];
    if w.pending != [] {
      PackBelow(w.pending);
      LowOfSmall(Pack(w.pending), TotalBits(w.pending));
      assert file[|w.file|] == w'.file[|w.file|] == Pack(w.pending);
      assert w.file <= w'.file <= file;
      assert file[|w.file| + 1..] == file[next..];
    }
  }

  lemma ReadsBackSameWord(w: Writer, f: Field, file: seq<nat>)
    requires WriterOk(w) && f.bits <= 28 && f.value < Pow2(f.bits)
    requires Remaining(w) >= f.bits && w.pending != []
    requires Put(w, f).Done? && ExtendedBy(Put(w, f).value, file)
    ensures ExtendedBy(w, file)
    ensures Read(At(w, file), f.bits) == Done((f.value, At(Put(w, f).value, file)))
  {
    var w' := Put(w, f).value;
    var t, word := TotalBits(w.pending), file[|w.file|];
    assert w'.pending[..|w'.pending| - 1] == w.pending;
    assert TotalBits(w'.pending) == t + f.bits;
    SplitWord(word, t, f.bits);
    PackBelow(w.pending);
    LowBelow(word, t);
    DigitsUnique(Pow2(t), Low(Shr(word, t), f.bits), Low(word, t), f.value, Pack(w.pending));
    AndMask(Shr(word, t), f.bits);
  }
}
