/** A base of several numbered files: every key is kept, searched and compacted in its own file. */
module BaseFiles {
  import opened FileNumber
  import opened BaseIndex
  import opened BaseStore
  import opened BaseRuns

  /** A write or delete goes to the file of its id; a compaction names its file. */
  datatype FileOp = ByKey(op: Op) | OptimizeFile(num: nat, compact: bool)

  predicate ValidFileOps(ops: seq<FileOp>) {
    forall i | 0 <= i < |ops| :: ops[i].ByKey? ==> ValidOp(ops[i].op) && !ops[i].op.OptimizeOp?
  }

  /** Whether the operation opens file num. */
  predicate Opens(op: FileOp, num: nat, files: nat)
    requires files > 0 && (op.ByKey? ==> !op.op.OptimizeOp?)
  {
    match op
    case ByKey(o) => FileNo(o.id, files) == num
    case OptimizeFile(n, _) => n == num
  }

  function InFile(op: FileOp): Op {
    match op
    case ByKey(o) => o
    case OptimizeFile(_, compact) => OptimizeOp(compact)
  }

  /** The operations that reach one file, in order. */
  function Routed(ops: seq<FileOp>, num: nat, files: nat): (r: seq<Op>)
    requires files > 0 && ValidFileOps(ops)
    ensures ValidOps(r)
    ensures forall i | 0 <= i < |r| && r[i].WriteOp? :: FileNo(r[i].id, files) == num
  {
    if ops == [] then []
    else
      var sofar, op := Routed(ops[..|ops| - 1], num, files), ops[|ops| - 1];
      sofar + (if Opens(op, num, files) then [InFile(op)] else [])
  }

  /** All files, each changed by the operations that open it. */
  function RunFiles(ops: seq<FileOp>, files: nat): (bases: seq<Files>)
    requires files > 0 && ValidFileOps(ops)
    ensures |bases| == files && forall num | 0 <= num < files :: Invariant(bases[num])
  {
    if ops == [] then
      assert Invariant(NewFiles) by { EmptyIsSearchable(); }
      seq(files, num => NewFiles)
    else
      var bases, op := RunFiles(ops[..|ops| - 1], files), ops[|ops| - 1];
      var num := if op.ByKey? then FileNo(op.op.id, files) else op.num;
      if num < files then
        assert Invariant(Apply(bases[num], InFile(op))) by { ApplyKeepsInvariant(bases[num], InFile(op)); }
        bases[num := Apply(bases[num], InFile(op))]
      else bases
  }

  /** Each file is a record base of its own: it is in the state its own operations lead to. */
  lemma {:induction false} FilesAreSeparate(ops: seq<FileOp>, files: nat, num: nat)
    requires files > 0 && ValidFileOps(ops) && num < files
    ensures RunFiles(ops, files)[num] == Run(Routed(ops, num, files))
  {
    hide FileNo, Apply, Invariant;
    if ops == [] {
    } else {
      var init, op := ops[..|ops| - 1], ops[|ops| - 1];
      FilesAreSeparate(init, files, num);
      var before := Routed(init, num, files);
      hide Run, ValidOps;
      if Opens(op, num, files) {
        RunOneMore(before, InFile(op));
      } else {
        assert before + [] == before;
      }
    }
  }

  lemma RunOneMore(ops: seq<Op>, op: Op)
    requires ValidOps(ops) && ValidOp(op)
    ensures ValidOps(ops + [op]) && Run(ops + [op]) == Apply(Run(ops), op)
  {
    var after := ops + [op];
    assert after[..|ops|] == ops && after[..|after|] == after;
    RunStep(after, |ops|);
  }

  /** Every live item of a file hashes to that file, and in its chain to its head slot. */
  lemma LiveInOwnFile(ops: seq<FileOp>, files: nat, num: nat, p: nat)
    requires files > 0 && ValidFileOps(ops) && num < files
    requires Live(RunFiles(ops, files)[num].index, p)
    ensures var ix := RunFiles(ops, files)[num].index;
      FileNo(ix[p].id, files) == num && exists buckets :: Bucketed(ix, buckets) && Hash(ix[p].id) == buckets[p]
  {
    var st := RunFiles(ops, files)[num];
    hide FileNo, RunFiles, Routed;
    if FileNo(st.index[p].id, files) != num {
      StrangersAbsent(ops, files, num, st.index[p].id);
    }
    var buckets :| Bucketed(st.index, buckets);
  }

  lemma StrangersAbsent(ops: seq<FileOp>, files: nat, num: nat, id: nat)
    requires files > 0 && ValidFileOps(ops) && num < files && id != 0 && FileNo(id, files) != num
    ensures NoLive(RunFiles(ops, files)[num], id)
  {
    FilesAreSeparate(ops, files, num);
    hide FileNo, RunFiles, Run, NoLive;
    NeverWrittenAbsent(Routed(ops, num, files), id);
  }
}
