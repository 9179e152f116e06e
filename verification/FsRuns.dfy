/** Runs of inode operations from a formatted disk: what they keep, and when exactly they lose a block. */
module FsRuns {
  import opened FsBytes
  import opened FsDisk
  import opened FsState
  import opened FsContent
  import opened FsOpen
  import opened FsResize
  import opened FsWrite

  /** One call, with its result where it has one. */
  datatype Op =
    | OpenOp(i: nat)
    | CloseOp(i: nat)
    | ReadOp(i: nat)
    | WriteOp(i: nat, buf: seq<Byte>, offset: nat, r: int)
    | ResizeOp(i: nat, size: nat, r: int)
    | CreateOp(r: int)
    | DeleteOp(i: nat)

  /** What each call does to the state: the statements of the code, as the methods of the store ensure. */
  ghost predicate Step(f: Fs, op: Op, f': Fs) {
    match op
    case OpenOp(i) => i in f.known && i < |f.m.slots| && f' == Opened(f, i)
    case CloseOp(i) =>
      && i in f.known && IsOpen(f.open, i) && i < |f.m.slots| && i < |f.m.imarks|
      && f.open[OpenIdx(f.open, i)].cnt > 0 && f' == Closed(f, i)
    case ReadOp(i) => f' == f
    case WriteOp(i, buf, offset, r) => i in f.known && IsOpen(f.open, i) && buf != [] && WroteVia(f, f', i, buf, offset, r)
    case ResizeOp(i, size, r) => i in f.known && Resized(f, f', i, size, r)
    case CreateOp(r) => if r == NO_BIT then AllTaken(f) && f' == f else 0 <= r < INODE_CNT && CreateOk(f, r, f')
    case DeleteOp(i) => i in f.known && Deleted(f, f', i)
  }

  ghost predicate CreateOk(f: Fs, i: nat, f': Fs) {
    && i < |f.m.imarks| && i < |f.m.slots| && !f.m.imarks[i] && f' == Created(f, i)
    && forall j | 0 <= j < i :: f.m.imarks[j]
  }

  predicate AllTaken(f: Fs) {
    forall i | 0 <= i < |f.m.imarks| :: f.m.imarks[i]
  }

  /** A change to `size` would need more blocks than are free, and some are. */
  ghost predicate RunsShort(f: Fs, i: nat, size: nat) {
    i < |f.m.slots| && size <= FILE_MAX && Free(f) != {} && Blocks(size) > Blocks(Eff(f, i).size) + |Free(f)|
  }

  /** The call loses no block: it does not ask for more blocks than are free while some are, and does not drop the
      object of a file whose blocks nobody else knows. */
  ghost predicate Harmless(f: Fs, op: Op) {
    match op
    case CloseOp(i) =>
      IsOpen(f.open, i) && i < |f.m.slots| && i < |f.m.imarks| && (!LastClose(f, i) || KeepsBlocks(f, i) || Eff(f, i).size == 0)
    case WriteOp(i, buf, offset, _) => !RunsShort(f, i, offset + |buf|)
    case ResizeOp(i, size, _) => !RunsShort(f, i, size)
    case _ => true
  }

  lemma FreeNotLeaked(f: Fs)
    ensures Free(f) !! Leaked(f)
  {
  }

  lemma WriteSound(f: Fs, i: nat, buf: seq<Byte>, offset: nat, r: int, f': Fs)
    requires Inv(f) && Exact(f) && i in f.known && buf != [] && WroteVia(f, f', i, buf, offset, r)
    ensures Inv(f') && Exact(f') && Leaked(f) <= Leaked(f') && (Agree(f) ==> Agree(f'))
    ensures Leaked(f') == Leaked(f) <==> !RunsShort(f, i, offset + |buf|)
  {
    hide Inv, Exact, WroteVia, Agree, Content;
    WroteOutcome(f, f', i, buf, offset, r);
    KeptExact(f, f');
    FreeNotLeaked(f);
    if offset + |buf| <= Eff(f, i).size { BlocksMonotone(offset + |buf|, Eff(f, i).size); }
  }

  lemma ResizeSound(f: Fs, i: nat, size: nat, r: int, f': Fs)
    requires Inv(f) && Exact(f) && i in f.known && Resized(f, f', i, size, r)
    ensures Inv(f') && Exact(f') && Leaked(f) <= Leaked(f') && (Agree(f) ==> Agree(f'))
    ensures Leaked(f') == Leaked(f) <==> !RunsShort(f, i, size)
  {
    hide Inv, Exact, Resized, Agree;
    ResizedFacts(f, f', i, size, r);
    KeptExact(f, f');
    FreeNotLeaked(f);
  }

  lemma DeleteSound(f: Fs, i: nat, f': Fs)
    requires Inv(f) && Exact(f) && i in f.known && Deleted(f, f', i)
    ensures Inv(f') && Exact(f') && Leaked(f') == Leaked(f) && (Agree(f) ==> Agree(f'))
  {
    hide Inv, Exact, DeletedVia, Agree, Leaked;
    var g :| DeletedVia(f, g, f', i);
    DeletedOutcome(f, g, f', i);
  }

  lemma OpenSound(f: Fs, i: nat)
    requires Inv(f) && Exact(f) && i in f.known && i < |f.m.slots|
    ensures var f' := Opened(f, i);
      Inv(f') && Exact(f') && Leaked(f') == Leaked(f) && (Agree(f) ==> Agree(f'))
  {
    OpenedInv(f, i);
    OpenedExact(f, i);
  }

  lemma CloseSound(f: Fs, i: nat)
    requires Inv(f) && Exact(f) && i in f.known && IsOpen(f.open, i) && i < |f.m.slots| && i < |f.m.imarks|
    requires f.open[OpenIdx(f.open, i)].cnt > 0
    ensures var f' := Closed(f, i);
      && Inv(f') && Exact(f') && Leaked(f) <= Leaked(f') && (Agree(f) ==> Agree(f'))
      && (Leaked(f') == Leaked(f) <==> !LastClose(f, i) || KeepsBlocks(f, i) || Eff(f, i).size == 0)
  {
    hide Inv, Exact, Leaked, Agree, LastClose, KeepsBlocks;
    ClosedInv(f, i);
    ClosedExact(f, i);
    ClosedLeaks(f, i);
  }

  /** Every call keeps ownership, and no call gives a lost block back. */
  lemma StepSound(f: Fs, op: Op, f': Fs)
    requires Inv(f) && Exact(f) && Step(f, op, f')
    ensures Inv(f') && Exact(f') && Leaked(f) <= Leaked(f')
    ensures Leaked(f') == Leaked(f) <==> Harmless(f, op)
  {
    hide Inv, Exact, Leaked, Free, Opened, Closed, Created, Resized, WroteVia, Deleted, RunsShort, LastClose, KeepsBlocks, Agree;
    match op
    case OpenOp(i) => OpenSound(f, i);
    case CloseOp(i) => CloseSound(f, i);
    case ReadOp(i) =>
    case WriteOp(i, buf, offset, r) => WriteSound(f, i, buf, offset, r, f');
    case ResizeOp(i, size, r) => ResizeSound(f, i, size, r, f');
    case CreateOp(r) => if r != NO_BIT { CreatedInv(f, r); }
    case DeleteOp(i) => DeleteSound(f, i, f');
  }

  // ----- open objects and the disk

  /** The call gives a new file the number of an open object that has contents. */
  ghost predicate ReusesOpen(f: Fs, op: Op) {
    op.CreateOp? && 0 <= op.r < |f.m.slots| && IsOpen(f.open, op.r) && Eff(f, op.r).size > 0
  }

  lemma StepAgrees(f: Fs, op: Op, f': Fs)
    requires Inv(f) && Exact(f) && Agree(f) && Step(f, op, f')
    ensures Agree(f') <==> !ReusesOpen(f, op)
  {
    hide Inv, Exact, Leaked, Free, Opened, Closed, Created, Resized, WroteVia, Deleted, RunsShort, LastClose, KeepsBlocks, Agree;
    match op
    case OpenOp(i) => OpenSound(f, i);
    case CloseOp(i) => CloseSound(f, i);
    case ReadOp(i) =>
    case WriteOp(i, buf, offset, r) => WriteSound(f, i, buf, offset, r, f');
    case ResizeOp(i, size, r) => ResizeSound(f, i, size, r, f');
    case CreateOp(r) => if r != NO_BIT { CreateKeepsAgreementExactly(f, r); }
    case DeleteOp(i) => DeleteSound(f, i, f');
  }

  // ----- runs

  /** What formatting leaves. */
  ghost predicate Formatted(f: Fs) {
    && Inv(f) && f.open == [] && f.known == {} && f.own == map[]
    && f.m.imarks == seq(INODE_CNT, i => false) && f.m.marks == seq(f.lay.blocks, b => b < RESERVED)
  }

  ghost predicate Run(fs: seq<Fs>, ops: seq<Op>) {
    && |fs| == |ops| + 1 && Formatted(fs[0])
    && forall k {:trigger ops[k]} | 0 <= k < |ops| :: Step(fs[k], ops[k], fs[k + 1])
  }

  /** Block ownership in every reachable state, also after failed grows. */
  lemma {:induction false} RunSound(fs: seq<Fs>, ops: seq<Op>, n: nat)
    requires Run(fs, ops) && n < |fs|
    ensures Inv(fs[n]) && Exact(fs[n])
  {
    if n > 0 {
      RunSound(fs, ops, n - 1);
      StepSound(fs[n - 1], ops[n - 1], fs[n]);
    }
  }

  lemma NothingLeaked(f: Fs)
    requires Formatted(f)
    ensures Leaked(f) == {}
  {
  }

  /** A run has lost no block exactly if none of its calls was one that does. */
  lemma {:induction false} RunLeaksExactly(fs: seq<Fs>, ops: seq<Op>, n: nat)
    requires Run(fs, ops) && n < |fs|
    ensures Leaked(fs[n]) == {} <==> forall k {:trigger ops[k]} | 0 <= k < n :: Harmless(fs[k], ops[k])
  {
    hide Step, Inv, Exact, Harmless, Leaked, Formatted;
    if n == 0 {
      NothingLeaked(fs[0]);
    } else {
      RunLeaksExactly(fs, ops, n - 1);
      RunSound(fs, ops, n - 1);
      StepSound(fs[n - 1], ops[n - 1], fs[n]);
      assert ops[n - 1] == ops[n - 1];
    }
  }

  /** Then the marks are exactly the reserved blocks and the blocks of files. */
  lemma MarksExactly(fs: seq<Fs>, ops: seq<Op>, n: nat, b: nat)
    requires Run(fs, ops) && n < |fs| && b < fs[n].lay.blocks
    requires forall k {:trigger ops[k]} | 0 <= k < n :: Harmless(fs[k], ops[k])
    ensures b < |fs[n].m.marks|
    ensures fs[n].m.marks[b] <==> b < RESERVED || exists i, k: nat ::
              i in fs[n].known && i < |fs[n].m.slots| && k < Blocks(Eff(fs[n], i).size)
              && k < |Eff(fs[n], i).direct| && Eff(fs[n], i).direct[k] == fs[n].lay.super + b
  {
    RunSound(fs, ops, n);
    RunLeaksExactly(fs, ops, n);
    MarksPartition(fs[n], b);
  }

  lemma AgreeAtStart(f: Fs)
    requires Formatted(f)
    ensures Agree(f)
  {
  }

  /** Open objects agree with the disk in every state of a run exactly if no file was created under the number of an
      open object with contents. */
  lemma {:induction false} RunAgreesExactly(fs: seq<Fs>, ops: seq<Op>, n: nat)
    requires Run(fs, ops) && n < |fs|
    ensures (forall k {:trigger fs[k]} | 0 <= k <= n :: Agree(fs[k])) <==> forall k {:trigger ops[k]} | 0 <= k < n :: !ReusesOpen(fs[k], ops[k])
  {
    hide Step, Inv, Exact, ReusesOpen, Agree, Formatted;
    if n == 0 {
      AgreeAtStart(fs[0]);
    } else {
      RunAgreesExactly(fs, ops, n - 1);
      RunSound(fs, ops, n - 1);
      assert ops[n - 1] == ops[n - 1];
      if Agree(fs[n - 1]) { StepAgrees(fs[n - 1], ops[n - 1], fs[n]); }
      assert fs[n] == fs[n] && fs[n - 1] == fs[n - 1];
    }
  }
}
