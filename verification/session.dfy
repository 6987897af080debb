/** The updater session: the global state of the tool (interface, IC type, pattern,
    versions, page geometry, section counter, receive and transmit buffers, image
    buffer), the register transactions it performs over a `Channel`, and the update
    sequence built from them.

    Besides the real state, a session keeps a ghost `trace` of the register-level
    operations it performed; `Valid()` ties that trace to the frames the channel
    received, frame for frame. */
module Updater {
  import opened Bytes
  import opened Transport
  import opened Identify
  import opened Handshake
  import opened Image
  import opened Cadence

  /** Why the tool gives up; each is a `request_exit` in the tool (the last two are
      added by this model, see the corrected behaviours). */
  datatype AbortReason =
    | UnsupportedIcType(ic: byte)
    | IapTypeNotConfirmed
    | PasswordRejected
    | UpdateFailed(offset: nat, rv: int)
    | ZeroSectionSize
    | BlockOutsideImage(offset: nat)

  datatype Result<T> = Ok(value: T) | Abort(reason: AbortReason)

  /** How `main` ends an update run: a `request_exit`, the -1 return after a signature
      mismatch, or the normal end (whatever the two checksums say). */
  datatype Outcome =
    | Aborted(reason: AbortReason)
    | SignatureMismatch
    | Completed(local: u16, remote: u16)

  /** The identification globals. */
  datatype DeviceInfo = DeviceInfo(
    icType: byte, isNewPattern: int, iapVersion: int, fwVersion: int,
    fwPageCount: nat, fwSize: nat, fwSignatureAddress: int)

  const BufferSize: nat := 1024

  /** The transmit buffer after the register number, and the command word when there is one,
      are put in its first bytes (`tx_buf[0..1]`, `tx_buf[2..3]`). */
  function Staged(buf: seq<byte>, reg: nat, withCmd: bool, cmd: nat): (r: seq<byte>)
    requires |buf| >= 4
    ensures |r| == |buf| && r[4..] == buf[4..]
    ensures r[..2] == [Lo(reg), Hi(reg)]
    ensures withCmd ==> r[..4] == [Lo(reg), Hi(reg), Lo(cmd), Hi(cmd)]
    ensures !withCmd ==> r[2..] == buf[2..]
  {
    if withCmd then buf[0 := Lo(reg)][1 := Hi(reg)][2 := Lo(cmd)][3 := Hi(cmd)]
    else buf[0 := Lo(reg)][1 := Hi(reg)]
  }

  /** `op` writes `cmd` to register `reg`, whatever became of the transfer. */
  predicate Writes(op: Op, reg: nat, cmd: nat)
  {
    op.Write? && op.reg == reg && op.cmd == cmd
  }

  /** `op` reads register `reg`, whatever word it left. */
  predicate Reads(op: Op, reg: nat)
  {
    op.Read? && op.reg == reg
  }

  /** A command that is written once, and once more when the first write failed
      (`switch_to_ptpmode`). */
  function Tries(reg: nat, cmd: nat, first: bool, second: bool): seq<Op>
  {
    [Write(reg, cmd, first)] + (if first then [] else [Write(reg, cmd, second)])
  }

  /** The IAP-type confirmation: write `value` to 0x0304 and read it back; on a mismatch write
      and read once more. `ok` says whether the last word read matched. */
  predicate Confirmation(ops: seq<Op>, value: nat, ok: bool)
  {
    && |ops| >= 2 && Writes(ops[0], IapTypeCmd, value) && Reads(ops[1], IapTypeCmd)
    && if ops[1].value % Word == value % Word then |ops| == 2 && ok
       else |ops| == 4 && Writes(ops[2], IapTypeCmd, value) && Reads(ops[3], IapTypeCmd)
            && (ok <==> ops[3].value % Word == value % Word)
  }

  /** The operations of the geometry step of `elan_prepare_for_update`: the read of the IAP type
      when the section size is queried, then the confirmation when the code makes one, which
      `confirmed` says succeeded. */
  predicate GeometryStep(ic: byte, iapVersion: int, iapType: u16, ops: seq<Op>, confirmed: bool)
  {
    var query := if QueriesSectionSize(ic, iapVersion) then [Read(IapTypeCmd, iapType)] else [];
    && |query| <= |ops| && ops[..|query|] == query
    && match DeriveGeometry(ic, iapVersion, iapType)
       case None => ops == query
       case Some(g) =>
         if ConfirmsIapType(ic, iapVersion, g) then Confirmation(ops[|query|..], g.sectionSize / 2, confirmed)
         else ops == query && confirmed
  }

  /** No operation of the run touches the flash: no block is sent and no password is written. */
  predicate FlashUntouched(ops: seq<Op>)
  {
    forall op :: op in ops ==> !op.Block? && !(op.Write? && op.reg == IapCmd)
  }

  lemma UntouchedConcat(xs: seq<Op>, ys: seq<Op>)
    requires FlashUntouched(xs) && FlashUntouched(ys)
    ensures FlashUntouched(xs + ys)
  {
  }

  /** Register writes other than the password write leave the flash alone. */
  lemma TriesUntouched(reg: nat, cmd: nat, first: bool, second: bool)
    requires reg != IapCmd
    ensures FlashUntouched(Tries(reg, cmd, first, second))
  {
  }

  /** One block of the update loop: where it starts in the image and the attempts made at it. */
  datatype BlockRun = BlockRun(offset: nat, attempts: seq<Attempt>)

  /** The operations of the update loop, block after block. */
  function UpdateOps(fw: seq<byte>, section: nat, runs: seq<BlockRun>): seq<Op>
    requires section % 2 == 0
    requires forall j :: 0 <= j < |runs| ==> runs[j].offset + section <= |fw|
    decreases |runs|
  {
    if |runs| == 0 then []
    else
      var last := runs[|runs| - 1];
      var block := fw[last.offset..last.offset + section];
      UpdateOps(fw, section, runs[..|runs| - 1]) + RetryOps(block, BlockChecksum(block), last.attempts)
  }

  /** Every attempt of the update loop, in order. */
  function AllAttempts(runs: seq<BlockRun>): seq<Attempt>
    decreases |runs|
  {
    if |runs| == 0 then [] else AllAttempts(runs[..|runs| - 1]) + runs[|runs| - 1].attempts
  }

  /** What the retry loop returned for a block: the result of its last attempt. */
  function LastResult(run: BlockRun): int
  {
    if |run.attempts| == 0 then -1 else AttemptResult(run.attempts[|run.attempts| - 1])
  }

  /** The block was eventually written: its last attempt returned 0. */
  predicate Succeeded(run: BlockRun)
  {
    LastResult(run) == 0
  }

  /** Every block of the loop so far succeeded. */
  predicate AllSucceeded(runs: seq<BlockRun>)
  {
    forall j :: 0 <= j < |runs| ==> Succeeded(runs[j])
  }

  /** The blocks of `runs` were sent at the first offsets of `offs`, each inside the image and
      through a well-formed retry run. */
  ghost predicate Laid(fw: seq<byte>, offs: seq<nat>, section: nat, runs: seq<BlockRun>)
  {
    && |runs| <= |offs|
    && forall j :: 0 <= j < |runs| ==>
         runs[j].offset == offs[j] && runs[j].offset + section <= |fw| && RetryShape(runs[j].attempts)
  }

  /** One more block keeps the blocks laid out. */
  lemma LaidStep(fw: seq<byte>, offs: seq<nat>, section: nat, runs: seq<BlockRun>, run: BlockRun)
    requires Laid(fw, offs, section, runs)
    requires |runs| < |offs| && run.offset == offs[|runs|] && run.offset + section <= |fw| && RetryShape(run.attempts)
    ensures Laid(fw, offs, section, runs + [run])
    ensures (runs + [run])[..|runs|] == runs
  {
  }

  /** What the update loop knows after the blocks of `runs`: they were laid out and all succeeded,
      and `checksum` totals them. */
  ghost predicate Progress(fw: seq<byte>, offs: seq<nat>, section: nat, runs: seq<BlockRun>, checksum: int)
  {
    && section % 2 == 0 && Laid(fw, offs, section, runs) && AllSucceeded(runs)
    && BlocksFit(fw, offs[..|runs|], section)
    && checksum == Total(fw, offs[..|runs|], section)
  }

  /** One more successful block keeps the update loop's bookkeeping. */
  lemma ProgressStep(fw: seq<byte>, offs: seq<nat>, section: nat, runs: seq<BlockRun>, checksum: u16, run: BlockRun, blockChecksum: u16)
    requires Progress(fw, offs, section, runs, checksum)
    requires |runs| < |offs| && run.offset == offs[|runs|] && run.offset + section <= |fw|
    requires blockChecksum == BlockChecksum(fw[run.offset..run.offset + section])
    requires RetryShape(run.attempts) && Succeeded(run)
    ensures Progress(fw, offs, section, runs + [run], (checksum + blockChecksum) % Word)
  {
    var k := |runs|;
    var o := run.offset;
    LaidStep(fw, offs, section, runs, run);
    assert offs[..k + 1][..k] == offs[..k];
    assert offs[..k + 1][k] == offs[k];
    assert BlocksFit(fw, offs[..k + 1], section);
    assert BlocksSum(fw, offs[..k + 1], section) == BlocksSum(fw, offs[..k], section) + WordSum(fw[o..o + section]);
    AccumulateStep(checksum, BlocksSum(fw, offs[..k], section), WordSum(fw[o..o + section]));
  }

  /** The pacing of the status reads and the section counter over one more block. */
  lemma PacingStep(runs: seq<BlockRun>, run: BlockRun, cnt: nat, section: nat, pageSize: nat, sections: nat)
    requires Paced(AllAttempts(runs), 1, section, pageSize, sections) && cnt == CountAfter(AllAttempts(runs), 1)
    requires Paced(run.attempts, cnt, section, pageSize, sections)
    ensures Paced(AllAttempts(runs + [run]), 1, section, pageSize, sections)
    ensures CountAfter(run.attempts, cnt) == CountAfter(AllAttempts(runs + [run]), 1)
  {
    assert (runs + [run])[..|runs|] == runs;
    assert AllAttempts(runs + [run]) == AllAttempts(runs) + run.attempts;
    PacedAppend(AllAttempts(runs), run.attempts, 1, section, pageSize, sections);
    CountAfterAppend(AllAttempts(runs), run.attempts, 1);
  }

  /** One more block at the end of the update loop. */
  lemma RunsSnoc(fw: seq<byte>, section: nat, runs: seq<BlockRun>, run: BlockRun)
    requires section % 2 == 0
    requires forall j :: 0 <= j < |runs| ==> runs[j].offset + section <= |fw|
    requires run.offset + section <= |fw|
    ensures forall j :: 0 <= j < |runs + [run]| ==> (runs + [run])[j].offset + section <= |fw|
    ensures var block := fw[run.offset..run.offset + section];
      UpdateOps(fw, section, runs + [run]) == UpdateOps(fw, section, runs) + RetryOps(block, BlockChecksum(block), run.attempts)
  {
    assert (runs + [run])[..|runs|] == runs;
  }

  /** What `elan_update_firmware` achieved, given the offsets it was to visit: the blocks it sent
      were laid out in order and every one but the last succeeded; it completes exactly when every
      block was sent and succeeded, and then returns the total of the block checksums; it stops at
      a block that would reach past the image, before sending it, or after a block whose retries
      all failed, with that block's result. */
  ghost predicate UpdateResult(fw: seq<byte>, offs: seq<nat>, section: nat, runs: seq<BlockRun>, r: Result<u16>)
  {
    && section % 2 == 0
    && Laid(fw, offs, section, runs)
    && (|runs| > 0 ==> AllSucceeded(runs[..|runs| - 1]))
    && (r.Ok? <==> |runs| == |offs| && AllSucceeded(runs))
    && match r
       case Ok(total) => BlocksFit(fw, offs, section) && total == Total(fw, offs, section)
       case Abort(BlockOutsideImage(offset)) =>
         |runs| < |offs| && offset == offs[|runs|] && offset + section > |fw| && AllSucceeded(runs)
       case Abort(UpdateFailed(offset, rv)) =>
         |runs| > 0 && offset == offs[|runs| - 1] && !Succeeded(runs[|runs| - 1]) && rv == LastResult(runs[|runs| - 1])
       case Abort(_) => false
  }

  lemma CompletedResult(fw: seq<byte>, offs: seq<nat>, section: nat, runs: seq<BlockRun>, checksum: u16)
    requires Progress(fw, offs, section, runs, checksum) && |runs| == |offs|
    ensures UpdateResult(fw, offs, section, runs, Ok(checksum))
  {
    assert offs[..|runs|] == offs;
  }

  lemma OutsideResult(fw: seq<byte>, offs: seq<nat>, section: nat, runs: seq<BlockRun>, checksum: u16)
    requires Progress(fw, offs, section, runs, checksum) && |runs| < |offs| && offs[|runs|] + section > |fw|
    ensures UpdateResult(fw, offs, section, runs, Abort(BlockOutsideImage(offs[|runs|])))
  {
  }

  lemma FailedResult(fw: seq<byte>, offs: seq<nat>, section: nat, runs: seq<BlockRun>, checksum: u16, run: BlockRun)
    requires Progress(fw, offs, section, runs, checksum)
    requires |runs| < |offs| && run.offset == offs[|runs|] && run.offset + section <= |fw| && RetryShape(run.attempts)
    requires !Succeeded(run)
    ensures UpdateResult(fw, offs, section, runs + [run], Abort(UpdateFailed(run.offset, LastResult(run))))
  {
    LaidStep(fw, offs, section, runs, run);
  }

  /** Where the block after block `k` starts, or that block `k` is the last one. */
  lemma NextOffset(start: nat, fwSize: nat, section: nat, k: nat)
    requires section > 0 && k < |BlockOffsets(start, fwSize, section)|
    ensures var offs := BlockOffsets(start, fwSize, section);
      && (k + 1 < |offs| ==> offs[k + 1] == offs[k] + section)
      && (k + 1 == |offs| ==> offs[k] + section >= fwSize)
  {
  }

  lemma AppendAssoc(a: seq<Op>, b: seq<Op>, c: seq<Op>)
    ensures a + b + c == a + (b + c)
  {
  }

  lemma AppendAssoc4(a: seq<Op>, b: seq<Op>, c: seq<Op>, d: seq<Op>, e: seq<Op>)
    ensures a + b + c + d + e == a + (b + c + d + e)
  {
  }

  lemma AppendAssoc3(a: seq<Op>, b: seq<Op>, c: seq<Op>, d: seq<Op>)
    ensures a + b + c + d == a + (b + c + d)
  {
  }

  /** What the update loop leaves behind after the blocks of `runs`: the trace `tr` grew from `t0`
      by their operations, the status reads were paced and the section counter `cnt` followed
      them from 1. */
  ghost predicate Logged(fw: seq<byte>, section: nat, pageSize: nat, sections: nat,
                         t0: seq<Op>, tr: seq<Op>, cnt: nat, runs: seq<BlockRun>)
  {
    && section % 2 == 0
    && (forall j :: 0 <= j < |runs| ==> runs[j].offset + section <= |fw|)
    && tr == t0 + UpdateOps(fw, section, runs)
    && Paced(AllAttempts(runs), 1, section, pageSize, sections)
    && cnt == CountAfter(AllAttempts(runs), 1)
  }

  /** One more block keeps the log. */
  lemma LoggedStep(fw: seq<byte>, section: nat, pageSize: nat, sections: nat,
                   t0: seq<Op>, tr: seq<Op>, cnt: nat, runs: seq<BlockRun>,
                   tr': seq<Op>, cnt': nat, run: BlockRun)
    requires Logged(fw, section, pageSize, sections, t0, tr, cnt, runs)
    requires run.offset + section <= |fw|
    requires var block := fw[run.offset..run.offset + section];
      tr' == tr + RetryOps(block, BlockChecksum(block), run.attempts)
    requires Paced(run.attempts, cnt, section, pageSize, sections) && cnt' == CountAfter(run.attempts, cnt)
    ensures Logged(fw, section, pageSize, sections, t0, tr', cnt', runs + [run])
  {
    var block := fw[run.offset..run.offset + section];
    RunsSnoc(fw, section, runs, run);
    PacingStep(runs, run, cnt, section, pageSize, sections);
    AppendAssoc(t0, UpdateOps(fw, section, runs), RetryOps(block, BlockChecksum(block), run.attempts));
  }

  /** The update loop before the block at `i`, after the blocks of `runs` (see `Progress`): `i` is
      the next offset, or past `fw_size` when none is left, and the blocks so far are `Logged`. */
  ghost predicate LoopState(fw: seq<byte>, offs: seq<nat>, section: nat, pageSize: nat, sections: nat, fwSize: nat,
                            t0: seq<Op>, tr: seq<Op>, cnt: nat, runs: seq<BlockRun>, checksum: int, i: int)
  {
    && Progress(fw, offs, section, runs, checksum)
    && (|runs| < |offs| ==> i == offs[|runs|])
    && (|runs| == |offs| ==> i >= fwSize)
    && Logged(fw, section, pageSize, sections, t0, tr, cnt, runs)
  }

  /** The update loop before its first block: nothing sent, the counter at 1, the total 0. */
  lemma LoopStarts(fw: seq<byte>, start: nat, offs: seq<nat>, section: nat, pageSize: nat, sections: nat, fwSize: nat, t0: seq<Op>)
    requires section > 0 && section % 2 == 0 && offs == BlockOffsets(start, fwSize, section)
    ensures LoopState(fw, offs, section, pageSize, sections, fwSize, t0, t0, 1, [], 0, start)
  {
    assert offs[..0] == [];
    assert t0 + [] == t0;
  }

  /** The update loop once it has stopped with `r` (see `UpdateResult`). */
  ghost predicate EndState(fw: seq<byte>, offs: seq<nat>, section: nat, pageSize: nat, sections: nat,
                           t0: seq<Op>, tr: seq<Op>, cnt: nat, runs: seq<BlockRun>, r: Result<u16>)
  {
    && UpdateResult(fw, offs, section, runs, r)
    && Logged(fw, section, pageSize, sections, t0, tr, cnt, runs)
  }

  /** One turn of the update loop whose block succeeded: the loop goes on at the next offset
      with the block's checksum added. */
  lemma LoopContinues(fw: seq<byte>, start: nat, offs: seq<nat>, section: nat, pageSize: nat, sections: nat, fwSize: nat,
                      t0: seq<Op>, tr: seq<Op>, cnt: nat, runs: seq<BlockRun>, checksum: u16,
                      tr': seq<Op>, cnt': nat, run: BlockRun, blockChecksum: u16)
    requires section > 0 && offs == BlockOffsets(start, fwSize, section)
    requires LoopState(fw, offs, section, pageSize, sections, fwSize, t0, tr, cnt, runs, checksum, run.offset)
    requires run.offset < fwSize && run.offset + section <= |fw|
    requires blockChecksum == BlockChecksum(fw[run.offset..run.offset + section])
    requires RetryShape(run.attempts) && Succeeded(run)
    requires tr' == tr + RetryOps(fw[run.offset..run.offset + section], blockChecksum, run.attempts)
    requires Paced(run.attempts, cnt, section, pageSize, sections) && cnt' == CountAfter(run.attempts, cnt)
    ensures LoopState(fw, offs, section, pageSize, sections, fwSize, t0, tr', cnt', runs + [run],
                      (checksum + blockChecksum) % Word, run.offset + section)
  {
    LoggedStep(fw, section, pageSize, sections, t0, tr, cnt, runs, tr', cnt', run);
    NextOffset(start, fwSize, section, |runs|);
    ProgressStep(fw, offs, section, runs, checksum, run, blockChecksum);
  }

  /** One turn of the update loop whose block failed all its attempts: the loop stops with the
      block's result. */
  lemma LoopStops(fw: seq<byte>, offs: seq<nat>, section: nat, pageSize: nat, sections: nat, fwSize: nat,
                  t0: seq<Op>, tr: seq<Op>, cnt: nat, runs: seq<BlockRun>, checksum: u16,
                  tr': seq<Op>, cnt': nat, run: BlockRun, blockChecksum: u16)
    requires LoopState(fw, offs, section, pageSize, sections, fwSize, t0, tr, cnt, runs, checksum, run.offset)
    requires run.offset < fwSize && run.offset + section <= |fw|
    requires blockChecksum == BlockChecksum(fw[run.offset..run.offset + section])
    requires RetryShape(run.attempts) && !Succeeded(run)
    requires tr' == tr + RetryOps(fw[run.offset..run.offset + section], blockChecksum, run.attempts)
    requires Paced(run.attempts, cnt, section, pageSize, sections) && cnt' == CountAfter(run.attempts, cnt)
    ensures EndState(fw, offs, section, pageSize, sections, t0, tr', cnt', runs + [run],
                     Abort(UpdateFailed(run.offset, LastResult(run))))
  {
    LoggedStep(fw, section, pageSize, sections, t0, tr, cnt, runs, tr', cnt', run);
    FailedResult(fw, offs, section, runs, checksum, run);
  }

  /** One turn of the update loop: after the block at `i` went through the retry loop, the loop
      goes on at the next offset when the block succeeded, and stops with its result otherwise. */
  lemma LoopStep(fw: seq<byte>, start: nat, offs: seq<nat>, section: nat, pageSize: nat, sections: nat, fwSize: nat,
                 t0: seq<Op>, tr: seq<Op>, cnt: nat, runs: seq<BlockRun>, checksum: u16,
                 tr': seq<Op>, cnt': nat, run: BlockRun, blockChecksum: u16)
    requires section > 0 && offs == BlockOffsets(start, fwSize, section)
    requires LoopState(fw, offs, section, pageSize, sections, fwSize, t0, tr, cnt, runs, checksum, run.offset)
    requires run.offset < fwSize && run.offset + section <= |fw|
    requires blockChecksum == BlockChecksum(fw[run.offset..run.offset + section])
    requires RetryShape(run.attempts)
    requires tr' == tr + RetryOps(fw[run.offset..run.offset + section], blockChecksum, run.attempts)
    requires Paced(run.attempts, cnt, section, pageSize, sections) && cnt' == CountAfter(run.attempts, cnt)
    ensures Succeeded(run) ==> LoopState(fw, offs, section, pageSize, sections, fwSize, t0, tr', cnt', runs + [run],
                                         (checksum + blockChecksum) % Word, run.offset + section)
    ensures !Succeeded(run) ==> EndState(fw, offs, section, pageSize, sections, t0, tr', cnt', runs + [run],
                                         Abort(UpdateFailed(run.offset, LastResult(run))))
  {
    if Succeeded(run) {
      LoopContinues(fw, start, offs, section, pageSize, sections, fwSize, t0, tr, cnt, runs, checksum, tr', cnt', run, blockChecksum);
    } else {
      LoopStops(fw, offs, section, pageSize, sections, fwSize, t0, tr, cnt, runs, checksum, tr', cnt', run, blockChecksum);
    }
  }

  // ----- the phases of an update run in `main` -----

  /** The start of the run: the report-disable write, then the read of the OSM version word and,
      when that word is unusable, of the IC-body word; the words read give `ic`. */
  predicate Opening(ops: seq<Op>, ic: byte)
  {
    && 2 <= |ops| && Writes(ops[0], IapResetCmd, ReportDisable) && Reads(ops[1], OsmVersionCmd)
    && if IcTypeUnreadable(ops[1].value) then
         |ops| == 3 && Reads(ops[2], IapIcBodyCmd) && ic == DecodeIcType(ops[1].value, ops[2].value)
       else
         |ops| == 2 && ic == DecodeIcType(ops[1].value, 0)
  }

  /** What `disable_report` and `elan_get_ic_type` perform is an opening for the type they decode. */
  lemma OpeningOf(ok: bool, primary: u16, fallback: u16)
    ensures Opening([Write(IapResetCmd, ReportDisable, ok), Read(OsmVersionCmd, primary)] +
                    (if IcTypeUnreadable(primary) then [Read(IapIcBodyCmd, fallback)] else []),
                    DecodeIcType(primary, fallback))
  {
  }

  /** An opening writes nothing to the flash. */
  lemma OpeningUntouched(ops: seq<Op>, ic: byte)
    requires Opening(ops, ic)
    ensures FlashUntouched(ops)
  {
  }

  /** A command written once, and a second time when the first write failed. */
  predicate Retried(ops: seq<Op>, reg: nat, cmd: nat)
  {
    && 1 <= |ops| && Writes(ops[0], reg, cmd)
    && if ops[0].ok then |ops| == 1 else |ops| == 2 && Writes(ops[1], reg, cmd)
  }

  /** `Tries` are exactly the retried commands, in both directions. */
  lemma RetriedIsTries(ops: seq<Op>, reg: nat, cmd: nat, first: bool, second: bool)
    ensures Retried(Tries(reg, cmd, first, second), reg, cmd)
    ensures Retried(ops, reg, cmd) ==> ops == Tries(reg, cmd, ops[0].ok, ops[|ops| - 1].ok)
  {
  }

  /** The operations of `switch_to_ptpmode`: the report-enable command, then the PTP-mode
      command, each of them retried. */
  predicate PtpRestore(ops: seq<Op>)
  {
    && 1 <= |ops| && ops[0].Write?
    && var n := if ops[0].ok then 1 else 2;
       n <= |ops| && Retried(ops[..n], IapResetCmd, ReportEnable) && Retried(ops[n..], PtpModeCmd, PtpMode)
  }

  /** The two commands of `switch_to_ptpmode`, tried as `WriteRetried` tries them, are a restore. */
  lemma RestoreOf(first: bool, second: bool, third: bool, fourth: bool)
    ensures PtpRestore(Tries(IapResetCmd, ReportEnable, first, second) + Tries(PtpModeCmd, PtpMode, third, fourth))
  {
    var enable, ptp := Tries(IapResetCmd, ReportEnable, first, second), Tries(PtpModeCmd, PtpMode, third, fourth);
    RetriedIsTries(enable, IapResetCmd, ReportEnable, first, second);
    RetriedIsTries(ptp, PtpModeCmd, PtpMode, third, fourth);
    assert (enable + ptp)[..|enable|] == enable && (enable + ptp)[|enable|..] == ptp;
  }

  /** Restoring PTP mode takes two to four writes and none of them touches the flash. */
  lemma RestoreUntouched(ops: seq<Op>)
    requires PtpRestore(ops)
    ensures 2 <= |ops| <= 4 && FlashUntouched(ops)
  {
    var n := if ops[0].ok then 1 else 2;
    assert ops == ops[..n] + ops[n..];
    UntouchedConcat(ops[..n], ops[n..]);
  }

  /** The five reads of `elan_get_fw_info`, in order: pattern, firmware checksum, IAP checksum,
      firmware version, and IAP version from the register the pattern read selects. */
  predicate InfoReads(ops: seq<Op>)
  {
    && |ops| == 5 && Reads(ops[0], HidIdCmd) && Reads(ops[1], FwChecksumCmd) && Reads(ops[2], IapChecksumCmd)
    && Reads(ops[3], FwVersionCmd) && Reads(ops[4], VersionRegister(true, DecodePattern(ops[0].value)))
  }

  /** The identification globals once those reads are decoded. */
  function InfoAfter(info: DeviceInfo, ops: seq<Op>): DeviceInfo
    requires InfoReads(ops)
  {
    var pattern := DecodePattern(ops[0].value);
    info.(isNewPattern := pattern, fwVersion := ops[3].value, iapVersion := DecodeVersion(true, pattern, ops[4].value))
  }

  /** The operations of `elan_prepare_for_update` and its result: the control word read, the
      reset unless the last write completed, the geometry step (a failed IAP-type confirmation is
      the only way it ends unconfirmed), and, unless that step aborted, the password for the IC
      type and the control word read again, whose bit 7 decides. */
  predicate Preparation(ic: byte, version: int, iapType: u16, ops: seq<Op>, r: Result<()>)
  {
    && 1 <= |ops| && Reads(ops[0], IapCtrlCmd)
    && (r.Ok? || r.reason in {ZeroSectionSize, IapTypeNotConfirmed, PasswordRejected})
    && (r == Abort(ZeroSectionSize) <==> DeriveGeometry(ic, version, iapType).None?)
    && var k := if NeedsReset(ops[0].value) then 2 else 1;
       var m := if r.Ok? || r == Abort(PasswordRejected) then |ops| - 2 else |ops|;
       && k <= m
       && (k == 2 ==> Writes(ops[1], IapResetCmd, IapReset))
       && GeometryStep(ic, version, iapType, ops[k..m], r != Abort(IapTypeNotConfirmed))
       && (m < |ops| ==>
             && Writes(ops[m], IapCmd, Password(ic)) && Reads(ops[m + 1], IapCtrlCmd)
             && (r.Ok? <==> PasswordAccepted(ops[m + 1].value)))
  }

  /** The clauses `PrepareForUpdate` ensures, put together, are a preparation. */
  lemma PreparationOf(ic: byte, version: int, iapType: u16, ctrl0: u16, confirmed: bool,
                      resetOps: seq<Op>, geometryOps: seq<Op>, passwordOps: seq<Op>, r: Result<()>)
    requires if NeedsReset(ctrl0) then |resetOps| == 1 && Writes(resetOps[0], IapResetCmd, IapReset) else resetOps == []
    requires GeometryStep(ic, version, iapType, geometryOps, confirmed)
    requires r == Abort(ZeroSectionSize) <==> DeriveGeometry(ic, version, iapType).None?
    requires r == Abort(IapTypeNotConfirmed) <==> DeriveGeometry(ic, version, iapType).Some? && !confirmed
    requires r.Ok? || r.reason in {ZeroSectionSize, IapTypeNotConfirmed, PasswordRejected}
    requires (r.Ok? || r == Abort(PasswordRejected)) <==> passwordOps != []
    requires passwordOps != [] ==>
      && |passwordOps| == 2 && Writes(passwordOps[0], IapCmd, Password(ic)) && Reads(passwordOps[1], IapCtrlCmd)
      && (r.Ok? <==> PasswordAccepted(passwordOps[1].value))
    ensures Preparation(ic, version, iapType, [Read(IapCtrlCmd, ctrl0)] + resetOps + geometryOps + passwordOps, r)
  {
    var ops := [Read(IapCtrlCmd, ctrl0)] + resetOps + geometryOps + passwordOps;
    var k := 1 + |resetOps|;
    var m := k + |geometryOps|;
    assert ops[k..m] == geometryOps;
    assert k == 2 ==> ops[1] == resetOps[0];
    assert m < |ops| ==> ops[m] == passwordOps[0] && ops[m + 1] == passwordOps[1];
  }

  /** The end of the run: the IAP checksum read (the remote checksum), the reset, the firmware
      information read again, and PTP mode restored. */
  predicate Finishing(ops: seq<Op>, remote: u16)
  {
    && 7 <= |ops| && ops[0] == Read(IapChecksumCmd, remote) && Writes(ops[1], IapResetCmd, IapReset)
    && InfoReads(ops[2..7]) && PtpRestore(ops[7..])
  }

  /** The retry loop so far: the trace holds the operations of its attempts, which were paced
      by the section counter, and the counter stands where they left it. */
  ghost predicate Retrying(data: seq<byte>, checksum: u16, t0: seq<Op>, tr: seq<Op>, cnt0: nat, cnt: nat,
                           attempts: seq<Attempt>, section: nat, pageSize: nat, sections: nat)
  {
    && tr == t0 + RetryOps(data, checksum, attempts)
    && Paced(attempts, cnt0, section, pageSize, sections)
    && cnt == CountAfter(attempts, cnt0)
  }

  /** One more attempt, read or not read according to the counter, keeps `Retrying`. */
  lemma RetryStep(data: seq<byte>, checksum: u16, t0: seq<Op>, tr: seq<Op>, cnt0: nat, cnt: nat,
                  attempts: seq<Attempt>, section: nat, pageSize: nat, sections: nat,
                  tr': seq<Op>, cnt': nat, a: Attempt)
    requires Retrying(data, checksum, t0, tr, cnt0, cnt, attempts, section, pageSize, sections)
    requires a.checked == StatusChecked(section, pageSize, cnt, sections)
    requires tr' == tr + AttemptOps(data, checksum, a) && cnt' == NextSectionCount(cnt, a)
    ensures Retrying(data, checksum, t0, tr', cnt0, cnt', attempts + [a], section, pageSize, sections)
  {
    var next := attempts + [a];
    assert next[..|next| - 1] == attempts;
    AppendAssoc(t0, RetryOps(data, checksum, attempts), AttemptOps(data, checksum, a));
  }

  /** The outcomes of a run that got as far as sending blocks. */
  predicate UpdateStarted(o: Outcome)
  {
    o.Completed? || (o.Aborted? && (o.reason.UpdateFailed? || o.reason.BlockOutsideImage?))
  }

  /** What the update step returned, for a run that got that far. */
  function UpdateStep(o: Outcome): Result<u16>
    requires UpdateStarted(o)
  {
    if o.Completed? then Ok(o.local) else Abort(o.reason)
  }

  /** The reads and writes `FinishUpdate` performs make up the end of a run. */
  lemma FinishingOf(remote: u16, ok: bool, info: seq<Op>, ptp: seq<Op>)
    requires InfoReads(info) && PtpRestore(ptp)
    ensures var ops := [Read(IapChecksumCmd, remote), Write(IapResetCmd, IapReset, ok)] + info + ptp;
            Finishing(ops, remote) && ops[2..7] == info
  {
    var ops := [Read(IapChecksumCmd, remote), Write(IapResetCmd, IapReset, ok)] + info + ptp;
    assert ops[2..7] == info && ops[7..] == ptp;
  }

  /** What the preparation returned, for a run that got past the image check. */
  function PrepStep(o: Outcome): Result<()>
    requires !o.SignatureMismatch?
  {
    if UpdateStarted(o) then Ok(()) else Abort(o.reason)
  }

  class Session {
    /** `interface_type`, fixed when the device is opened. */
    const iface: Interface
    const channel: Channel
    /** `rx_buf` and `tx_buf`. */
    const rxBuf: array<byte>
    const txBuf: array<byte>
    /** `fw_data`, the image buffer as loaded (the loading itself is not modelled). */
    const fwData: seq<byte>

    var icType: byte
    var isNewPattern: int
    var iapVersion: int
    var fwVersion: int
    var fwPageCount: nat
    var fwSize: nat
    var fwSignatureAddress: int
    var fwPageSize: nat
    var fwSectionSize: nat
    var fwNoOfSections: nat
    var fwSectionCnt: nat

    /** The register-level operations performed so far. */
    ghost var trace: seq<Op>

    predicate Wf()
    {
      rxBuf.Length == BufferSize && txBuf.Length == BufferSize && rxBuf != txBuf && |fwData| == MaxFwSize
    }

    /** The trace is what the channel received. */
    ghost predicate Valid()
      reads this`trace, channel`sent
    {
      && Wf() && |channel.sent| == |trace|
      && forall k :: 0 <= k < |trace| ==> channel.sent[k] == Encode(iface, trace[k])
    }

    /** In one piece: the frames on the wire are the encodings of the trace, in order. */
    lemma WireIsTrace()
      requires Valid()
      ensures channel.sent == Frames(iface, trace)
    {
      FramesAt(iface, trace);
    }

    function Info(): DeviceInfo
      reads this
    {
      DeviceInfo(icType, isNewPattern, iapVersion, fwVersion, fwPageCount, fwSize, fwSignatureAddress)
    }

    function Layout(): Geometry
      reads this
    {
      Geometry(fwPageSize, fwSectionSize, fwNoOfSections)
    }

    /** A fresh session over a channel that has carried nothing yet; the globals start as the
        C statics do (zero, versions -1). */
    constructor (iface: Interface, channel: Channel, fw: seq<byte>)
      requires channel.sent == [] && |fw| == MaxFwSize
      ensures Valid() && fresh(rxBuf) && fresh(txBuf)
      ensures this.iface == iface && this.channel == channel && fwData == fw && trace == []
      ensures Info() == DeviceInfo(0, 0, -1, -1, 0, 0, 0) && Layout() == Geometry(0, 0, 0) && fwSectionCnt == 0
      ensures rxBuf[..] == seq(BufferSize, _ => 0) && txBuf[..] == seq(BufferSize, _ => 0)
    {
      this.iface := iface;
      this.channel := channel;
      rxBuf := new byte[BufferSize](_ => 0);
      txBuf := new byte[BufferSize](_ => 0);
      fwData := fw;
      icType, isNewPattern, iapVersion, fwVersion := 0, 0, -1, -1;
      fwPageCount, fwSize, fwSignatureAddress := 0, 0, 0;
      fwPageSize, fwSectionSize, fwNoOfSections, fwSectionCnt := 0, 0, 0, 0;
      trace := [];
    }

    // ----- transport (hid_send_cmd, i2c_send_cmd, hid_read_cmd, hid_write_cmd) -----

    /** `hid_send_cmd`: a SET_FEATURE carrying `frame`, then, when reply bytes are wanted, a
        GET_FEATURE of `rxLength + 3` bytes whose bytes from offset 3 land in the receive buffer. */
    method HidSendCmd(frame: seq<byte>, rxLength: nat) returns (rv: int)
      requires Wf() && rxLength <= BufferSize
      modifies channel, rxBuf
      ensures channel.sent == old(channel.sent) + [frame]
      ensures channel.answers == Later(old(channel.answers))
      ensures rv == if Next(old(channel.answers)).Answered? then 0 else -1
      ensures rxBuf[..] == Received(Hid, old(rxBuf[..]), Next(old(channel.answers)), rxLength)
    {
      ghost var a := Next(channel.answers);
      ghost var before := rxBuf[..];
      var reply := channel.Transfer(frame, ReplyLength(Hid, rxLength));
      if reply.None? {
        return -1;
      }
      if rxLength > 0 {
        var buf := reply.value;
        forall k | 0 <= k < rxLength {
          rxBuf[k] := buf[HidReplyHeader + k];
        }
        assert rxBuf[..] == Reply(Hid, a, rxLength).value + before[rxLength..];
      }
      return 0;
    }

    /** `i2c_send_cmd`: a write of `frame`, then, when reply bytes are wanted, a read of
        `rxLength` bytes into the receive buffer. */
    method I2cSendCmd(frame: seq<byte>, rxLength: nat) returns (rv: int)
      requires Wf() && rxLength <= BufferSize
      modifies channel, rxBuf
      ensures channel.sent == old(channel.sent) + [frame]
      ensures channel.answers == Later(old(channel.answers))
      ensures rv == if Next(old(channel.answers)).Answered? then 0 else -1
      ensures rxBuf[..] == Received(I2c, old(rxBuf[..]), Next(old(channel.answers)), rxLength)
    {
      ghost var a := Next(channel.answers);
      ghost var before := rxBuf[..];
      var reply := channel.Transfer(frame, ReplyLength(I2c, rxLength));
      if reply.None? {
        return -1;
      }
      if rxLength > 0 {
        var buf := reply.value;
        forall k | 0 <= k < rxLength {
          rxBuf[k] := buf[k];
        }
        assert rxBuf[..] == Reply(I2c, a, rxLength).value + before[rxLength..];
      }
      return 0;
    }

    /** `hid_read_cmd`: the read request `0x0D 0x05 0x03` followed by the register bytes staged in
        the transmit buffer. */
    method HidReadCmd(rxLength: nat) returns (rv: int)
      requires Wf() && rxLength <= BufferSize
      modifies channel, rxBuf
      ensures channel.sent == old(channel.sent) + [[HidCmdReport] + HidReadOpcode + txBuf[..2]]
      ensures channel.answers == Later(old(channel.answers))
      ensures rv == if Next(old(channel.answers)).Answered? then 0 else -1
      ensures rxBuf[..] == Received(Hid, old(rxBuf[..]), Next(old(channel.answers)), rxLength)
    {
      var buf := new byte[5];
      buf[0], buf[1], buf[2], buf[3], buf[4] := HidCmdReport, 0x05, 0x03, txBuf[0], txBuf[1];
      assert buf[..] == [HidCmdReport] + HidReadOpcode + txBuf[..2];
      rv := HidSendCmd(buf[..], rxLength);
    }

    /** `hid_write_cmd`: the report id 0x0D followed by the four bytes staged in the transmit buffer;
        no reply is collected. */
    method HidWriteCmd() returns (rv: int)
      requires Wf()
      modifies channel, rxBuf
      ensures channel.sent == old(channel.sent) + [[HidCmdReport] + txBuf[..4]]
      ensures channel.answers == Later(old(channel.answers))
      ensures rv == if Next(old(channel.answers)).Answered? then 0 else -1
      ensures rxBuf[..] == old(rxBuf[..])
    {
      var buf := new byte[5];
      buf[0], buf[1], buf[2], buf[3], buf[4] := HidCmdReport, txBuf[0], txBuf[1], txBuf[2], txBuf[3];
      assert buf[..] == [HidCmdReport] + txBuf[..4];
      rv := HidSendCmd(buf[..], 0);
    }

    // ----- register transactions (elan_write_and_read, elan_read_cmd, elan_write_cmd) -----

    /** `elan_write_and_read`: stage the register (and the command word) in the transmit buffer and
        send the read or write request for the session's interface. */
    method WriteAndRead(reg: nat, readLength: nat, withCmd: bool, cmd: nat) returns (rv: int)
      requires Wf() && readLength <= BufferSize
      modifies channel, rxBuf, txBuf
      ensures channel.sent == old(channel.sent) + [if withCmd then WriteRequest(iface, reg, cmd) else ReadRequest(iface, reg)]
      ensures channel.answers == Later(old(channel.answers))
      ensures rv == if Next(old(channel.answers)).Answered? then 0 else -1
      ensures rxBuf[..] == Received(iface, old(rxBuf[..]), Next(old(channel.answers)), if withCmd then 0 else readLength)
      ensures txBuf[..] == Staged(old(txBuf[..]), reg, withCmd, cmd)
    {
      ghost var staged := Staged(txBuf[..], reg, withCmd, cmd);
      txBuf[0] := Lo(reg);
      txBuf[1] := Hi(reg);
      if withCmd {
        txBuf[2] := Lo(cmd);
        txBuf[3] := Hi(cmd);
        assert txBuf[..] == staged;
        assert txBuf[..4] == [Lo(reg), Hi(reg), Lo(cmd), Hi(cmd)];
        if iface == Hid {
          assert [HidCmdReport] + txBuf[..4] == WriteRequest(Hid, reg, cmd);
          rv := HidWriteCmd();
        } else {
          assert txBuf[..4] == WriteRequest(I2c, reg, cmd);
          rv := I2cSendCmd(txBuf[..4], 0);
        }
      } else {
        assert txBuf[..] == staged;
        assert txBuf[..2] == [Lo(reg), Hi(reg)];
        if iface == Hid {
          assert [HidCmdReport] + HidReadOpcode + txBuf[..2] == ReadRequest(Hid, reg);
          rv := HidReadCmd(readLength);
        } else {
          assert txBuf[..2] == ReadRequest(I2c, reg);
          rv := I2cSendCmd(txBuf[..2], readLength);
        }
      }
    }

    /** `elan_read_cmd`: read a register into the first two bytes of the receive buffer. The word
        recorded is what the buffer holds afterwards, stale when the transfer failed. */
    method ReadCmd(reg: nat) returns (rv: int)
      requires Valid()
      modifies this, channel, rxBuf, txBuf
      ensures Valid() && Info() == old(Info()) && Layout() == old(Layout()) && fwSectionCnt == old(fwSectionCnt)
      ensures channel.answers == Later(old(channel.answers))
      ensures rv == if Next(old(channel.answers)).Answered? then 0 else -1
      ensures rxBuf[..] == Received(iface, old(rxBuf[..]), Next(old(channel.answers)), 2)
      ensures trace == old(trace) + [Read(reg, LeBytesToInt(rxBuf[..2]))]
    {
      rv := WriteAndRead(reg, 2, false, 0);
      trace := trace + [Read(reg, LeBytesToInt(rxBuf[..2]))];
    }

    /** `elan_write_cmd`: write a command word to a register; the receive buffer is left alone. */
    method WriteCmd(reg: nat, cmd: nat) returns (rv: int)
      requires Valid()
      modifies this, channel, rxBuf, txBuf
      ensures Valid() && Info() == old(Info()) && Layout() == old(Layout()) && fwSectionCnt == old(fwSectionCnt)
      ensures channel.answers == Later(old(channel.answers))
      ensures rv == if Next(old(channel.answers)).Answered? then 0 else -1
      ensures rxBuf[..] == old(rxBuf[..])
      ensures trace == old(trace) + [Write(reg, cmd, rv == 0)]
    {
      rv := WriteAndRead(reg, 0, true, cmd);
      trace := trace + [Write(reg, cmd, rv == 0)];
    }
 
    // ----- register getters and single commands -----

    /** `elan_get_iap_ctrl`: the IAP control word. */
    method GetIapCtrl() returns (ctrl: u16)
      requires Valid()
      modifies this, channel, rxBuf, txBuf
      ensures Valid() && Info() == old(Info()) && Layout() == old(Layout()) && fwSectionCnt == old(fwSectionCnt)
      ensures trace == old(trace) + [Read(IapCtrlCmd, ctrl)]
    {
      var rv := ReadCmd(IapCtrlCmd);
      ctrl := LeBytesToInt(rxBuf[..2]);
    }

    /** `elan_get_iap_icbody_interfacetype`: the IC-body word. */
    method GetIapIcBodyInterfaceType() returns (w: u16)
      requires Valid()
      modifies this, channel, rxBuf, txBuf
      ensures Valid() && Info() == old(Info()) && Layout() == old(Layout()) && fwSectionCnt == old(fwSectionCnt)
      ensures trace == old(trace) + [Read(IapIcBodyCmd, w)]
    {
      var rv := ReadCmd(IapIcBodyCmd);
      w := LeBytesToInt(rxBuf[..2]);
    }

    /** `elan_get_iap_type`: the IAP-type word of register 0x0304. */
    method GetIapType() returns (t: u16)
      requires Valid()
      modifies this, channel, rxBuf, txBuf
      ensures Valid() && Info() == old(Info()) && Layout() == old(Layout()) && fwSectionCnt == old(fwSectionCnt)
      ensures trace == old(trace) + [Read(IapTypeCmd, t)]
    {
      var rv := ReadCmd(IapTypeCmd);
      t := LeBytesToInt(rxBuf[..2]);
    }

    /** `elan_get_checksum`: the IAP checksum (0x0315) or the firmware checksum (0x030F). */
    method GetChecksum(isIap: bool) returns (c: u16)
      requires Valid()
      modifies this, channel, rxBuf, txBuf
      ensures Valid() && Info() == old(Info()) && Layout() == old(Layout()) && fwSectionCnt == old(fwSectionCnt)
      ensures trace == old(trace) + [Read(ChecksumRegister(isIap), c)]
    {
      var rv := ReadCmd(ChecksumRegister(isIap));
      c := LeBytesToInt(rxBuf[..2]);
    }

    /** `elan_get_patten`: the pattern generation from register 0x0100. */
    method GetPattern() returns (p: byte, ghost w: u16)
      requires Valid()
      modifies this, channel, rxBuf, txBuf
      ensures Valid() && Info() == old(Info()) && Layout() == old(Layout()) && fwSectionCnt == old(fwSectionCnt)
      ensures trace == old(trace) + [Read(HidIdCmd, w)]
      ensures p == DecodePattern(w)
    {
      var rv := ReadCmd(HidIdCmd);
      var tmp := LeBytesToInt(rxBuf[..2]);
      w := tmp;
      if tmp == 0xFFFF {
        p := 0;
      } else {
        p := tmp / 0x100;   // (tmp & 0xFF00) >> 8
      }
    }

    /** `elan_get_version`: the firmware or IAP version, from the register the pattern selects. */
    method GetVersion(isIap: bool) returns (v: int, ghost w: u16)
      requires Valid()
      modifies this, channel, rxBuf, txBuf
      ensures Valid() && Info() == old(Info()) && Layout() == old(Layout()) && fwSectionCnt == old(fwSectionCnt)
      ensures trace == old(trace) + [Read(VersionRegister(isIap, isNewPattern), w)]
      ensures v == DecodeVersion(isIap, isNewPattern, w)
    {
      var cmd: nat;
      if !isIap {
        cmd := FwVersionCmd;
      } else if isNewPattern == 0 {
        cmd := IapVersionCmd;
      } else {
        cmd := NewIapVersionCmd;
      }
      var rv := ReadCmd(cmd);
      var val := LeBytesToInt(rxBuf[..2]);
      w := val;
      if isNewPattern >= 1 {
        v := if isIap then rxBuf[1] else val;
      } else {
        v := val;
      }
    }

    /** `elan_get_fw_info`: pattern, both checksums and both versions, in that order; the
        pattern and the versions are kept in the session, the firmware checksum is returned. */
    method GetFwInfo() returns (fwChecksum: u16, ghost ops: seq<Op>)
      requires Valid()
      modifies this, channel, rxBuf, txBuf
      ensures Valid() && Layout() == old(Layout()) && fwSectionCnt == old(fwSectionCnt)
      ensures trace == old(trace) + ops && InfoReads(ops)
      ensures Info() == InfoAfter(old(Info()), ops)
      ensures fwChecksum == ops[1].value
    {
      ghost var t0, info := trace, Info();
      var p, w0 := GetPattern();
      isNewPattern := p;
      ghost var info1 := Info();
      fwChecksum := GetChecksum(false);
      var iapChecksum := GetChecksum(true);
      assert trace == t0 + [Read(HidIdCmd, w0), Read(FwChecksumCmd, fwChecksum), Read(IapChecksumCmd, iapChecksum)];
      assert Info() == info1 == info.(isNewPattern := p);
      ghost var t3 := trace;
      var fv, w3 := GetVersion(false);
      fwVersion := fv;
      ghost var info2 := Info();
      var iv, w4 := GetVersion(true);
      assert Info() == info2 == info1.(fwVersion := fv);
      iapVersion := iv;
      assert trace == t3 + [Read(FwVersionCmd, w3), Read(VersionRegister(true, isNewPattern), w4)];
      ops := [Read(HidIdCmd, w0), Read(FwChecksumCmd, fwChecksum), Read(IapChecksumCmd, iapChecksum),
              Read(FwVersionCmd, w3), Read(VersionRegister(true, p), w4)];
      assert Info() == info2.(iapVersion := iv);
    }

    /** `elan_get_ic_type`: the high byte of the OSM version word, or the low byte of the IC-body
        word when the OSM word echoes its register number or reads all ones. */
    method GetIcType() returns (ic: byte, ghost primary: u16, ghost fallback: u16)
      requires Valid()
      modifies this, channel, rxBuf, txBuf
      ensures Valid() && Info() == old(Info()) && Layout() == old(Layout()) && fwSectionCnt == old(fwSectionCnt)
      ensures trace == old(trace) + [Read(OsmVersionCmd, primary)] +
                       (if IcTypeUnreadable(primary) then [Read(IapIcBodyCmd, fallback)] else [])
      ensures ic == DecodeIcType(primary, fallback)
    {
      var rv := ReadCmd(OsmVersionCmd);
      var tmp := LeBytesToInt(rxBuf[..2]);
      primary, fallback := tmp, 0;
      if tmp == OsmVersionCmd || tmp == 0xFFFF {
        var body := GetIapIcBodyInterfaceType();
        fallback := body;
        return body % 0x100, primary, fallback;
      }
      return (tmp / 0x100) % 0x100, primary, fallback;
    }

    /** `elan_get_ic_page_count`: record the IC type and look its page count up; an unlisted
        type ends the run. */
    method GetIcPageCount() returns (r: Result<nat>, ghost primary: u16, ghost fallback: u16)
      requires Valid()
      modifies this, channel, rxBuf, txBuf
      ensures Valid() && Layout() == old(Layout()) && fwSectionCnt == old(fwSectionCnt)
      ensures Info() == old(Info()).(icType := icType)
      ensures icType == DecodeIcType(primary, fallback)
      ensures trace == old(trace) + [Read(OsmVersionCmd, primary)] +
                       (if IcTypeUnreadable(primary) then [Read(IapIcBodyCmd, fallback)] else [])
      ensures r.Ok? <==> PageCount(icType).Some?
      ensures r.Ok? ==> r.value == PageCount(icType).value
      ensures r.Abort? ==> r.reason == UnsupportedIcType(icType)
    {
      icType, primary, fallback := GetIcType();
      match PageCount(icType)
      case Some(count) => r := Ok(count);
      case None => r := Abort(UnsupportedIcType(icType));
    }

    /** `elan_reset_tp`: write the reset word to 0x0314. */
    method ResetTp() returns (ghost ok: bool)
      requires Valid()
      modifies this, channel, rxBuf, txBuf
      ensures Valid() && Info() == old(Info()) && Layout() == old(Layout()) && fwSectionCnt == old(fwSectionCnt)
      ensures trace == old(trace) + [Write(IapResetCmd, IapReset, ok)]
    {
      var rv := WriteCmd(IapResetCmd, IapReset);
      ok := rv == 0;
    }

    /** `disable_report`: write 0x0801 to 0x0314, once, whatever the outcome. */
    method DisableReport() returns (ghost ok: bool)
      requires Valid()
      modifies this, channel, rxBuf, txBuf
      ensures Valid() && Info() == old(Info()) && Layout() == old(Layout()) && fwSectionCnt == old(fwSectionCnt)
      ensures trace == old(trace) + [Write(IapResetCmd, ReportDisable, ok)]
    {
      var rv := WriteCmd(IapResetCmd, ReportDisable);
      ok := rv == 0;
    }

    /** A command written once, and once more when the first write fails, as each of the two
        commands of `switch_to_ptpmode` is. */
    method WriteRetried(reg: nat, cmd: nat) returns (ghost first: bool, ghost second: bool)
      requires Valid()
      modifies this, channel, rxBuf, txBuf
      ensures Valid() && Info() == old(Info()) && Layout() == old(Layout()) && fwSectionCnt == old(fwSectionCnt)
      ensures trace == old(trace) + Tries(reg, cmd, first, second)
    {
      ghost var t0 := trace;
      var rv := WriteCmd(reg, cmd);
      first, second := rv == 0, true;
      if rv != 0 {
        rv := WriteCmd(reg, cmd);
        second := rv == 0;
        assert trace == t0 + [Write(reg, cmd, first)] + [Write(reg, cmd, second)];
      }
    }

    /** `switch_to_ptpmode`: enable the report (0x0314 <- 0x0800), then select PTP mode
        (0x0306 <- 0x0003); each command is written a second time when its first write fails,
        and the second command is sent whatever became of the first. */
    method SwitchToPtpMode() returns (ghost ops: seq<Op>)
      requires Valid()
      modifies this, channel, rxBuf, txBuf
      ensures Valid() && Info() == old(Info()) && Layout() == old(Layout()) && fwSectionCnt == old(fwSectionCnt)
      ensures trace == old(trace) + ops
      ensures PtpRestore(ops) && FlashUntouched(ops)
    {
      ghost var t0 := trace;
      ghost var ok0, ok1 := WriteRetried(IapResetCmd, ReportEnable);
      ghost var ok2, ok3 := WriteRetried(PtpModeCmd, PtpMode);
      ghost var enable, ptp := Tries(IapResetCmd, ReportEnable, ok0, ok1), Tries(PtpModeCmd, PtpMode, ok2, ok3);
      ops := enable + ptp;
      assert trace == t0 + ops;
      RestoreOf(ok0, ok1, ok2, ok3);
      RestoreUntouched(ops);
    }

    // ----- preparation (elan_prepare_for_update) -----

    /** Write the IAP type to 0x0304 and read it back; on a mismatch write and read once more.
        `ok` is whether the last word read (its low 16 bits) matched. */
    method ConfirmIapType(value: nat) returns (ok: bool, ghost ops: seq<Op>)
      requires Valid()
      modifies this, channel, rxBuf, txBuf
      ensures Valid() && Info() == old(Info()) && Layout() == old(Layout()) && fwSectionCnt == old(fwSectionCnt)
      ensures trace == old(trace) + ops
      ensures Confirmation(ops, value, ok)
    {
      ghost var t0 := trace;
      var rv := WriteCmd(IapTypeCmd, value);
      var t := GetIapType();
      ops := [Write(IapTypeCmd, value, rv == 0), Read(IapTypeCmd, t)];
      assert trace == t0 + ops;
      if t % Word != value % Word {
        ghost var t1 := trace;
        rv := WriteCmd(IapTypeCmd, value);
        t := GetIapType();
        ops := ops + [Write(IapTypeCmd, value, rv == 0), Read(IapTypeCmd, t)];
        assert trace == t1 + [Write(IapTypeCmd, value, rv == 0), Read(IapTypeCmd, t)];
        ok := t % Word == value % Word;
      } else {
        ok := true;
      }
    }

    /** The geometry rules of `elan_prepare_for_update`: 64-byte pages by default; from IC type
        0x10 with IAP version 1, 512-byte pages on types 0x14 and 0x15 from IAP version 2 (their
        section size read from 0x0304 from version 3) and 128-byte pages otherwise. A zero
        section size is refused before anything divides by it. */
    method SetGeometry() returns (r: Result<()>, ghost iapType: u16, ghost ops: seq<Op>)
      requires Valid()
      modifies this, channel, rxBuf, txBuf
      ensures Valid() && Info() == old(Info()) && fwSectionCnt == old(fwSectionCnt)
      ensures trace == old(trace) + ops
      ensures ops == if QueriesSectionSize(icType, iapVersion) then [Read(IapTypeCmd, iapType)] else []
      ensures r.Ok? <==> DeriveGeometry(icType, iapVersion, iapType).Some?
      ensures r.Abort? ==> r.reason == ZeroSectionSize
      ensures r.Ok? ==> Layout() == DeriveGeometry(icType, iapVersion, iapType).value
    {
      fwPageSize, fwSectionSize, fwNoOfSections := 64, 64, 1;
      iapType, r, ops := 0, Ok(()), [];
      if icType >= 0x10 {
        if iapVersion >= 1 {
          if iapVersion >= 2 && (icType == 0x14 || icType == 0x15) {
            fwPageSize := 512;
            if iapVersion >= 3 {
              var t := GetIapType();
              iapType, ops := t, [Read(IapTypeCmd, t)];
              var section: nat := t as int * 2;
              if section == 0 {
                r := Abort(ZeroSectionSize);
                return;
              }
              fwSectionSize := section;
              fwNoOfSections := SectionsPerPage(fwPageSize, section);
              assert DeriveGeometry(icType, iapVersion, iapType) == Some(Layout());
            } else {
              fwSectionSize := 512;
            }
          } else {
            fwPageSize := 128;
            fwSectionSize := 128;
          }
        }
      }
    }

    /** The geometry part of `elan_prepare_for_update`: the geometry rules, then, when a page is
        one section, the IAP-type confirmation. */
    method NegotiateGeometry() returns (r: Result<()>, ghost iapType: u16, ghost confirmed: bool, ghost ops: seq<Op>)
      requires Valid()
      modifies this, channel, rxBuf, txBuf
      ensures Valid() && Info() == old(Info()) && fwSectionCnt == old(fwSectionCnt)
      ensures trace == old(trace) + ops
      ensures GeometryStep(icType, iapVersion, iapType, ops, confirmed)
      ensures r.Ok? <==> DeriveGeometry(icType, iapVersion, iapType).Some? && confirmed
      ensures r == Abort(ZeroSectionSize) <==> DeriveGeometry(icType, iapVersion, iapType).None?
      ensures r == Abort(IapTypeNotConfirmed) <==> DeriveGeometry(icType, iapVersion, iapType).Some? && !confirmed
      ensures r.Ok? ==> Layout() == DeriveGeometry(icType, iapVersion, iapType).value
    {
      r, iapType, ops := SetGeometry();
      confirmed := true;
      if r.Ok? && icType >= 0x10 && iapVersion >= 1 && fwSectionSize == fwPageSize {
        var ok, cops := ConfirmIapType(fwSectionSize / 2);
        confirmed := ok;
        assert (ops + cops)[..|ops|] == ops && (ops + cops)[|ops|..] == cops;
        ops := ops + cops;
        if !ok {
          r := Abort(IapTypeNotConfirmed);
        }
      }
    }

    /** `elan_prepare_for_update`: read the control word and reset the controller unless the last
        write completed, set up the geometry, write the password for the IC type, and read the
        control word again; the password must have been accepted (bit 7). */
    method PrepareForUpdate() returns (r: Result<()>, ghost ctrl0: u16, ghost iapType: u16, ghost confirmed: bool,
                                       ghost resetOps: seq<Op>, ghost geometryOps: seq<Op>, ghost passwordOps: seq<Op>)
      requires Valid()
      modifies this, channel, rxBuf, txBuf
      ensures Valid() && Info() == old(Info()) && fwSectionCnt == old(fwSectionCnt)
      ensures trace == old(trace) + [Read(IapCtrlCmd, ctrl0)] + resetOps + geometryOps + passwordOps
      ensures if NeedsReset(ctrl0) then |resetOps| == 1 && Writes(resetOps[0], IapResetCmd, IapReset) else resetOps == []
      ensures GeometryStep(icType, iapVersion, iapType, geometryOps, confirmed)
      ensures r == Abort(ZeroSectionSize) <==> DeriveGeometry(icType, iapVersion, iapType).None?
      ensures r == Abort(IapTypeNotConfirmed) <==> DeriveGeometry(icType, iapVersion, iapType).Some? && !confirmed
      ensures r.Ok? || r.reason in {ZeroSectionSize, IapTypeNotConfirmed, PasswordRejected}
      ensures (r.Ok? || r == Abort(PasswordRejected)) <==> passwordOps != []
      ensures passwordOps != [] ==>
        && |passwordOps| == 2 && Writes(passwordOps[0], IapCmd, Password(icType)) && Reads(passwordOps[1], IapCtrlCmd)
        && (r.Ok? <==> PasswordAccepted(passwordOps[1].value))
      ensures r.Ok? ==> Layout() == DeriveGeometry(icType, iapVersion, iapType).value
    {
      var ctrl := GetIapCtrl();
      ctrl0 := ctrl;
      // the tool's `ctrl < 0` test cannot fire: the word read is never negative
      resetOps := [];
      if NeedsReset(ctrl) {
        var ok := ResetTp();
        resetOps := [Write(IapResetCmd, IapReset, ok)];
      }
      assert trace == old(trace) + [Read(IapCtrlCmd, ctrl0)] + resetOps;
      r, iapType, confirmed, geometryOps := NegotiateGeometry();
      passwordOps := [];
      if r.Abort? {
        return;
      }
      ghost var t2 := trace;
      var rv := WriteCmd(IapCmd, Password(icType));
      ctrl := GetIapCtrl();
      passwordOps := [Write(IapCmd, Password(icType), rv == 0), Read(IapCtrlCmd, ctrl)];
      assert trace == t2 + passwordOps;
      if !PasswordAccepted(ctrl) {
        r := Abort(PasswordRejected);
      }
    }

    // ----- block transfer (i2c_write_fw_block, hid_write_fw_block, elan_write_fw_block) -----

    /** The common tail of both block writers: when the cadence asks for it, read the control word;
        a word with bit 5 or bit 4 set is returned as the failure. The counter goes back to 1 after
        a read and moves on by one otherwise. */
    method CheckPageStatus() returns (rv: int, ghost checked: bool, ghost status: u16)
      requires Valid()
      modifies this, channel, rxBuf, txBuf
      ensures Valid() && Info() == old(Info()) && Layout() == old(Layout())
      ensures checked == StatusChecked(fwSectionSize, fwPageSize, old(fwSectionCnt), fwNoOfSections)
      ensures !checked ==> status == 0
      ensures trace == old(trace) + (if checked then [Read(IapCtrlCmd, status)] else [])
      ensures rv == AttemptResult(Attempt(true, checked, status))
      ensures fwSectionCnt == NextSectionCount(old(fwSectionCnt), Attempt(true, checked, status))
    {
      checked, status := false, 0;
      if fwSectionSize == fwPageSize || fwSectionCnt == fwNoOfSections {
        checked := true;
        var _ := ReadCmd(IapCtrlCmd);
        var word := LeBytesToInt(rxBuf[..2]);
        status := word;
        fwSectionCnt := 0;
        if HasBit(word, IapPageErr) || HasBit(word, IapIntfErr) {
          fwSectionCnt := fwSectionCnt + 1;
          return word, checked, status;
        }
      }
      fwSectionCnt := fwSectionCnt + 1;
      rv := 0;
    }

    /** `i2c_write_fw_block`: send `[0x01, 0x06] ++ data ++ checksum` as one write, then check the
        page status when the cadence asks for it. */
    method I2cWriteFwBlock(data: seq<byte>, checksum: u16) returns (rv: int, ghost a: Attempt)
      requires Valid() && iface == I2c && |data| == fwSectionSize
      modifies this, channel, rxBuf, txBuf
      ensures Valid() && Info() == old(Info()) && Layout() == old(Layout())
      ensures a.sent <==> Next(old(channel.answers)).Answered?
      ensures a.checked == StatusChecked(fwSectionSize, fwPageSize, old(fwSectionCnt), fwNoOfSections)
      ensures rv == AttemptResult(a)
      ensures trace == old(trace) + AttemptOps(data, checksum, a)
      ensures fwSectionCnt == NextSectionCount(old(fwSectionCnt), a)
    {
      var n := fwSectionSize;
      var pageStore := new byte[n + 4];
      pageStore[0], pageStore[1] := I2cBlockHeader[0], I2cBlockHeader[1];
      forall k | 0 <= k < n {
        pageStore[k + 2] := data[k];
      }
      pageStore[n + 2], pageStore[n + 3] := Lo(checksum), Hi(checksum);
      assert pageStore[..] == BlockFrame(I2c, data, checksum);
      var sent := I2cSendCmd(pageStore[..], 0);
      trace := trace + [Block(data, checksum, sent == 0)];
      if sent != 0 {
        a := Attempt(false, StatusChecked(fwSectionSize, fwPageSize, fwSectionCnt, fwNoOfSections), 0);
        return sent, a;
      }
      ghost var checked, status;
      rv, checked, status := CheckPageStatus();
      a := Attempt(true, checked, status);
    }

    /** `hid_write_fw_block`: send `[0x0B] ++ data ++ checksum` as one output report, then check the
        page status when the cadence asks for it. */
    method HidWriteFwBlock(data: seq<byte>, checksum: u16) returns (rv: int, ghost a: Attempt)
      requires Valid() && iface == Hid && |data| == fwSectionSize
      modifies this, channel, rxBuf, txBuf
      ensures Valid() && Info() == old(Info()) && Layout() == old(Layout())
      ensures a.sent <==> Next(old(channel.answers)).Answered?
      ensures a.checked == StatusChecked(fwSectionSize, fwPageSize, old(fwSectionCnt), fwNoOfSections)
      ensures rv == AttemptResult(a)
      ensures trace == old(trace) + AttemptOps(data, checksum, a)
      ensures fwSectionCnt == NextSectionCount(old(fwSectionCnt), a)
    {
      var n := fwSectionSize;
      var pageStore := new byte[n + 3];
      pageStore[0] := HidBlockReport;
      forall k | 0 <= k < n {
        pageStore[k + 1] := data[k];
      }
      pageStore[n + 1], pageStore[n + 2] := Lo(checksum), Hi(checksum);
      assert pageStore[..] == BlockFrame(Hid, data, checksum);
      var sent := HidSendCmd(pageStore[..], 0);
      trace := trace + [Block(data, checksum, sent == 0)];
      if sent != 0 {
        a := Attempt(false, StatusChecked(fwSectionSize, fwPageSize, fwSectionCnt, fwNoOfSections), 0);
        return sent, a;
      }
      ghost var checked, status;
      rv, checked, status := CheckPageStatus();
      a := Attempt(true, checked, status);
    }

    /** `_elan_write_fw_block`: one attempt, through the writer of the session's interface. */
    method WriteFwBlockOnce(data: seq<byte>, checksum: u16) returns (rv: int, ghost a: Attempt)
      requires Valid() && |data| == fwSectionSize
      modifies this, channel, rxBuf, txBuf
      ensures Valid() && Info() == old(Info()) && Layout() == old(Layout())
      ensures a.sent <==> Next(old(channel.answers)).Answered?
      ensures a.checked == StatusChecked(fwSectionSize, fwPageSize, old(fwSectionCnt), fwNoOfSections)
      ensures rv == AttemptResult(a)
      ensures trace == old(trace) + AttemptOps(data, checksum, a)
      ensures fwSectionCnt == NextSectionCount(old(fwSectionCnt), a)
    {
      if iface == Hid {
        rv, a := HidWriteFwBlock(data, checksum);
      } else {
        rv, a := I2cWriteFwBlock(data, checksum);
      }
    }

    /** `elan_write_fw_block`: up to ten attempts at the same block, stopping at the first that
        returns 0; the result is that of the last attempt. */
    method WriteFwBlock(data: seq<byte>, checksum: u16) returns (rv: int, ghost attempts: seq<Attempt>)
      requires Valid() && |data| == fwSectionSize
      modifies this, channel, rxBuf, txBuf
      ensures Valid() && Info() == old(Info()) && Layout() == old(Layout())
      ensures RetryShape(attempts)
      ensures rv == AttemptResult(attempts[|attempts| - 1])
      ensures trace == old(trace) + RetryOps(data, checksum, attempts)
      ensures Paced(attempts, old(fwSectionCnt), fwSectionSize, fwPageSize, fwNoOfSections)
      ensures fwSectionCnt == CountAfter(attempts, old(fwSectionCnt))
    {
      rv, attempts := 0, [];
      var i := 0;
      while i < MaxAttempts
        invariant 0 <= i <= MaxAttempts && |attempts| == i
        invariant Valid() && Info() == old(Info()) && Layout() == old(Layout())
        invariant forall j :: 0 <= j < i ==> AttemptResult(attempts[j]) != 0
        invariant i > 0 ==> rv == AttemptResult(attempts[i - 1])
        invariant Retrying(data, checksum, old(trace), trace, old(fwSectionCnt), fwSectionCnt, attempts,
                           fwSectionSize, fwPageSize, fwNoOfSections)
      {
        ghost var tr, cnt := trace, fwSectionCnt;
        ghost var a;
        rv, a := WriteFwBlockOnce(data, checksum);
        RetryStep(data, checksum, old(trace), tr, old(fwSectionCnt), cnt, attempts, fwSectionSize, fwPageSize,
                  fwNoOfSections, trace, fwSectionCnt, a);
        attempts := attempts + [a];
        if rv == 0 {
          return;
        }
        i := i + 1;
      }
    }

    // ----- the update loop (elan_update_firmware) -----

    /** The offsets of the blocks the update sends: from the IAP start address stored in the
        image, one section at a time, while below `fw_size`. */
    ghost function Blocks(): seq<nat>
      requires Wf() && fwSectionSize > 0
      reads this
    {
      BlockOffsets(IapAddr(fwData), fwSize, fwSectionSize)
    }

    /** One turn of the update loop: the checksum of the section at `offset`, and that section
        sent through the retry loop. */
    method SendBlockAt(offset: nat) returns (rv: int, blockChecksum: u16, ghost attempts: seq<Attempt>)
      requires Valid() && fwSectionSize % 2 == 0 && offset + fwSectionSize <= |fwData|
      modifies this, channel, rxBuf, txBuf
      ensures Valid() && Info() == old(Info()) && Layout() == old(Layout())
      ensures blockChecksum == BlockChecksum(fwData[offset..offset + fwSectionSize])
      ensures RetryShape(attempts) && rv == AttemptResult(attempts[|attempts| - 1])
      ensures trace == old(trace) + RetryOps(fwData[offset..offset + fwSectionSize], blockChecksum, attempts)
      ensures Paced(attempts, old(fwSectionCnt), fwSectionSize, fwPageSize, fwNoOfSections)
      ensures fwSectionCnt == CountAfter(attempts, old(fwSectionCnt))
    {
      var block := fwData[offset..offset + fwSectionSize];
      blockChecksum := CalcChecksum(block, fwSectionSize);
      assert block[..fwSectionSize + fwSectionSize % 2] == block;
      rv, attempts := WriteFwBlock(block, blockChecksum);
    }

    /** The update loop's state (`LoopState`) in terms of the session. */
    ghost predicate Updating(t0: seq<Op>, offs: seq<nat>, runs: seq<BlockRun>, checksum: int, i: int)
      reads this, channel
    {
      && Valid() && fwSectionSize > 0 && offs == Blocks()
      && LoopState(fwData, offs, fwSectionSize, fwPageSize, fwNoOfSections, fwSize, t0, trace, fwSectionCnt, runs, checksum, i)
    }

    /** The update loop's end (`EndState`) in terms of the session. */
    ghost predicate Stopped(t0: seq<Op>, offs: seq<nat>, runs: seq<BlockRun>, r: Result<u16>)
      reads this, channel
    {
      && Valid() && fwSectionSize > 0 && offs == Blocks()
      && EndState(fwData, offs, fwSectionSize, fwPageSize, fwNoOfSections, t0, trace, fwSectionCnt, runs, r)
    }

    /** One turn of the update loop at offset `i`: the block's checksum, the block through the
        retry loop, and the running checksum. */
    method UpdateBlock(i: nat, checksum: u16, ghost t0: seq<Op>, ghost offs: seq<nat>, ghost runs: seq<BlockRun>)
        returns (rv: int, next: u16, ghost run: BlockRun)
      requires Updating(t0, offs, runs, checksum, i) && i < fwSize && i + fwSectionSize <= |fwData|
      modifies this, channel, rxBuf, txBuf
      ensures Info() == old(Info()) && Layout() == old(Layout())
      ensures rv == 0 ==> Updating(t0, offs, runs + [run], next, i + fwSectionSize)
      ensures rv != 0 ==> Stopped(t0, offs, runs + [run], Abort(UpdateFailed(i, rv)))
    {
      ghost var tr, cnt := trace, fwSectionCnt;
      var blockChecksum;
      ghost var attempts;
      rv, blockChecksum, attempts := SendBlockAt(i);
      assert offs == Blocks();
      run := BlockRun(i, attempts);
      assert rv == LastResult(run);
      next := (checksum + blockChecksum) % Word;
      LoopStep(fwData, IapAddr(fwData), offs, fwSectionSize, fwPageSize, fwNoOfSections, fwSize,
               t0, tr, cnt, runs, checksum, trace, fwSectionCnt, run, blockChecksum);
    }

    /** `elan_update_firmware`: start the section counter at 1 and send every block, each with its
        checksum, through the retry loop; the result is the 16-bit sum of the block checksums. A
        block whose retries all fail ends the run, and so does a block that would reach past the
        image buffer (the tool reads past it). */
    method UpdateFirmware() returns (r: Result<u16>, ghost runs: seq<BlockRun>)
      requires Valid() && fwSectionSize > 0 && fwSectionSize % 2 == 0
      modifies this, channel, rxBuf, txBuf
      ensures Valid() && Info() == old(Info()) && Layout() == old(Layout())
      ensures UpdateResult(fwData, Blocks(), fwSectionSize, runs, r)
      ensures trace == old(trace) + UpdateOps(fwData, fwSectionSize, runs)
      ensures Paced(AllAttempts(runs), 1, fwSectionSize, fwPageSize, fwNoOfSections)
      ensures fwSectionCnt == CountAfter(AllAttempts(runs), 1)
    {
      fwSectionCnt := 1;
      var checksum: u16 := 0;
      ghost var t0 := trace;
      ghost var offs := Blocks();
      runs := [];
      var i := IapAddr(fwData);
      LoopStarts(fwData, i, offs, fwSectionSize, fwPageSize, fwNoOfSections, fwSize, t0);
      while i < fwSize
        invariant Info() == old(Info()) && Layout() == old(Layout())
        invariant Updating(t0, offs, runs, checksum, i)
        decreases fwSize - i
      {
        if i + fwSectionSize > |fwData| {
          OutsideResult(fwData, offs, fwSectionSize, runs, checksum);
          return Abort(BlockOutsideImage(i)), runs;
        }
        var rv, next, run := UpdateBlock(i, checksum, t0, offs, runs);
        runs := runs + [run];
        if rv != 0 {
          return Abort(UpdateFailed(i, rv)), runs;
        }
        checksum := next;
        i := i + fwSectionSize;
      }
      CompletedResult(fwData, offs, fwSectionSize, runs, checksum);
      r := Ok(checksum);
    }

    // ----- the update run (main) -----

    /** Sizing and checking the image in `main`: `fw_page_count`, `fw_size` and
        `fw_signature_address` from the page count, then the signature at the end of the image;
        on a mismatch PTP mode is restored, by the operations `restore`. */
    method CheckImage(count: nat) returns (ok: bool, ghost restore: seq<Op>)
      requires Valid() && FwSignatureSize <= count * FwPageSize <= MaxFwSize
      modifies this, channel, rxBuf, txBuf
      ensures Valid() && Layout() == old(Layout()) && fwSectionCnt == old(fwSectionCnt)
      ensures Info() == old(Info()).(fwPageCount := count, fwSize := count * FwPageSize,
                                     fwSignatureAddress := SignatureAddress(count))
      ensures 0 <= fwSignatureAddress && fwSignatureAddress + FwSignatureSize <= |fwData|
      ensures ok <==> SignatureOk(fwData, fwSignatureAddress)
      ensures trace == old(trace) + restore
      ensures if ok then restore == [] else PtpRestore(restore)
    {
      fwPageCount := count;
      fwSize := fwPageCount * FwPageSize;
      fwSignatureAddress := fwPageCount * FwPageSize - FwSignatureSize;
      ghost var t0, info := trace, Info();
      var sig := CheckFwSignature(fwData, fwSignatureAddress);
      ok, restore := sig == 0, [];
      if sig < 0 {
        restore := SwitchToPtpMode();
        assert Info() == info;
      }
    }

    /** The start of an update run in `main`: disable the report, read the IC type and its page
        count (an unsupported type ends the run), then `CheckImage`, whose mismatch ends it too.
        `stop` is the outcome when the run ends here; the operations are the `opening`, then the
        `restore` after a mismatch. */
    method OpenImage() returns (stop: Option<Outcome>, ghost opening: seq<Op>, ghost restore: seq<Op>)
      requires Valid()
      modifies this, channel, rxBuf, txBuf
      ensures Valid() && Layout() == old(Layout()) && fwSectionCnt == old(fwSectionCnt)
      ensures Info() == old(Info()).(icType := icType, fwPageCount := fwPageCount, fwSize := fwSize,
                                     fwSignatureAddress := fwSignatureAddress)
      ensures trace == old(trace) + opening + restore
      ensures Opening(opening, icType)
      ensures stop == Some(Aborted(UnsupportedIcType(icType))) <==> PageCount(icType).None?
      ensures PageCount(icType).Some? ==>
        && fwPageCount == PageCount(icType).value
        && fwSize == fwPageCount * FwPageSize
        && fwSignatureAddress == SignatureAddress(fwPageCount)
        && 0 <= fwSignatureAddress && fwSignatureAddress + FwSignatureSize <= |fwData|
        && (stop == Some(SignatureMismatch) <==> !SignatureOk(fwData, fwSignatureAddress))
      ensures stop.None? || stop == Some(Aborted(UnsupportedIcType(icType))) || stop == Some(SignatureMismatch)
      ensures if stop == Some(SignatureMismatch) then PtpRestore(restore) else restore == []
    {
      ghost var t0 := trace;
      ghost var ok := DisableReport();
      var count, primary, fallback := GetIcPageCount();
      opening := [Write(IapResetCmd, ReportDisable, ok), Read(OsmVersionCmd, primary)] +
                 (if IcTypeUnreadable(primary) then [Read(IapIcBodyCmd, fallback)] else []);
      restore := [];
      assert trace == t0 + opening + restore;
      OpeningOf(ok, primary, fallback);
      if count.Abort? {
        return Some(Aborted(count.reason)), opening, restore;
      }
      var signed;
      signed, restore := CheckImage(count.value);
      AppendAssoc(t0, opening, restore);
      stop := if signed then None else Some(SignatureMismatch);
    }

    /** The end of an update run in `main`: read the IAP checksum the controller computed (the
        remote checksum), reset the controller, read the firmware information again and restore
        PTP mode. The two checksums are reported, not compared to decide anything. */
    method FinishUpdate(local: u16) returns (outcome: Outcome, ghost post: seq<Op>)
      requires Valid()
      modifies this, channel, rxBuf, txBuf
      ensures Valid() && Layout() == old(Layout())
      ensures outcome.Completed? && outcome.local == local
      ensures trace == old(trace) + post && Finishing(post, outcome.remote)
      ensures Info() == InfoAfter(old(Info()), post[2..7])
    {
      ghost var t0, info0 := trace, Info();
      var remote := GetChecksum(true);
      ghost var ok := ResetTp();
      ghost var head := [Read(IapChecksumCmd, remote), Write(IapResetCmd, IapReset, ok)];
      assert trace == t0 + head;
      var fwChecksum, info := GetFwInfo();
      assert Info() == InfoAfter(info0, info);
      ghost var ptp := SwitchToPtpMode();
      FinishingOf(remote, ok, info, ptp);
      post := head + info + ptp;
      AppendAssoc3(t0, head, info, ptp);
      outcome := Completed(local, remote);
    }

    /** `main` from the update on: the blocks are sent and, unless that aborts, the run ends
        with `FinishUpdate`, whose operations are `post`; nothing follows an aborted update. */
    method WriteImage() returns (outcome: Outcome, ghost runs: seq<BlockRun>, ghost post: seq<Op>)
      requires Valid() && fwSectionSize > 0 && fwSectionSize % 2 == 0
      modifies this, channel, rxBuf, txBuf
      ensures Valid() && Layout() == old(Layout())
      ensures icType == old(icType) && fwSize == old(fwSize) && fwSignatureAddress == old(fwSignatureAddress)
      ensures UpdateStarted(outcome)
      ensures UpdateResult(fwData, Blocks(), fwSectionSize, runs, UpdateStep(outcome))
      ensures trace == old(trace) + UpdateOps(fwData, fwSectionSize, runs) + post
      ensures outcome.Aborted? ==> post == []
      ensures outcome.Completed? ==> Finishing(post, outcome.remote)
    {
      ghost var t0 := trace;
      post := [];
      var update;
      update, runs := UpdateFirmware();
      ghost var offs := Blocks();
      if update.Abort? {
        outcome := Aborted(update.reason);
        assert UpdateStep(outcome) == update;
        return;
      }
      ghost var t1 := trace;
      outcome, post := FinishUpdate(update.value);
      assert Blocks() == offs;
      assert UpdateStep(outcome) == update;
      AppendAssoc(t0, UpdateOps(fwData, fwSectionSize, runs), post);
    }

    /** `main` after the image check, up to the first block: the firmware information
        (`fwInfo`), whose IAP version is `version`, then the preparation (`prep`), whose geometry
        comes from the IC type, `version` and the IAP-type word `iapType` it read. */
    method PrepareDevice() returns (r: Result<()>, ghost version: int, ghost iapType: u16, ghost fwInfo: seq<Op>,
                                    ghost prep: seq<Op>)
      requires Valid()
      modifies this, channel, rxBuf, txBuf
      ensures Valid() && fwSectionCnt == old(fwSectionCnt)
      ensures trace == old(trace) + fwInfo + prep
      ensures InfoReads(fwInfo) && version == DecodeVersion(true, DecodePattern(fwInfo[0].value), fwInfo[4].value)
      ensures Info() == InfoAfter(old(Info()), fwInfo) && version == iapVersion
      ensures Preparation(icType, version, iapType, prep, r)
      ensures r.Ok? ==> DeriveGeometry(icType, version, iapType) == Some(Layout())
    {
      var fwChecksum;
      fwChecksum, fwInfo := GetFwInfo();
      version := iapVersion;
      ghost var t1 := trace;
      ghost var ctrl0, confirmed, resetOps, geometryOps, passwordOps;
      r, ctrl0, iapType, confirmed, resetOps, geometryOps, passwordOps := PrepareForUpdate();
      prep := [Read(IapCtrlCmd, ctrl0)] + resetOps + geometryOps + passwordOps;
      PreparationOf(icType, version, iapType, ctrl0, confirmed, resetOps, geometryOps, passwordOps, r);
      AppendAssoc4(t1, [Read(IapCtrlCmd, ctrl0)], resetOps, geometryOps, passwordOps);
    }

    /** `main` after the image check: `PrepareDevice`, which ends the run when the preparation
        aborts, then `WriteImage`. */
    method ProgramDevice() returns (outcome: Outcome, ghost version: int, ghost iapType: u16, ghost fwInfo: seq<Op>,
                                    ghost prep: seq<Op>, ghost runs: seq<BlockRun>, ghost post: seq<Op>)
      requires Valid()
      modifies this, channel, rxBuf, txBuf
      ensures Valid()
      ensures icType == old(icType) && fwSize == old(fwSize) && fwSignatureAddress == old(fwSignatureAddress)
      ensures outcome.Completed? || outcome.Aborted?
      ensures InfoReads(fwInfo) && version == DecodeVersion(true, DecodePattern(fwInfo[0].value), fwInfo[4].value)
      ensures Preparation(icType, version, iapType, prep, PrepStep(outcome))
      ensures !UpdateStarted(outcome) ==> runs == [] && post == [] && trace == old(trace) + fwInfo + prep
      ensures UpdateStarted(outcome) ==>
        && DeriveGeometry(icType, version, iapType) == Some(Layout())
        && UpdateResult(fwData, Blocks(), fwSectionSize, runs, UpdateStep(outcome))
        && trace == old(trace) + fwInfo + prep + UpdateOps(fwData, fwSectionSize, runs) + post
      ensures outcome.Aborted? && UpdateStarted(outcome) ==> post == []
      ensures outcome.Completed? ==> Finishing(post, outcome.remote)
    {
      runs, post := [], [];
      var prepared;
      prepared, version, iapType, fwInfo, prep := PrepareDevice();
      if prepared.Abort? {
        outcome := Aborted(prepared.reason);
        assert PrepStep(outcome) == prepared;
        return;
      }
      ghost var g := Layout();
      outcome, runs, post := WriteImage();
      assert Layout() == g;
      match prepared {
        case Ok(u) => assert u == ();
      }
    }

    /** `main` once the image is loaded: the start of the run (`opening`, then `restore` when
        the signature does not match), then, unless it ended there, the programming of the
        device (`fwInfo`, `prep`, the blocks of `runs` and `post`). */
    method RunUpdate() returns (outcome: Outcome, ghost version: int, ghost iapType: u16, ghost opening: seq<Op>,
                                ghost restore: seq<Op>, ghost fwInfo: seq<Op>, ghost prep: seq<Op>,
                                ghost runs: seq<BlockRun>, ghost post: seq<Op>)
      requires Valid()
      modifies this, channel, rxBuf, txBuf
      ensures Valid()
      ensures Opening(opening, icType)
      ensures outcome == Aborted(UnsupportedIcType(icType)) <==> PageCount(icType).None?
      ensures PageCount(icType).Some? ==>
        && fwSize == PageCount(icType).value * FwPageSize
        && fwSignatureAddress == SignatureAddress(PageCount(icType).value)
        && 0 <= fwSignatureAddress && fwSignatureAddress + FwSignatureSize <= |fwData|
        && (outcome == SignatureMismatch <==> !SignatureOk(fwData, fwSignatureAddress))
      ensures if outcome == SignatureMismatch then PtpRestore(restore) else restore == []
      ensures outcome == SignatureMismatch || outcome == Aborted(UnsupportedIcType(icType)) ==>
        && trace == old(trace) + opening + restore && FlashUntouched(opening + restore)
        && fwInfo == [] && prep == [] && runs == [] && post == []
      ensures outcome != SignatureMismatch && outcome != Aborted(UnsupportedIcType(icType)) ==>
        && InfoReads(fwInfo) && version == DecodeVersion(true, DecodePattern(fwInfo[0].value), fwInfo[4].value)
        && Preparation(icType, version, iapType, prep, PrepStep(outcome))
        && (!UpdateStarted(outcome) ==> runs == [] && post == [] && trace == old(trace) + opening + fwInfo + prep)
      ensures UpdateStarted(outcome) ==>
        && DeriveGeometry(icType, version, iapType) == Some(Layout())
        && UpdateResult(fwData, Blocks(), fwSectionSize, runs, UpdateStep(outcome))
        && trace == old(trace) + opening + fwInfo + prep + UpdateOps(fwData, fwSectionSize, runs) + post
      ensures outcome.Aborted? && UpdateStarted(outcome) ==> post == []
      ensures outcome.Completed? ==> Finishing(post, outcome.remote)
    {
      ghost var t0 := trace;
      var stop;
      stop, opening, restore := OpenImage();
      if stop.Some? {
        OpeningUntouched(opening, icType);
        if restore != [] {
          RestoreUntouched(restore);
        }
        UntouchedConcat(opening, restore);
        return stop.value, iapVersion, 0, opening, restore, [], [], [], [];
      }
      assert trace == t0 + opening;
      outcome, version, iapType, fwInfo, prep, runs, post := ProgramDevice();
      AppendAssoc(t0, opening, fwInfo + prep);
      if UpdateStarted(outcome) {
        AppendAssoc(t0 + opening, fwInfo + prep, UpdateOps(fwData, fwSectionSize, runs) + post);
      }
    }
  }
}
