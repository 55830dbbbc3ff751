/** The key/value store as a state machine: staged cache entries, files, and the blocks it has dropped. */
module KvModel {
  import opened Bytes
  import opened KvNv

  /** What a cache slot holds. An unset slot may still carry the length of a value it failed to read. */
  datatype Cell = Unset(stale: nat) | Val(t: ValueType, v: Octets)

  datatype Entry = Entry(cell: Cell, pending: bool)

  /** A device is halted before its first start, and when a start has failed. */
  datatype Device =
    | Up(cache: seq<Entry>, files: seq<Option<Octets>>, dropped: nat)
    | Halted(files: seq<Option<Octets>>)

  datatype Op =
    | Set(key: nat, t: ValueType, v: Octets)
    | Commit(faults: seq<WriteFault>)
    | Reboot(loads: seq<ReadFault>)

  function CellLength(c: Cell): nat {
    match c
    case Unset(n) => n
    case Val(_, v) => |v|
  }

  /** Staging: the entry takes the new value and is pending unless it already held exactly that. */
  function Staged(e: Entry, t: ValueType, v: Octets): Entry {
    Entry(Val(t, v), e.pending || e.cell != Val(t, v))
  }

  /** Whether staging n octets over c loses the heap block that c owned. */
  predicate Drops(c: Cell, n: nat) {
    CellLength(c) > POINTER_SIZE && (c.Unset? || n <= POINTER_SIZE)
  }

  predicate Pending(e: Entry) {
    e.pending && e.cell.Val?
  }

  function CommittedFile(e: Entry, file: Option<Octets>, f: WriteFault): Option<Octets> {
    if Pending(e) then FileAfter(file, e.cell.t, e.cell.v, f) else file
  }

  function CommittedFiles(cache: seq<Entry>, files: seq<Option<Octets>>, faults: seq<WriteFault>)
    : (r: seq<Option<Octets>>)
    requires |cache| == |files| == |faults|
    ensures |r| == |files|
    ensures forall i :: 0 <= i < |files| ==> r[i] == CommittedFile(cache[i], files[i], faults[i])
  {
    if files == [] then []
    else [CommittedFile(cache[0], files[0], faults[0])] + CommittedFiles(cache[1..], files[1..], faults[1..])
  }

  /** Commit's return value. */
  predicate CommitOk(cache: seq<Entry>, faults: seq<WriteFault>)
    requires |faults| == |cache|
  {
    forall i :: 0 <= i < |cache| && Pending(cache[i]) ==> Written(faults[i], |cache[i].cell.v|)
  }

  // ---- Start-up -------------------------------------------------------------

  /** A file longer than a header. Shorter ones count as absent or stop the start. */
  predicate HoldsValue(file: Option<Octets>) {
    file.Some? && |file.value| > HEADER_LEN
  }

  /** A file too short for its header, as an interrupted creation leaves it. */
  predicate Stub(file: Option<Octets>) {
    file.Some? && |file.value| < HEADER_LEN
  }

  /** The value is read, but the file's size had asked for a heap block and its header announces a value of at most
      pointer size: the slot then forgets its block and takes the block's address for the value. */
  predicate ShrinksOnLoad(file: Option<Octets>, r: ReadFault) {
    && HoldsValue(file) && r.statsLength && ReadOutcome(file, r).Some?
    && |ReadOutcome(file, r).value.v| <= POINTER_SIZE < |file.value| - HEADER_LEN
  }

  /** What start-up makes of one file, whatever its octets, when it does not halt on it. */
  function LoadedCell(file: Option<Octets>, r: ReadFault): Cell {
    if !HoldsValue(file) || !r.statsLength then Unset(0)
    else
      match ReadOutcome(file, r)
      case None => Unset(|file.value| - HEADER_LEN)
      case Some(st) =>
        if st.t == TypeNone then Unset(|st.v|)
        else Val(st.t, if ShrinksOnLoad(file, r) then r.address[..|st.v|] else st.v)
  }

  /** Start-up stops on a stub, whose size less the header wraps to more than any heap can give, and on a value
      that the reader finds too long. */
  predicate FileHalts(file: Option<Octets>, r: ReadFault) {
    r.statsLength && (Stub(file) || (HoldsValue(file) && ReadHalts(file, r)))
  }

  predicate StartHalts(files: seq<Option<Octets>>, loads: seq<ReadFault>)
    requires |loads| == |files|
  {
    exists i :: 0 <= i < |files| && FileHalts(files[i], loads[i])
  }

  function Loaded(files: seq<Option<Octets>>, loads: seq<ReadFault>): (r: seq<Entry>)
    requires |loads| == |files|
    ensures |r| == |files|
    ensures forall i :: 0 <= i < |files| ==> r[i] == Entry(LoadedCell(files[i], loads[i]), false)
  {
    if files == [] then [] else [Entry(LoadedCell(files[0], loads[0]), false)] + Loaded(files[1..], loads[1..])
  }

  /** Blocks lost while the first n files were loaded. */
  function LostAtStart(files: seq<Option<Octets>>, loads: seq<ReadFault>, n: nat): nat
    requires n <= |files| == |loads|
  {
    if n == 0 then 0
    else LostAtStart(files, loads, n - 1) + if ShrinksOnLoad(files[n - 1], loads[n - 1]) then 1 else 0
  }

  function Start(files: seq<Option<Octets>>, loads: seq<ReadFault>): Device
    requires |loads| == |files|
  {
    if StartHalts(files, loads) then Halted(files)
    else Up(Loaded(files, loads), files, LostAtStart(files, loads, |files|))
  }

  // ---- Runs -----------------------------------------------------------------

  predicate Enabled(d: Device, op: Op) {
    match op
    case Set(k, t, v) => k < |d.files| && Settable(t) && 0 < |v| < VALUE_LIMIT
    case Commit(faults) => |faults| == |d.files|
    case Reboot(loads) => |loads| == |d.files|
  }

  function Step(d: Device, op: Op): (d': Device)
    requires Enabled(d, op) && (d.Up? ==> |d.cache| == |d.files|)
    ensures |d'.files| == |d.files| && (d'.Up? ==> |d'.cache| == |d'.files|)
  {
    match op
    case Reboot(loads) => Start(d.files, loads)
    case Set(k, t, v) =>
      if d.Halted? then d
      else d.(cache := d.cache[k := Staged(d.cache[k], t, v)],
              dropped := d.dropped + if Drops(d.cache[k].cell, |v|) then 1 else 0)
    case Commit(faults) =>
      if d.Halted? then d
      else d.(files := CommittedFiles(d.cache, d.files, faults))
  }

  ghost predicate IsRun(d: Device, ops: seq<Op>)
    requires d.Up? ==> |d.cache| == |d.files|
    decreases |ops|
  {
    ops == [] || (Enabled(d, ops[0]) && IsRun(Step(d, ops[0]), ops[1..]))
  }

  ghost function Run(d: Device, ops: seq<Op>): (d': Device)
    requires (d.Up? ==> |d.cache| == |d.files|) && IsRun(d, ops)
    ensures d'.Up? ==> |d'.cache| == |d'.files|
    ensures |d'.files| == |d.files|
    decreases |ops|
  {
    if ops == [] then d else Run(Step(d, ops[0]), ops[1..])
  }

  lemma {:induction false} RunConcat(d: Device, a: seq<Op>, b: seq<Op>)
    requires (d.Up? ==> |d.cache| == |d.files|) && IsRun(d, a + b)
    ensures IsRun(d, a) && IsRun(Run(d, a), b) && Run(d, a + b) == Run(Run(d, a), b)
    decreases |a|
  {
    if a == [] {
      assert a + b == b;
    } else {
      assert (a + b)[0] == a[0] && (a + b)[1..] == a[1..] + b;
      RunConcat(Step(d, a[0]), a[1..], b);
    }
  }

  /** A run, taken apart before its last step. */
  lemma RunSnoc(d: Device, ops: seq<Op>)
    requires (d.Up? ==> |d.cache| == |d.files|) && IsRun(d, ops) && ops != []
    ensures var init, last := ops[..|ops| - 1], ops[|ops| - 1];
            IsRun(d, init) && Enabled(Run(d, init), last) && Run(d, ops) == Step(Run(d, init), last)
  {
    var init, last := ops[..|ops| - 1], ops[|ops| - 1];
    assert init + [last] == ops;
    RunConcat(d, init, [last]);
    assert [last][1..] == [];
    assert Run(Run(d, init), [last]) == Step(Run(d, init), last);
  }

  // ---- What a plain map would hold ---------------------------------------------

  predicate RebootFree(ops: seq<Op>) {
    forall i :: 0 <= i < |ops| ==> !ops[i].Reboot?
  }

  /** The value a plain map would hold for key after ops. */
  function LastSet(ops: seq<Op>, key: nat, was: Cell): Cell {
    if ops == [] then was
    else
      var last := ops[|ops| - 1];
      if last.Set? && last.key == key then Val(last.t, last.v)
      else LastSet(ops[..|ops| - 1], key, was)
  }

  predicate Sets(ops: seq<Op>, key: nat) {
    exists i :: 0 <= i < |ops| && ops[i].Set? && ops[i].key == key
  }

  lemma {:induction false} LastSetPrepend(op: Op, ops: seq<Op>, key: nat, was: Cell)
    ensures LastSet([op] + ops, key, was)
            == LastSet(ops, key, if op.Set? && op.key == key then Val(op.t, op.v) else was)
  {
    if ops == [] {
      assert [op] + ops == [op];
      assert LastSet([], key, was) == was;
    } else {
      var n := |ops|;
      assert ([op] + ops)[..n] == [op] + ops[..n - 1];
      LastSetPrepend(op, ops[..n - 1], key, was);
    }
  }

  /** A key that is never written keeps what it was; any other one holds a value. */
  lemma {:induction false} LastSetKinds(ops: seq<Op>, key: nat, was: Cell)
    ensures if Sets(ops, key) then LastSet(ops, key, was).Val? else LastSet(ops, key, was) == was
  {
    if ops != [] {
      var init, last := ops[..|ops| - 1], ops[|ops| - 1];
      LastSetKinds(init, key, was);
      SetsSnoc(ops, key);
    }
  }

  lemma SetsSnoc(ops: seq<Op>, key: nat)
    requires ops != []
    ensures var init, last := ops[..|ops| - 1], ops[|ops| - 1];
            Sets(ops, key) <==> Sets(init, key) || (last.Set? && last.key == key)
  {
    var init := ops[..|ops| - 1];
    if Sets(init, key) {
      var i :| 0 <= i < |init| && init[i].Set? && init[i].key == key;
      assert ops[i] == init[i];
    }
  }

  // ---- Histories --------------------------------------------------------------

  /** A whole history of a device, from flash of any contents on: everything before the last start, the outcome of
      every read of that start, and what was done since. */
  ghost predicate IsHistory(flash: seq<Option<Octets>>, before: seq<Op>, loads: seq<ReadFault>, ops: seq<Op>) {
    IsRun(Halted(flash), before + ([Reboot(loads)] + ops)) && RebootFree(ops)
  }

  ghost function Now(flash: seq<Option<Octets>>, before: seq<Op>, loads: seq<ReadFault>, ops: seq<Op>): (d: Device)
    requires IsHistory(flash, before, loads, ops)
    ensures |d.files| == |flash| && (d.Up? ==> |d.cache| == |flash|)
  {
    Run(Halted(flash), before + ([Reboot(loads)] + ops))
  }

  /** The files that the last start found. */
  ghost function FilesAtStart(flash: seq<Option<Octets>>, before: seq<Op>, loads: seq<ReadFault>, ops: seq<Op>)
    : (files: seq<Option<Octets>>)
    requires IsHistory(flash, before, loads, ops)
    ensures |files| == |loads| == |flash|
    ensures IsRun(Halted(flash), before) && files == Run(Halted(flash), before).files
    ensures IsRun(Start(files, loads), ops) && Now(flash, before, loads, ops) == Run(Start(files, loads), ops)
  {
    RunConcat(Halted(flash), before, [Reboot(loads)] + ops);
    assert ([Reboot(loads)] + ops)[1..] == ops;
    Run(Halted(flash), before).files
  }

  /** Every state in which a device is up has such a history. */
  lemma {:induction false} EveryRunIsHistory(flash: seq<Option<Octets>>, run: seq<Op>)
    returns (before: seq<Op>, loads: seq<ReadFault>, ops: seq<Op>)
    requires IsRun(Halted(flash), run) && Run(Halted(flash), run).Up?
    ensures run == before + ([Reboot(loads)] + ops)
    ensures IsHistory(flash, before, loads, ops) && Now(flash, before, loads, ops) == Run(Halted(flash), run)
    decreases |run|
  {
    hide IsRun, Run, Step;
    assert run != [] by {
      NeverStarted(flash);
    }
    var init, last := run[..|run| - 1], run[|run| - 1];
    RunSnoc(Halted(flash), run);
    if last.Reboot? {
      before, loads, ops := init, last.loads, [];
      assert [Reboot(loads)] + ops == [last];
    } else {
      UpBefore(Run(Halted(flash), init), last);
      before, loads, ops := EveryRunIsHistory(flash, init);
      assert before + ([Reboot(loads)] + (ops + [last])) == run;
      ops := ops + [last];
    }
    assert run == before + ([Reboot(loads)] + ops);
  }

  lemma NeverStarted(flash: seq<Option<Octets>>)
    ensures Run(Halted(flash), []).Halted?
  {
  }

  lemma UpBefore(d: Device, op: Op)
    requires (d.Up? ==> |d.cache| == |d.files|) && Enabled(d, op) && Step(d, op).Up? && !op.Reboot?
    ensures d.Up?
  {
  }

  // ---- Since the last start -----------------------------------------------------

  /** A slot and its file, in terms of the file that the last start found and of that read's outcome. */
  predicate Tracks(e: Entry, file: Option<Octets>, was: Option<Octets>, r: ReadFault, written: bool) {
    if e.pending then written && e.cell.Val? && Settable(e.cell.t) && 0 < |e.cell.v| < VALUE_LIMIT
    else e.cell == LoadedCell(was, r) && file == was
  }

  /** Since the last start a slot is pending, or it is still what that start made of its file, and so is the file.
      Only a write makes a slot pending. This needs nothing of littlefs and nothing of what is on flash. */
  lemma {:induction false} RunTracks(files: seq<Option<Octets>>, loads: seq<ReadFault>, ops: seq<Op>, i: nat)
    requires |loads| == |files| && i < |files| && Start(files, loads).Up?
    requires IsRun(Start(files, loads), ops) && RebootFree(ops)
    ensures var d := Run(Start(files, loads), ops);
            d.Up? && Tracks(d.cache[i], d.files[i], files[i], loads[i], Sets(ops, i))
    decreases |ops|
  {
    if ops != [] {
      var init, last := ops[..|ops| - 1], ops[|ops| - 1];
      RunSnoc(Start(files, loads), ops);
      assert !last.Reboot? && RebootFree(init);
      RunTracks(files, loads, init, i);
      SetsSnoc(ops, i);
    }
  }

  /** A start that failed is not mended by anything but another start. */
  lemma {:induction false} StaysHalted(d: Device, ops: seq<Op>)
    requires d.Halted? && IsRun(d, ops) && RebootFree(ops)
    ensures Run(d, ops).Halted?
    decreases |ops|
  {
    if ops != [] {
      assert !ops[0].Reboot?;
      StaysHalted(Step(d, ops[0]), ops[1..]);
    }
  }

  /** The same for every history: the invariant of every reachable state. */
  lemma HistoryTracks(flash: seq<Option<Octets>>, before: seq<Op>, loads: seq<ReadFault>, ops: seq<Op>, i: nat)
    requires IsHistory(flash, before, loads, ops) && Now(flash, before, loads, ops).Up? && i < |flash|
    ensures var files := FilesAtStart(flash, before, loads, ops);
            var d := Now(flash, before, loads, ops);
            Start(files, loads).Up? && Tracks(d.cache[i], d.files[i], files[i], loads[i], Sets(ops, i))
  {
    var files := FilesAtStart(flash, before, loads, ops);
    if Start(files, loads).Halted? {
      StaysHalted(Start(files, loads), ops);
    }
    RunTracks(files, loads, ops, i);
  }

  // ---- The dirty flag -------------------------------------------------------------

  /** A file stores exactly what the slot holds, or neither holds a value. */
  predicate Matches(c: Cell, file: Option<Octets>) {
    match c
    case Unset(n) => n == 0 && !HoldsValue(file)
    case Val(t, v) => file == Some(FileOf(t, v))
  }

  /** A file that holds a value has the layout of exactly that value. */
  predicate WellFormed(file: Option<Octets>) {
    HoldsValue(file) ==>
      && |file.value| - HEADER_LEN < VALUE_LIMIT && Parse(file.value).Some?
      && file.value == FileOf(Parse(file.value).value.t, Parse(file.value).value.v)
  }

  /** The file held a value, and reading it at the last start failed somewhere. */
  predicate LoadFailed(file: Option<Octets>, r: ReadFault) {
    HoldsValue(file) && !Faultless(r)
  }

  lemma LoadedMatchesIff(file: Option<Octets>, r: ReadFault)
    requires file.Some? ==> |file.value| < SIZE_LIMIT
    ensures Matches(LoadedCell(file, r), file) <==> WellFormed(file) && !LoadFailed(file, r)
  {
    if HoldsValue(file) {
      var f := file.value;
      if WellFormed(file) {
        assert f[HEADER_LEN..|f|] == f[HEADER_LEN..];
      }
      var c := LoadedCell(file, r);
      if c.Val? && file == Some(FileOf(c.t, c.v)) {
        HeaderOfFile(c.t, c.v);
      }
    }
  }

  lemma HeaderOfFile(t: ValueType, v: Octets)
    requires |v| < SIZE_LIMIT
    ensures var f := FileOf(t, v);
            && |f| == HEADER_LEN + |v| && f[0] == Code(t) && f[1..4] == [0, 0, 0] && HeaderLength(f) == |v|
            && f[HEADER_LEN..] == v
  {
    FromWord32OfWord32(|v|);
    assert FileOf(t, v)[4..8] == Word32(|v|);
  }

  /** Dirty-flag property, exactly: a slot that is not pending is identical to its file, or both are absent, if and
      only if the last start found nothing, or a well-formed file that it read without a fault. This holds in every
      reachable state: after any writes, failed commits, failed starts and failed reads, on flash of any contents. */
  lemma DirtyFlagIff(flash: seq<Option<Octets>>, before: seq<Op>, loads: seq<ReadFault>, ops: seq<Op>, i: nat)
    requires IsHistory(flash, before, loads, ops) && Now(flash, before, loads, ops).Up? && i < |flash|
    requires !Now(flash, before, loads, ops).cache[i].pending
    requires var file := FilesAtStart(flash, before, loads, ops)[i]; file.Some? ==> |file.value| < SIZE_LIMIT
    ensures var file := FilesAtStart(flash, before, loads, ops)[i];
            var d := Now(flash, before, loads, ops);
            d.files[i] == file
            && (Matches(d.cache[i].cell, d.files[i]) <==> WellFormed(file) && !LoadFailed(file, loads[i]))
  {
    HistoryTracks(flash, before, loads, ops, i);
    LoadedMatchesIff(FilesAtStart(flash, before, loads, ops)[i], loads[i]);
  }

  /** A value that cannot be read at start-up leaves a slot that is neither set nor pending over a present file. */
  lemma FailedLoadHidesFile(v: Octets, r: ReadFault)
    requires 0 < |v| < VAL_MAX_LEN && r.statsLength && r.statsFile && r.opens && r.readsHeader && !r.readsData
    ensures var files := [Some(FileOf(TypeBlob, v))];
            Start(files, [r]) == Up([Entry(Unset(|v|), false)], files, 0)
  {
    HeaderOfFile(TypeBlob, v);
    var files := [Some(FileOf(TypeBlob, v))];
    assert Loaded(files, [r]) == [Entry(Unset(|v|), false)];
    assert LostAtStart(files, [r], 1) == LostAtStart(files, [r], 0) == 0;
  }

  /** A start reads the announced octets of a file, wherever the allocator puts them, exactly when it does not have to
      shrink a block to a value of pointer size. */
  lemma MisannouncedIff(file: Option<Octets>, r: ReadFault)
    requires HoldsValue(file) && Faultless(r) && Decode(file.value[0]) != TypeNone
    requires HeaderLength(file.value) <= |file.value| - HEADER_LEN
    ensures var n, f := HeaderLength(file.value), file.value;
            (forall a: Word ::
               LoadedCell(file, r.(address := a)) == Val(Decode(f[0]), f[HEADER_LEN..HEADER_LEN + n]))
            <==> !(0 < n <= POINTER_SIZE < |f| - HEADER_LEN)
  {
    var n, f := HeaderLength(file.value), file.value;
    if 0 < n <= POINTER_SIZE < |f| - HEADER_LEN {
      var other: byte := if f[HEADER_LEN] == 0 then 1 else 0;
      var a: Word := [other, 0, 0, 0];
      assert LoadedCell(file, r.(address := a)) == Val(Decode(f[0]), a[..n]);
      assert a[..n][0] != f[HEADER_LEN..HEADER_LEN + n][0];
    }
  }

  /** A file of 20 octets that announces three: the start loses a block, and reads return octets of its address. */
  lemma MisannouncedFile(v: Octets, r: ReadFault)
    requires |v| == 12 && Faultless(r)
    ensures var files := [Some(Header(TypeBlob, 3) + v)];
            Start(files, [r]) == Up([Entry(Val(TypeBlob, r.address[..3]), false)], files, 1)
  {
    var f := Header(TypeBlob, 3) + v;
    FromWord32OfWord32(3);
    assert f[4..8] == Word32(3);
    assert Loaded([Some(f)], [r]) == [Entry(Val(TypeBlob, r.address[..3]), false)];
    assert LostAtStart([Some(f)], [r], 1) == LostAtStart([Some(f)], [r], 0) + 1;
  }

  // ---- Flash over runs --------------------------------------------------------------

  /** When littlefs misbehaves with the file of this slot, it leaves no file, a stub, or a whole file of some value, as
      its copy-on-write promises; it need not be the file that was written, nor the one that was there. And a write that
      takes too little reports an error, so that the file is not synced any more, or the file can be removed. */
  predicate KeepsFormat(e: Entry, f: WriteFault) {
    Pending(e) ==> WellFormed(f.remnant) && (Written(f, |e.cell.v|) || f.removed || Erred(f) || !f.opens)
  }

  ghost predicate FormatKept(d: Device, ops: seq<Op>, key: nat)
    requires (d.Up? ==> |d.cache| == |d.files|) && IsRun(d, ops) && key < |d.files|
    decreases |ops|
  {
    ops == [] || ((ops[0].Commit? && d.Up? ==> KeepsFormat(d.cache[key], ops[0].faults[key]))
                  && FormatKept(Step(d, ops[0]), ops[1..], key))
  }

  ghost predicate PendingGood(d: Device, key: nat) {
    d.Up? && key < |d.cache| && d.cache[key].pending ==>
      var c := d.cache[key].cell; c.Val? && Settable(c.t) && 0 < |c.v| < VALUE_LIMIT
  }

  lemma FileOfWellFormed(t: ValueType, v: Octets)
    requires Settable(t) && 0 < |v| < VALUE_LIMIT
    ensures WellFormed(Some(FileOf(t, v)))
  {
    ParseOfFileOf(t, v);
  }

  lemma CommitKeepsFormat(e: Entry, file: Option<Octets>, f: WriteFault)
    requires Pending(e) && Settable(e.cell.t) && 0 < |e.cell.v| < VALUE_LIMIT
    requires WellFormed(file) && KeepsFormat(e, f)
    ensures WellFormed(CommittedFile(e, file, f))
  {
    FileAfterCases(file, e.cell.t, e.cell.v, f);
    FileOfWellFormed(e.cell.t, e.cell.v);
  }

  /** A well-formed file stays so over any run, through failed commits and starts, and whatever becomes of the
      others. */
  lemma {:induction false} RunKeepsFormat(d: Device, ops: seq<Op>, key: nat)
    requires (d.Up? ==> |d.cache| == |d.files|) && IsRun(d, ops) && key < |d.files|
    requires WellFormed(d.files[key]) && PendingGood(d, key)
    requires FormatKept(d, ops, key)
    ensures WellFormed(Run(d, ops).files[key])
    decreases |ops|
  {
    if ops != [] {
      if ops[0].Commit? && d.Up? && Pending(d.cache[key]) {
        CommitKeepsFormat(d.cache[key], d.files[key], ops[0].faults[key]);
      }
      RunKeepsFormat(Step(d, ops[0]), ops[1..], key);
    }
  }

  // ---- Types ----------------------------------------------------------------

  /** What is stored for the key, staged or on flash, has the type t. */
  predicate TypedAt(d: Device, key: nat, t: ValueType) {
    && key < |d.files| && FileTyped(d.files[key], t)
    && (d.Up? ==> |d.cache| == |d.files| && (d.cache[key].cell.Val? ==> d.cache[key].cell.t == t))
  }

  predicate FileTyped(file: Option<Octets>, t: ValueType) {
    HoldsValue(file) ==> Decode(file.value[0]) == t
  }

  predicate OpTyped(op: Op, key: nat, t: ValueType) {
    match op
    case Set(k, t', _) => k == key ==> t' == t
    case Commit(faults) => key < |faults| ==> FileTyped(faults[key].remnant, t)
    case Reboot(_) => true
  }

  lemma LoadKeepsType(file: Option<Octets>, r: ReadFault, t: ValueType)
    requires FileTyped(file, t) && LoadedCell(file, r).Val?
    ensures LoadedCell(file, r).t == t
  {
  }

  lemma CommitKeepsType(e: Entry, file: Option<Octets>, f: WriteFault, t: ValueType)
    requires FileTyped(file, t) && FileTyped(f.remnant, t)
    requires Pending(e) ==> e.cell.t == t && Settable(t) && |e.cell.v| < VALUE_LIMIT
    ensures FileTyped(CommittedFile(e, file, f), t)
  {
    if Pending(e) {
      HeaderOfFile(t, e.cell.v);
      assert Header(t, |e.cell.v|)[0] == Code(t);
    }
  }

  lemma StepKeepsTypes(d: Device, op: Op, key: nat, t: ValueType)
    requires (d.Up? ==> |d.cache| == |d.files|) && Enabled(d, op) && OpTyped(op, key, t)
    requires TypedAt(d, key, t) && PendingGood(d, key)
    ensures TypedAt(Step(d, op), key, t) && PendingGood(Step(d, op), key)
  {
    hide FileTyped, LoadedCell, CommittedFile;
    match op
    case Set(_, _, _) =>
    case Reboot(loads) =>
      if LoadedCell(d.files[key], loads[key]).Val? {
        LoadKeepsType(d.files[key], loads[key], t);
      }
    case Commit(faults) =>
      if d.Up? {
        CommitKeepsType(d.cache[key], d.files[key], faults[key], t);
      }
  }

  /** In every run of typed writes the stored type of a key is none or the declared one, through commits and starts,
      when what littlefs leaves behind is of that type as well. */
  lemma {:induction false} RunKeepsTypes(d: Device, ops: seq<Op>, key: nat, t: ValueType)
    requires (d.Up? ==> |d.cache| == |d.files|) && IsRun(d, ops) && TypedAt(d, key, t) && PendingGood(d, key)
    requires forall i :: 0 <= i < |ops| ==> OpTyped(ops[i], key, t)
    ensures TypedAt(Run(d, ops), key, t)
    decreases |ops|
  {
    if ops != [] {
      assert OpTyped(ops[0], key, t);
      StepKeepsTypes(d, ops[0], key, t);
      RunKeepsTypes(Step(d, ops[0]), ops[1..], key, t);
    }
  }

  // ---- Durability ---------------------------------------------------------

  ghost predicate AllFaultless(loads: seq<ReadFault>) {
    forall i :: 0 <= i < |loads| ==> Faultless(loads[i])
  }

  /** The slots of two devices answer every read alike. */
  predicate SameCells(a: seq<Entry>, b: seq<Entry>) {
    |a| == |b| && forall i :: 0 <= i < |a| ==> a[i].cell == b[i].cell
  }

  /** Every staged value is short enough to be read back at start-up. */
  predicate Readable(cache: seq<Entry>) {
    forall i :: 0 <= i < |cache| && cache[i].cell.Val? ==> |cache[i].cell.v| < VAL_MAX_LEN
  }

  /** The write of a pending slot reached the flash: syncing worked, or left the very same file. */
  predicate Reached(e: Entry, f: WriteFault)
    requires Pending(e)
  {
    f.synced || f.remnant == Some(FileOf(e.cell.t, e.cell.v))
  }

  /** A pending slot survives when its write reaches the flash, any other one when the last start did not fail to load
      it. */
  predicate Survives(e: Entry, f: WriteFault, was: Option<Octets>, r: ReadFault) {
    if Pending(e) then Reached(e, f) else !LoadFailed(was, r)
  }

  /** A sync that fails leaves a well-formed file, or none. */
  predicate Leaves(f: WriteFault) {
    f.synced || WellFormed(f.remnant)
  }

  /** What a faultless start makes of a well-formed file. */
  lemma FaultlessLoad(file: Option<Octets>, r: ReadFault)
    requires WellFormed(file) && Faultless(r)
    ensures var c := LoadedCell(file, r);
            if HoldsValue(file) then c.Val? && file == Some(FileOf(c.t, c.v)) else c == Unset(0)
    ensures FileHalts(file, r) <==> Stub(file) || (HoldsValue(file) && |file.value| - HEADER_LEN >= VAL_MAX_LEN)
  {
    if HoldsValue(file) {
      assert file.value[HEADER_LEN..|file.value|] == file.value[HEADER_LEN..];
    }
  }

  lemma FaultlessLoadOfFile(t: ValueType, v: Octets, r: ReadFault)
    requires Settable(t) && 0 < |v| < VALUE_LIMIT && Faultless(r)
    ensures LoadedCell(Some(FileOf(t, v)), r) == Val(t, v)
    ensures FileHalts(Some(FileOf(t, v)), r) <==> |v| >= VAL_MAX_LEN
  {
    HeaderOfFile(t, v);
  }

  /** One slot: after a reported write, a faultless start restores it exactly when it survives. */
  lemma SlotIsDurableIff(e: Entry, file: Option<Octets>, was: Option<Octets>, r: ReadFault, written: bool,
                         f: WriteFault, next: ReadFault)
    requires Tracks(e, file, was, r, written) && (Pending(e) ==> Written(f, |e.cell.v|))
    requires WellFormed(was) && Leaves(f) && Faultless(next)
    ensures LoadedCell(CommittedFile(e, file, f), next) == e.cell <==> Survives(e, f, was, r)
  {
    if e.pending {
      FileAfterCases(file, e.cell.t, e.cell.v, f);
      FaultlessLoadOfFile(e.cell.t, e.cell.v, next);
      if !f.synced {
        FaultlessLoad(f.remnant, next);
      }
    } else {
      FaultlessLoad(was, next);
      if Faultless(r) {
        FaultlessLoad(was, r);
      }
    }
  }

  /** After any history and a commit that returns true, whatever littlefs did to each file, the next start that comes
      up restores a slot that it reads without a fault if and only if the slot survives. Other slots may fail to load,
      and the other files may hold anything. */
  lemma CommitIsDurableIff(flash: seq<Option<Octets>>, before: seq<Op>, loads: seq<ReadFault>, ops: seq<Op>,
                           faults: seq<WriteFault>, next: seq<ReadFault>, i: nat)
    requires IsHistory(flash, before, loads, ops) && |faults| == |next| == |flash| && i < |flash|
    requires var d := Now(flash, before, loads, ops); d.Up? && CommitOk(d.cache, faults)
    requires WellFormed(FilesAtStart(flash, before, loads, ops)[i]) && Leaves(faults[i]) && Faultless(next[i])
    requires Step(Step(Now(flash, before, loads, ops), Commit(faults)), Reboot(next)).Up?
    ensures var d, was := Now(flash, before, loads, ops), FilesAtStart(flash, before, loads, ops);
            Step(Step(d, Commit(faults)), Reboot(next)).cache[i].cell == d.cache[i].cell
            <==> Survives(d.cache[i], faults[i], was[i], loads[i])
  {
    var d, was := Now(flash, before, loads, ops), FilesAtStart(flash, before, loads, ops);
    HistoryTracks(flash, before, loads, ops, i);
    SlotIsDurableIff(d.cache[i], d.files[i], was[i], loads[i], Sets(ops, i), faults[i], next[i]);
  }

  ghost predicate AllWellFormed(files: seq<Option<Octets>>) {
    forall i :: 0 <= i < |files| ==> WellFormed(files[i])
  }

  ghost predicate AllLeave(faults: seq<WriteFault>) {
    forall i :: 0 <= i < |faults| ==> Leaves(faults[i])
  }

  ghost predicate AllSurvive(cache: seq<Entry>, faults: seq<WriteFault>, was: seq<Option<Octets>>,
                             loads: seq<ReadFault>)
    requires |cache| == |faults| == |was| == |loads|
  {
    forall i :: 0 <= i < |cache| ==> Survives(cache[i], faults[i], was[i], loads[i])
  }

  /** No stub is left under a slot that is not going to be written. */
  ghost predicate NoStubs(cache: seq<Entry>, was: seq<Option<Octets>>)
    requires |cache| == |was|
  {
    forall i :: 0 <= i < |cache| && !Pending(cache[i]) ==> !Stub(was[i])
  }

  /** The whole cache, after any history: the next faultless start restores every slot if and only if every slot
      survives; and it then comes up exactly when every value is short enough and no stub is left. */
  lemma CommitIsDurable(flash: seq<Option<Octets>>, before: seq<Op>, loads: seq<ReadFault>, ops: seq<Op>,
                        faults: seq<WriteFault>, next: seq<ReadFault>)
    requires IsHistory(flash, before, loads, ops) && |faults| == |next| == |flash|
    requires var d := Now(flash, before, loads, ops); d.Up? && CommitOk(d.cache, faults)
    requires AllWellFormed(FilesAtStart(flash, before, loads, ops)) && AllLeave(faults) && AllFaultless(next)
    ensures var d, was := Now(flash, before, loads, ops), FilesAtStart(flash, before, loads, ops);
            var after := Step(Step(d, Commit(faults)), Reboot(next));
            && (after.Up? ==> (SameCells(after.cache, d.cache) <==> AllSurvive(d.cache, faults, was, loads)))
            && (AllSurvive(d.cache, faults, was, loads) ==> (after.Up? <==> Readable(d.cache) && NoStubs(d.cache, was)))
  {
    hide LoadedCell, Survives, WellFormed, Written, CommittedFile, IsHistory, Now, FilesAtStart, Tracks, FileHalts;
    var d, was := Now(flash, before, loads, ops), FilesAtStart(flash, before, loads, ops);
    var after := Step(Step(d, Commit(faults)), Reboot(next));
    if after.Up? {
      forall i | 0 <= i < |flash|
        ensures after.cache[i].cell == d.cache[i].cell <==> Survives(d.cache[i], faults[i], was[i], loads[i])
      {
        CommitIsDurableIff(flash, before, loads, ops, faults, next, i);
      }
    }
    if AllSurvive(d.cache, faults, was, loads) {
      forall i | 0 <= i < |flash|
        ensures FileHalts(Step(d, Commit(faults)).files[i], next[i])
                <==> (d.cache[i].cell.Val? && |d.cache[i].cell.v| >= VAL_MAX_LEN)
                     || (!Pending(d.cache[i]) && Stub(was[i]))
      {
        HistoryTracks(flash, before, loads, ops, i);
        SurvivorHaltsIff(d.cache[i], d.files[i], was[i], loads[i], Sets(ops, i), faults[i], next[i]);
      }
      HaltsIff(Step(d, Commit(faults)).files, next, d.cache, was);
    }
  }

  lemma SurvivorHaltsIff(e: Entry, file: Option<Octets>, was: Option<Octets>, r: ReadFault, written: bool,
                         f: WriteFault, next: ReadFault)
    requires Tracks(e, file, was, r, written) && (Pending(e) ==> Written(f, |e.cell.v|)) && WellFormed(was)
    requires Survives(e, f, was, r) && Faultless(next)
    ensures FileHalts(CommittedFile(e, file, f), next)
            <==> (e.cell.Val? && |e.cell.v| >= VAL_MAX_LEN) || (!Pending(e) && Stub(was))
  {
    if e.pending {
      FileAfterCases(file, e.cell.t, e.cell.v, f);
      FaultlessLoadOfFile(e.cell.t, e.cell.v, next);
    } else {
      FaultlessLoad(was, next);
      if Faultless(r) {
        FaultlessLoad(was, r);
      }
    }
  }

  lemma HaltsIff(files: seq<Option<Octets>>, next: seq<ReadFault>, cache: seq<Entry>, was: seq<Option<Octets>>)
    requires |files| == |next| == |cache| == |was|
    requires forall i :: 0 <= i < |files| ==>
               (FileHalts(files[i], next[i])
                <==> (cache[i].cell.Val? && |cache[i].cell.v| >= VAL_MAX_LEN) || (!Pending(cache[i]) && Stub(was[i])))
    ensures StartHalts(files, next) <==> !(Readable(cache) && NoStubs(cache, was))
  {
    hide FileHalts, Stub, Pending;
    if !Readable(cache) {
      var i :| 0 <= i < |cache| && cache[i].cell.Val? && |cache[i].cell.v| >= VAL_MAX_LEN;
      assert FileHalts(files[i], next[i]);
    }
    if !NoStubs(cache, was) {
      var i :| 0 <= i < |cache| && !Pending(cache[i]) && Stub(was[i]);
      assert FileHalts(files[i], next[i]);
    }
  }

  /** littlefs kept the format of this key's file before the last start. */
  ghost predicate KeptBefore(flash: seq<Option<Octets>>, before: seq<Op>, loads: seq<ReadFault>, ops: seq<Op>, key: nat)
    requires IsHistory(flash, before, loads, ops) && key < |flash|
  {
    var _ := FilesAtStart(flash, before, loads, ops);
    FormatKept(Halted(flash), before, key)
  }

  /** Durability over whole runs as one would wish it: from well-formed flash, after any run in which littlefs keeps
      the format of files, if the last start read everything without a fault and every write of the final commit was
      reported and synced, then the next faultless start comes up exactly when every value is shorter than 256 octets,
      and restores every slot. */
  lemma DurabilityOverRuns(flash: seq<Option<Octets>>, before: seq<Op>, loads: seq<ReadFault>, ops: seq<Op>,
                           faults: seq<WriteFault>, next: seq<ReadFault>)
    requires IsHistory(flash, before, loads, ops) && |faults| == |next| == |flash|
    requires AllWellFormed(flash)
    requires forall k :: 0 <= k < |flash| ==> KeptBefore(flash, before, loads, ops, k)
    requires var d := Now(flash, before, loads, ops); d.Up? && CommitOk(d.cache, faults)
    requires AllFaultless(loads) && AllFaultless(next)
    requires forall i :: 0 <= i < |faults| ==> faults[i].synced
    ensures var d := Now(flash, before, loads, ops);
            var after := Step(Step(d, Commit(faults)), Reboot(next));
            (after.Up? <==> Readable(d.cache)) && (after.Up? ==> SameCells(after.cache, d.cache))
  {
    var d, was := Now(flash, before, loads, ops), FilesAtStart(flash, before, loads, ops);
    forall k | 0 <= k < |flash| ensures WellFormed(was[k]) && !Stub(was[k]) {
      assert KeptBefore(flash, before, loads, ops, k);
      RunKeepsFormat(Halted(flash), before, k);
      HistoryTracks(flash, before, loads, ops, k);
      assert Start(was, loads).Up? && !FileHalts(was[k], loads[k]);
    }
    assert AllSurvive(d.cache, faults, was, loads) by {
      hide IsHistory, Now, FilesAtStart, WellFormed, LoadedCell;
    }
    CommitIsDurable(flash, before, loads, ops, faults, next);
  }

  /** A commit leaves a file that littlefs treats well as it was, with the staged value, or absent; the cache is
      untouched, and what happens to the other files does not matter. */
  lemma PartialCommit(d: Device, faults: seq<WriteFault>, i: nat)
    requires d.Up? && |d.cache| == |d.files| && Enabled(d, Commit(faults)) && i < |d.files|
    requires Pending(d.cache[i]) ==> Clean(faults[i], |d.cache[i].cell.v|)
    ensures var d', e := Step(d, Commit(faults)), d.cache[i];
            && d'.cache == d.cache
            && (d'.files[i] == d.files[i] || d'.files[i] == None
                || (Pending(e) && d'.files[i] == Some(FileOf(e.cell.t, e.cell.v))))
            && (!Pending(e) ==> d'.files[i] == d.files[i])
            && (Pending(e) && faults[i].opens && faults[i].headerRet == HEADER_LEN && faults[i].dataRet == |e.cell.v|
                ==> d'.files[i] == Some(FileOf(e.cell.t, e.cell.v)))
  {
    var e := d.cache[i];
    if Pending(e) {
      FileAfterCases(d.files[i], e.cell.t, e.cell.v, faults[i]);
    }
  }

  /** A write whose sync fails is still reported as written: success alone does not mean durable. */
  lemma UnsyncedCommitIsNotDurable(v: Octets, next: ReadFault)
    requires 0 < |v| < VAL_MAX_LEN
    ensures var d := Up([Entry(Val(TypeBlob, v), true)], [None], 0);
            var faults := [WriteFault(true, true, HEADER_LEN, |v|, false, true, None)];
            && CommitOk(d.cache, faults)
            && Step(Step(d, Commit(faults)), Reboot([next])) == Up([Entry(Unset(0), false)], [None], 0)
  {
    var d := Up([Entry(Val(TypeBlob, v), true)], [None], 0);
    var faults := [WriteFault(true, true, HEADER_LEN, |v|, false, true, None)];
    assert Step(d, Commit(faults)).files == [None];
    NothingStored(next);
  }

  lemma NothingStored(next: ReadFault)
    ensures Start([None], [next]) == Up([Entry(Unset(0), false)], [None], 0)
  {
    assert Loaded([None], [next]) == [Entry(Unset(0), false)];
    assert LostAtStart([None], [next], 1) == LostAtStart([None], [next], 0) == 0;
  }

  /** Setting and committing a value of 256 octets succeeds, and the device does not start again. */
  lemma LongValueStopsDevice(v: Octets, next: ReadFault)
    requires |v| == 256 && Faultless(next)
    ensures var d := Up([Entry(Unset(0), false)], [None], 0);
            var faults := [WriteFault(true, true, HEADER_LEN, |v|, true, true, None)];
            && Enabled(d, Set(0, TypeBlob, v)) && CommitOk(Step(d, Set(0, TypeBlob, v)).cache, faults)
            && Step(Step(Step(d, Set(0, TypeBlob, v)), Commit(faults)), Reboot([next])).Halted?
  {
    var d := Up([Entry(Unset(0), false)], [None], 0);
    var faults := [WriteFault(true, true, HEADER_LEN, |v|, true, true, None)];
    var d' := Step(Step(d, Set(0, TypeBlob, v)), Commit(faults));
    FileAfterCases(None, TypeBlob, v, faults[0]);
    assert d'.files[0] == Some(FileOf(TypeBlob, v));
    FaultlessLoadOfFile(TypeBlob, v, next);
    assert FileHalts(d'.files[0], [next][0]);
  }

  /** littlefs takes no or too little data: the commit is not reported as good, and where removing works there is no
      file, neither the old one nor a partial one. */
  lemma NoSpaceIsReported(d: Device, faults: seq<WriteFault>, i: nat)
    requires d.Up? && |d.cache| == |d.files| == |faults| && i < |d.files| && Pending(d.cache[i])
    requires faults[i].opens && (faults[i].headerRet != HEADER_LEN || faults[i].dataRet != |d.cache[i].cell.v|)
    ensures !CommitOk(d.cache, faults)
    ensures faults[i].removed ==> Step(d, Commit(faults)).files[i] == None
  {
    FileAfterCases(d.files[i], d.cache[i].cell.t, d.cache[i].cell.v, faults[i]);
  }

  /** A commit leaves a stub exactly when littlefs leaves one and the writer neither completes and syncs the file nor
      removes it: for want of a sync, or of power, because less than a header was taken, or because the open failed
      after it had created the file. The device then stops at every start that can examine the file, whatever the other
      keys hold. */
  lemma StubStopsDevice(d: Device, faults: seq<WriteFault>, loads: seq<ReadFault>, i: nat)
    requires d.Up? && |d.cache| == |d.files| == |faults| == |loads| && i < |d.files|
    requires Pending(d.cache[i]) && !Stub(d.files[i])
    ensures var d', f := Step(d, Commit(faults)), faults[i];
            && (Stub(d'.files[i])
                <==> if !f.opens then !f.intact && Stub(f.remnant)
                     else if f.headerRet == HEADER_LEN && f.dataRet == |d.cache[i].cell.v|
                     then !f.synced && Stub(f.remnant)
                     else !f.removed && if f.synced && !Erred(f) then f.headerRet < HEADER_LEN else Stub(f.remnant))
            && (Stub(d'.files[i]) && loads[i].statsLength ==> Step(d', Reboot(loads)).Halted?)
  {
    var files := Step(d, Commit(faults)).files;
    if Stub(files[i]) && loads[i].statsLength {
      assert FileHalts(files[i], loads[i]);
    }
  }

  // ---- Reads return the last write ---------------------------------------

  lemma StepIsMap(d: Device, op: Op, key: nat)
    requires d.Up? && |d.cache| == |d.files| && Enabled(d, op) && !op.Reboot? && key < |d.cache|
    ensures Step(d, op).Up?
    ensures Step(d, op).cache[key].cell == if op.Set? && op.key == key then Val(op.t, op.v) else d.cache[key].cell
  {
  }

  /** Between reboots the store is a plain map: commits change no read whatever they do to the files, and each
      write changes exactly one key. */
  lemma {:induction false} RunIsMap(d: Device, ops: seq<Op>, key: nat)
    requires d.Up? && |d.cache| == |d.files| && IsRun(d, ops) && RebootFree(ops) && key < |d.cache|
    ensures var d' := Run(d, ops);
            d'.Up? && d'.cache[key].cell == LastSet(ops, key, d.cache[key].cell)
    decreases |ops|
  {
    hide Step;
    if ops != [] {
      assert !ops[0].Reboot?;
      StepIsMap(d, ops[0], key);
      RunIsMap(Step(d, ops[0]), ops[1..], key);
      LastSetPrepend(ops[0], ops[1..], key, d.cache[key].cell);
      assert [ops[0]] + ops[1..] == ops;
    }
  }

  lemma {:induction false} LastSetOfWritten(ops: seq<Op>, key: nat, a: Cell, b: Cell)
    requires Sets(ops, key)
    ensures LastSet(ops, key, a) == LastSet(ops, key, b)
  {
    var last := ops[|ops| - 1];
    if !(last.Set? && last.key == key) {
      SetsSnoc(ops, key);
      LastSetOfWritten(ops[..|ops| - 1], key, a, b);
    }
  }

  /** The j-th operation writes something else to the key than it held. */
  predicate Changes(ops: seq<Op>, j: nat, key: nat, was: Cell) {
    j < |ops| && ops[j].Set? && ops[j].key == key && LastSet(ops[..j], key, was) != Val(ops[j].t, ops[j].v)
  }

  lemma ChangesSnoc(ops: seq<Op>, key: nat, was: Cell)
    requires ops != []
    ensures var init, last := ops[..|ops| - 1], ops[|ops| - 1];
            (exists j :: 0 <= j < |ops| && Changes(ops, j, key, was))
            <==> || (exists j :: 0 <= j < |init| && Changes(init, j, key, was))
                 || (last.Set? && last.key == key && LastSet(init, key, was) != Val(last.t, last.v))
  {
    var init := ops[..|ops| - 1];
    assert forall j :: 0 <= j < |init| ==> init[..j] == ops[..j] && init[j] == ops[j];
    assert forall j :: 0 <= j < |init| ==> (Changes(init, j, key, was) <==> Changes(ops, j, key, was));
    assert Changes(ops, |init|, key, was) <==>
           ops[|init|].Set? && ops[|init|].key == key && LastSet(init, key, was) != Val(ops[|init|].t, ops[|init|].v);
  }

  /** The flag, exactly: between reboots a slot becomes pending by the first write that changes what it holds, and by
      nothing else. Writing an unchanged value leaves it clear, and no commit clears it. */
  lemma {:induction false} PendingIff(d: Device, ops: seq<Op>, key: nat)
    requires d.Up? && |d.cache| == |d.files| && IsRun(d, ops) && RebootFree(ops) && key < |d.cache|
    ensures var d' := Run(d, ops);
            d'.Up? && (d'.cache[key].pending
                       <==> d.cache[key].pending
                            || exists j :: 0 <= j < |ops| && Changes(ops, j, key, d.cache[key].cell))
    decreases |ops|
  {
    hide Changes, LastSet;
    if ops != [] {
      var init, last := ops[..|ops| - 1], ops[|ops| - 1];
      RunSnoc(d, ops);
      assert RebootFree(init) && !last.Reboot?;
      PendingIff(d, init, key);
      RunIsMap(d, init, key);
      ChangesSnoc(ops, key, d.cache[key].cell);
    }
  }

  /** Across a reboot: after any history and a successful commit, the next start that reads the key without a fault
      finds the last write to it since the last start, or else what flash holds (even where the last start had failed
      to read that), if and only if a pending write was synced or left the very same file. */
  lemma LastWriteSurvivesIff(flash: seq<Option<Octets>>, before: seq<Op>, loads: seq<ReadFault>, ops: seq<Op>,
                             faults: seq<WriteFault>, next: seq<ReadFault>, key: nat)
    requires IsHistory(flash, before, loads, ops) && |faults| == |next| == |flash| && key < |flash|
    requires var d := Now(flash, before, loads, ops); d.Up? && CommitOk(d.cache, faults)
    requires WellFormed(FilesAtStart(flash, before, loads, ops)[key]) && Leaves(faults[key]) && Faultless(next[key])
    requires Step(Step(Now(flash, before, loads, ops), Commit(faults)), Reboot(next)).Up?
    ensures var d, was := Now(flash, before, loads, ops), FilesAtStart(flash, before, loads, ops);
            Step(Step(d, Commit(faults)), Reboot(next)).cache[key].cell
              == LastSet(ops, key, LoadedCell(was[key], next[key]))
            <==> (Pending(d.cache[key]) ==> Reached(d.cache[key], faults[key]))
  {
    hide IsHistory, Now, IsRun, Run, Tracks, Reached, LoadedCell, CommittedFile, WellFormed, Leaves;
    var d, was := Now(flash, before, loads, ops), FilesAtStart(flash, before, loads, ops);
    var e, c, c' := d.cache[key], LoadedCell(was[key], loads[key]), LoadedCell(was[key], next[key]);
    HistoryTracks(flash, before, loads, ops, key);
    HistoryIsMap(flash, before, loads, ops, key);
    LastSetKinds(ops, key, c);
    LastSetKinds(ops, key, c');
    if Sets(ops, key) {
      LastSetOfWritten(ops, key, c, c');
    }
    SlotReadsLastWriteIff(e, d.files[key], was[key], loads[key], Sets(ops, key), faults[key], next[key]);
  }

  lemma SlotReadsLastWriteIff(e: Entry, file: Option<Octets>, was: Option<Octets>, r: ReadFault, written: bool,
                              f: WriteFault, next: ReadFault)
    requires Tracks(e, file, was, r, written) && (Pending(e) ==> Written(f, |e.cell.v|)) && (written ==> e.cell.Val?)
    requires WellFormed(was) && Leaves(f) && Faultless(next)
    ensures LoadedCell(CommittedFile(e, file, f), next) == (if written then e.cell else LoadedCell(was, next))
            <==> (Pending(e) ==> Reached(e, f))
  {
    SlotIsDurableIff(e, file, was, r, written, f, next);
    if !e.pending && written {
      LoadedAlike(was, r, next);
    }
  }

  /** A value that was read at all is the one that a faultless start reads. */
  lemma LoadedAlike(file: Option<Octets>, r: ReadFault, next: ReadFault)
    requires WellFormed(file) && Faultless(next) && LoadedCell(file, r).Val?
    ensures LoadedCell(file, r) == LoadedCell(file, next)
  {
  }

  lemma HistoryIsMap(flash: seq<Option<Octets>>, before: seq<Op>, loads: seq<ReadFault>, ops: seq<Op>, key: nat)
    requires IsHistory(flash, before, loads, ops) && Now(flash, before, loads, ops).Up? && key < |flash|
    ensures Now(flash, before, loads, ops).cache[key].cell
            == LastSet(ops, key, LoadedCell(FilesAtStart(flash, before, loads, ops)[key], loads[key]))
  {
    HistoryTracks(flash, before, loads, ops, key);
    RunIsMap(Start(FilesAtStart(flash, before, loads, ops), loads), ops, key);
  }

  // ---- Dropped blocks -----------------------------------------------------

  /** Writes that shrink a key's value from heap size to pointer size, counted from the history alone. */
  function Shrinks(cache: seq<Entry>, ops: seq<Op>): nat {
    if ops == [] then 0
    else
      var init, last := ops[..|ops| - 1], ops[|ops| - 1];
      Shrinks(cache, init) + if ShrinksBy(cache, init, last) then 1 else 0
  }

  predicate ShrinksBy(cache: seq<Entry>, before: seq<Op>, op: Op) {
    op.Set? && op.key < |cache| && |op.v| <= POINTER_SIZE
    && var c := LastSet(before, op.key, cache[op.key].cell);
       c.Val? && |c.v| > POINTER_SIZE
  }

  /** Keys that are written although their failed load left a heap-sized block behind. */
  ghost function LostLoads(cache: seq<Entry>, ops: seq<Op>): set<nat> {
    set k: nat | k < |cache| && cache[k].cell.Unset? && cache[k].cell.stale > POINTER_SIZE && Sets(ops, k)
  }

  lemma LostLoadsSnoc(cache: seq<Entry>, ops: seq<Op>)
    requires ops != []
    ensures var init, last := ops[..|ops| - 1], ops[|ops| - 1];
            |LostLoads(cache, ops)| == |LostLoads(cache, init)| +
              if last.Set? && last.key < |cache| && !Sets(init, last.key)
                 && cache[last.key].cell.Unset? && cache[last.key].cell.stale > POINTER_SIZE
              then 1 else 0
  {
    var init, last := ops[..|ops| - 1], ops[|ops| - 1];
    forall k: nat ensures Sets(ops, k) <==> Sets(init, k) || (last.Set? && last.key == k) {
      SetsSnoc(ops, k);
    }
    hide Sets;
    if last.Set? && last.key < |cache| && cache[last.key].cell.Unset? && cache[last.key].cell.stale > POINTER_SIZE {
      assert LostLoads(cache, ops) == LostLoads(cache, init) + {last.key};
    } else {
      assert LostLoads(cache, ops) == LostLoads(cache, init);
    }
  }

  /** Over any run without reboots, whatever the loads and commits did, the blocks dropped are exactly the shrinking
      writes and, once for each, the written keys whose failed load had left a block. */
  lemma {:induction false} DroppedCounts(d: Device, ops: seq<Op>)
    requires d.Up? && |d.cache| == |d.files| && IsRun(d, ops) && RebootFree(ops)
    ensures var d' := Run(d, ops);
            d'.Up? && d'.dropped == d.dropped + Shrinks(d.cache, ops) + |LostLoads(d.cache, ops)|
    decreases |ops|
  {
    if ops == [] {
      assert LostLoads(d.cache, ops) == {};
    } else {
      var init, last := ops[..|ops| - 1], ops[|ops| - 1];
      assert init + [last] == ops;
      RunConcat(d, init, [last]);
      assert [last][1..] == [];
      assert Run(Run(d, init), [last]) == Step(Run(d, init), last);
      assert RebootFree(init) && !last.Reboot?;
      DroppedCounts(d, init);
      LostLoadsSnoc(d.cache, ops);
      if last.Set? {
        RunIsMap(d, init, last.key);
        LastSetKinds(init, last.key, d.cache[last.key].cell);
      }
    }
  }

  /** The same over any history: the count runs from the last start and begins with the blocks it lost itself. */
  lemma DroppedInHistory(flash: seq<Option<Octets>>, before: seq<Op>, loads: seq<ReadFault>, ops: seq<Op>)
    requires IsHistory(flash, before, loads, ops) && Now(flash, before, loads, ops).Up?
    ensures var files := FilesAtStart(flash, before, loads, ops);
            var cache := Loaded(files, loads);
            Now(flash, before, loads, ops).dropped
            == LostAtStart(files, loads, |files|) + Shrinks(cache, ops) + |LostLoads(cache, ops)|
  {
    var files := FilesAtStart(flash, before, loads, ops);
    if Start(files, loads).Up? {
      DroppedCounts(Start(files, loads), ops);
    } else {
      StaysHalted(Start(files, loads), ops);
    }
  }

  /** A block can be lost without any shrinking write: its load failed, and a longer value follows. */
  lemma FailedLoadLosesBlock(v: Octets, w: Octets, r: ReadFault)
    requires POINTER_SIZE < |v| < VAL_MAX_LEN && |v| < |w| < VALUE_LIMIT
    requires r.statsLength && r.statsFile && r.opens && r.readsHeader && !r.readsData
    ensures var start := Start([Some(FileOf(TypeBlob, v))], [r]);
            && start.Up? && Enabled(start, Set(0, TypeBlob, w))
            && Step(start, Set(0, TypeBlob, w)).dropped == 1
            && Shrinks(start.cache, [Set(0, TypeBlob, w)]) == 0
  {
    FailedLoadHidesFile(v, r);
    var ops := [Set(0, TypeBlob, w)];
    assert ops[..0] == [];
    assert LastSet([], 0, Unset(|v|)) == Unset(|v|);
  }
}
