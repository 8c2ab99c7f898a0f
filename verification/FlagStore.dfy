/**
 * Persistent feature flags as a state machine over a file whose reads and
 * writes may fail in every way the file system layer reports.
 */
module FlagStore {
  import opened Prelude

  const COUNT: nat := 9
  const RATE_LIMIT_TEMPLATE_UPDATE: nat := 2
  const UNLOCK: nat := 3

  type Flags = s: seq<bool> | |s| == COUNT witness seq(COUNT, _ => false)

  type Length = n: nat | n <= COUNT

  /** The flags in memory, how many of them count, and the stored file. */
  datatype Store = Store(flags: Flags, len: Length, file: Option<seq<bool>>)

  /** How the file system answers a read: which step fails, and what a partial read leaves in the buffer. */
  datatype ReadFault = NoFault | OpenFails | SizeFails | ShortRead(garbage: Flags) | CloseFails

  /** A write succeeds, or fails leaving anything at all in the file. */
  datatype WriteFault = Written | Lost(left: Option<seq<bool>>)

  datatype Setting = Setting(flag: int, enabled: bool)

  // ----- the file system

  /** `fs_util_read_all_global`: success, buffer, size. */
  function ReadAll(s: Store, fault: ReadFault): (r: (bool, Flags, Length)) {
    if s.file.None? || fault.OpenFails? || fault.SizeFails? then (false, s.flags, 0)
    else if s.file.value == [] then (!fault.CloseFails?, s.flags, 0)
    else if |s.file.value| > COUNT then (false, s.flags, 0)
    else if fault.ShortRead? then (false, fault.garbage, 0)
    else (!fault.CloseFails?, s.file.value + s.flags[|s.file.value|..], |s.file.value|)
  }

  /** The file is opened without truncation: a longer old file keeps its tail. */
  function Overwritten(file: Option<seq<bool>>, data: seq<bool>): (r: seq<bool>) {
    if file.Some? && |file.value| > |data| then data + file.value[|data|..] else data
  }

  /** Writing one entry more replaces the next old one, or extends the file. */
  lemma OverwritesNext(file: Option<seq<bool>>, data: seq<bool>, x: bool)
    ensures var c := Overwritten(file, data);
            |c| >= |data| && Overwritten(file, data + [x]) == if |data| < |c| then c[|data| := x] else c + [x]
  {
  }

  lemma WriteSavesPrefix(file: Option<seq<bool>>, data: seq<bool>)
    ensures data <= Overwritten(file, data)
  {
  }

  lemma NothingOverwritten(file: Option<seq<bool>>)
    ensures Overwritten(file, []) == if file.Some? then file.value else []
  {
  }

  function Write(s: Store, fault: WriteFault): (r: (Store, bool)) {
    match fault
    case Written => (s.(file := Some(Overwritten(s.file, s.flags[..s.len]))), true)
    case Lost(left) => (s.(file := left), false)
  }

  // ----- the operations

  function Default(i: nat): bool {
    i != RATE_LIMIT_TEMPLATE_UPDATE && i != UNLOCK
  }

  /** The first `len` flags, then defaults. */
  function Completed(flags: Flags, len: nat): (r: Flags) {
    seq(COUNT, i requires 0 <= i < COUNT => if i < len then flags[i] else Default(i))
  }

  function Read(s: Store, read: ReadFault, removes: bool, write: WriteFault): (r: (Store, bool)) {
    var (ok, flags, len) := ReadAll(s, read);
    if !ok then
      Write(Store(Completed(flags, len), COUNT, if removes then None else s.file), write)
    else if len < COUNT then
      Write(Store(Completed(flags, len), COUNT, s.file), write)
    else
      (Store(flags, len, s.file), true)
  }

  function Init(prod: bool, s: Store, read: ReadFault, removes: bool, write: WriteFault, clear: WriteFault)
    : (r: (Store, bool))
  {
    var (s1, ok) := Read(s, read, removes, write);
    if prod && s1.flags[UNLOCK] then
      var (s2, ok2) := Write(s1.(flags := s1.flags[UNLOCK := false]), clear);
      (s2, ok && ok2)
    else (s1, ok)
  }

  predicate Accepts(prod: bool, flag: int) {
    0 <= flag < COUNT && !(prod && flag == UNLOCK)
  }

  function Set(prod: bool, s: Store, flag: int, value: bool, write: WriteFault): (r: (Store, bool)) {
    if !Accepts(prod, flag) then (s, false) else Write(s.(flags := s.flags[flag := value]), write)
  }

  predicate AcceptsAll(prod: bool, settings: seq<Setting>) {
    forall i | 0 <= i < |settings| :: Accepts(prod, settings[i].flag)
  }

  /** The settings applied one after the other. */
  function Applied(prod: bool, flags: Flags, settings: seq<Setting>): (r: Flags)
    requires AcceptsAll(prod, settings)
  {
    if settings == [] then flags
    else
      var last := settings[|settings| - 1];
      Applied(prod, flags, settings[..|settings| - 1])[last.flag := last.enabled]
  }

  function SetMultiple(prod: bool, s: Store, settings: seq<Setting>, write: WriteFault): (r: (Store, bool)) {
    if !AcceptsAll(prod, settings) then (s, false)
    else Write(s.(flags := Applied(prod, s.flags, settings)), write)
  }

  // ----- runs

  datatype Op =
    | InitOp(read: ReadFault, removes: bool, write: WriteFault, clear: WriteFault)
    | SetOp(flag: int, value: bool, write: WriteFault)
    | SetMultipleOp(settings: seq<Setting>, write: WriteFault)

  function Apply(prod: bool, s: Store, op: Op): (r: (Store, bool)) {
    match op
    case InitOp(read, removes, write, clear) => Init(prod, s, read, removes, write, clear)
    case SetOp(flag, value, write) => Set(prod, s, flag, value, write)
    case SetMultipleOp(settings, write) => SetMultiple(prod, s, settings, write)
  }

  /** What holds from the first init on, whatever fails: all flags count, and production never unlocks. */
  predicate Ready(prod: bool, s: Store) {
    s.len == COUNT && (prod ==> !s.flags[UNLOCK])
  }

  /** The file starts with the flags in memory. */
  predicate Saved(s: Store) {
    s.file.Some? && s.flags <= s.file.value
  }

  /** Any number of calls after an init. */
  function After(prod: bool, s: Store, init: Op, ops: seq<Op>): (r: Store)
    requires init.InitOp?
  {
    if ops == [] then Apply(prod, s, init).0
    else Apply(prod, After(prod, s, init, ops[..|ops| - 1]), ops[|ops| - 1]).0
  }

  // ----- what every run keeps

  lemma {:induction false} AppliedKeepsUnlock(flags: Flags, settings: seq<Setting>)
    requires AcceptsAll(true, settings)
    ensures Applied(true, flags, settings)[UNLOCK] == flags[UNLOCK]
  {
    if settings != [] { AppliedKeepsUnlock(flags, settings[..|settings| - 1]); }
  }

  lemma InitMakesReady(prod: bool, s: Store, init: Op)
    requires init.InitOp?
    ensures Ready(prod, Apply(prod, s, init).0)
  {
  }

  lemma CallKeepsReady(prod: bool, s: Store, op: Op)
    requires Ready(prod, s)
    ensures Ready(prod, Apply(prod, s, op).0)
  {
    match op
    case InitOp(_, _, _, _) => InitMakesReady(prod, s, op);
    case SetOp(_, _, _) =>
    case SetMultipleOp(settings, _) =>
      if prod && AcceptsAll(prod, settings) { AppliedKeepsUnlock(s.flags, settings); }
  }

  /** After the first init, through any calls and any failures: all flags count, and production never unlocks. */
  lemma {:induction false} RunStaysReady(prod: bool, s: Store, init: Op, ops: seq<Op>)
    requires init.InitOp?
    ensures Ready(prod, After(prod, s, init, ops))
  {
    if ops == [] {
      InitMakesReady(prod, s, init);
    } else {
      RunStaysReady(prod, s, init, ops[..|ops| - 1]);
      CallKeepsReady(prod, After(prod, s, init, ops[..|ops| - 1]), ops[|ops| - 1]);
    }
  }

  // ----- what a true result means

  predicate Fits(file: Option<seq<bool>>) {
    file.None? || |file.value| <= COUNT
  }

  lemma WriteSaves(s: Store)
    requires s.len == COUNT
    ensures Saved(Write(s, Written).0)
    ensures Write(s, Written).0.file == Some(s.flags) <==> Fits(s.file)
    ensures Fits(Write(s, Written).0.file) <==> Fits(s.file)
  {
    assert s.flags[..s.len] == s.flags;
    assert Fits(s.file) <==> |Overwritten(s.file, s.flags)| == COUNT;
  }

  lemma ReadSaves(s: Store, read: ReadFault, removes: bool, write: WriteFault)
    requires Read(s, read, removes, write).1
    ensures var s' := Read(s, read, removes, write).0;
            Saved(s') && s'.len == COUNT && (s'.file == Some(s'.flags) <==> Fits(s'.file))
            && (Fits(s'.file) <==> Fits(s.file) || removes)
  {
    var (ok, flags, len) := ReadAll(s, read);
    if !ok {
      WriteSaves(Store(Completed(flags, len), COUNT, if removes then None else s.file));
    } else if len < COUNT {
      WriteSaves(Store(Completed(flags, len), COUNT, s.file));
    } else {
      assert s.file.value + s.flags[COUNT..] == s.file.value;
    }
  }

  /** A call that reports success has stored the flags; the file holds nothing else exactly when it was not too long. */
  lemma SuccessMeansSaved(prod: bool, s: Store, op: Op)
    requires op.InitOp? || Ready(prod, s)
    requires Apply(prod, s, op).1
    ensures var s' := Apply(prod, s, op).0;
            Saved(s') && (s'.file == Some(s'.flags) <==> Fits(s.file) || (op.InitOp? && op.removes))
  {
    match op
    case InitOp(read, removes, write, clear) =>
      ReadSaves(s, read, removes, write);
      var s1 := Read(s, read, removes, write).0;
      if prod && s1.flags[UNLOCK] { WriteSaves(s1.(flags := s1.flags[UNLOCK := false])); }
    case SetOp(flag, value, write) => WriteSaves(s.(flags := s.flags[flag := value]));
    case SetMultipleOp(settings, write) => WriteSaves(s.(flags := Applied(prod, s.flags, settings)));
  }

  /** A file of ten entries whose removal fails: init reports success, and the file is not what is in memory. */
  lemma LongFileKeepsTail(prod: bool, flags: Flags)
    ensures var s := Store(flags, 0, Some(seq(10, _ => true)));
            var (s', ok) := Apply(prod, s, InitOp(NoFault, false, Written, Written));
            ok && s'.file != Some(s'.flags) && |s'.file.value| == 10
  {
    SuccessMeansSaved(prod, Store(flags, 0, Some(seq(10, _ => true))), InitOp(NoFault, false, Written, Written));
  }

  // ----- starting from a file

  /** A readable file of k flags keeps them, whether or not closing it failed; the rest are defaults. */
  lemma InitKeepsStored(prod: bool, s: Store, init: Op, i: nat)
    requires init.InitOp? && i < COUNT
    requires s.file.Some? && |s.file.value| <= COUNT && (init.read.NoFault? || init.read.CloseFails?)
    ensures Apply(prod, s, init).0.flags[i] ==
            if prod && i == UNLOCK then false
            else if i < |s.file.value| then s.file.value[i]
            else Default(i)
  {
  }

  /** A file that is missing, too long or cannot be read resets every flag to its default. */
  lemma InitResets(prod: bool, s: Store, init: Op, i: nat)
    requires init.InitOp? && i < COUNT
    requires s.file.None? || init.read.OpenFails? || init.read.SizeFails? || |s.file.value| > COUNT
             || (init.read.ShortRead? && s.file.value != [])
    ensures Apply(prod, s, init).0.flags[i] == (i != RATE_LIMIT_TEMPLATE_UPDATE && i != UNLOCK)
  {
  }

  /** Turning the device off and on: memory is lost, the file stays, nothing fails. */
  function Rebooted(prod: bool, s: Store): (r: (Store, bool)) {
    Init(prod, Store(seq(COUNT, _ => false), 0, s.file), NoFault, true, Written, Written)
  }

  /** Flags stored by a successful call come back after a reboot if the file fits; a longer file resets them all. */
  lemma SuccessSurvivesReboot(prod: bool, s: Store, op: Op)
    requires op.InitOp? || Ready(prod, s)
    requires Apply(prod, s, op).1
    ensures var s' := Apply(prod, s, op).0;
            Rebooted(prod, s').0.flags == if Fits(s'.file) then s'.flags else Completed(s'.flags, 0)
  {
    var s' := Apply(prod, s, op).0;
    SuccessMeansSaved(prod, s, op);
    if op.InitOp? { InitMakesReady(prod, s, op); } else { CallKeepsReady(prod, s, op); }
    if Fits(s'.file) {
      assert s'.file == Some(s'.flags);
      assert s'.flags + [] == s'.flags;
    } else {
      assert Completed(seq(COUNT, _ => false), 0) == Completed(s'.flags, 0);
    }
  }

  // ----- what the setters set

  predicate Refused(s: Store, r: (Store, bool)) {
    r.0 == s && !r.1
  }

  /** `flags` are `was` with just this flag changed. */
  predicate OneSet(was: Flags, flag: int, value: bool, flags: seq<bool>) {
    |flags| >= COUNT && forall i | 0 <= i < COUNT :: flags[i] == if i == flag then value else was[i]
  }

  /** An accepted flag has the given value in memory, in the file and after a reboot; all others stay. */
  lemma SetTakesEffect(prod: bool, s: Store, flag: int, value: bool, write: WriteFault)
    requires Ready(prod, s)
    ensures var (s', ok) := Apply(prod, s, SetOp(flag, value, write));
            if !Accepts(prod, flag) then Refused(s, (s', ok))
            else
              && OneSet(s.flags, flag, value, s'.flags) && s'.len == COUNT
              && (ok <==> write.Written?)
              && (ok ==> s'.file.Some? && OneSet(s.flags, flag, value, s'.file.value))
              && (ok && Fits(s.file) ==> OneSet(s.flags, flag, value, Rebooted(prod, s').0.flags))
  {
    hide Rebooted;
    var op := SetOp(flag, value, write);
    if Apply(prod, s, op).1 {
      SuccessMeansSaved(prod, s, op);
      SuccessSurvivesReboot(prod, s, op);
    }
  }

  predicate NoEntry(settings: seq<Setting>, i: nat) {
    forall j | 0 <= j < |settings| :: settings[j].flag != i
  }

  predicate LastEntry(settings: seq<Setting>, j: nat, i: nat)
    requires j < |settings|
  {
    settings[j].flag == i && forall k | j < k < |settings| :: settings[k].flag != i
  }

  /** In `flags`, a flag has the value of its last entry, or what it `was` without one. */
  predicate AllSet(was: Flags, settings: seq<Setting>, flags: seq<bool>) {
    && |flags| >= COUNT
    && (forall i | 0 <= i < COUNT && NoEntry(settings, i) :: flags[i] == was[i])
    && (forall i, j | 0 <= i < COUNT && 0 <= j < |settings| && LastEntry(settings, j, i) ::
          flags[i] == settings[j].enabled)
  }

  /** The last entry for a flag decides it; a flag without one keeps its value. */
  lemma {:induction false} LastEntryWins(prod: bool, flags: Flags, settings: seq<Setting>)
    requires AcceptsAll(prod, settings)
    ensures AllSet(flags, settings, Applied(prod, flags, settings))
  {
    if settings != [] {
      var init, last := settings[..|settings| - 1], settings[|settings| - 1];
      LastEntryWins(prod, flags, init);
      var before, after := Applied(prod, flags, init), Applied(prod, flags, settings);
      forall i | 0 <= i < COUNT && NoEntry(settings, i)
        ensures after[i] == flags[i]
      {
        assert settings[|settings| - 1].flag != i;
        assert NoEntry(init, i);
      }
      forall i, j | 0 <= i < COUNT && 0 <= j < |settings| && LastEntry(settings, j, i)
        ensures after[i] == settings[j].enabled
      {
        if j < |init| {
          assert settings[|settings| - 1].flag != i;
          assert LastEntry(init, j, i);
        }
      }
    }
  }

  /** Accepted settings take effect in memory, in the file and after a reboot; one refused entry refuses them all. */
  lemma SetMultipleTakesEffect(prod: bool, s: Store, settings: seq<Setting>, write: WriteFault)
    requires Ready(prod, s)
    ensures var (s', ok) := Apply(prod, s, SetMultipleOp(settings, write));
            if !AcceptsAll(prod, settings) then Refused(s, (s', ok))
            else
              && AllSet(s.flags, settings, s'.flags) && s'.len == COUNT
              && (ok <==> write.Written?)
              && (ok ==> s'.file.Some? && AllSet(s.flags, settings, s'.file.value))
              && (ok && Fits(s.file) ==> AllSet(s.flags, settings, Rebooted(prod, s').0.flags))
  {
    hide Rebooted, LastEntry, NoEntry;
    var op := SetMultipleOp(settings, write);
    if AcceptsAll(prod, settings) { LastEntryWins(prod, s.flags, settings); }
    if Apply(prod, s, op).1 {
      SuccessMeansSaved(prod, s, op);
      SuccessSurvivesReboot(prod, s, op);
    }
  }
}
