/** The table of installed apps and its image in the file system: what a reboot brings back,
    and how far the stored count is from the number of apps. */
module AppRegistry {
  import opened Basics

  const MAX_INSTALLED: nat := 8
  const MAX_RUNNING: nat := 2
  const NAME_MAX: nat := 32
  const BYTE: nat := 256

  const MAX_SIZE: nat := 64 * 1024
  const WASM_MAGIC: seq<Byte> := [0x00, 0x61, 0x73, 0x6D]
  const MAGIC: nat := 0x414B4150
  const VERSION: nat := 1

  datatype AppState = New | Installed | Running | Stopped | Error | Failed

  datatype Source = Unknown | Http | Ble | Usb | Sd | Firmware

  datatype Restart = Restart(enabled: bool, maxRetries: nat, delayMs: nat)

  datatype Manifest = Manifest(name: string, version: string, heapKb: nat, stackKb: nat, permissions: nat, restart: Restart)

  datatype Entry = Entry(
    id: nat, name: string, version: string, state: AppState, source: Source, size: nat,
    heapKb: nat, stackKb: nat, permissions: nat, restart: Restart, crashes: nat, container: int,
    installTime: nat, lastStart: nat, preloaded: bool)

  const BLANK := Entry(0, "", "", New, Unknown, 0, 0, 0, 0, Restart(false, 0, 0), 0, 0, 0, 0, false)

  // What an app without a manifest gets.
  const DEFAULTS := Manifest("", "0.0.0", 16, 4, 0, Restart(false, 3, 1000))

  // The file: its header, and the records behind it.
  datatype Image = Image(magic: nat, version: nat, count: nat, records: seq<Entry>)

  datatype Manager = Manager(slots: seq<Entry>, count: nat, file: Option<Image>)

  // A name made up from the binary.
  type MadeUpName = s: string | s != "" && |s| < 32 witness "app_00000000"

  /** The outcome of everything outside the table is part of the step: the code of saving the
      binary, the container the runtime made or its error, the codes of starting and stopping,
      and whether the registry file was written. */
  datatype Op =
    | Install(appName: string, binary: seq<Byte>, manifest: Option<Manifest>, source: Source, time: nat,
              madeUp: MadeUpName, saved: int, fileSaved: bool)
    | Uninstall(name: string, fileSaved: bool)
    | Start(name: string, container: int, started: int, time: nat, fileSaved: bool)
    | Stop(name: string, stopped: int, fileSaved: bool)
    | Reboot

  // The count and the crash counter are bytes.
  function InByte(n: nat): nat {
    n % BYTE
  }

  // ---------- The table ----------

  function Find(slots: seq<Entry>, name: string): (n: nat)
    ensures n <= |slots|
    ensures forall i :: 0 <= i < n ==> slots[i].name == "" || slots[i].name != name
    ensures n < |slots| ==> slots[n].name != "" && slots[n].name == name
  {
    if slots == [] || (slots[0].name != "" && slots[0].name == name) then 0 else 1 + Find(slots[1..], name)
  }

  function FreeSlot(slots: seq<Entry>): (n: nat)
    ensures n <= |slots|
    ensures forall i :: 0 <= i < n ==> slots[i].name != ""
    ensures n < |slots| ==> slots[n].name == ""
  {
    if slots == [] || slots[0].name == "" then 0 else 1 + FreeSlot(slots[1..])
  }

  // The entries with a name, in slot order.
  function Named(slots: seq<Entry>): (r: seq<Entry>)
    ensures |r| <= |slots|
    ensures forall i :: 0 <= i < |r| ==> r[i].name != ""
  {
    if slots == [] then [] else
    var n := |slots| - 1;
    Named(slots[..n]) + if slots[n].name != "" then [slots[n]] else []
  }

  function RunningCount(slots: seq<Entry>): nat {
    if slots == [] then 0 else
    var n := |slots| - 1;
    RunningCount(slots[..n]) + if slots[n].state == Running then 1 else 0
  }

  function Cut(name: string): string {
    if |name| < NAME_MAX then name else name[..NAME_MAX - 1]
  }

  // ---------- The file ----------

  function Saved(slots: seq<Entry>, count: nat): Image {
    Image(MAGIC, VERSION, count, Named(slots))
  }

  function AfterBoot(e: Entry): Entry {
    e.(container := -1, state := if e.state == Running then Installed else e.state)
  }

  function AllAfterBoot(records: seq<Entry>): (r: seq<Entry>)
    ensures |r| == |records|
    ensures forall i :: 0 <= i < |r| ==> r[i] == AfterBoot(records[i])
  {
    seq(|records|, i requires 0 <= i < |records| => AfterBoot(records[i]))
  }

  function Blanks(n: nat): seq<Entry> {
    seq(n, _ => BLANK)
  }

  // How many records the loader takes, if the file has as many.
  function Wanted(count: nat): nat {
    if count > MAX_INSTALLED then MAX_INSTALLED else count
  }

  // Why a file is not loaded.
  function LoadError(file: Option<Image>): int {
    if file.None? then -ENOENT
    else if file.value.magic != MAGIC || file.value.version != VERSION then -EINVAL
    else if |file.value.records| < Wanted(file.value.count) then -EIO
    else 0
  }

  /** What the table holds after the boot: nothing if there is no file, if its header is not one
      of ours, or if it has fewer records than its header says. */
  function Loaded(file: Option<Image>): (seq<Entry>, nat) {
    if LoadError(file) != 0 then (Blanks(MAX_INSTALLED), 0) else
    var n := Wanted(file.value.count);
    (AllAfterBoot(file.value.records[..n]) + Blanks(MAX_INSTALLED - n), n)
  }

  // ---------- The calls ----------

  function WithFile(m: Manager, fileSaved: bool): Manager {
    if fileSaved then m.(file := Some(Saved(m.slots, m.count))) else m
  }

  // Entering the error state may give up on the app.
  function SetState(e: Entry, state: AppState): Entry {
    if e.state == state then e
    else if state == Error && e.restart.enabled then
      var crashes := InByte(e.crashes + 1);
      e.(crashes := crashes, state := if crashes < e.restart.maxRetries then Error else Failed)
    else e.(state := state)
  }

  /** The name an install settles on: the caller's, the manifest's, or a made-up one. */
  function ChosenName(op: Op): (name: string)
    requires op.Install?
    ensures name != "" && |name| < NAME_MAX
  {
    if op.appName != "" then Cut(op.appName)
    else if op.manifest.Some? && op.manifest.value.name != "" then Cut(op.manifest.value.name)
    else op.madeUp
  }

  // Why an install is refused before the table is looked at.
  function Refused(op: Op): int
    requires op.Install?
  {
    if |op.binary| < |WASM_MAGIC| || op.binary[..|WASM_MAGIC|] != WASM_MAGIC then -EINVAL
    else if |op.binary| > MAX_SIZE then -EFBIG
    else 0
  }

  // The slot an install writes to.
  function InstallSlot(slots: seq<Entry>, name: string): (n: nat)
    ensures n <= |slots|
  {
    if Find(slots, name) < |slots| then Find(slots, name) else FreeSlot(slots)
  }

  function InstallApp(m: Manager, op: Op): (Manager, int)
    requires op.Install?
  {
    var name := ChosenName(op);
    var found := Find(m.slots, name) < |m.slots|;
    var n := InstallSlot(m.slots, name);
    if Refused(op) != 0 then (m, Refused(op))
    else if n == |m.slots| then (m, -ENOMEM)
    else
      var count := if found then m.count else InByte(m.count + 1);
      var entry := if found then m.slots[n].(container := -1) else m.slots[n].(id := n + 1);
      if op.saved < 0 then
        (m.(slots := m.slots[n := entry.(name := "")], count := count), op.saved)
      else
        var wish := if op.manifest.Some? then op.manifest.value else DEFAULTS;
        var installed := Entry(entry.id, name, wish.version, Installed, op.source, |op.binary|, wish.heapKb, wish.stackKb,
                               wish.permissions, wish.restart, 0, -1, op.time, entry.lastStart, op.source == Firmware);
        (WithFile(m.(slots := m.slots[n := installed], count := count), op.fileSaved), entry.id)
  }

  function UninstallApp(m: Manager, name: string, fileSaved: bool): (Manager, int) {
    var n := Find(m.slots, name);
    if n == |m.slots| then (m, -ENOENT)
    else if m.slots[n].preloaded then (m, -EPERM)
    else (WithFile(m.(slots := m.slots[n := BLANK], count := InByte(m.count + BYTE - 1)), fileSaved), 0)
  }

  function StartApp(m: Manager, op: Op): (Manager, int)
    requires op.Start?
  {
    var n := Find(m.slots, op.name);
    if n == |m.slots| then (m, -ENOENT)
    else if m.slots[n].state == Running then (m, 0)
    else
      var app := if m.slots[n].state == Failed then m.slots[n].(crashes := 0) else m.slots[n];
      if RunningCount(m.slots) >= MAX_RUNNING then (m.(slots := m.slots[n := app]), -EBUSY)
      else if app.container < 0 && op.container < 0 then (m.(slots := m.slots[n := app]), op.container)
      else
        var ready := if app.container < 0 then app.(container := op.container) else app;
        if op.started < 0 then (m.(slots := m.slots[n := SetState(ready, Error)]), op.started)
        else
          (WithFile(m.(slots := m.slots[n := SetState(ready.(lastStart := op.time), Running)]), op.fileSaved), 0)
  }

  function StopApp(m: Manager, op: Op): (Manager, int)
    requires op.Stop?
  {
    var n := Find(m.slots, op.name);
    if n == |m.slots| then (m, -ENOENT)
    else if m.slots[n].state != Running then (m, 0)
    else if m.slots[n].container < 0 then (m, -EINVAL)
    else if op.stopped < 0 then (m, op.stopped)
    else (WithFile(m.(slots := m.slots[n := SetState(m.slots[n], Stopped)]), op.fileSaved), 0)
  }

  function Do(m: Manager, op: Op): (Manager, int) {
    match op
    case Install(_, _, _, _, _, _, _, _) => InstallApp(m, op)
    case Uninstall(name, fileSaved) => UninstallApp(m, name, fileSaved)
    case Start(_, _, _, _, _) => StartApp(m, op)
    case Stop(_, _, _) => StopApp(m, op)
    case Reboot => var (slots, count) := Loaded(m.file); (Manager(slots, count, m.file), 0)
  }

  // ---------- Invariants ----------

  ghost predicate Unique(slots: seq<Entry>) {
    forall i, j :: 0 <= i < j < |slots| && slots[i].name != "" ==> slots[i].name != slots[j].name
  }

  ghost predicate GoodFile(file: Option<Image>) {
    file.Some? && file.value.magic == MAGIC && file.value.version == VERSION ==>
      && |file.value.records| <= MAX_INSTALLED && Unique(file.value.records)
      && forall i :: 0 <= i < |file.value.records| ==> file.value.records[i].name != ""
  }

  /** Names are unique, in the table and in the file, and at most two apps run. */
  ghost predicate Sound(m: Manager) {
    |m.slots| == MAX_INSTALLED && Unique(m.slots) && RunningCount(m.slots) <= MAX_RUNNING && GoodFile(m.file)
  }

  lemma {:induction false} NamedAreThere(slots: seq<Entry>, e: Entry)
    ensures e in Named(slots) <==> e in slots && e.name != ""
  {
    if slots != [] {
      var n := |slots| - 1;
      NamedAreThere(slots[..n], e);
      assert slots == slots[..n] + [slots[n]];
    }
  }

  lemma {:induction false} NamedIsUnique(slots: seq<Entry>)
    requires Unique(slots)
    ensures Unique(Named(slots))
  {
    if slots != [] {
      var n := |slots| - 1;
      var rest := Named(slots[..n]);
      assert Unique(slots[..n]);
      NamedIsUnique(slots[..n]);
      forall i | 0 <= i < |rest| && slots[n].name != ""
        ensures rest[i].name != slots[n].name
      {
        NamedAreThere(slots[..n], rest[i]);
        var k :| 0 <= k < n && slots[..n][k] == rest[i];
        assert slots[k].name != "" && slots[k].name != slots[n].name;
      }
    }
  }

  lemma {:induction false} RunningUpdates(slots: seq<Entry>, n: nat, e: Entry)
    requires n < |slots|
    ensures RunningCount(slots[n := e]) ==
      RunningCount(slots) - (if slots[n].state == Running then 1 else 0) + (if e.state == Running then 1 else 0)
  {
    var last := |slots| - 1;
    if n == last {
      assert slots[n := e][..last] == slots[..last];
    } else {
      RunningUpdates(slots[..last], n, e);
      assert slots[n := e][..last] == slots[..last][n := e];
    }
  }

  lemma {:induction false} NamedUpdates(slots: seq<Entry>, n: nat, e: Entry)
    requires n < |slots|
    ensures |Named(slots[n := e])| ==
      |Named(slots)| - (if slots[n].name != "" then 1 else 0) + (if e.name != "" then 1 else 0)
  {
    var last := |slots| - 1;
    if n == last {
      assert slots[n := e][..last] == slots[..last];
    } else {
      NamedUpdates(slots[..last], n, e);
      assert slots[n := e][..last] == slots[..last][n := e];
    }
  }

  // ---------- Every step keeps the table sound ----------

  lemma SlotKeepsUnique(slots: seq<Entry>, n: nat, e: Entry)
    requires Unique(slots) && n < |slots|
    requires e.name == "" || Find(slots, e.name) == n || Find(slots, e.name) == |slots|
    ensures Unique(slots[n := e])
  {
    forall i | 0 <= i < |slots| && i != n && e.name != ""
      ensures slots[i].name != e.name
    {
      var k := Find(slots, e.name);
      assert k == n ==> slots[n].name == e.name;
    }
  }

  lemma SavingKeepsSound(m: Manager, fileSaved: bool)
    requires Sound(m)
    ensures Sound(WithFile(m, fileSaved))
  {
    NamedIsUnique(m.slots);
    hide RunningCount, Unique;
  }

  lemma SlotKeepsSound(m: Manager, n: nat, e: Entry, count: nat)
    requires Sound(m) && n < |m.slots|
    requires e.name == "" || Find(m.slots, e.name) == n || Find(m.slots, e.name) == |m.slots|
    requires e.state == Running ==> m.slots[n].state == Running || RunningCount(m.slots) < MAX_RUNNING
    ensures Sound(m.(slots := m.slots[n := e], count := count))
  {
    SlotKeepsUnique(m.slots, n, e);
    RunningUpdates(m.slots, n, e);
    hide Unique, Find, RunningCount;
  }

  lemma InstallKeepsSound(m: Manager, op: Op)
    requires Sound(m) && op.Install?
    ensures Sound(Do(m, op).0)
  {
    var name := ChosenName(op);
    var n := InstallSlot(m.slots, name);
    if Refused(op) == 0 && n < |m.slots| {
      hide FreeSlot, Sound, Cut, Refused, ChosenName, InByte;
      var m' := InstallApp(m, op).0;
      assert m'.slots == m.slots[n := m'.slots[n]];
      hide Find, InstallSlot;
      SlotKeepsSound(m, n, m'.slots[n], m'.count);
      SavingKeepsSound(m.(slots := m'.slots, count := m'.count), op.fileSaved);
    }
  }

  lemma UninstallKeepsSound(m: Manager, name: string, fileSaved: bool)
    requires Sound(m)
    ensures Sound(Do(m, Uninstall(name, fileSaved)).0)
  {
    var n := Find(m.slots, name);
    if n < |m.slots| {
      var count := InByte(m.count + BYTE - 1);
      hide Find, Sound;
      SlotKeepsSound(m, n, BLANK, count);
      SavingKeepsSound(m.(slots := m.slots[n := BLANK], count := count), fileSaved);
    }
  }

  // An entry of the same name in its slot.
  lemma EntryKeepsSound(m: Manager, n: nat, e: Entry, fileSaved: bool)
    requires Sound(m) && n < |m.slots| && m.slots[n].name != "" && n == Find(m.slots, m.slots[n].name)
    requires e.name == m.slots[n].name
    requires e.state == Running ==> m.slots[n].state == Running || RunningCount(m.slots) < MAX_RUNNING
    ensures Sound(m.(slots := m.slots[n := e])) && Sound(WithFile(m.(slots := m.slots[n := e]), fileSaved))
  {
    hide Find, Sound;
    SlotKeepsSound(m, n, e, m.count);
    SavingKeepsSound(m.(slots := m.slots[n := e]), fileSaved);
  }

  lemma SetStateIs(e: Entry, state: AppState)
    ensures var e' := SetState(e, state);
      && e'.name == e.name && e'.container == e.container
      && (e'.state == Running <==> state == Running)
  {
  }

  lemma StartKeepsSound(m: Manager, op: Op)
    requires Sound(m) && op.Start?
    ensures Sound(Do(m, op).0)
  {
    var n := Find(m.slots, op.name);
    if n < |m.slots| && m.slots[n].state != Running {
      hide Find, Sound;
      var app := if m.slots[n].state == Failed then m.slots[n].(crashes := 0) else m.slots[n];
      EntryKeepsSound(m, n, app, false);
      if RunningCount(m.slots) < MAX_RUNNING && (app.container >= 0 || op.container >= 0) {
        var ready := if app.container < 0 then app.(container := op.container) else app;
        SetStateIs(ready, Error);
        SetStateIs(ready.(lastStart := op.time), Running);
        hide SetState, RunningCount;
        EntryKeepsSound(m, n, SetState(ready, Error), false);
        EntryKeepsSound(m, n, SetState(ready.(lastStart := op.time), Running), op.fileSaved);
      }
    }
  }

  lemma StopKeepsSound(m: Manager, op: Op)
    requires Sound(m) && op.Stop?
    ensures Sound(Do(m, op).0)
  {
    var n := Find(m.slots, op.name);
    if n < |m.slots| {
      hide Find, Sound, RunningCount;
      SetStateIs(m.slots[n], Stopped);
      hide SetState;
      EntryKeepsSound(m, n, SetState(m.slots[n], Stopped), op.fileSaved);
    }
  }

  // ---------- Loading ----------

  lemma {:induction false} NamedOfPadded(records: seq<Entry>, k: nat)
    requires forall i :: 0 <= i < |records| ==> records[i].name != ""
    ensures Named(records + Blanks(k)) == records
    decreases |records| + k
  {
    if k > 0 {
      var all := records + Blanks(k);
      assert all[..|all| - 1] == records + Blanks(k - 1);
      NamedOfPadded(records, k - 1);
    } else if records != [] {
      var n := |records| - 1;
      assert records + Blanks(0) == records;
      assert records[..n] + Blanks(0) == records[..n];
      NamedOfPadded(records[..n], 0);
    }
  }

  function Restored(records: seq<Entry>): seq<Entry>
    requires |records| <= MAX_INSTALLED
  {
    AllAfterBoot(records) + Blanks(MAX_INSTALLED - |records|)
  }

  lemma NamedOfRestored(records: seq<Entry>)
    requires |records| <= MAX_INSTALLED && forall i :: 0 <= i < |records| ==> records[i].name != ""
    ensures Named(Restored(records)) == AllAfterBoot(records) && Named(Blanks(MAX_INSTALLED)) == []
  {
    NamedOfPadded(AllAfterBoot(records), MAX_INSTALLED - |records|);
    NamedOfPadded([], MAX_INSTALLED);
    hide Named;
    assert [] + Blanks(MAX_INSTALLED) == Blanks(MAX_INSTALLED);
  }

  lemma {:induction false} NobodyRuns(slots: seq<Entry>)
    requires forall i :: 0 <= i < |slots| ==> slots[i].state != Running
    ensures RunningCount(slots) == 0
  {
    if slots != [] {
      NobodyRuns(slots[..|slots| - 1]);
    }
  }

  /** A boot leaves a table that is sound, with nothing running, and a count that is right. */
  lemma BootIsSound(file: Option<Image>)
    requires GoodFile(file)
    ensures var (slots, count) := Loaded(file);
      && |slots| == MAX_INSTALLED && Unique(slots) && RunningCount(slots) == 0
      && count == |Named(slots)|
  {
    var (slots, count) := Loaded(file);
    NobodyRuns(slots);
    if LoadError(file) != 0 {
      assert slots == [] + Blanks(MAX_INSTALLED);
      NamedOfPadded([], MAX_INSTALLED);
    } else {
      NamedOfPadded(AllAfterBoot(file.value.records[..count]), MAX_INSTALLED - count);
    }
    hide Named, RunningCount;
  }

  lemma StepKeepsSound(m: Manager, op: Op)
    requires Sound(m)
    ensures Sound(Do(m, op).0)
  {
    assert GoodFile(m.file);
    hide Sound, Do;
    match op
    case Install(_, _, _, _, _, _, _, _) => InstallKeepsSound(m, op);
    case Uninstall(name, fileSaved) => UninstallKeepsSound(m, name, fileSaved);
    case Start(_, _, _, _, _) => StartKeepsSound(m, op);
    case Stop(_, _, _) => StopKeepsSound(m, op);
    case Reboot => RebootKeepsSound(m);
  }

  lemma RebootKeepsSound(m: Manager)
    requires Sound(m)
    ensures Sound(Do(m, Reboot).0)
  {
    BootIsSound(m.file);
    hide Loaded, Unique, RunningCount, Named;
  }

  // ---------- How far the count is off ----------

  // Installs whose binary could not be saved, since the last boot.
  function Failures(ops: seq<Op>): nat
    decreases |ops|
  {
    if ops == [] then 0 else
    var before, op := ops[..|ops| - 1], ops[|ops| - 1];
    FailuresAfter(Run(before), op, Failures(before))
  }

  // The install gets as far as saving the binary, and that fails.
  predicate FailsToSave(m: Manager, op: Op) {
    op.Install? && Refused(op) == 0 && InstallSlot(m.slots, ChosenName(op)) < |m.slots| && op.saved < 0
  }

  function FailuresAfter(m: Manager, op: Op, failures: nat): nat {
    match op
    case Install(_, _, _, _, _, _, _, _) => if FailsToSave(m, op) then failures + 1 else failures
    case Reboot => 0
    case _ => failures
  }

  function Run(ops: seq<Op>): Manager
    decreases |ops|
  {
    if ops == [] then Manager(Blanks(MAX_INSTALLED), 0, None)
    else Do(Run(ops[..|ops| - 1]), ops[|ops| - 1]).0
  }

  predicate Drifted(m: Manager, failures: nat) {
    m.count == InByte(|Named(m.slots)| + failures)
  }

  lemma StepDrifts(m: Manager, op: Op, failures: nat)
    requires Sound(m) && Drifted(m, failures)
    ensures Drifted(Do(m, op).0, FailuresAfter(m, op, failures))
  {
    hide Do, Drifted, Sound;
    match op
    case Install(_, _, _, _, _, _, _, _) => InstallDrifts(m, op, failures);
    case Uninstall(name, fileSaved) => UninstallDrifts(m, name, fileSaved, failures);
    case Start(_, _, _, _, _) => StartDrifts(m, op, failures);
    case Stop(_, _, _) => StopDrifts(m, op, failures);
    case Reboot => RebootDrifts(m);
  }

  lemma OneMore(a: nat)
    ensures InByte(InByte(a) + 1) == InByte(a + 1)
    ensures a > 0 ==> InByte(InByte(a) + BYTE - 1) == InByte(a - 1)
  {
  }

  lemma RebootDrifts(m: Manager)
    requires Sound(m)
    ensures Drifted(Do(m, Reboot).0, 0)
  {
    var (slots, count) := Loaded(m.file);
    BootIsSound(m.file);
    hide Loaded, Unique, RunningCount, Named;
    assert Do(m, Reboot).0.slots == slots && Do(m, Reboot).0.count == count;
  }

  // The slot an install writes to, if any, and what it does to name, count and failures.
  lemma InstallOutcome(m: Manager, op: Op, failures: nat) returns (n: nat)
    requires op.Install?
    ensures n == if Refused(op) != 0 then |m.slots| else InstallSlot(m.slots, ChosenName(op))
    ensures var (m', failures') := (Do(m, op).0, FailuresAfter(m, op, failures));
      if n == |m.slots| then m' == m && failures' == failures
      else
        && |m'.slots| == |m.slots| && m'.slots == m.slots[n := m'.slots[n]]
        && (m'.slots[n].name != "" <==> op.saved >= 0)
        && m'.count == (if m.slots[n].name != "" then m.count else InByte(m.count + 1))
        && failures' == (if op.saved >= 0 then failures else failures + 1)
  {
    hide InByte, Refused;
    n := if Refused(op) != 0 then |m.slots| else InstallSlot(m.slots, ChosenName(op));
    hide Find, FreeSlot, Cut, ChosenName;
    assert Do(m, op) == InstallApp(m, op);
  }

  lemma InstallDrifts(m: Manager, op: Op, failures: nat)
    requires Drifted(m, failures) && op.Install?
    ensures Drifted(Do(m, op).0, FailuresAfter(m, op, failures))
  {
    var n := InstallOutcome(m, op, failures);
    hide Do, FailuresAfter, InByte;
    if n < |m.slots| {
      NamedUpdates(m.slots, n, Do(m, op).0.slots[n]);
      hide Named;
      OneMore(|Named(m.slots)| + failures);
    }
  }

  lemma UninstallDrifts(m: Manager, name: string, fileSaved: bool, failures: nat)
    requires Drifted(m, failures)
    ensures Drifted(Do(m, Uninstall(name, fileSaved)).0, failures)
  {
    var n := Find(m.slots, name);
    if n < |m.slots| && !m.slots[n].preloaded {
      var m' := Do(m, Uninstall(name, fileSaved)).0;
      assert m'.slots == m.slots[n := BLANK] && m'.count == InByte(m.count + BYTE - 1);
      hide Find, InByte, Do;
      NamedUpdates(m.slots, n, BLANK);
      OneMore(|Named(m.slots)| + failures);
      hide Named;
    }
  }

  // An entry that keeps its name changes nothing in the count.
  lemma SameNameDrifts(m: Manager, n: nat, e: Entry, fileSaved: bool, failures: nat)
    requires Drifted(m, failures) && n < |m.slots| && (e.name != "" <==> m.slots[n].name != "")
    ensures Drifted(m.(slots := m.slots[n := e]), failures)
    ensures Drifted(WithFile(m.(slots := m.slots[n := e]), fileSaved), failures)
  {
    NamedUpdates(m.slots, n, e);
    hide Named;
  }

  lemma StartDrifts(m: Manager, op: Op, failures: nat)
    requires Drifted(m, failures) && op.Start?
    ensures Drifted(Do(m, op).0, failures)
  {
    var n := Find(m.slots, op.name);
    if n < |m.slots| && m.slots[n].state != Running {
      hide Find, Drifted, RunningCount;
      var app := if m.slots[n].state == Failed then m.slots[n].(crashes := 0) else m.slots[n];
      SameNameDrifts(m, n, app, false, failures);
      if app.container >= 0 || op.container >= 0 {
        var ready := if app.container < 0 then app.(container := op.container) else app;
        SetStateIs(ready, Error);
        SetStateIs(ready.(lastStart := op.time), Running);
        hide SetState;
        SameNameDrifts(m, n, SetState(ready, Error), false, failures);
        SameNameDrifts(m, n, SetState(ready.(lastStart := op.time), Running), op.fileSaved, failures);
      }
    }
  }

  lemma StopDrifts(m: Manager, op: Op, failures: nat)
    requires Drifted(m, failures) && op.Stop?
    ensures Drifted(Do(m, op).0, failures)
  {
    var n := Find(m.slots, op.name);
    if n < |m.slots| {
      hide Find, Drifted;
      SetStateIs(m.slots[n], Stopped);
      hide SetState;
      SameNameDrifts(m, n, SetState(m.slots[n], Stopped), op.fileSaved, failures);
    }
  }

  lemma EmptyTable()
    ensures var slots := Blanks(MAX_INSTALLED);
      |slots| == MAX_INSTALLED && Unique(slots) && RunningCount(slots) == 0 && Named(slots) == []
  {
    NamedOfRestored([]);
    NobodyRuns(Blanks(MAX_INSTALLED));
    hide Named, RunningCount;
  }

  lemma EmptyIsSound()
    ensures Sound(Run([])) && Drifted(Run([]), 0) && Run([]).slots == Blanks(MAX_INSTALLED)
  {
    EmptyTable();
    hide Named, RunningCount, Unique, Blanks;
  }

  lemma {:induction false} RunDrifts(ops: seq<Op>)
    ensures Sound(Run(ops)) && Drifted(Run(ops), Failures(ops))
    decreases |ops|
  {
    if ops == [] {
      EmptyIsSound();
    } else {
      var before, op := ops[..|ops| - 1], ops[|ops| - 1];
      RunDrifts(before);
      hide Sound, Drifted, Do, FailuresAfter;
      StepKeepsSound(Run(before), op);
      StepDrifts(Run(before), op, Failures(before));
    }
  }

  /** In every run names stay unique and at most two apps run; and the count is the number of
      apps plus the number of failed installs since the last boot, in a byte. */
  lemma CountIsAppsPlusFailures(ops: seq<Op>)
    ensures var m := Run(ops);
      && m.count == InByte(|Named(m.slots)| + Failures(ops))
      && |m.slots| == MAX_INSTALLED && Unique(m.slots) && RunningCount(m.slots) <= MAX_RUNNING
  {
    RunDrifts(ops);
    hide Run, Failures, Named, Unique, RunningCount;
  }

  // ---------- What a reboot brings back ----------

  lemma LoadedIs(count: nat, records: seq<Entry>)
    requires |records| <= MAX_INSTALLED
    ensures Loaded(Some(Image(MAGIC, VERSION, count, records))) ==
      if |records| < Wanted(count) then (Blanks(MAX_INSTALLED), 0)
      else (Restored(records[..Wanted(count)]), Wanted(count))
  {
  }

  lemma NamedFits(slots: seq<Entry>)
    ensures |Named(slots)| <= |slots|
  {
  }

  /** After a save the boot finds, in slot order, idle and without containers, as many apps as the
      count says, or eight if it says more; and none if there are fewer. So it finds all of them
      exactly if there are none or the count, cut to eight, is right. */
  lemma RebootRestoresIff(slots: seq<Entry>, count: nat)
    requires |slots| == MAX_INSTALLED
    ensures var (after, n) := Loaded(Some(Saved(slots, count)));
      var apps, wanted := Named(slots), Wanted(count);
      && n == |Named(after)|
      && Named(after) == (if wanted <= |apps| then AllAfterBoot(apps[..wanted]) else [])
      && (Named(after) == AllAfterBoot(apps) <==> apps == [] || wanted == |apps|)
  {
    var apps, wanted := Named(slots), Wanted(count);
    NamedFits(slots);
    LoadedIs(count, apps);
    NamedOfRestored(if wanted <= |apps| then apps[..wanted] else []);
    assert apps[..|apps|] == apps;
    var after := Loaded(Some(Saved(slots, count))).0;
    hide Named, Loaded, Restored;
    assert wanted <= |apps| ==> |AllAfterBoot(apps[..wanted])| == wanted;
    assert |AllAfterBoot(apps)| == |apps|;
  }

  /** Over a run that has just saved the registry: what the following boot finds depends only on
      the number of apps plus the installs that failed since the last boot, in a byte. */
  lemma RebootFinds(ops: seq<Op>)
    requires var m := Run(ops); m.file == Some(Saved(m.slots, m.count))
    ensures var apps := Named(Run(ops).slots);
      var wanted := Wanted(InByte(|apps| + Failures(ops)));
      var found := Named(Run(ops + [Reboot]).slots);
      && |apps| <= MAX_INSTALLED
      && found == (if wanted <= |apps| then AllAfterBoot(apps[..wanted]) else [])
      && (found == AllAfterBoot(apps) <==> apps == [] || wanted == |apps|)
  {
    CountIsAppsPlusFailures(ops);
    assert (ops + [Reboot])[..|ops|] == ops;
    var m := Run(ops);
    assert Run(ops + [Reboot]).slots == Loaded(m.file).0;
    NamedFits(m.slots);
    hide Run, Loaded, Saved, Named, Failures, InByte, Wanted, RunningCount, Unique;
    RebootRestoresIff(m.slots, m.count);
  }

  /** As long as fewer than 248 installs have failed, that means: one failed install loses all
      apps at the boot after the next save, unless the table is full. */
  lemma OneFailureLosesAllApps(ops: seq<Op>)
    requires var m := Run(ops); m.file == Some(Saved(m.slots, m.count))
    requires Failures(ops) + MAX_INSTALLED < BYTE
    ensures var apps := Named(Run(ops).slots);
      Named(Run(ops + [Reboot]).slots) ==
        if Failures(ops) == 0 || |apps| == MAX_INSTALLED then AllAfterBoot(apps) else []
  {
    hide *;
    RebootFinds(ops);
    FoundBelowByte(Named(Run(ops).slots), Failures(ops), Named(Run(ops + [Reboot]).slots));
  }

  lemma FoundBelowByte(apps: seq<Entry>, failures: nat, found: seq<Entry>)
    requires |apps| <= MAX_INSTALLED && failures + MAX_INSTALLED < BYTE
    requires var wanted := Wanted(InByte(|apps| + failures));
      found == if wanted <= |apps| then AllAfterBoot(apps[..wanted]) else []
    ensures found == if failures == 0 || |apps| == MAX_INSTALLED then AllAfterBoot(apps) else []
  {
    WantedBelowByte(|apps|, failures);
    hide InByte, Wanted, AllAfterBoot;
    assert apps[..|apps|] == apps;
  }

  lemma WantedBelowByte(apps: nat, failures: nat)
    requires apps <= MAX_INSTALLED && failures + MAX_INSTALLED < BYTE
    ensures var wanted := Wanted(InByte(apps + failures));
      if failures == 0 || apps == MAX_INSTALLED then wanted == apps else wanted > apps
  {
  }

  lemma LoadedWhole(records: seq<Entry>)
    requires |records| <= MAX_INSTALLED
    ensures Loaded(Some(Image(MAGIC, VERSION, |records|, records))) == (Restored(records), |records|)
  {
    LoadedIs(|records|, records);
    assert records[..|records|] == records;
    hide Loaded, Restored;
  }

  lemma BootTwice(records: seq<Entry>)
    requires |records| <= MAX_INSTALLED
    ensures Restored(AllAfterBoot(records)) == Restored(records)
  {
    assert AllAfterBoot(AllAfterBoot(records)) == AllAfterBoot(records);
  }

  /** Saving and loading again changes nothing more. */
  lemma SaveAndLoadAgain(slots: seq<Entry>)
    requires |slots| == MAX_INSTALLED
    ensures var (once, n) := Loaded(Some(Saved(slots, |Named(slots)|)));
      Loaded(Some(Saved(once, n))) == (once, n)
  {
    NamedFits(slots);
    hide Named, Loaded, Restored, AllAfterBoot;
    var kept := Named(slots);
    LoadedWhole(kept);
    NamedOfRestored(kept);
    LoadedWhole(AllAfterBoot(kept));
    BootTwice(kept);
  }

  // ---------- A run that loses its apps ----------

  function Plain(name: string, madeUp: MadeUpName, saved: int): Op {
    Install(name, WASM_MAGIC, None, Unknown, 0, madeUp, saved, true)
  }

  lemma RunThen(ops: seq<Op>, op: Op)
    ensures Run(ops + [op]) == Do(Run(ops), op).0
    ensures Failures(ops + [op]) == FailuresAfter(Run(ops), op, Failures(ops))
  {
    assert (ops + [op])[..|ops|] == ops;
    hide Do, FailuresAfter;
  }

  // An install into a table without apps.
  lemma FirstInstall(m: Manager, op: Op, failures: nat)
    requires op.Install? && Refused(op) == 0 && op.fileSaved && |m.slots| == MAX_INSTALLED && Named(m.slots) == []
    ensures var m' := Do(m, op).0;
      && |m'.slots| == MAX_INSTALLED
      && |Named(m'.slots)| == (if op.saved < 0 then 0 else 1)
      && (op.saved >= 0 ==> m'.file == Some(Saved(m'.slots, m'.count)))
      && FailuresAfter(m, op, failures) == if op.saved < 0 then failures + 1 else failures
  {
    if m.slots[0].name != "" {
      NamedAreThere(m.slots, m.slots[0]);
    }
    assert FreeSlot(m.slots) == 0;
    if Find(m.slots, ChosenName(op)) < |m.slots| {
      NamedAreThere(m.slots, m.slots[Find(m.slots, ChosenName(op))]);
    }
    assert InstallSlot(m.slots, ChosenName(op)) == 0;
    var n := InstallOutcome(m, op, failures);
    assert n == 0;
    NamedUpdates(m.slots, 0, Do(m, op).0.slots[0]);
    hide Cut, ChosenName, Refused, InByte, Named, Find, FreeSlot;
  }

  lemma TwoInstalls(a: Op, b: Op)
    requires a.Install? && Refused(a) == 0 && a.fileSaved && a.saved < 0
    requires b.Install? && Refused(b) == 0 && b.fileSaved && b.saved >= 0
    ensures var m := Run([a, b]);
      && |Named(m.slots)| == 1 && Failures([a, b]) == 1
      && m.file == Some(Saved(m.slots, m.count))
  {
    EmptyIsSound();
    EmptyTable();
    assert Failures([]) == 0;
    hide *;
    assert [a, b] == [] + [a] + [b];
    RunThen([], a);
    FirstInstall(Run([]), a, 0);
    RunThen([] + [a], b);
    FirstInstall(Run([] + [a]), b, 1);
  }

  /** Two installs from power-up: the first cannot save its binary, the second succeeds; and the
      next boot finds no app. */
  lemma FailedInstallLosesTheNextApp(madeUp: MadeUpName, code: int)
    requires code < 0
    ensures var ops := [Plain("a", madeUp, code), Plain("b", madeUp, 0)];
      && |Named(Run(ops).slots)| == 1
      && Named(Run(ops + [Reboot]).slots) == []
  {
    hide Run, Failures, Named;
    var a, b := Plain("a", madeUp, code), Plain("b", madeUp, 0);
    TwoInstalls(a, b);
    hide Plain;
    OneFailureLosesAllApps([a, b]);
  }
}
