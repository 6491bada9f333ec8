/** What the calls of the app manager do, told by names instead of slots: who is there, who runs,
    and what is gone for good. */
module AppCalls {
  import opened Basics
  import opened AppRegistry

  ghost predicate IsThere(slots: seq<Entry>, name: string) {
    name != "" && exists i :: 0 <= i < |slots| && slots[i].name == name
  }

  lemma FindsTheApp(slots: seq<Entry>, name: string) returns (n: nat)
    requires Unique(slots)
    ensures n == Find(slots, name) && (n < |slots| <==> IsThere(slots, name))
    ensures forall i :: 0 <= i < |slots| ==> (i == n <==> slots[i].name == name != "")
  {
    n := Find(slots, name);
    hide Find;
  }

  // ---------- Uninstalling ----------

  /** An uninstall succeeds exactly if an app of that name is there and is not preloaded. It then
      clears that entry and no other, and counts one app less. */
  lemma UninstallRemoves(m: Manager, name: string, fileSaved: bool)
    requires Sound(m)
    ensures var m', code := Do(m, Uninstall(name, fileSaved)).0, Do(m, Uninstall(name, fileSaved)).1;
      && (code == 0 || code == -ENOENT || code == -EPERM)
      && (code == -ENOENT <==> !IsThere(m.slots, name))
      && (code == -EPERM <==> exists i :: 0 <= i < |m.slots| && m.slots[i].name == name != "" && m.slots[i].preloaded)
      && (code != 0 ==> m' == m)
      && (code == 0 ==>
            && !IsThere(m'.slots, name) && |m'.slots| == |m.slots|
            && (forall i :: 0 <= i < |m.slots| ==> m'.slots[i] == if m.slots[i].name == name then BLANK else m.slots[i])
            && m'.count == (if m.count % 256 == 0 then 255 else (m.count - 1) % 256)
            && m'.file == if fileSaved then Some(Saved(m'.slots, m'.count)) else m.file)
  {
    var n := FindsTheApp(m.slots, name);
    hide Find, Saved, RunningCount, GoodFile;
    assert name == "" ==> n == |m.slots|;
  }

  /** The name is neither in the table nor in the file. */
  ghost predicate Gone(m: Manager, name: string) {
    !IsThere(m.slots, name) && (m.file.Some? ==> !IsThere(m.file.value.records, name))
  }

  lemma SavedStaysGone(slots: seq<Entry>, count: nat, name: string)
    requires !IsThere(slots, name)
    ensures !IsThere(Saved(slots, count).records, name)
  {
    forall i | 0 <= i < |Named(slots)|
      ensures Named(slots)[i].name != name || name == ""
    {
      NamedAreThere(slots, Named(slots)[i]);
    }
    hide Named;
  }

  lemma FileStaysGone(m: Manager, m': Manager, name: string)
    requires Gone(m, name) && !IsThere(m'.slots, name)
    requires m'.file == m.file || m'.file == Some(Saved(m'.slots, m'.count))
    ensures Gone(m', name)
  {
    SavedStaysGone(m'.slots, m'.count, name);
    hide Saved, IsThere;
  }

  // A call writes to one slot and perhaps the file.
  lemma CallTouches(m: Manager, op: Op) returns (n: nat)
    requires Sound(m) && !op.Reboot?
    ensures var m' := Do(m, op).0;
      && (m'.file == m.file || m'.file == Some(Saved(m'.slots, m'.count)))
      && (m'.slots == m.slots || (n < |m.slots| && |m'.slots| == |m.slots| && m'.slots == m.slots[n := m'.slots[n]]
            && m'.slots[n].name == (if op.Install? then (if op.saved < 0 then "" else ChosenName(op))
                                    else if op.Uninstall? then "" else m.slots[n].name)))
  {
    hide Saved, RunningCount, GoodFile, Unique, FreeSlot, Cut, Refused, InByte, ChosenName;
    n := if op.Install? then InstallSlot(m.slots, ChosenName(op)) else Find(m.slots, op.name);
    hide Find;
  }

  lemma BootStaysGone(m: Manager, name: string)
    requires Gone(m, name)
    ensures Gone(Do(m, Reboot).0, name)
  {
    var slots := Do(m, Reboot).0.slots;
    assert m.file.Some? ==>
      forall i :: 0 <= i < |m.file.value.records| ==> m.file.value.records[i].name != name || name == "";
    assert forall i :: 0 <= i < |slots| ==> slots[i].name != name || name == "";
  }

  lemma StepStaysGone(m: Manager, op: Op, name: string)
    requires Sound(m) && Gone(m, name) && !(op.Install? && ChosenName(op) == name)
    ensures Gone(Do(m, op).0, name)
  {
    hide Do, ChosenName, Sound;
    if op.Reboot? {
      hide Gone;
      BootStaysGone(m, name);
    } else {
      var n := CallTouches(m, op);
      var m' := Do(m, op).0;
      assert !IsThere(m'.slots, name) by {
        hide Saved;
        assert forall i :: 0 <= i < |m.slots| ==> m.slots[i].name != name || name == "";
      }
      FileStaysGone(m, m', name);
    }
  }

  ghost predicate NeverInstalls(ops: seq<Op>, name: string) {
    forall i :: 0 <= i < |ops| ==> !(ops[i].Install? && ChosenName(ops[i]) == name)
  }

  lemma OneMoreStaysGone(ops: seq<Op>, op: Op, name: string)
    requires Gone(Run(ops), name) && !(op.Install? && ChosenName(op) == name)
    ensures Gone(Run(ops + [op]), name)
  {
    RunDrifts(ops);
    RunThen(ops, op);
    hide *;
    StepStaysGone(Run(ops), op, name);
  }

  lemma {:induction false} RunStaysGone(ops: seq<Op>, more: seq<Op>, name: string)
    requires Gone(Run(ops), name) && NeverInstalls(more, name)
    ensures Gone(Run(ops + more), name)
    decreases |more|
  {
    hide Gone, ChosenName, Run;
    if more == [] {
      assert ops + [] == ops;
    } else {
      var n := |more| - 1;
      RunStaysGone(ops, more[..n], name);
      OneMoreStaysGone(ops + more[..n], more[n], name);
      assert ops + more == ops + more[..n] + [more[n]];
    }
  }

  /** An app that was uninstalled, with the registry saved, is neither in the table nor in the file
      in any run from there on, boots included, until its name is installed again. */
  lemma UninstalledStaysGone(ops: seq<Op>, name: string, more: seq<Op>)
    requires Do(Run(ops), Uninstall(name, true)).1 == 0
    requires NeverInstalls(more, name)
    ensures Gone(Run(ops + [Uninstall(name, true)] + more), name)
  {
    RunDrifts(ops);
    UninstallRemoves(Run(ops), name, true);
    RunThen(ops, Uninstall(name, true));
    var m' := Do(Run(ops), Uninstall(name, true)).0;
    SavedStaysGone(m'.slots, m'.count, name);
    hide Do, Run, Sound, Drifted, Saved, NeverInstalls, IsThere;
    RunStaysGone(ops + [Uninstall(name, true)], more, name);
  }

  // ---------- Installing ----------

  /** The name asked for, or the one of the manifest, of either the first 31 characters; or else
      the one made up from the binary. */
  function WantedName(op: Op): string
    requires op.Install?
  {
    var asked := if op.appName == "" && op.manifest.Some? then op.manifest.value.name else op.appName;
    if asked == "" then op.madeUp else if |asked| > 31 then asked[..31] else asked
  }

  predicate IsWasm(binary: seq<Byte>) {
    |binary| >= 4 && binary[0] == 0 && binary[1] == 0x61 && binary[2] == 0x73 && binary[3] == 0x6D
  }

  lemma InstallIsRefused(op: Op)
    requires op.Install?
    ensures ChosenName(op) == WantedName(op)
    ensures Refused(op) == if !IsWasm(op.binary) then -EINVAL else if |op.binary| > 65536 then -EFBIG else 0
  {
    if |op.binary| >= 4 {
      assert op.binary[..4] == [op.binary[0], op.binary[1], op.binary[2], op.binary[3]];
    }
  }

  // The slot of the app, or the first that is free.
  ghost predicate Goes(slots: seq<Entry>, name: string, n: nat) {
    && n < |slots|
    && (slots[n].name == name || !IsThere(slots, name))
    && (slots[n].name != name ==> slots[n].name == "" && forall i :: 0 <= i < n ==> slots[i].name != "")
  }

  lemma InstallGoes(m: Manager, name: string)
    requires Sound(m) && name != ""
    ensures var n := InstallSlot(m.slots, name);
      && (n < |m.slots| <==> IsThere(m.slots, name) || exists i :: 0 <= i < |m.slots| && m.slots[i].name == "")
      && (n < |m.slots| ==> Goes(m.slots, name, n))
  {
    var n := FindsTheApp(m.slots, name);
    var k := FreeSlot(m.slots);
    hide Find, FreeSlot, RunningCount, GoodFile;
  }

  // What becomes of the slot of an install that is not refused, of the file, and the answer.
  ghost predicate Puts(m: Manager, op: Op, n: nat, m': Manager, code: int)
    requires op.Install? && n < |m.slots| == |m'.slots|
  {
    if op.saved < 0 then
      code == op.saved && m'.slots[n].name == "" && m'.file == m.file
    else
      && Installs(m.slots[n], op, n, m'.slots[n]) && code == m'.slots[n].id
      && m'.file == if op.fileSaved then Some(Saved(m'.slots, m'.count)) else m.file
  }

  /** An install is refused for a bad or too large binary, or if the name is new and no slot free.
      Else the app is in its old slot or the first free one, as the manifest says or by default, and
      no other slot changes; if its binary cannot be saved, that slot has no app. */
  lemma InstallPuts(m: Manager, op: Op) returns (n: nat)
    requires Sound(m) && op.Install?
    ensures var m', code, name := Do(m, op).0, Do(m, op).1, WantedName(op);
      if !IsWasm(op.binary) then code == -EINVAL && m' == m
      else if |op.binary| > 65536 then code == -EFBIG && m' == m
      else if !IsThere(m.slots, name) && forall i :: 0 <= i < |m.slots| ==> m.slots[i].name != "" then
        code == -ENOMEM && m' == m
      else
        && Goes(m.slots, name, n) && |m'.slots| == |m.slots| && Puts(m, op, n, m', code)
        && (forall i :: 0 <= i < |m.slots| && i != n ==> m'.slots[i] == m.slots[i])
        && m'.count == (if IsThere(m.slots, name) then m.count else (m.count + 1) % 256)
  {
    n := InstallSlot(m.slots, WantedName(op));
    InstallIsRefused(op);
    InstallGoes(m, ChosenName(op));
    FindsIffNamed(m, ChosenName(op));
    if Refused(op) == 0 && n < |m.slots| {
      InstallFills(m, op, n);
      hide InstallApp, Do, Puts;
    }
    hide Sound, InstallSlot, Find, Refused, ChosenName, WantedName, Saved, IsThere, Goes, IsWasm;
  }

  lemma InstallFills(m: Manager, op: Op, n: nat)
    requires op.Install? && Refused(op) == 0 && ChosenName(op) == WantedName(op)
    requires n == InstallSlot(m.slots, ChosenName(op)) < |m.slots|
    requires Find(m.slots, ChosenName(op)) < |m.slots| <==> m.slots[n].name == ChosenName(op)
    ensures var m', code := Do(m, op).0, Do(m, op).1;
      && |m'.slots| == |m.slots| && Puts(m, op, n, m', code)
      && (forall i :: 0 <= i < |m.slots| && i != n ==> m'.slots[i] == m.slots[i])
      && m'.count == if m.slots[n].name == ChosenName(op) then m.count else (m.count + 1) % 256
  {
    hide InstallSlot, Find, Refused, ChosenName, WantedName, Saved;
  }

  // The entry of an app that was just installed over another entry.
  predicate Installs(before: Entry, op: Op, n: nat, e: Entry)
    requires op.Install?
  {
    && e.name == WantedName(op) && e.state == Installed && e.source == op.source && e.size == |op.binary|
    && e.id == (if before.name == WantedName(op) then before.id else n + 1)
    && e.container == -1 && e.crashes == 0 && e.installTime == op.time && e.lastStart == before.lastStart
    && (e.preloaded <==> op.source == Firmware)
    && match op.manifest
       case Some(wish) =>
         && e.version == wish.version && e.heapKb == wish.heapKb && e.stackKb == wish.stackKb
         && e.permissions == wish.permissions && e.restart == wish.restart
       case None =>
         && e.version == "0.0.0" && e.heapKb == 16 && e.stackKb == 4
         && e.permissions == 0 && e.restart == Restart(false, 3, 1000)
  }

  lemma FindsIffNamed(m: Manager, name: string)
    requires Sound(m) && name != ""
    ensures Find(m.slots, name) < |m.slots| <==> IsThere(m.slots, name)
    ensures var n := InstallSlot(m.slots, name);
      n < |m.slots| ==> (m.slots[n].name == name <==> IsThere(m.slots, name))
  {
    var n := FindsTheApp(m.slots, name);
    hide Find, RunningCount, GoodFile;
  }

  // ---------- Starting and stopping ----------

  function RunningSlots(slots: seq<Entry>): set<int> {
    set i | 0 <= i < |slots| && slots[i].state == Running
  }

  lemma {:induction false} RunningIsCounted(slots: seq<Entry>)
    ensures |RunningSlots(slots)| == RunningCount(slots)
  {
    if slots != [] {
      var n := |slots| - 1;
      RunningIsCounted(slots[..n]);
      assert RunningSlots(slots) == RunningSlots(slots[..n]) + if slots[n].state == Running then {n} else {};
    }
  }

  /** In every run two apps run at most. */
  lemma TwoRunAtMost(ops: seq<Op>)
    ensures |RunningSlots(Run(ops).slots)| <= 2
  {
    RunDrifts(ops);
    RunningIsCounted(Run(ops).slots);
    hide Run, RunningSlots, RunningCount, Drifted, Unique, GoodFile;
  }

  // The app with its container, where it had none; one that had failed starts with no crashes.
  function Tried(e: Entry, container: int): Entry {
    e.(crashes := if e.state == Failed then 0 else e.crashes,
       container := if e.container < 0 then container else e.container)
  }

  /** A start that fails counts as a crash if the app was not in the error state already and is to
      be restarted; the last of the crashes allowed gives up on it. */
  function Crashed(e: Entry): Entry {
    if e.state == Error then e
    else if !e.restart.enabled then e.(state := Error)
    else
      var crashes := (e.crashes + 1) % 256;
      e.(crashes := crashes, state := if crashes >= e.restart.maxRetries then Failed else Error)
  }

  /** A start succeeds exactly if the app is there and runs already, or fewer than two run and the
      runtime makes a container, where there is none, and starts it. Then it runs. */
  lemma StartRuns(m: Manager, op: Op) returns (n: nat)
    requires Sound(m) && op.Start?
    ensures n < |m.slots| <==> IsThere(m.slots, op.name)
    ensures var m', code := Do(m, op).0, Do(m, op).1;
      if n >= |m.slots| then code == -ENOENT && m' == m
      else if m.slots[n].state == Running then code == 0 && m' == m
      else
        var e, file := m.slots[n], m'.file;
        var lacks := e.container < 0 && op.container < 0;
        && e.name == op.name && |m'.slots| == |m.slots| && m'.count == m.count
        && (forall i :: 0 <= i < |m.slots| && i != n ==> m'.slots[i] == m.slots[i])
        && (if |RunningSlots(m.slots)| >= 2 then
              code == -EBUSY && file == m.file && m'.slots[n] == Tried(e, e.container)
            else if lacks then
              code == op.container && file == m.file && m'.slots[n] == Tried(e, e.container)
            else if op.started < 0 then
              code == op.started && file == m.file && m'.slots[n] == Crashed(Tried(e, op.container))
            else
              && code == 0 && m'.slots[n] == Tried(e, op.container).(state := Running, lastStart := op.time)
              && file == if op.fileSaved then Some(Saved(m'.slots, m'.count)) else m.file)
  {
    n := FindsTheApp(m.slots, op.name);
    RunningIsCounted(m.slots);
    hide Find, Saved, RunningCount, RunningSlots, Sound, IsThere;
  }

  /** A stop succeeds exactly if the app is there and does not run, or has a container and the
      runtime stops it. Then it is stopped. */
  lemma StopHalts(m: Manager, op: Op) returns (n: nat)
    requires Sound(m) && op.Stop?
    ensures n < |m.slots| <==> IsThere(m.slots, op.name)
    ensures var m', code := Do(m, op).0, Do(m, op).1;
      if n >= |m.slots| then code == -ENOENT && m' == m
      else if m.slots[n].state != Running then code == 0 && m' == m
      else if m.slots[n].container < 0 then code == -EINVAL && m' == m
      else if op.stopped < 0 then code == op.stopped && m' == m
      else
        && m.slots[n].name == op.name && code == 0 && m'.count == m.count
        && m'.slots == m.slots[n := m.slots[n].(state := Stopped)]
        && m'.file == if op.fileSaved then Some(Saved(m'.slots, m'.count)) else m.file
  {
    n := FindsTheApp(m.slots, op.name);
    hide Find, Saved, Sound, IsThere;
  }

  // ---------- Saving and booting ----------

  /** The records of the file are the entries with a name, in the order of their slots, behind a
      header of ours. */
  lemma {:induction false} SavesInOrder(above: seq<Entry>, e: Entry, below: seq<Entry>, count: nat)
    ensures Readable(Some(Saved(above, |Saved(above, count).records|)))
    ensures Saved(above, count).count == count
    ensures Saved(above + [e] + below, count).records ==
      Saved(above, count).records + (if e.name != "" then [e] else []) + Saved(below, count).records
    decreases |below|
  {
    var all := above + [e] + below;
    if below == [] {
      assert all[..|all| - 1] == above && all[|all| - 1] == e;
    } else {
      var n := |below| - 1;
      SavesInOrder(above, e, below[..n], count);
      assert all[..|all| - 1] == above + [e] + below[..n] && all[|all| - 1] == below[n];
    }
  }

  /** What a boot makes of a record: nothing runs, and there are no containers. */
  function Booted(e: Entry): Entry {
    e.(container := -1, state := match e.state case Running => Installed case other => other)
  }

  // The file has our header and all the records it counts, eight at most.
  predicate Readable(file: Option<Image>) {
    && file.Some? && file.value.magic == 0x414B4150 && file.value.version == 1
    && (|file.value.records| >= 8 || |file.value.records| >= file.value.count)
  }

  /** A boot takes as many records as the header counts, eight at most, and nothing from a file that
      is missing, foreign or too short. */
  lemma BootTakes(m: Manager)
    ensures var m', code := Do(m, Reboot).0, Do(m, Reboot).1;
      && code == 0 && m'.file == m.file && |m'.slots| == 8
      && m'.count == (if !Readable(m.file) then 0 else if m.file.value.count < 8 then m.file.value.count else 8)
      && (forall i :: 0 <= i < m'.count ==> m'.slots[i] == Booted(m.file.value.records[i]))
      && (forall i :: m'.count <= i < 8 ==> m'.slots[i] == BLANK)
  {
  }
}
