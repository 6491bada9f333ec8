/** The app manager's table, updated in place, and the buffers its registry file is built in and
    read from. */
module AppManager {
  import opened Basics
  import opened AppRegistry

  lemma NamedGrows(slots: seq<Entry>, n: nat)
    requires n < |slots|
    ensures Named(slots[..n + 1]) == Named(slots[..n]) + if slots[n].name != "" then [slots[n]] else []
  {
    assert slots[..n + 1][..n] == slots[..n];
  }

  lemma RunningGrows(slots: seq<Entry>, n: nat)
    requires n < |slots|
    ensures RunningCount(slots[..n + 1]) == RunningCount(slots[..n]) + if slots[n].state == Running then 1 else 0
  {
    assert slots[..n + 1][..n] == slots[..n];
  }

  class Table {
    var slots: array<Entry>
    var count: nat
    var file: Option<Image>

    ghost function State(): Manager
      reads this, slots
    {
      Manager(slots[..], count, file)
    }

    constructor ()
      ensures fresh(slots) && State() == Run([])
    {
      slots := new Entry[MAX_INSTALLED](_ => BLANK);
      count, file := 0, None;
      new;
      assert slots[..] == Blanks(MAX_INSTALLED);
    }

    method FindByName(name: string) returns (n: nat)
      ensures n == Find(slots[..], name)
    {
      n := 0;
      while n < slots.Length && !(slots[n].name != "" && slots[n].name == name)
        invariant n <= slots.Length
        invariant forall i :: 0 <= i < n ==> slots[i].name == "" || slots[i].name != name
      {
        n := n + 1;
      }
    }

    method FindFreeSlot() returns (n: nat)
      ensures n == FreeSlot(slots[..])
    {
      n := 0;
      while n < slots.Length && slots[n].name != ""
        invariant n <= slots.Length
        invariant forall i :: 0 <= i < n ==> slots[i].name != ""
      {
        n := n + 1;
      }
    }

    method CountRunning() returns (running: nat)
      ensures running == RunningCount(slots[..])
    {
      running := 0;
      for i := 0 to slots.Length
        invariant running == RunningCount(slots[..i])
      {
        RunningGrows(slots[..], i);
        assert slots[..][..i] == slots[..i] && slots[..][..i + 1] == slots[..i + 1];
        if slots[i].state == Running {
          running := running + 1;
        }
      }
      assert slots[..slots.Length] == slots[..];
    }

    /** The named entries are packed behind the header, and written if the file system lets us. */
    method SaveRegistry(fileSaved: bool)
      modifies this`file
      ensures State() == WithFile(old(State()), fileSaved)
    {
      var buffer := new Entry[slots.Length];
      var offset := 0;
      for i := 0 to slots.Length
        invariant 0 <= offset <= i && file == old(file)
        invariant buffer[..offset] == Named(slots[..i])
      {
        NamedGrows(slots[..], i);
        assert slots[..][..i] == slots[..i] && slots[..][..i + 1] == slots[..i + 1];
        if slots[i].name != "" {
          buffer[offset] := slots[i];
          offset := offset + 1;
        }
      }
      assert slots[..slots.Length] == slots[..];
      if fileSaved {
        file := Some(Image(MAGIC, VERSION, count, buffer[..offset]));
      }
    }

    /** A boot clears the table and loads what the file holds. */
    method Reboot() returns (rc: int)
      requires slots.Length == MAX_INSTALLED
      modifies this`count, slots
      ensures State() == Do(old(State()), Op.Reboot).0
      ensures rc == LoadError(file)
    {
      for i := 0 to slots.Length
        invariant forall k :: 0 <= k < i ==> slots[k] == BLANK
      {
        slots[i] := BLANK;
      }
      count := 0;
      assert slots[..] == Blanks(MAX_INSTALLED);
      rc := LoadRegistry();
    }

    method LoadRegistry() returns (rc: int)
      requires slots.Length == MAX_INSTALLED && slots[..] == Blanks(MAX_INSTALLED) && count == 0
      modifies this`count, slots
      ensures (slots[..], count) == Loaded(file)
      ensures rc == LoadError(file)
    {
      if file.None? {
        return -ENOENT;
      }
      if file.value.magic != MAGIC || file.value.version != VERSION {
        return -EINVAL;
      }
      var wanted := if file.value.count > MAX_INSTALLED then MAX_INSTALLED else file.value.count;
      var records := file.value.records;
      if |records| < wanted {
        return -EIO;
      }
      for i := 0 to wanted
        invariant forall k :: 0 <= k < i ==> slots[k] == records[k]
        invariant forall k :: i <= k < slots.Length ==> slots[k] == BLANK
      {
        slots[i] := records[i];
      }
      count := wanted;
      for i := 0 to wanted
        invariant count == wanted
        invariant forall k :: 0 <= k < i ==> slots[k] == AfterBoot(records[k])
        invariant forall k :: i <= k < wanted ==> slots[k] == records[k]
        invariant forall k :: wanted <= k < slots.Length ==> slots[k] == BLANK
      {
        slots[i] := slots[i].(container := -1);
        if slots[i].state == Running {
          slots[i] := slots[i].(state := Installed);
        }
      }
      assert slots[..] == AllAfterBoot(records[..wanted]) + Blanks(MAX_INSTALLED - wanted);
      return 0;
    }

    method ValidateWasm(binary: seq<Byte>) returns (rc: int)
      ensures rc == if |binary| >= |WASM_MAGIC| && binary[..|WASM_MAGIC|] == WASM_MAGIC then 0 else -EINVAL
    {
      if |binary| < |WASM_MAGIC| {
        return -EINVAL;
      }
      for i := 0 to |WASM_MAGIC|
        invariant binary[..i] == WASM_MAGIC[..i]
      {
        if binary[i] != WASM_MAGIC[i] {
          assert binary[..|WASM_MAGIC|][i] != WASM_MAGIC[i];
          return -EINVAL;
        }
      }
      assert WASM_MAGIC[..|WASM_MAGIC|] == WASM_MAGIC;
      return 0;
    }

    method InstallApp(op: Op) returns (rc: int)
      requires op.Install?
      modifies this`count, this`file, slots
      ensures State() == Do(old(State()), op).0 && rc == Do(old(State()), op).1
    {
      hide Find, FreeSlot, Cut, InByte, ChosenName;
      rc := ValidateWasm(op.binary);
      if rc < 0 {
        return;
      }
      if |op.binary| > MAX_SIZE {
        return -EFBIG;
      }
      var name := ChosenName(op);
      var n := FindByName(name);
      if n < slots.Length {
        slots[n] := slots[n].(container := -1);
      } else {
        n := FindFreeSlot();
        if n == slots.Length {
          return -ENOMEM;
        }
        slots[n] := slots[n].(id := n + 1);
        count := InByte(count + 1);
      }
      rc := FillSlot(n, name, op);
      assert slots[..] == old(slots[..])[n := slots[n]];
    }

    // The rest of an install, once its slot is found.
    method FillSlot(n: nat, name: string, op: Op) returns (rc: int)
      requires op.Install? && n < slots.Length
      modifies this`file, slots
      ensures var m, entry := old(State()), old(slots[n]);
        var wish := if op.manifest.Some? then op.manifest.value else DEFAULTS;
        if op.saved < 0 then State() == m.(slots := m.slots[n := entry.(name := "")]) && rc == op.saved
        else
          var installed := Entry(entry.id, name, wish.version, Installed, op.source, |op.binary|, wish.heapKb, wish.stackKb,
                                 wish.permissions, wish.restart, 0, -1, op.time, entry.lastStart, op.source == Firmware);
          State() == WithFile(m.(slots := m.slots[n := installed]), op.fileSaved) && rc == entry.id
    {
      slots[n] := slots[n].(name := name);
      if op.saved < 0 {
        slots[n] := slots[n].(name := "");
        assert slots[..] == old(slots[..])[n := slots[n]];
        return op.saved;
      }
      var wish := if op.manifest.Some? then op.manifest.value else DEFAULTS;
      slots[n] := Entry(slots[n].id, name, wish.version, Installed, op.source, |op.binary|, wish.heapKb, wish.stackKb,
                        wish.permissions, wish.restart, 0, -1, op.time, slots[n].lastStart, op.source == Firmware);
      assert slots[..] == old(slots[..])[n := slots[n]];
      hide WithFile;
      SaveRegistry(op.fileSaved);
      return slots[n].id;
    }

    method UninstallApp(name: string, fileSaved: bool) returns (rc: int)
      modifies this`count, this`file, slots
      ensures State() == Do(old(State()), Uninstall(name, fileSaved)).0
      ensures rc == Do(old(State()), Uninstall(name, fileSaved)).1
    {
      var n := FindByName(name);
      if n == slots.Length {
        return -ENOENT;
      }
      hide Find, InByte;
      if slots[n].preloaded {
        return -EPERM;
      }
      slots[n] := BLANK;
      count := InByte(count + BYTE - 1);
      SaveRegistry(fileSaved);
      return 0;
    }

    method StartApp(op: Op) returns (rc: int)
      requires op.Start?
      modifies this`file, slots
      ensures State() == Do(old(State()), op).0 && rc == Do(old(State()), op).1
    {
      var n := FindByName(op.name);
      if n == slots.Length {
        return -ENOENT;
      }
      hide Find, RunningCount, SetState;
      if slots[n].state == Running {
        return 0;
      }
      var running := CountRunning();
      ghost var app := if slots[n].state == Failed then slots[n].(crashes := 0) else slots[n];
      if slots[n].state == Failed {
        slots[n] := slots[n].(crashes := 0);
      }
      assert slots[..] == old(slots[..])[n := app];
      if running >= MAX_RUNNING {
        return -EBUSY;
      }
      if slots[n].container < 0 && op.container < 0 {
        return op.container;
      }
      rc := StartContainer(n, op);
      assert slots[..] == old(slots[..])[n := slots[n]];
    }

    // The runtime makes a container for the app if it has none, and starts it.
    method StartContainer(n: nat, op: Op) returns (rc: int)
      requires op.Start? && n < slots.Length && (slots[n].container >= 0 || op.container >= 0)
      modifies this`file, slots
      ensures var m, app := old(State()), old(slots[n]);
        var ready := if app.container < 0 then app.(container := op.container) else app;
        if op.started >= 0 then
          var running := SetState(ready.(lastStart := op.time), Running);
          State() == WithFile(m.(slots := m.slots[n := running]), op.fileSaved) && rc == 0
        else State() == m.(slots := m.slots[n := SetState(ready, Error)]) && rc == op.started
    {
      hide SetState;
      if slots[n].container < 0 {
        slots[n] := slots[n].(container := op.container);
      }
      if op.started < 0 {
        slots[n] := SetState(slots[n], Error);
        assert slots[..] == old(slots[..])[n := slots[n]];
        return op.started;
      }
      slots[n] := SetState(slots[n].(lastStart := op.time), Running);
      assert slots[..] == old(slots[..])[n := slots[n]];
      hide WithFile;
      SaveRegistry(op.fileSaved);
      return 0;
    }

    method StopApp(op: Op) returns (rc: int)
      requires op.Stop?
      modifies this`file, slots
      ensures State() == Do(old(State()), op).0 && rc == Do(old(State()), op).1
    {
      var n := FindByName(op.name);
      if n == slots.Length {
        return -ENOENT;
      }
      hide Find, SetState;
      if slots[n].state != Running {
        return 0;
      }
      if slots[n].container < 0 {
        return -EINVAL;
      }
      if op.stopped < 0 {
        return op.stopped;
      }
      slots[n] := SetState(slots[n], Stopped);
      SaveRegistry(op.fileSaved);
      return 0;
    }
  }
}
