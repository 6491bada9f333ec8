/** Whole lives of a flash settings device in which the power may be cut during any call or boot:
    what the cells keep, and when the device still comes up. */
module FlashLives {
  import opened Basics
  import opened SettingsText
  import opened FlashRegistry
  import opened FlashSettings
  import opened FlashCuts

  // A call or boot that runs to its end, or one the power is cut in after some updates.
  datatype Event = Whole(op: Op) | Cut(op: Op, updates: nat)

  function DeleteFirst(d: Device, key: string, n: nat): Device {
    var index := IndexOf(d.nvs, d.maxValueLen, key);
    if index.Some? && index.value < Counter(d.nvs)
    then d.(nvs := ApplyFirst(d.nvs, DeleteUpdates(d.nvs, d.maxValueLen, index.value), n)) else d
  }

  // Wiping the store is one update of its own, before those of the boot.
  function CutStep(d: Device, op: Op, n: nat): Device {
    if op.Boot? then
      InitFirst(Device(d.nvs, op.cfgValueLen, op.cfgMaxKeys, op.cfgValueLen, op.cfgMaxKeys, false), n)
    else if !d.up then d
    else
      match op
      case Boot(_, _) => d
      case Resize(valueLen, maxKeys) => ResizeFirst(d, valueLen, maxKeys, n).0
      case Set(key, value) => SetFirst(d, key, value, n).0
      case CutSet(key, value, m) => SetFirst(d, key, value, if n < m then n else m).0
      case Get(_, _) => d
      case Delete(key) => DeleteFirst(d, key, n)
      case Clear => InitFirst(d.(nvs := map[], maxValueLen := d.cfgValueLen, maxKeys := d.cfgMaxKeys), n)
  }

  /** After a cut the device is down until its next boot. */
  function LifeStep(d: Device, e: Event): Device {
    match e
    case Whole(op) => Step(d, op).0
    case Cut(op, n) => CutStep(d, op, n).(up := false)
  }

  // ---------- The three kinds of store ----------

  // Every name cell of a registered position is erased or a short text.
  ghost predicate ShortNames(nvs: Nvs, limit: nat, count: nat) {
    forall i :: 0 <= i < count && KeyId(i) in nvs ==> nvs[KeyId(i)].Text? && |nvs[KeyId(i)].s| < limit
  }

  ghost predicate Alive(nvs: Nvs) {
    && NumberAt(nvs, COUNTER_ID).Some? && Counter(nvs) <= KEYS_SIZE
    && NumberAt(nvs, MAX_KEYS_ID).Some? && NumberAt(nvs, MAX_VALUE_LEN_ID).Some?
    && 0 < NumberAt(nvs, MAX_VALUE_LEN_ID).value
    && ShortNames(nvs, NumberAt(nvs, MAX_VALUE_LEN_ID).value, Counter(nvs))
  }

  // Marked as initialised, but without a limit.
  predicate Broken(nvs: Nvs) {
    NumberAt(nvs, COUNTER_ID).Some? && (NumberAt(nvs, MAX_KEYS_ID).None? || NumberAt(nvs, MAX_VALUE_LEN_ID).None?)
  }

  ghost predicate Life(d: Device) {
    && (d.nvs == map[] || Broken(d.nvs) || Alive(d.nvs))
    && (d.up ==> Alive(d.nvs) && NumberAt(d.nvs, MAX_VALUE_LEN_ID) == Some(d.maxValueLen) && 0 < d.cfgValueLen)
  }

  /** The power is cut between the first and the third update of a boot over an empty store. */
  predicate Breaks(d: Device, e: Event) {
    e.Cut? && 1 <= e.updates < 3 && ((e.op.Boot? && d.nvs == map[]) || (e.op.Clear? && d.up))
  }

  // ---------- Updates ----------

  // The update leaves the control cells alone, and writes only short texts.
  predicate LeavesShort(u: Update, limit: nat) {
    match u
    case Put(id, cell) => id >= KEYS_START && cell.Text? && |cell.s| < limit
    case Erase(id) => id >= KEYS_START
  }

  ghost predicate AllLeaveShort(us: seq<Update>, limit: nat) {
    forall k :: 0 <= k < |us| ==> LeavesShort(us[k], limit)
  }

  ghost predicate SameControls(nvs: Nvs, nvs': Nvs) {
    && NumberAt(nvs', COUNTER_ID) == NumberAt(nvs, COUNTER_ID)
    && NumberAt(nvs', MAX_VALUE_LEN_ID) == NumberAt(nvs, MAX_VALUE_LEN_ID)
    && NumberAt(nvs', MAX_KEYS_ID) == NumberAt(nvs, MAX_KEYS_ID)
  }

  lemma {:induction false} UpdatesStayShort(nvs: Nvs, us: seq<Update>, n: nat, limit: nat, count: nat)
    requires ShortNames(nvs, limit, count) && AllLeaveShort(us, limit)
    ensures ShortNames(ApplyFirst(nvs, us, n), limit, count) && SameControls(nvs, ApplyFirst(nvs, us, n))
    decreases |us|
  {
    if us != [] && n > 0 {
      assert LeavesShort(us[0], limit);
      UpdatesStayShort(Apply(nvs, us[0]), us[1..], n - 1, limit, count);
    }
  }

  lemma UpdatesStayAlive(nvs: Nvs, us: seq<Update>, n: nat)
    requires Alive(nvs) && AllLeaveShort(us, NumberAt(nvs, MAX_VALUE_LEN_ID).value)
    ensures Alive(ApplyFirst(nvs, us, n)) && SameControls(nvs, ApplyFirst(nvs, us, n))
  {
    UpdatesStayShort(nvs, us, n, NumberAt(nvs, MAX_VALUE_LEN_ID).value, Counter(nvs));
    hide ApplyFirst, ShortNames;
  }

  // ---------- Sets ----------

  lemma NewNameStaysAlive(nvs: Nvs, key: string)
    requires Alive(nvs) && Counter(nvs) < KEYS_SIZE && |key| < NumberAt(nvs, MAX_VALUE_LEN_ID).value
    ensures var named := nvs[KeyId(Counter(nvs)) := Text(key)];
      var counted := named[COUNTER_ID := Number(Counter(nvs) + 1)];
      && Alive(named) && Alive(counted)
      && NumberAt(named, MAX_VALUE_LEN_ID) == NumberAt(counted, MAX_VALUE_LEN_ID) == NumberAt(nvs, MAX_VALUE_LEN_ID)
  {
  }

  lemma SetStaysAlive(d: Device, key: string, value: string, n: nat)
    requires Life(d) && d.up
    ensures var d' := SetFirst(d, key, value, n).0; d' == d.(nvs := d'.nvs) && Life(d')
  {
    var us := SetUpdates(d.nvs, d.maxValueLen, d.maxKeys, key, value);
    if |value| < d.maxValueLen && |key| < d.maxValueLen && us.Some? {
      if |us.value| == 1 {
        UpdatesStayAlive(d.nvs, us.value, n);
      } else {
        NewSetStaysAlive(d, key, value, n);
      }
    }
    hide SetUpdates, ApplyFirst, Alive, SameControls;
  }

  lemma NewSetStaysAlive(d: Device, key: string, value: string, n: nat)
    requires Life(d) && d.up && |value| < d.maxValueLen && |key| < d.maxValueLen
    requires var us := SetUpdates(d.nvs, d.maxValueLen, d.maxKeys, key, value); us.Some? && |us.value| != 1
    ensures var after := ApplyFirst(d.nvs, SetUpdates(d.nvs, d.maxValueLen, d.maxKeys, key, value).value, n);
      Alive(after) && NumberAt(after, MAX_VALUE_LEN_ID) == NumberAt(d.nvs, MAX_VALUE_LEN_ID)
  {
    var us := SetUpdates(d.nvs, d.maxValueLen, d.maxKeys, key, value).value;
    hide IndexFrom, Alive;
    var added := AddUpdates(d.nvs, key);
    ApplyThree(d.nvs, added[0], added[1], us[2], n);
    NewNameStaysAlive(d.nvs, key);
    var counted := Apply(Apply(d.nvs, added[0]), added[1]);
    UpdatesStayAlive(counted, [us[2]], 1);
    ApplyOne(counted, us[2], 1);
  }

  // ---------- Deletes ----------

  lemma {:induction false} ShiftStaysShort(nvs: Nvs, limit: nat, i: nat)
    requires ShortNames(nvs, limit, Counter(nvs))
    ensures AllLeaveShort(ShiftUpdates(nvs, limit, i), limit)
    decreases Counter(nvs) - i
  {
    if i + 1 < Counter(nvs) {
      ShiftStaysShort(nvs, limit, i + 1);
      ReadIsShort(nvs, limit, i + 1);
      hide ReadText;
    }
  }

  lemma ReadIsShort(nvs: Nvs, limit: nat, i: nat)
    requires ShortNames(nvs, limit, Counter(nvs)) && i < Counter(nvs)
    ensures ReadText(nvs, KeyId(i), limit).Some? ==> |ReadText(nvs, KeyId(i), limit).value| < limit
  {
  }

  lemma CountedDownStaysAlive(nvs: Nvs)
    requires Alive(nvs) && Counter(nvs) > 0
    ensures var after := nvs[COUNTER_ID := Number(Counter(nvs) - 1)];
      Alive(after) && NumberAt(after, MAX_VALUE_LEN_ID) == NumberAt(nvs, MAX_VALUE_LEN_ID)
  {
  }

  lemma DeleteStaysAlive(d: Device, key: string, n: nat)
    requires Life(d) && d.up
    ensures var d' := DeleteFirst(d, key, n); d' == d.(nvs := d'.nvs) && Life(d')
  {
    var index := IndexOf(d.nvs, d.maxValueLen, key);
    if index.Some? && index.value < Counter(d.nvs) {
      var i, c := index.value, Counter(d.nvs);
      hide IndexOf, ShiftUpdates;
      var most := [Erase(ValueId(i))] + ShiftUpdates(d.nvs, d.maxValueLen, i) + [Erase(KeyId(c - 1))];
      var last := Put(COUNTER_ID, Number(c - 1));
      assert DeleteUpdates(d.nvs, d.maxValueLen, i) == most + [last];
      ApplyConcat(d.nvs, most, [last], n);
      ShiftStaysShort(d.nvs, d.maxValueLen, i);
      DeleteMostStaysAlive(d.nvs, most, last, n);
      hide DeleteUpdates, ApplyFirst, Alive, AllLeaveShort;
    }
  }

  lemma DeleteMostStaysAlive(nvs: Nvs, most: seq<Update>, last: Update, n: nat)
    requires Alive(nvs) && Counter(nvs) > 0 && last == Put(COUNTER_ID, Number(Counter(nvs) - 1))
    requires AllLeaveShort(most, NumberAt(nvs, MAX_VALUE_LEN_ID).value)
    ensures var after := if n <= |most| then ApplyFirst(nvs, most, n)
                         else ApplyFirst(ApplyFirst(nvs, most, |most|), [last], n - |most|);
      Alive(after) && NumberAt(after, MAX_VALUE_LEN_ID) == NumberAt(nvs, MAX_VALUE_LEN_ID)
  {
    UpdatesStayAlive(nvs, most, n);
    UpdatesStayAlive(nvs, most, |most|);
    hide AllLeaveShort, Alive;
    if n > |most| {
      var before := ApplyFirst(nvs, most, |most|);
      ApplyOne(before, last, n - |most|);
      CountedDownStaysAlive(before);
    }
  }

  // ---------- Limits ----------

  lemma LimitsStayAlive(nvs: Nvs, valueLen: nat, maxKeys: nat, n: nat)
    requires Alive(nvs) && 0 < valueLen
    requires Counter(nvs) == 0 || valueLen >= NumberAt(nvs, MAX_VALUE_LEN_ID).value
    ensures var after := ApplyFirst(nvs, LimitUpdates(valueLen, maxKeys), n);
      && Alive(after) && Counter(after) == Counter(nvs)
      && NumberAt(after, MAX_VALUE_LEN_ID) == if n == 0 then NumberAt(nvs, MAX_VALUE_LEN_ID) else Some(valueLen)
  {
    LimitsFirst(nvs, valueLen, maxKeys, n);
    hide ApplyFirst, LimitUpdates;
  }

  lemma ResizeStaysAlive(d: Device, newValueLen: nat, newMaxKeys: nat, n: nat)
    requires Life(d) && d.up
    ensures var (d', result) := ResizeFirst(d, newValueLen, newMaxKeys, n);
      Alive(d'.nvs) && (result != Failed(IoError) ==> Life(d') && d'.up)
  {
    if ResizeRefused(d, newValueLen, newMaxKeys).None? {
      LimitsStayAlive(d.nvs, newValueLen, newMaxKeys, n);
    }
    hide ApplyFirst, LimitUpdates, Alive, Counter;
  }

  lemma MismatchStaysAlive(d: Device, n: nat)
    requires Alive(d.nvs) && 0 < d.maxValueLen && 0 < d.cfgValueLen
    ensures var stored, keys := NumberAt(d.nvs, MAX_VALUE_LEN_ID).value, NumberAt(d.nvs, MAX_KEYS_ID).value;
      var (d', ok) := MismatchFirst(d, stored, keys, n);
      && Alive(d'.nvs) && d'.cfgValueLen == d.cfgValueLen
      && (ok ==> NumberAt(d'.nvs, MAX_VALUE_LEN_ID) == Some(d'.maxValueLen))
  {
    var stored, keys := NumberAt(d.nvs, MAX_VALUE_LEN_ID).value, NumberAt(d.nvs, MAX_KEYS_ID).value;
    if d.maxValueLen > stored {
      LimitsStayAlive(d.nvs, d.maxValueLen, d.maxKeys, n);
      if n == 0 {
        LimitsStayAlive(d.nvs, stored, keys, 0);
      }
    }
    var maxKeys := if d.maxValueLen > stored || (d.maxKeys < keys && Counter(d.nvs) > d.maxKeys) then keys else d.maxKeys;
    LimitsStayAlive(d.nvs, stored, maxKeys, n);
    RefusedOrCut(d, n);
    hide ApplyFirst, LimitUpdates, Alive, Counter, ResizeRefused;
  }

  // What a boot that could not grow the limits goes on from.
  lemma RefusedOrCut(d: Device, n: nat)
    ensures var (resized, result) := ResizeFirst(d, d.maxValueLen, d.maxKeys, n);
      && (result.Failed? && result != Failed(IoError) ==> resized == d)
      && (result == Failed(IoError) ==> n < 2)
    ensures forall nvs: Nvs, us: seq<Update> :: ApplyFirst(nvs, us, 0) == nvs
  {
  }

  lemma BootStaysAlive(d: Device, n: nat)
    requires Alive(d.nvs) && 0 < d.maxValueLen && 0 < d.cfgValueLen
    ensures Life(InitFirst(d, n)) && Alive(InitFirst(d, n).nvs)
  {
    MismatchStaysAlive(d, n);
    hide Alive, MismatchFirst;
  }

  /** A boot over an empty store, cut or not. */
  lemma FirstBootLives(d: Device, n: nat)
    requires d.nvs == map[] && 0 < d.maxValueLen && 0 < d.cfgValueLen
    ensures var d' := InitFirst(d, n);
      && Life(d') && (d'.up <==> n >= 3)
      && (if n == 0 then d'.nvs == map[] else if n < 3 then Broken(d'.nvs) else Alive(d'.nvs))
  {
    FirstBootFirst(d.nvs, d.maxValueLen, d.maxKeys, n);
    if n > 0 {
      LimitsFirst(d.nvs[COUNTER_ID := Number(0)], d.maxValueLen, d.maxKeys, n - 1);
    }
    hide ApplyFirst, LimitUpdates;
  }

  lemma KindsExclude(nvs: Nvs)
    ensures !(Alive(nvs) && Broken(nvs)) && !(Alive(nvs) && nvs == map[]) && !(Broken(nvs) && nvs == map[])
  {
  }

  // What a step does to the kind of store, and that it keeps a life.
  ghost predicate Lives(d: Device, e: Event) {
    Life(LifeStep(d, e)) && (Broken(LifeStep(d, e).nvs) <==> Broken(d.nvs) || Breaks(d, e))
  }

  lemma DownLives(d: Device)
    requires Life(d)
    ensures Life(d.(up := false))
  {
    hide Alive, Broken;
  }

  lemma BootLives(d: Device, valueLen: nat, maxKeys: nat, n: nat)
    requires Life(d) && Configurable(valueLen, maxKeys)
    ensures var d' := InitFirst(Device(d.nvs, valueLen, maxKeys, valueLen, maxKeys, false), n);
      && Life(d')
      && (Broken(d'.nvs) <==> Broken(d.nvs) || (d.nvs == map[] && 1 <= n < 3))
      && (n >= 3 ==> (d'.up <==> !Broken(d.nvs)))
  {
    var boot := Device(d.nvs, valueLen, maxKeys, valueLen, maxKeys, false);
    KindsExclude(d.nvs);
    KindsExclude(InitFirst(boot, n).nvs);
    if d.nvs == map[] {
      FirstBootLives(boot, n);
    } else if Alive(d.nvs) {
      BootStaysAlive(boot, n);
      WholeBootIsUp(boot, n);
    } else {
      BrokenStays(boot, n);
    }
    hide InitFirst, Alive, Broken;
  }

  lemma BrokenStays(d: Device, n: nat)
    requires Broken(d.nvs) && !d.up
    ensures InitFirst(d, n) == d
  {
    hide MismatchFirst;
  }

  lemma WholeBootIsUp(d: Device, n: nat)
    requires Alive(d.nvs)
    ensures n >= 3 ==> InitFirst(d, n).up
  {
    if n >= 3 {
      MismatchWhole(d, NumberAt(d.nvs, MAX_VALUE_LEN_ID).value, NumberAt(d.nvs, MAX_KEYS_ID).value, n);
    }
    hide MismatchFirst, HandleMismatch, ShortNames;
  }

  // The boot with as many updates as it asks for.
  lemma WholeBootLives(d: Device, valueLen: nat, maxKeys: nat)
    requires Life(d) && Configurable(valueLen, maxKeys)
    ensures var d' := Step(d, Boot(valueLen, maxKeys)).0;
      Life(d') && (Broken(d'.nvs) <==> Broken(d.nvs)) && (d'.up <==> !Broken(d.nvs))
  {
    EnoughUpdates(Device(d.nvs, valueLen, maxKeys, valueLen, maxKeys, false), 1, 1, 3);
    BootLives(d, valueLen, maxKeys, 3);
    assert Step(d, Boot(valueLen, maxKeys)).0 ==
      InitFirst(Device(d.nvs, valueLen, maxKeys, valueLen, maxKeys, false), 3);
    hide InitFirst, InitFlash, Alive, Broken, ResizeFirst, ResizeLimits, Step;
  }

  lemma ClearLives(d: Device, n: nat)
    requires Life(d) && d.up
    ensures var wiped := d.(nvs := map[], maxValueLen := d.cfgValueLen, maxKeys := d.cfgMaxKeys);
      && Life(InitFirst(wiped, n)) && InitFirst(wiped, 3) == InitFlash(wiped)
      && (Broken(InitFirst(wiped, n).nvs) <==> 1 <= n < 3)
  {
    var wiped := d.(nvs := map[], maxValueLen := d.cfgValueLen, maxKeys := d.cfgMaxKeys);
    FirstBootLives(wiped, n);
    EnoughUpdates(wiped, 1, 1, 3);
    KindsExclude(InitFirst(wiped, n).nvs);
    hide InitFirst, InitFlash, Alive, Broken, ResizeFirst, ResizeLimits;
  }

  lemma AliveIsNotBroken(d: Device)
    requires Life(d) && d.up
    ensures Alive(d.nvs) && !Broken(d.nvs)
  {
    KindsExclude(d.nvs);
  }

  lemma DeleteIsFirst(d: Device, key: string) returns (n: nat)
    ensures DeleteCall(d, key).0 == DeleteFirst(d, key, n)
  {
    var index := IndexOf(d.nvs, d.maxValueLen, key);
    hide DeleteUpdates, ApplyFirst;
    n := if index.Some? && index.value < Counter(d.nvs) then |DeleteUpdates(d.nvs, d.maxValueLen, index.value)| else 0;
  }

  lemma WholeLives(d: Device, op: Op)
    requires Life(d) && Plausible(op)
    ensures Lives(d, Whole(op))
  {
    hide SetFirst, DeleteCall, DeleteFirst, GetCall, ResizeLimits, ResizeFirst, InitFlash, InitFirst, Life, Broken, Alive;
    if op.Boot? {
      hide Step;
      WholeBootLives(d, op.cfgValueLen, op.cfgMaxKeys);
    } else if d.up {
      AliveIsNotBroken(d);
      UpStep(d, op);
    }
  }

  lemma UpStep(d: Device, op: Op)
    requires Life(d) && d.up && !op.Boot?
    ensures Life(Step(d, op).0) && !Broken(Step(d, op).0.nvs)
  {
    hide SetFirst, DeleteCall, DeleteFirst, GetCall, ResizeLimits, ResizeFirst, InitFlash, InitFirst, Life, Broken, Alive;
    match op
    case Resize(valueLen, maxKeys) =>
      EnoughUpdates(d, valueLen, maxKeys, 3);
      ResizeStaysAlive(d, valueLen, maxKeys, 2);
      WholeResize(d, valueLen, maxKeys);
      AliveIsNotBroken(ResizeLimits(d, valueLen, maxKeys).0);
    case Set(key, value) =>
      SetStaysAlive(d, key, value, 3);
      AliveIsNotBroken(SetFirst(d, key, value, 3).0);
    case CutSet(key, value, n) =>
      SetStaysAlive(d, key, value, n);
      AliveIsNotBroken(SetFirst(d, key, value, n).0);
    case Get(_, _) => AliveIsNotBroken(d);
    case Delete(key) =>
      var n := DeleteIsFirst(d, key);
      DeleteStaysAlive(d, key, n);
      AliveIsNotBroken(DeleteFirst(d, key, n));
    case Clear => ClearLives(d, 3);
  }

  lemma WholeResize(d: Device, newValueLen: nat, newMaxKeys: nat)
    ensures ResizeFirst(d, newValueLen, newMaxKeys, 2).1 != Failed(IoError)
  {
    hide ApplyFirst, LimitUpdates, Counter;
  }

  lemma CutLives(d: Device, op: Op, n: nat)
    requires Life(d) && Plausible(op)
    ensures Lives(d, Cut(op, n))
  {
    hide SetFirst, DeleteFirst, ResizeFirst, InitFirst, Life, Broken, Alive;
    DownLives(d);
    if op.Boot? {
      BootLives(d, op.cfgValueLen, op.cfgMaxKeys, n);
      DownLives(InitFirst(Device(d.nvs, op.cfgValueLen, op.cfgMaxKeys, op.cfgValueLen, op.cfgMaxKeys, false), n));
    } else if d.up {
      AliveIsNotBroken(d);
      if op.Clear? {
        ClearLives(d, n);
        DownLives(InitFirst(d.(nvs := map[], maxValueLen := d.cfgValueLen, maxKeys := d.cfgMaxKeys), n));
      } else {
        CutCallLives(d, op, n);
      }
    }
  }

  lemma CutCallLives(d: Device, op: Op, n: nat)
    requires Life(d) && d.up && !op.Boot? && !op.Clear?
    ensures var d' := CutStep(d, op, n).(up := false); Life(d') && !Broken(d'.nvs)
  {
    hide SetFirst, DeleteFirst, ResizeFirst, InitFirst, Broken, Alive;
    match op
    case Resize(valueLen, maxKeys) =>
      ResizeStaysAlive(d, valueLen, maxKeys, n);
      KindsExclude(ResizeFirst(d, valueLen, maxKeys, n).0.nvs);
    case Set(key, value) =>
      SetStaysAlive(d, key, value, n);
      KindsExclude(SetFirst(d, key, value, n).0.nvs);
    case CutSet(key, value, m) =>
      SetStaysAlive(d, key, value, if n < m then n else m);
      KindsExclude(SetFirst(d, key, value, if n < m then n else m).0.nvs);
    case Get(_, _) => KindsExclude(d.nvs);
    case Delete(key) =>
      DeleteStaysAlive(d, key, n);
      KindsExclude(DeleteFirst(d, key, n).nvs);
  }

  // ---------- Whole lives ----------

  function EventOp(e: Event): Op {
    match e
    case Whole(op) => op
    case Cut(op, _) => op
  }

  function LifeRun(events: seq<Event>): Device
    decreases |events|
  {
    if events == [] then FACTORY else LifeStep(LifeRun(events[..|events| - 1]), events[|events| - 1])
  }

  predicate EverBreaks(events: seq<Event>)
    decreases |events|
  {
    events != [] &&
    (EverBreaks(events[..|events| - 1]) || Breaks(LifeRun(events[..|events| - 1]), events[|events| - 1]))
  }

  lemma {:induction false} RunLives(events: seq<Event>)
    requires forall i :: 0 <= i < |events| ==> Plausible(EventOp(events[i]))
    ensures Life(LifeRun(events)) && (Broken(LifeRun(events).nvs) <==> EverBreaks(events))
    decreases |events|
  {
    if events != [] {
      var before, e := events[..|events| - 1], events[|events| - 1];
      assert forall i :: 0 <= i < |before| ==> before[i] == events[i];
      assert Plausible(EventOp(e));
      hide LifeStep, Life, Broken, Breaks, Plausible;
      RunLives(before);
      match e
      case Whole(op) => WholeLives(LifeRun(before), op);
      case Cut(op, n) => CutLives(LifeRun(before), op, n);
    }
  }

  /** Over every life, with the power cut wherever it may be: the next boot comes up exactly if no
      boot over an empty store has ever been cut between its first and its third update; and
      while the device is up, the counter is at most 100, the stored length limit is the one in
      use, and every registered name is in its cell, short enough to be read whole, or erased. */
  lemma LifeWithCuts(events: seq<Event>, valueLen: nat, maxKeys: nat)
    requires Configurable(valueLen, maxKeys)
    requires forall i :: 0 <= i < |events| ==> Plausible(EventOp(events[i]))
    ensures var d := LifeRun(events);
      && (Step(d, Boot(valueLen, maxKeys)).0.up <==> !EverBreaks(events))
      && (d.up ==>
            && Counter(d.nvs) <= 100 && NumberAt(d.nvs, MAX_VALUE_LEN_ID) == Some(d.maxValueLen)
            && forall i :: 0 <= i < Counter(d.nvs) && KeyId(i) in d.nvs ==>
                 && d.nvs[KeyId(i)].Text? && |d.nvs[KeyId(i)].s| < d.maxValueLen
                 && ReadText(d.nvs, KeyId(i), d.maxValueLen) == Some(d.nvs[KeyId(i)].s))
  {
    RunLives(events);
    hide LifeRun, EverBreaks;
    WholeBootLives(LifeRun(events), valueLen, maxKeys);
    hide Step, Broken;
  }

  /** A device that is down refuses every call and leaves its cells alone, until it is booted. */
  lemma {:induction false} DownUntilBoot(events: seq<Event>, more: seq<Event>)
    requires !LifeRun(events).up
    requires forall i :: 0 <= i < |more| ==> !EventOp(more[i]).Boot?
    ensures LifeRun(events + more) == LifeRun(events)
    ensures forall op: Op :: !op.Boot? ==> Step(LifeRun(events), op) == (LifeRun(events), Failed(Invalid))
    decreases |more|
  {
    if more == [] {
      assert events + [] == events;
    } else {
      var n := |more| - 1;
      DownUntilBoot(events, more[..n]);
      assert !EventOp(more[n]).Boot?;
      assert (events + more)[..|events + more| - 1] == events + more[..n];
      hide InitFlash, InitFirst, ResizeLimits, SetFirst, GetCall, DeleteCall, DeleteFirst;
    }
  }
}
