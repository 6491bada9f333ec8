/** The flash settings device over its whole life: boots with any configured limits, resizes,
    sets, gets, deletes and clears, each one step. */
module FlashSettings {
  import opened Basics
  import opened SettingsText
  import opened FlashRegistry

  // The store, the limits in memory, and the limits this firmware was built with.
  datatype Device = Device(
    nvs: Nvs, maxValueLen: nat, maxKeys: nat, cfgValueLen: nat, cfgMaxKeys: nat, up: bool)

  datatype Op =
    | Boot(cfgValueLen: nat, cfgMaxKeys: nat)
    | Resize(newValueLen: nat, newMaxKeys: nat)
    | Set(key: string, value: string)
    | CutSet(key: string, value: string, updates: nat)
    | Get(key: string, maxLen: nat)
    | Delete(key: string)
    | Clear

  // Limits live in 16-bit cells, and a length limit of 0 could hold nothing.
  predicate Configurable(valueLen: nat, maxKeys: nat) {
    0 < valueLen < 0x1_0000 && maxKeys < 0x1_0000
  }

  function PutLimits(nvs: Nvs, valueLen: nat, maxKeys: nat): Nvs {
    nvs[MAX_VALUE_LEN_ID := Number(valueLen)][MAX_KEYS_ID := Number(maxKeys)]
  }

  function ResizeLimits(d: Device, newValueLen: nat, newMaxKeys: nat): (Device, Result) {
    if newMaxKeys >= KEYS_SIZE || newValueLen == 0 || newMaxKeys == 0 then (d, Failed(Invalid))
    else
      var oldValueLen, oldMaxKeys := NumberAt(d.nvs, MAX_VALUE_LEN_ID), NumberAt(d.nvs, MAX_KEYS_ID);
      if oldValueLen.None? || oldMaxKeys.None? then (d, Failed(NoEntry))
      else if Counter(d.nvs) > 0 && (newMaxKeys < Counter(d.nvs) || newValueLen < oldValueLen.value) then
        (d, Failed(Invalid))
      else
        (d.(nvs := PutLimits(d.nvs, newValueLen, newMaxKeys), maxValueLen := newValueLen, maxKeys := newMaxKeys), Done)
  }

  /** A store found at boot whose limits may differ from the configured ones, which are the
      ones in memory at this point. */
  function HandleMismatch(d: Device, storedValueLen: nat, storedMaxKeys: nat): Device {
    var grow := d.maxValueLen > storedValueLen;
    var (resized, result) := ResizeLimits(d, d.maxValueLen, d.maxKeys);
    if grow && result.Done? then resized
    else
      var shrinkKeys := d.maxKeys < storedMaxKeys && Counter(d.nvs) > d.maxKeys;
      if d.maxValueLen == storedValueLen && !shrinkKeys then d
      else
        var maxKeys := if grow || shrinkKeys then storedMaxKeys else d.maxKeys;
        d.(nvs := PutLimits(d.nvs, storedValueLen, maxKeys), maxValueLen := storedValueLen, maxKeys := maxKeys)
  }

  function InitFlash(d: Device): Device {
    if NumberAt(d.nvs, COUNTER_ID).None? then
      d.(nvs := PutLimits(d.nvs[COUNTER_ID := Number(0)], d.maxValueLen, d.maxKeys), up := true)
    else
      var valueLen, maxKeys := NumberAt(d.nvs, MAX_VALUE_LEN_ID), NumberAt(d.nvs, MAX_KEYS_ID);
      if valueLen.None? || maxKeys.None? then d.(up := false)
      else HandleMismatch(d, valueLen.value, maxKeys.value).(up := true)
  }

  /** A set of which the store takes only the first updates. */
  function SetFirst(d: Device, key: string, value: string, n: nat): (Device, Result) {
    if |value| >= d.maxValueLen || |key| >= d.maxValueLen then (d, Failed(TooBig))
    else
      var us := SetUpdates(d.nvs, d.maxValueLen, d.maxKeys, key, value);
      if us.None? then (d, Failed(NoSpace))
      else (d.(nvs := ApplyFirst(d.nvs, us.value, n)), if n >= |us.value| then Done else Failed(IoError))
  }

  // A set makes at most three updates.
  function SetCall(d: Device, key: string, value: string): (Device, Result) {
    SetFirst(d, key, value, 3)
  }

  function GetCall(d: Device, key: string, maxLen: nat): Result {
    if maxLen == 0 || |key| >= d.maxValueLen then Failed(Invalid)
    else
      match IndexOf(d.nvs, d.maxValueLen, key)
      case None => Failed(NoEntry)
      case Some(i) =>
        match ReadText(d.nvs, ValueId(i), d.maxValueLen - 1)
        case None => Failed(NoEntry)
        case Some(text) => Value(Prefix(text, maxLen - 1))
  }

  function DeleteCall(d: Device, key: string): (Device, Result) {
    match IndexOf(d.nvs, d.maxValueLen, key)
    case None => (d, Failed(NoEntry))
    case Some(i) =>
      if i < Counter(d.nvs) then
        var us := DeleteUpdates(d.nvs, d.maxValueLen, i);
        (d.(nvs := ApplyFirst(d.nvs, us, |us|)), Done)
      else (d, Failed(NoEntry))
  }

  function Step(d: Device, op: Op): (Device, Result) {
    if op.Boot? then
      (InitFlash(Device(d.nvs, op.cfgValueLen, op.cfgMaxKeys, op.cfgValueLen, op.cfgMaxKeys, false)), Done)
    else if !d.up then (d, Failed(Invalid))
    else
      match op
      case Boot(_, _) => (d, Done)
      case Resize(valueLen, maxKeys) => ResizeLimits(d, valueLen, maxKeys)
      case Set(key, value) => SetCall(d, key, value)
      case CutSet(key, value, n) => SetFirst(d, key, value, n)
      case Get(key, maxLen) => (d, GetCall(d, key, maxLen))
      case Delete(key) => DeleteCall(d, key)
      case Clear =>
        (InitFlash(d.(nvs := map[], maxValueLen := d.cfgValueLen, maxKeys := d.cfgMaxKeys)), Done)
  }

  // ---------- What every life of the device keeps ----------

  ghost predicate Valid(d: Device, r: Registry) {
    && d.up
    && Represents(d.nvs, r) && Sound(r, d.maxValueLen)
    && NumberAt(d.nvs, MAX_VALUE_LEN_ID) == Some(d.maxValueLen)
    && NumberAt(d.nvs, MAX_KEYS_ID).Some?
    && 0 < d.maxValueLen && 0 < d.cfgValueLen
  }

  // Limits are those of a 16-bit cell.
  predicate Plausible(op: Op) {
    op.Boot? ==> Configurable(op.cfgValueLen, op.cfgMaxKeys)
  }

  // The value a delete has left behind the registered names, if any, fits the limit.
  predicate LeftoverFits(d: Device) {
    var id := ValueId(Counter(d.nvs));
    Counter(d.nvs) < KEYS_SIZE && id in d.nvs && d.nvs[id].Text? ==> |d.nvs[id].s| < d.maxValueLen
  }

  /** The steps that keep every value readable: no set of the empty key, and no set cut short
      between its second and its third update where too long a value has been left behind. */
  predicate Accepted(d: Device, op: Op) {
    Plausible(op) &&
    match op
    case Set(key, _) => key != ""
    case CutSet(key, _, n) => key != "" && (n == 2 ==> LeftoverFits(d))
    case _ => true
  }

  const EMPTY: Registry := Registry([], seq(KEYS_SIZE, _ => None))

  lemma LimitsKeepRegistry(nvs: Nvs, r: Registry, valueLen: nat, maxKeys: nat)
    requires Represents(nvs, r)
    ensures Represents(PutLimits(nvs, valueLen, maxKeys), r)
  {
  }

  lemma LargerLimitKeepsSound(r: Registry, limit: nat, limit': nat)
    requires Sound(r, limit) && (limit <= limit' || r.names == [])
    ensures Sound(r, limit')
  {
  }

  lemma ResizeKeepsValid(d: Device, r: Registry, newValueLen: nat, newMaxKeys: nat)
    requires Valid(d, r)
    ensures Valid(ResizeLimits(d, newValueLen, newMaxKeys).0, r)
    ensures ResizeLimits(d, newValueLen, newMaxKeys).1 == Done <==>
      0 < newValueLen && 0 < newMaxKeys < KEYS_SIZE
      && (r.names == [] || (newMaxKeys >= |r.names| && newValueLen >= d.maxValueLen))
  {
    CounterIsCount(d.nvs, r);
    LimitsKeepRegistry(d.nvs, r, newValueLen, newMaxKeys);
    hide Represents, Sound;
    if ResizeLimits(d, newValueLen, newMaxKeys).1 == Done {
      LargerLimitKeepsSound(r, d.maxValueLen, newValueLen);
    }
  }

  /** A boot over an existing store never lowers the length limit under stored texts, and it
      leaves the registry alone. */
  lemma BootKeepsValid(d: Device, r: Registry, cfgValueLen: nat, cfgMaxKeys: nat)
    requires Valid(d, r) && Configurable(cfgValueLen, cfgMaxKeys)
    ensures Valid(Step(d, Boot(cfgValueLen, cfgMaxKeys)).0, r)
  {
    var stored := NumberAt(d.nvs, MAX_KEYS_ID).value;
    CounterIsCount(d.nvs, r);
    LimitsKeepRegistry(d.nvs, r, cfgValueLen, cfgMaxKeys);
    LimitsKeepRegistry(d.nvs, r, d.maxValueLen, cfgMaxKeys);
    LimitsKeepRegistry(d.nvs, r, d.maxValueLen, stored);
    if cfgValueLen >= d.maxValueLen {
      LargerLimitKeepsSound(r, d.maxValueLen, cfgValueLen);
    }
    hide Represents, Sound;
  }

  lemma EmptyStoreIsValid(d: Device)
    requires d.nvs == map[] && 0 < d.maxValueLen && 0 < d.cfgValueLen
    ensures Valid(InitFlash(d), EMPTY)
  {
  }

  lemma LeftoverIsValue(d: Device, r: Registry)
    requires Represents(d.nvs, r) && Sound(r, d.maxValueLen) && LeftoverFits(d) && |r.names| < KEYS_SIZE
    ensures r.values[|r.names|].Some? ==> |r.values[|r.names|].value| < d.maxValueLen
  {
    CounterIsCount(d.nvs, r);
  }

  lemma SetIsRegistered(d: Device, r: Registry, key: string, value: string, n: nat)
    requires Valid(d, r) && key != "" && |value| < d.maxValueLen && |key| < d.maxValueLen
    ensures var (d', result) := SetFirst(d, key, value, n);
      if key !in r.names && (|r.names| >= d.maxKeys || |r.names| >= KEYS_SIZE) then d' == d && result == Failed(NoSpace)
      else
        && (|r.names| < |r.values| || Position(r.names, key).Some?)
        && d' == d.(nvs := d'.nvs) && Represents(d'.nvs, AfterSet(r, key, value, n))
        && result == if n >= 3 || (n >= 1 && key in r.names) then Done else Failed(IoError)
  {
    hide SetUpdates, ApplyFirst, Represents, Sound, AfterSet;
    SetRepresents(d.nvs, r, d.maxValueLen, d.maxKeys, key, value, n);
  }

  lemma SetKeepsValid(d: Device, r: Registry, key: string, value: string, n: nat) returns (r': Registry)
    requires Valid(d, r) && key != "" && (n == 2 ==> LeftoverFits(d))
    ensures Valid(SetFirst(d, key, value, n).0, r')
    ensures SetFirst(d, key, value, n).0 == d.(nvs := SetFirst(d, key, value, n).0.nvs)
    ensures SetFirst(d, key, value, n).1 ==
      if |value| >= d.maxValueLen || |key| >= d.maxValueLen then Failed(TooBig)
      else if key !in r.names && (|r.names| >= d.maxKeys || |r.names| >= KEYS_SIZE) then Failed(NoSpace)
      else if n >= 3 || (n >= 1 && key in r.names) then Done
      else Failed(IoError)
    ensures SetFirst(d, key, value, n).1 == Done || SetFirst(d, key, value, n).1 == Failed(IoError) ==>
      (|r.names| < |r.values| || Position(r.names, key).Some?) && r' == AfterSet(r, key, value, n)
    ensures SetFirst(d, key, value, n).1 == Failed(TooBig) || SetFirst(d, key, value, n).1 == Failed(NoSpace) ==> r' == r
  {
    r' := r;
    if |value| < d.maxValueLen && |key| < d.maxValueLen {
      SetIsRegistered(d, r, key, value, n);
      if key in r.names || (|r.names| < d.maxKeys && |r.names| < KEYS_SIZE) {
        if |r.names| < KEYS_SIZE && n == 2 {
          LeftoverIsValue(d, r);
        }
        SetKeepsSound(r, d.maxValueLen, key, value, n);
        r' := AfterSet(r, key, value, n);
        SetLeavesLimits(d.nvs, d.maxValueLen, d.maxKeys, key, value, n);
        hide SetUpdates, ApplyFirst, Represents, Sound, AfterSet;
      }
    }
  }

  predicate SparesLimits(us: seq<Update>) {
    forall i :: 0 <= i < |us| ==> us[i].id != MAX_VALUE_LEN_ID && us[i].id != MAX_KEYS_ID
  }

  lemma {:induction false} LimitsUntouched(nvs: Nvs, us: seq<Update>, n: nat)
    requires SparesLimits(us)
    ensures NumberAt(ApplyFirst(nvs, us, n), MAX_VALUE_LEN_ID) == NumberAt(nvs, MAX_VALUE_LEN_ID)
    ensures NumberAt(ApplyFirst(nvs, us, n), MAX_KEYS_ID) == NumberAt(nvs, MAX_KEYS_ID)
    decreases |us|
  {
    if us != [] && n > 0 {
      assert us[0].id != MAX_VALUE_LEN_ID;
      LimitsUntouched(Apply(nvs, us[0]), us[1..], n - 1);
    }
  }

  lemma SetLeavesLimits(nvs: Nvs, limit: nat, maxKeys: nat, key: string, value: string, n: nat)
    requires SetUpdates(nvs, limit, maxKeys, key, value).Some?
    ensures var us := SetUpdates(nvs, limit, maxKeys, key, value).value;
      && NumberAt(ApplyFirst(nvs, us, n), MAX_VALUE_LEN_ID) == NumberAt(nvs, MAX_VALUE_LEN_ID)
      && NumberAt(ApplyFirst(nvs, us, n), MAX_KEYS_ID) == NumberAt(nvs, MAX_KEYS_ID)
  {
    var us := SetUpdates(nvs, limit, maxKeys, key, value).value;
    LimitsUntouched(nvs, us, n);
  }

  lemma {:induction false} ShiftSparesLimits(nvs: Nvs, limit: nat, i: nat)
    ensures SparesLimits(ShiftUpdates(nvs, limit, i))
    decreases Counter(nvs) - i
  {
    if i + 1 < Counter(nvs) {
      ShiftSparesLimits(nvs, limit, i + 1);
    }
  }

  lemma DeleteLeavesLimits(nvs: Nvs, limit: nat, i: nat)
    requires i < Counter(nvs)
    ensures var us := DeleteUpdates(nvs, limit, i);
      && NumberAt(ApplyFirst(nvs, us, |us|), MAX_VALUE_LEN_ID) == NumberAt(nvs, MAX_VALUE_LEN_ID)
      && NumberAt(ApplyFirst(nvs, us, |us|), MAX_KEYS_ID) == NumberAt(nvs, MAX_KEYS_ID)
  {
    ShiftSparesLimits(nvs, limit, i);
    var us := DeleteUpdates(nvs, limit, i);
    LimitsUntouched(nvs, us, |us|);
  }

  lemma DeleteKeepsValid(d: Device, r: Registry, key: string) returns (r': Registry)
    requires Valid(d, r)
    ensures Valid(DeleteCall(d, key).0, r')
    ensures DeleteCall(d, key).0 == d.(nvs := DeleteCall(d, key).0.nvs)
    ensures DeleteCall(d, key).1 == if key in r.names then Done else Failed(NoEntry)
    ensures DeleteCall(d, key).1 == Done ==>
      Position(r.names, key).Some? && Position(r.names, key).value < |r.names|
      && r' == DropName(r, Position(r.names, key).value)
    ensures DeleteCall(d, key).1 != Done ==> r' == r
  {
    r' := r;
    PositionFinds(r.names, key);
    if key == "" {
      EmptyKeyNowhere(d.nvs, d.maxValueLen, 0);
    } else {
      IndexOfIsPosition(d.nvs, d.maxValueLen, r, key);
      if key in r.names {
        var i := Position(r.names, key).value;
        DeleteRepresents(d.nvs, r, d.maxValueLen, i);
        DeleteLeavesLimits(d.nvs, d.maxValueLen, i);
        hide DeleteUpdates, ApplyFirst, Represents, Sound;
        r' := DropName(r, i);
      }
    }
  }

  lemma {:induction false} EmptyKeyNowhere(nvs: Nvs, limit: nat, i: nat)
    ensures IndexFrom(nvs, limit, "", i) == None
    decreases Counter(nvs) - i
  {
    if i < Counter(nvs) {
      EmptyKeyNowhere(nvs, limit, i + 1);
    }
  }

  /** Within a sound registry no read is cut short: a get returns what the key holds. */
  lemma GetReadsWhole(d: Device, r: Registry, key: string, maxLen: nat)
    requires Valid(d, r)
    ensures GetCall(d, key, maxLen) ==
      if maxLen == 0 || |key| >= d.maxValueLen then Failed(Invalid)
      else match Held(r, key)
        case None => Failed(NoEntry)
        case Some(value) => Value(Prefix(value, maxLen - 1))
  {
    PositionFinds(r.names, key);
    if key == "" {
      EmptyKeyNowhere(d.nvs, d.maxValueLen, 0);
    } else {
      IndexOfIsPosition(d.nvs, d.maxValueLen, r, key);
    }
  }

  lemma StepKeepsValid(d: Device, r: Registry, op: Op) returns (r': Registry)
    requires Valid(d, r) && Accepted(d, op)
    ensures Valid(Step(d, op).0, r')
  {
    hide SetFirst, DeleteCall, GetCall, ResizeLimits, InitFlash;
    r' := r;
    match op
    case Boot(valueLen, maxKeys) => BootKeepsValid(d, r, valueLen, maxKeys);
    case Resize(valueLen, maxKeys) => ResizeKeepsValid(d, r, valueLen, maxKeys);
    case Set(key, value) => r' := SetKeepsValid(d, r, key, value, 3);
    case CutSet(key, value, n) => r' := SetKeepsValid(d, r, key, value, n);
    case Get(key, maxLen) =>
    case Delete(key) => r' := DeleteKeepsValid(d, r, key);
    case Clear =>
      r' := EMPTY;
      EmptyStoreIsValid(d.(nvs := map[], maxValueLen := d.cfgValueLen, maxKeys := d.cfgMaxKeys));
  }

  function Run(d: Device, ops: seq<Op>): Device
    decreases |ops|
  {
    if ops == [] then d else Run(Step(d, ops[0]).0, ops[1..])
  }

  predicate AllAccepted(d: Device, ops: seq<Op>)
    decreases |ops|
  {
    ops == [] || (Accepted(d, ops[0]) && AllAccepted(Step(d, ops[0]).0, ops[1..]))
  }

  lemma {:induction false} RunKeepsValid(d: Device, r: Registry, ops: seq<Op>) returns (r': Registry)
    requires Valid(d, r) && AllAccepted(d, ops)
    ensures Valid(Run(d, ops), r')
    decreases |ops|
  {
    hide Valid, Step, Accepted;
    r' := r;
    if ops != [] {
      r' := StepKeepsValid(d, r, ops[0]);
      r' := RunKeepsValid(Step(d, ops[0]).0, r', ops[1..]);
    }
  }

  // A device with an empty store, before its first boot.
  const FACTORY: Device := Device(map[], 0, 0, 0, 0, false)

  // ---------- What even the empty key leaves alone ----------

  ghost predicate NamesHold(nvs: Nvs, limit: nat, count: nat) {
    forall i :: 0 <= i < count ==> KeyId(i) in nvs && nvs[KeyId(i)].Text? && |nvs[KeyId(i)].s| < limit
  }

  // An update that leaves the number of names alone, and every name short.
  predicate KeepsShort(u: Update, limit: nat) {
    match u
    case Put(id, cell) => if id < KEYS_START then false else cell.Text? && |cell.s| < limit
    case Erase(id) => id >= KEYS_START + KEYS_SIZE
  }

  ghost predicate AllShort(us: seq<Update>, limit: nat) {
    forall k :: 0 <= k < |us| ==> KeepsShort(us[k], limit)
  }

  lemma {:induction false} UpdatesKeepNames(nvs: Nvs, us: seq<Update>, n: nat, limit: nat, count: nat)
    requires NamesHold(nvs, limit, count) && count <= KEYS_SIZE
    requires AllShort(us, limit)
    ensures var after := ApplyFirst(nvs, us, n);
      && NamesHold(after, limit, count)
      && forall id :: id < KEYS_START ==> (id in after <==> id in nvs) && (id in nvs ==> after[id] == nvs[id])
    decreases |us|
  {
    if us != [] && n > 0 {
      assert KeepsShort(us[0], limit);
      UpdatesKeepNames(Apply(nvs, us[0]), us[1..], n - 1, limit, count);
    }
  }

  lemma {:induction false} ShiftKeepsShort(nvs: Nvs, limit: nat, i: nat)
    requires NamesHold(nvs, limit, Counter(nvs)) && Counter(nvs) <= KEYS_SIZE
    ensures AllShort(ShiftUpdates(nvs, limit, i), limit)
    decreases Counter(nvs) - i
  {
    if i + 1 < Counter(nvs) {
      ShiftKeepsShort(nvs, limit, i + 1);
      var name := nvs[KeyId(i + 1)];
      assert ReadText(nvs, KeyId(i + 1), limit) == Some(name.s);
      assert ShiftUpdates(nvs, limit, i) == [Put(KeyId(i), Text(name.s))] + ShiftUpdates(nvs, limit, i + 1);
    }
  }

  ghost predicate NamesFit(d: Device) {
    && d.up && NumberAt(d.nvs, COUNTER_ID).Some? && Counter(d.nvs) <= KEYS_SIZE
    && NumberAt(d.nvs, MAX_VALUE_LEN_ID) == Some(d.maxValueLen)
    && NumberAt(d.nvs, MAX_KEYS_ID).Some?
    && 0 < d.maxValueLen && 0 < d.cfgValueLen
    && NamesHold(d.nvs, d.maxValueLen, Counter(d.nvs))
  }

  lemma SameControlCells(nvs: Nvs, nvs': Nvs)
    requires forall id :: id < KEYS_START ==> (id in nvs' <==> id in nvs) && (id in nvs ==> nvs'[id] == nvs[id])
    ensures NumberAt(nvs', COUNTER_ID) == NumberAt(nvs, COUNTER_ID) && Counter(nvs') == Counter(nvs)
    ensures NumberAt(nvs', MAX_VALUE_LEN_ID) == NumberAt(nvs, MAX_VALUE_LEN_ID)
    ensures NumberAt(nvs', MAX_KEYS_ID) == NumberAt(nvs, MAX_KEYS_ID)
  {
  }

  lemma OverwriteKeepsNames(d: Device, us: seq<Update>, n: nat)
    requires NamesFit(d) && AllShort(us, d.maxValueLen)
    ensures NamesFit(d.(nvs := ApplyFirst(d.nvs, us, n))) && Counter(ApplyFirst(d.nvs, us, n)) == Counter(d.nvs)
  {
    UpdatesKeepNames(d.nvs, us, n, d.maxValueLen, Counter(d.nvs));
    hide NamesHold, ApplyFirst;
    SameControlCells(d.nvs, ApplyFirst(d.nvs, us, n));
    hide NumberAt, Counter;
  }

  // The name behind the last one is written, and then counted.
  lemma AddKeepsNames(d: Device, key: string)
    requires NamesFit(d) && Counter(d.nvs) < KEYS_SIZE && |key| < d.maxValueLen
    ensures var named := d.nvs[KeyId(Counter(d.nvs)) := Text(key)];
      && NamesFit(d.(nvs := named))
      && NamesFit(d.(nvs := named[COUNTER_ID := Number(Counter(d.nvs) + 1)]))
  {
  }

  lemma SetKeepsNames(d: Device, key: string, value: string, n: nat)
    requires NamesFit(d)
    ensures NamesFit(SetFirst(d, key, value, n).0)
  {
    var us := SetUpdates(d.nvs, d.maxValueLen, d.maxKeys, key, value);
    if |value| < d.maxValueLen && |key| < d.maxValueLen && us.Some? {
      if |us.value| == 1 {
        OverwriteKeepsNames(d, us.value, n);
      } else {
        NewSetKeepsNames(d, key, value, n);
      }
    }
    hide SetUpdates, NamesFit, ApplyFirst;
  }

  lemma NewSetKeepsNames(d: Device, key: string, value: string, n: nat)
    requires NamesFit(d) && |value| < d.maxValueLen && |key| < d.maxValueLen
    requires var us := SetUpdates(d.nvs, d.maxValueLen, d.maxKeys, key, value); us.Some? && |us.value| != 1
    ensures NamesFit(d.(nvs := ApplyFirst(d.nvs, SetUpdates(d.nvs, d.maxValueLen, d.maxKeys, key, value).value, n)))
  {
    var us := SetUpdates(d.nvs, d.maxValueLen, d.maxKeys, key, value).value;
    hide IndexFrom, NamesFit;
    var added := AddUpdates(d.nvs, key);
    ApplyThree(d.nvs, added[0], added[1], us[2], n);
    AddKeepsNames(d, key);
    var counted := d.(nvs := Apply(Apply(d.nvs, added[0]), added[1]));
    OverwriteKeepsNames(counted, [us[2]], 1);
    ApplyOne(counted.nvs, us[2], 1);
  }

  lemma DeleteKeepsNames(d: Device, key: string)
    requires NamesFit(d)
    ensures NamesFit(DeleteCall(d, key).0)
  {
    var index := IndexOf(d.nvs, d.maxValueLen, key);
    if index.Some? && index.value < Counter(d.nvs) {
      var i, c := index.value, Counter(d.nvs);
      hide IndexOf, ShiftUpdates, NamesFit, AllShort;
      var us := DeleteUpdates(d.nvs, d.maxValueLen, i);
      var most := [Erase(ValueId(i))] + ShiftUpdates(d.nvs, d.maxValueLen, i);
      var tail := [Erase(KeyId(c - 1)), Put(COUNTER_ID, Number(c - 1))];
      assert us == most + tail;
      ApplyConcat(d.nvs, most, tail, |us|);
      ShiftIsShort(d, i);
      OverwriteKeepsNames(d, most, |most|);
      ApplyTwo(ApplyFirst(d.nvs, most, |most|), tail[0], tail[1]);
      DropKeepsNames(d.(nvs := ApplyFirst(d.nvs, most, |most|)));
    }
  }

  lemma ShiftIsShort(d: Device, i: nat)
    requires NamesFit(d) && i < Counter(d.nvs)
    ensures AllShort([Erase(ValueId(i))] + ShiftUpdates(d.nvs, d.maxValueLen, i), d.maxValueLen)
  {
    ShiftKeepsShort(d.nvs, d.maxValueLen, i);
  }

  lemma DropKeepsNames(d: Device)
    requires NamesFit(d) && Counter(d.nvs) > 0
    ensures NamesFit(d.(nvs := (d.nvs - {KeyId(Counter(d.nvs) - 1)})[COUNTER_ID := Number(Counter(d.nvs) - 1)]))
  {
  }

  lemma LimitsKeepNames(d: Device, valueLen: nat, maxKeys: nat)
    requires NamesFit(d) && 0 < valueLen && (valueLen >= d.maxValueLen || Counter(d.nvs) == 0)
    ensures NamesFit(d.(nvs := PutLimits(d.nvs, valueLen, maxKeys), maxValueLen := valueLen, maxKeys := maxKeys))
  {
  }

  lemma ResizeKeepsNames(d: Device, newValueLen: nat, newMaxKeys: nat)
    requires NamesFit(d)
    ensures NamesFit(ResizeLimits(d, newValueLen, newMaxKeys).0)
  {
    if ResizeLimits(d, newValueLen, newMaxKeys).1 == Done {
      LimitsKeepNames(d, newValueLen, newMaxKeys);
    }
  }

  lemma BootKeepsNames(d: Device, cfgValueLen: nat, cfgMaxKeys: nat)
    requires NamesFit(d) && Configurable(cfgValueLen, cfgMaxKeys)
    ensures NamesFit(Step(d, Boot(cfgValueLen, cfgMaxKeys)).0)
  {
    var before := d.(cfgValueLen := cfgValueLen, cfgMaxKeys := cfgMaxKeys);
    var stored := NumberAt(d.nvs, MAX_KEYS_ID).value;
    var tooFew := cfgMaxKeys < stored && Counter(d.nvs) > cfgMaxKeys;
    var maxKeys := if cfgValueLen > d.maxValueLen || tooFew then stored else cfgMaxKeys;
    LimitsKeepNames(before, d.maxValueLen, maxKeys);
    if cfgValueLen > d.maxValueLen {
      LimitsKeepNames(before, cfgValueLen, cfgMaxKeys);
    }
    hide NamesHold;
  }

  lemma StepKeepsNames(d: Device, op: Op)
    requires NamesFit(d) && Plausible(op)
    ensures NamesFit(Step(d, op).0)
  {
    assert d.up && 0 < d.cfgValueLen;
    hide SetFirst, DeleteCall, GetCall, ResizeLimits, InitFlash, NamesFit;
    match op
    case Boot(valueLen, maxKeys) => BootKeepsNames(d, valueLen, maxKeys);
    case Resize(valueLen, maxKeys) => ResizeKeepsNames(d, valueLen, maxKeys);
    case Set(key, value) => SetKeepsNames(d, key, value, 3);
    case CutSet(key, value, n) => SetKeepsNames(d, key, value, n);
    case Get(key, maxLen) =>
    case Delete(key) => DeleteKeepsNames(d, key);
    case Clear => EmptyStoreHasNoNames(d.(nvs := map[], maxValueLen := d.cfgValueLen, maxKeys := d.cfgMaxKeys));
  }

  lemma EmptyStoreHasNoNames(d: Device)
    requires d.nvs == map[] && 0 < d.maxValueLen && 0 < d.cfgValueLen
    ensures NamesFit(InitFlash(d))
  {
  }

  lemma {:induction false} RunKeepsNames(d: Device, ops: seq<Op>)
    requires NamesFit(d) && forall i :: 0 <= i < |ops| ==> Plausible(ops[i])
    ensures NamesFit(Run(d, ops))
    decreases |ops|
  {
    hide NamesFit, Step, Plausible;
    if ops != [] {
      StepKeepsNames(d, ops[0]);
      RunKeepsNames(Step(d, ops[0]).0, ops[1..]);
    }
  }

  /** Over every life of a device, whatever limits its firmware versions are built with and
      whatever keys are set, cut short or not: the device comes up, the counter stays within
      100, the stored length limit is the one in use, and every registered name is in its cell
      and shorter than the limit, so that no name is read cut short. */
  lemma LifeKeepsNames(valueLen: nat, maxKeys: nat, ops: seq<Op>)
    requires Configurable(valueLen, maxKeys) && forall i :: 0 <= i < |ops| ==> Plausible(ops[i])
    ensures var d := Run(Step(FACTORY, Boot(valueLen, maxKeys)).0, ops);
      && d.up && Counter(d.nvs) <= 100
      && NumberAt(d.nvs, MAX_VALUE_LEN_ID) == Some(d.maxValueLen)
      && forall i :: 0 <= i < Counter(d.nvs) ==>
           && KeyId(i) in d.nvs && d.nvs[KeyId(i)].Text? && |d.nvs[KeyId(i)].s| < d.maxValueLen
           && ReadText(d.nvs, KeyId(i), d.maxValueLen) == Some(d.nvs[KeyId(i)].s)
  {
    EmptyStoreHasNoNames(Device(map[], valueLen, maxKeys, valueLen, maxKeys, false));
    RunKeepsNames(Step(FACTORY, Boot(valueLen, maxKeys)).0, ops);
    hide Run, Step;
  }

  /** If no empty key is set, and no set cut short where too long a value is left behind: every
      registered name is moreover found in its own cell, and no value reaches the limit. */
  lemma LifeKeepsCellsReadable(valueLen: nat, maxKeys: nat, ops: seq<Op>)
    requires Configurable(valueLen, maxKeys) && AllAccepted(Step(FACTORY, Boot(valueLen, maxKeys)).0, ops)
    ensures var d := Run(Step(FACTORY, Boot(valueLen, maxKeys)).0, ops);
      && d.up && Counter(d.nvs) <= 100
      && NumberAt(d.nvs, MAX_VALUE_LEN_ID) == Some(d.maxValueLen)
      && (forall i :: 0 <= i < Counter(d.nvs) ==>
            && KeyId(i) in d.nvs && d.nvs[KeyId(i)].Text? && 0 < |d.nvs[KeyId(i)].s| < d.maxValueLen
            && IndexOf(d.nvs, d.maxValueLen, d.nvs[KeyId(i)].s) == Some(i))
      && (forall i :: 0 <= i < Counter(d.nvs) && ValueId(i) in d.nvs ==>
            d.nvs[ValueId(i)].Text? && |d.nvs[ValueId(i)].s| < d.maxValueLen)
  {
    var d0 := Device(map[], valueLen, maxKeys, valueLen, maxKeys, false);
    EmptyStoreIsValid(d0);
    var r := RunKeepsValid(InitFlash(d0), EMPTY, ops);
    var d := Run(Step(FACTORY, Boot(valueLen, maxKeys)).0, ops);
    CounterIsCount(d.nvs, r);
    forall i | 0 <= i < Counter(d.nvs)
      ensures KeyId(i) in d.nvs && d.nvs[KeyId(i)] == Text(r.names[i])
      ensures IndexOf(d.nvs, d.maxValueLen, r.names[i]) == Some(i)
      ensures ValueId(i) in d.nvs ==> r.values[i].Some? && d.nvs[ValueId(i)] == Text(r.values[i].value)
    {
      IndexOfIsPosition(d.nvs, d.maxValueLen, r, r.names[i]);
      PositionFinds(r.names, r.names[i]);
    }
    hide IndexOf, Run;
  }
}
