/** The flash device as a bounded map, over runs with boots and with sets cut short; and where
    it departs from one. */
module FlashMap {
  import opened Basics
  import opened SettingsText
  import opened FlashRegistry
  import opened FlashSettings

  // A key without a value is registered: a set was cut short before the value was written.
  datatype Ideal = Ideal(m: map<string, Option<string>>, limit: nat, maxKeys: nat, storedKeys: nat,
                         cfgValueLen: nat, cfgMaxKeys: nat)

  function IdealPut(m: map<string, Option<string>>, key: string, value: string, n: nat): map<string, Option<string>> {
    if n >= 3 || (n >= 1 && key in m) then m[key := Some(value)]
    else if n == 2 then m[key := None]
    else m
  }

  function IdealSet(s: Ideal, key: string, value: string, n: nat): (Ideal, Result) {
    if |value| >= s.limit || |key| >= s.limit then (s, Failed(TooBig))
    else if key !in s.m && (|s.m| >= s.maxKeys || |s.m| >= KEYS_SIZE) then (s, Failed(NoSpace))
    else
      (s.(m := IdealPut(s.m, key, value, n)),
       if n >= 3 || (n >= 1 && key in s.m) then Done else Failed(IoError))
  }

  function IdealResize(s: Ideal, valueLen: nat, maxKeys: nat): (Ideal, Result) {
    if 0 < valueLen && 0 < maxKeys < KEYS_SIZE && (s.m == map[] || (maxKeys >= |s.m| && valueLen >= s.limit))
    then (s.(limit := valueLen, maxKeys := maxKeys, storedKeys := maxKeys), Done)
    else (s, Failed(Invalid))
  }

  /** A boot keeps the map. A longer length limit is adopted with the new key limit if that
      allows for the keys; otherwise the length limit stays, and the key limit falls back to the
      stored one when it is too low for the keys, or with a longer length limit refused. */
  function IdealBoot(s: Ideal, cfgValueLen: nat, cfgMaxKeys: nat): Ideal {
    var booted := s.(cfgValueLen := cfgValueLen, cfgMaxKeys := cfgMaxKeys);
    var longer := cfgValueLen > s.limit;
    var tooFew := cfgMaxKeys < s.storedKeys && |s.m| > cfgMaxKeys;
    if longer && IdealResize(s, cfgValueLen, cfgMaxKeys).1 == Done then
      booted.(limit := cfgValueLen, maxKeys := cfgMaxKeys, storedKeys := cfgMaxKeys)
    else if longer || tooFew then booted.(maxKeys := s.storedKeys)
    else if cfgValueLen == s.limit then booted.(maxKeys := cfgMaxKeys)
    else booted.(maxKeys := cfgMaxKeys, storedKeys := cfgMaxKeys)
  }

  /** The public calls, boots and cut sets on a bounded map. */
  function IdealStep(s: Ideal, op: Op): (Ideal, Result) {
    match op
    case Boot(valueLen, maxKeys) => (IdealBoot(s, valueLen, maxKeys), Done)
    case Resize(valueLen, maxKeys) => IdealResize(s, valueLen, maxKeys)
    case Set(key, value) => IdealSet(s, key, value, 3)
    case CutSet(key, value, n) => IdealSet(s, key, value, n)
    case Get(key, maxLen) =>
      if maxLen == 0 || |key| >= s.limit then (s, Failed(Invalid))
      else if key !in s.m || s.m[key].None? then (s, Failed(NoEntry))
      else (s, Value(Prefix(s.m[key].value, maxLen - 1)))
    case Delete(key) =>
      if key in s.m then (s.(m := s.m - {key}), Done) else (s, Failed(NoEntry))
    case Clear =>
      (Ideal(map[], s.cfgValueLen, s.cfgMaxKeys, s.cfgMaxKeys, s.cfgValueLen, s.cfgMaxKeys), Done)
  }

  ghost predicate HoldsAt(r: Registry, m: map<string, Option<string>>, k: string)
    requires |r.names| <= |r.values|
  {
    (k in m <==> k in r.names) && (k in m ==> m[k] == Held(r, k))
  }

  // The registry is the map, and no value is left behind the names.
  ghost predicate HoldsMap(r: Registry, m: map<string, Option<string>>) {
    NothingLeftOver(r) && |m| == |r.names| && forall k :: HoldsAt(r, m, k)
  }

  ghost predicate Reflects(d: Device, r: Registry, s: Ideal) {
    && Valid(d, r) && HoldsMap(r, s.m)
    && s.limit == d.maxValueLen && s.maxKeys == d.maxKeys
    && NumberAt(d.nvs, MAX_KEYS_ID) == Some(s.storedKeys)
    && s.cfgValueLen == d.cfgValueLen && s.cfgMaxKeys == d.cfgMaxKeys
  }

  // No empty key is set, and a key is deleted only if no key registered later has a value.
  ghost predicate Orderly(d: Device, op: Op) {
    Plausible(op) &&
    match op
    case Set(key, _) => key != ""
    case CutSet(key, _, _) => key != ""
    case Delete(key) =>
      var index := IndexOf(d.nvs, d.maxValueLen, key);
      index.Some? ==> forall j :: index.value < j < Counter(d.nvs) ==> ValueId(j) !in d.nvs
    case _ => true
  }

  // ---------- Sets ----------

  lemma SetCounts(r: Registry, limit: nat, m: map<string, Option<string>>, key: string, value: string, n: nat)
    requires Sound(r, limit) && HoldsMap(r, m) && (key in r.names || |r.names| < KEYS_SIZE)
    ensures |r.names| < |r.values| || Position(r.names, key).Some?
    ensures var r' := AfterSet(r, key, value, n);
      && r'.names == (if key !in r.names && n >= 2 then r.names + [key] else r.names)
      && NothingLeftOver(r')
      && |IdealPut(m, key, value, n)| == |r'.names|
  {
    PositionFinds(r.names, key);
    assert HoldsAt(r, m, key);
    hide Held;
  }

  lemma SetHoldsMap(r: Registry, limit: nat, m: map<string, Option<string>>, key: string, value: string, n: nat)
    requires Sound(r, limit) && HoldsMap(r, m)
    requires (key in r.names || |r.names| < KEYS_SIZE) && key != "" && |key| < limit && |value| < limit
    ensures |r.names| < |r.values| || Position(r.names, key).Some?
    ensures HoldsMap(AfterSet(r, key, value, n), IdealPut(m, key, value, n))
  {
    SetCounts(r, limit, m, key, value, n);
    forall k
      ensures HoldsAt(AfterSet(r, key, value, n), IdealPut(m, key, value, n), k)
    {
      SetHoldsAt(r, limit, m, key, value, n, k);
      hide HoldsAt, HoldsMap, AfterSet, IdealPut;
    }
    hide HoldsAt, AfterSet, IdealPut, Sound;
  }

  lemma SetHoldsAt(r: Registry, limit: nat, m: map<string, Option<string>>, key: string, value: string, n: nat, k: string)
    requires Sound(r, limit) && HoldsMap(r, m)
    requires (key in r.names || |r.names| < KEYS_SIZE) && key != "" && |key| < limit && |value| < limit
    ensures |r.names| < |r.values| || Position(r.names, key).Some?
    ensures HoldsAt(AfterSet(r, key, value, n), IdealPut(m, key, value, n), k)
  {
    SetCounts(r, limit, m, key, value, n);
    HeldAfterSet(r, limit, key, value, n, k);
    assert HoldsAt(r, m, k) && HoldsAt(r, m, key);
    if key !in r.names {
      HeldNowhere(r, key);
      assert r.values[|r.names|] == None;
    }
    PutAt(m, key, value, n, k);
    hide HoldsMap, Held, AfterSet, Sound, NothingLeftOver, IdealPut;
    assert k in AfterSet(r, key, value, n).names <==> k in r.names || (k == key && n >= 2);
  }

  lemma PutAt(m: map<string, Option<string>>, key: string, value: string, n: nat, k: string)
    ensures var m' := IdealPut(m, key, value, n);
      && (k in m' <==> k in m || (k == key && n >= 2))
      && (k in m' && k != key ==> m'[k] == m[k])
      && (n >= 3 || (n >= 1 && key in m) ==> m'[key] == Some(value))
      && (n == 2 && key !in m ==> m'[key] == None)
      && (n == 0 && key in m ==> m'[key] == m[key])
  {
  }

  lemma SetIsIdeal(d: Device, r: Registry, s: Ideal, key: string, value: string, n: nat) returns (r': Registry)
    requires Reflects(d, r, s) && key != ""
    ensures SetFirst(d, key, value, n).1 == IdealSet(s, key, value, n).1
    ensures Reflects(SetFirst(d, key, value, n).0, r', IdealSet(s, key, value, n).0)
  {
    NoLeftover(d, r, s);
    assert HoldsAt(r, s.m, key);
    r' := SetKeepsValid(d, r, key, value, n);
    SetKeepsKeyLimit(d, key, value, n);
    hide SetFirst, Held, AfterSet, LeftoverFits, IdealPut;
    var room := key in r.names || (|r.names| < d.maxKeys && |r.names| < KEYS_SIZE);
    if |value| < d.maxValueLen && |key| < d.maxValueLen && room {
      SetHoldsMap(r, d.maxValueLen, s.m, key, value, n);
    }
    hide Valid, HoldsMap;
  }

  lemma NoLeftover(d: Device, r: Registry, s: Ideal)
    requires Reflects(d, r, s)
    ensures LeftoverFits(d)
  {
    CounterIsCount(d.nvs, r);
  }

  lemma SetKeepsKeyLimit(d: Device, key: string, value: string, n: nat)
    ensures NumberAt(SetFirst(d, key, value, n).0.nvs, MAX_KEYS_ID) == NumberAt(d.nvs, MAX_KEYS_ID)
  {
    if SetUpdates(d.nvs, d.maxValueLen, d.maxKeys, key, value).Some? {
      SetLeavesLimits(d.nvs, d.maxValueLen, d.maxKeys, key, value, n);
    }
    hide SetUpdates, ApplyFirst;
  }

  // ---------- Deletes ----------

  lemma DropHoldsMap(r: Registry, limit: nat, m: map<string, Option<string>>, i: nat)
    requires Sound(r, limit) && HoldsMap(r, m) && i < |r.names|
    requires forall j :: i < j < |r.names| ==> r.values[j] == None
    ensures HoldsMap(DropName(r, i), m - {r.names[i]})
  {
    DeleteIsRemovalIff(r, limit, i);
    var r', m' := DropName(r, i), m - {r.names[i]};
    assert HoldsAt(r, m, r.names[i]);
    assert NothingLeftOver(r');
    forall k
      ensures HoldsAt(r', m', k)
    {
      assert HoldsAt(r, m, k);
      DropsOneName(r, limit, i, k);
      hide HoldsMap, Held, DropName, Sound, NothingLeftOver;
    }
    hide Held, Sound, HoldsAt, NothingLeftOver;
  }

  lemma DropsOneName(r: Registry, limit: nat, i: nat, k: string)
    requires Sound(r, limit) && i < |r.names|
    ensures k in DropName(r, i).names <==> k in r.names && k != r.names[i]
  {
    var names := DropName(r, i).names;
    if k in r.names && k != r.names[i] {
      var j :| 0 <= j < |r.names| && r.names[j] == k;
      assert names[if j < i then j else j - 1] == k;
    }
  }

  lemma DeleteIsIdeal(d: Device, r: Registry, s: Ideal, key: string) returns (r': Registry)
    requires Reflects(d, r, s) && Orderly(d, Delete(key))
    ensures DeleteCall(d, key).1 == IdealStep(s, Delete(key)).1
    ensures Reflects(DeleteCall(d, key).0, r', IdealStep(s, Delete(key)).0)
  {
    assert HoldsAt(r, s.m, key);
    r' := DeleteKeepsValid(d, r, key);
    DeleteKeepsKeyLimit(d, key);
    if key in r.names {
      LaterAreBlank(d, r, key);
      PositionFinds(r.names, key);
      hide DeleteCall, Held, Orderly;
      DropHoldsMap(r, d.maxValueLen, s.m, Position(r.names, key).value);
    }
    hide Valid, HoldsMap, DeleteCall;
  }

  lemma DeleteKeepsKeyLimit(d: Device, key: string)
    ensures NumberAt(DeleteCall(d, key).0.nvs, MAX_KEYS_ID) == NumberAt(d.nvs, MAX_KEYS_ID)
  {
    var index := IndexOf(d.nvs, d.maxValueLen, key);
    if index.Some? && index.value < Counter(d.nvs) {
      DeleteLeavesLimits(d.nvs, d.maxValueLen, index.value);
    }
    hide DeleteUpdates, ApplyFirst, IndexOf;
  }

  lemma LaterAreBlank(d: Device, r: Registry, key: string)
    requires Valid(d, r) && Orderly(d, Delete(key)) && key in r.names
    ensures var i := Position(r.names, key); i.Some? && forall j :: i.value < j < |r.names| ==> r.values[j] == None
  {
    PositionFinds(r.names, key);
    CounterIsCount(d.nvs, r);
    assert key != "";
    IndexOfIsPosition(d.nvs, d.maxValueLen, r, key);
    hide IndexOf, Position;
  }

  // ---------- The rest ----------

  lemma ResizeIsIdeal(d: Device, r: Registry, s: Ideal, valueLen: nat, maxKeys: nat)
    requires Reflects(d, r, s)
    ensures ResizeLimits(d, valueLen, maxKeys).1 == IdealResize(s, valueLen, maxKeys).1
    ensures Reflects(ResizeLimits(d, valueLen, maxKeys).0, r, IdealResize(s, valueLen, maxKeys).0)
  {
    ResizeKeepsValid(d, r, valueLen, maxKeys);
    assert s.m == map[] <==> r.names == [] by {
      assert |s.m| == 0 <==> s.m == map[];
    }
    hide Valid, HoldsMap;
  }

  lemma BootIsIdeal(d: Device, r: Registry, s: Ideal, valueLen: nat, maxKeys: nat)
    requires Reflects(d, r, s) && Configurable(valueLen, maxKeys)
    ensures Reflects(Step(d, Boot(valueLen, maxKeys)).0, r, IdealBoot(s, valueLen, maxKeys))
  {
    BootKeepsValid(d, r, valueLen, maxKeys);
    CounterIsCount(d.nvs, r);
    assert s.m == map[] <==> r.names == [] by {
      assert |s.m| == 0 <==> s.m == map[];
    }
    assert |s.m| == |r.names|;
    assert NumberAt(d.nvs, COUNTER_ID).Some? && NumberAt(d.nvs, MAX_VALUE_LEN_ID) == Some(d.maxValueLen);
    hide Valid, HoldsMap;
  }

  lemma GetIsIdeal(d: Device, r: Registry, s: Ideal, key: string, maxLen: nat)
    requires Reflects(d, r, s)
    ensures GetCall(d, key, maxLen) == IdealStep(s, Get(key, maxLen)).1
  {
    GetReadsWhole(d, r, key, maxLen);
    assert HoldsAt(r, s.m, key);
    if key !in r.names {
      HeldNowhere(r, key);
    }
    hide GetCall, Held, Valid, HoldsMap;
  }

  lemma ClearIsIdeal(d: Device, s: Ideal)
    requires d.up && 0 < d.cfgValueLen && s.cfgValueLen == d.cfgValueLen && s.cfgMaxKeys == d.cfgMaxKeys
    ensures Reflects(Step(d, Clear).0, EMPTY, IdealStep(s, Clear).0)
  {
    EmptyStoreIsValid(d.(nvs := map[], maxValueLen := d.cfgValueLen, maxKeys := d.cfgMaxKeys));
  }

  /** One call, boot or cut set is what it is on a bounded map. */
  lemma StepIsIdeal(d: Device, r: Registry, s: Ideal, op: Op) returns (r': Registry)
    requires Reflects(d, r, s) && Orderly(d, op)
    ensures Step(d, op).1 == IdealStep(s, op).1
    ensures Reflects(Step(d, op).0, r', IdealStep(s, op).0)
  {
    assert d.up && 0 < d.cfgValueLen && s.cfgValueLen == d.cfgValueLen && s.cfgMaxKeys == d.cfgMaxKeys;
    hide SetFirst, DeleteCall, GetCall, ResizeLimits, InitFlash, Reflects, IdealSet, IdealResize, IdealBoot;
    match op
    case Boot(valueLen, maxKeys) =>
      BootIsIdeal(d, r, s, valueLen, maxKeys);
      r' := r;
    case Resize(valueLen, maxKeys) =>
      ResizeIsIdeal(d, r, s, valueLen, maxKeys);
      r' := r;
    case Set(key, value) => r' := SetIsIdeal(d, r, s, key, value, 3);
    case CutSet(key, value, n) => r' := SetIsIdeal(d, r, s, key, value, n);
    case Get(key, maxLen) =>
      GetIsIdeal(d, r, s, key, maxLen);
      r' := r;
    case Delete(key) => r' := DeleteIsIdeal(d, r, s, key);
    case Clear =>
      r' := EMPTY;
      ClearIsIdeal(d, s);
  }

  function Results(d: Device, ops: seq<Op>): seq<Result>
    decreases |ops|
  {
    if ops == [] then [] else [Step(d, ops[0]).1] + Results(Step(d, ops[0]).0, ops[1..])
  }

  function IdealResults(s: Ideal, ops: seq<Op>): seq<Result>
    decreases |ops|
  {
    if ops == [] then [] else [IdealStep(s, ops[0]).1] + IdealResults(IdealStep(s, ops[0]).0, ops[1..])
  }

  ghost predicate OrderlyRun(d: Device, ops: seq<Op>)
    decreases |ops|
  {
    ops == [] || (Orderly(d, ops[0]) && OrderlyRun(Step(d, ops[0]).0, ops[1..]))
  }

  lemma {:induction false} RunIsIdeal(d: Device, r: Registry, s: Ideal, ops: seq<Op>)
    requires Reflects(d, r, s) && OrderlyRun(d, ops)
    ensures Results(d, ops) == IdealResults(s, ops)
    decreases |ops|
  {
    if ops != [] {
      hide Step, IdealStep, Reflects, Orderly;
      var r' := StepIsIdeal(d, r, s, ops[0]);
      RunIsIdeal(Step(d, ops[0]).0, r', IdealStep(s, ops[0]).0, ops[1..]);
    }
  }

  /** From a first boot, over every run of sets, gets, resizes, clears, boots with any limits,
      sets cut short by a power cut, and deletes of keys behind which no other has a value, every
      call returns what it would return on a bounded map. */
  lemma FlashIsAMap(valueLen: nat, maxKeys: nat, ops: seq<Op>)
    requires Configurable(valueLen, maxKeys)
    requires OrderlyRun(Step(FACTORY, Boot(valueLen, maxKeys)).0, ops)
    ensures Results(Step(FACTORY, Boot(valueLen, maxKeys)).0, ops)
      == IdealResults(Ideal(map[], valueLen, maxKeys, maxKeys, valueLen, maxKeys), ops)
  {
    FirstBootIsIdeal(valueLen, maxKeys);
    hide Step, Reflects, OrderlyRun, Results, IdealResults;
    RunIsIdeal(Step(FACTORY, Boot(valueLen, maxKeys)).0, EMPTY,
               Ideal(map[], valueLen, maxKeys, maxKeys, valueLen, maxKeys), ops);
  }

  lemma FirstBootIsIdeal(valueLen: nat, maxKeys: nat)
    requires Configurable(valueLen, maxKeys)
    ensures Reflects(Step(FACTORY, Boot(valueLen, maxKeys)).0, EMPTY,
                     Ideal(map[], valueLen, maxKeys, maxKeys, valueLen, maxKeys))
  {
    EmptyStoreIsValid(Device(map[], valueLen, maxKeys, valueLen, maxKeys, false));
  }

  /** With a value behind every key, a delete is a map removal exactly for the last key. */
  lemma OnlyLastDeleteIsRemoval(r: Registry, limit: nat, i: nat)
    requires Sound(r, limit) && i < |r.names| && forall j :: 0 <= j < |r.names| ==> r.values[j].Some?
    ensures (forall k :: Held(DropName(r, i), k) == if k == r.names[i] then None else Held(r, k))
      <==> i + 1 == |r.names|
  {
    DeleteIsRemovalIff(r, limit, i);
    hide Held;
    if i + 1 < |r.names| {
      assert r.values[i + 1].Some?;
    }
  }

  // ---------- Departures from the bounded map ----------

  /** What a set has stored can be read back exactly if the key is not empty. */
  lemma SetCanBeReadIff(d: Device, r: Registry, key: string, value: string, maxLen: nat)
    requires Valid(d, r) && SetCall(d, key, value).1 == Done && |value| < maxLen
    ensures GetCall(SetCall(d, key, value).0, key, maxLen) == Value(value) <==> key != ""
  {
    if key == "" {
      EmptyKeyIsLost(d, r, value, maxLen);
    } else {
      var r' := SetKeepsValid(d, r, key, value, 3);
      HeldAfterSet(r, d.maxValueLen, key, value, 3, key);
      hide SetFirst, AfterSet, Held, Sound, Represents;
      GetReadsWhole(SetCall(d, key, value).0, r', key, maxLen);
    }
  }

  /** The empty key is reported as set but cannot be found: it uses up a position, and its value
      goes to the cell of the hundredth name. */
  lemma EmptyKeyIsLost(d: Device, r: Registry, value: string, maxLen: nat)
    requires Valid(d, r) && SetCall(d, "", value).1 == Done && 0 < maxLen
    ensures GetCall(SetCall(d, "", value).0, "", maxLen) == Failed(NoEntry)
    ensures Counter(SetCall(d, "", value).0.nvs) == Counter(d.nvs) + 1
    ensures KeyId(99) in SetCall(d, "", value).0.nvs && SetCall(d, "", value).0.nvs[KeyId(99)] == Text(value)
  {
    EmptyKeyNowhere(d.nvs, d.maxValueLen, 0);
    var us := SetUpdates(d.nvs, d.maxValueLen, d.maxKeys, "", value).value;
    var added := AddUpdates(d.nvs, "");
    EmptyKeyNowhere(ApplyFirst(d.nvs, added, 2), d.maxValueLen, 0);
    ApplyThree(d.nvs, added[0], added[1], Put(KeyId(99), Text(value)), 3);
    EmptyKeyNowhere(SetCall(d, "", value).0.nvs, d.maxValueLen, 0);
  }

  /** After a boot over an existing store the counter is within the limit in use exactly when
      it was within the stored one, or is within the configured one and that was adopted. */
  lemma BootKeepsCounterWithinLimitIff(d: Device, r: Registry, cfgValueLen: nat, cfgMaxKeys: nat)
    requires Valid(d, r) && Configurable(cfgValueLen, cfgMaxKeys)
    ensures var stored := NumberAt(d.nvs, MAX_KEYS_ID).value;
      |r.names| <= Step(d, Boot(cfgValueLen, cfgMaxKeys)).0.maxKeys <==>
        |r.names| <= stored || (|r.names| <= cfgMaxKeys && (cfgValueLen <= d.maxValueLen || cfgMaxKeys < KEYS_SIZE))
  {
    CounterIsCount(d.nvs, r);
    hide Represents, Sound;
  }

  // The first updates of a first boot, which writes three cells one after another.
  function FirstBootCells(cfgValueLen: nat, cfgMaxKeys: nat): seq<Update> {
    [Put(COUNTER_ID, Number(0)), Put(MAX_VALUE_LEN_ID, Number(cfgValueLen))] + [Put(MAX_KEYS_ID, Number(cfgMaxKeys))]
  }

  /** A power cut during the very first boot leaves a device that boots again exactly when it
      fell before the first cell or after the last: in between, the counter marks the store as
      initialised while a limit is missing, and no later boot repairs that. */
  lemma FirstBootCut(valueLen: nat, maxKeys: nat, n: nat, cfgValueLen: nat, cfgMaxKeys: nat)
    requires n <= 3
    ensures var nvs := ApplyFirst(map[], FirstBootCells(valueLen, maxKeys), n);
      var d := Step(Device(nvs, 0, 0, 0, 0, false), Boot(cfgValueLen, cfgMaxKeys)).0;
      && (d.up <==> n == 0 || n == 3)
      && (!d.up ==> d.nvs == nvs)
      && (n == 3 ==> nvs == InitFlash(Device(map[], valueLen, maxKeys, valueLen, maxKeys, false)).nvs)
  {
    var us := FirstBootCells(valueLen, maxKeys);
    ApplyThree(map[], us[0], us[1], us[2], n);
  }

  // ---------- Runs that reach the departures ----------

  lemma RunOn(d: Device, op: Op, ops: seq<Op>)
    ensures Run(d, [op] + ops) == Run(Step(d, op).0, ops)
  {
    assert ([op] + ops)[1..] == ops;
  }

  lemma FourSteps(d: Device, a: Op, b: Op, c: Op, e: Op)
    ensures Run(d, [a, b, c, e]) == Step(Step(Step(Step(d, a).0, b).0, c).0, e).0
  {
    hide Step;
    assert [a, b, c, e] == [a] + ([b] + ([c] + ([e] + [])));
    RunOn(d, a, [b] + ([c] + ([e] + [])));
    RunOn(Step(d, a).0, b, [c] + ([e] + []));
    RunOn(Step(Step(d, a).0, b).0, c, [e] + []);
    RunOn(Step(Step(Step(d, a).0, b).0, c).0, e, []);
  }

  /** A firmware with a larger key limit fills it, and the next one has a smaller limit: the
      counter exceeds the limit in use. */
  lemma CounterExceedsLimit()
    ensures var d := Run(Step(FACTORY, Boot(16, 1)).0, [Set("a", "1"), Boot(16, 2), Set("b", "2"), Boot(16, 1)]);
      d.up && Counter(d.nvs) == 2 && d.maxKeys == 1
  {
    var d0, s0 := Step(FACTORY, Boot(16, 1)).0, Ideal(map[], 16, 1, 1, 16, 1);
    FirstBootIsIdeal(16, 1);
    IdealCounterExceedsLimit();
    hide Step, Reflects, Run, IdealStep;
    var d1 := Step(d0, Set("a", "1")).0;
    var d2 := Step(d1, Boot(16, 2)).0;
    var d3 := Step(d2, Set("b", "2")).0;
    var r1, s1 := OrderlyStep(d0, EMPTY, s0, Set("a", "1"));
    var r2, s2 := OrderlyStep(d1, r1, s1, Boot(16, 2));
    var r3, s3 := OrderlyStep(d2, r2, s2, Set("b", "2"));
    var r4, s4 := OrderlyStep(d3, r3, s3, Boot(16, 1));
    FourSteps(d0, Set("a", "1"), Boot(16, 2), Set("b", "2"), Boot(16, 1));
    ReflectsCount(Step(d3, Boot(16, 1)).0, r4, s4);
  }

  lemma IdealCounterExceedsLimit()
    ensures var s := IdealStep(Ideal(map[], 16, 1, 1, 16, 1), Set("a", "1")).0;
      var s' := IdealStep(IdealStep(IdealStep(s, Boot(16, 2)).0, Set("b", "2")).0, Boot(16, 1)).0;
      s'.maxKeys == 1 && |s'.m| == 2
  {
    var s1 := IdealStep(Ideal(map[], 16, 1, 1, 16, 1), Set("a", "1")).0;
    assert s1 == Ideal(map["a" := Some("1")], 16, 1, 1, 16, 1);
    var s2 := IdealStep(s1, Boot(16, 2)).0;
    assert s2 == Ideal(map["a" := Some("1")], 16, 2, 1, 16, 2);
    var s3 := IdealStep(s2, Set("b", "2")).0;
    assert s3 == Ideal(map["a" := Some("1"), "b" := Some("2")], 16, 2, 1, 16, 2);
  }

  lemma OrderlyStep(d: Device, r: Registry, s: Ideal, op: Op) returns (r': Registry, s': Ideal)
    requires Reflects(d, r, s)
    requires match op case Set(key, _) => key != "" case Boot(v, k) => Configurable(v, k) case _ => false
    ensures s' == IdealStep(s, op).0 && Reflects(Step(d, op).0, r', s')
  {
    hide Step, Reflects;
    r' := StepIsIdeal(d, r, s, op);
    s' := IdealStep(s, op).0;
  }

  lemma ReflectsCount(d: Device, r: Registry, s: Ideal)
    requires Reflects(d, r, s)
    ensures d.up && Counter(d.nvs) == |s.m| && d.maxKeys == s.maxKeys
  {
    CounterIsCount(d.nvs, r);
  }

  lemma SetNewKey(d: Device, r: Registry, key: string, value: string) returns (r': Registry)
    requires Valid(d, r) && key != "" && key !in r.names && |r.names| < d.maxKeys && |r.names| < KEYS_SIZE
    requires |key| < d.maxValueLen && |value| < d.maxValueLen
    ensures r' == Registry(r.names + [key], r.values[|r.names| := Some(value)])
    ensures var d' := Step(d, Set(key, value)).0; Valid(d', r') && d' == d.(nvs := d'.nvs)
  {
    assert d.up && Step(d, Set(key, value)) == SetFirst(d, key, value, 3);
    assert |r.values| == KEYS_SIZE;
    hide SetFirst, Step, Valid;
    r' := SetKeepsValid(d, r, key, value, 3);
    PositionFinds(r.names, key);
  }

  lemma DeleteFirstOfTwo(d: Device, r: Registry) returns (r': Registry)
    requires Valid(d, r) && |r.names| == 2
    ensures r' == Registry([r.names[1]], r.values[0 := None])
    ensures var d' := Step(d, Delete(r.names[0])).0; Valid(d', r') && d' == d.(nvs := d'.nvs)
  {
    assert d.up && Step(d, Delete(r.names[0])) == DeleteCall(d, r.names[0]);
    assert |r.values| == KEYS_SIZE;
    hide DeleteCall, Step, Valid;
    r' := DeleteKeepsValid(d, r, r.names[0]);
    PositionFinds(r.names, r.names[0]);
    assert r.names[0] in r.names;
  }

  // The registry after a first set, a second set and a delete of the first key.
  lemma LeftBehind() returns (r: Registry)
    ensures r.names == ["b"] && |r.values| == KEYS_SIZE && r.values[1] == Some("2")
    ensures var d0 := Step(FACTORY, Boot(16, 5)).0;
      var d := Step(Step(Step(d0, Set("a", "1")).0, Set("b", "2")).0, Delete("a")).0;
      Valid(d, r) && d.maxValueLen == 16 && d.maxKeys == 5
  {
    FreshDevice(16, 5);
    hide Valid, Step;
    var d0 := Step(FACTORY, Boot(16, 5)).0;
    var r1 := SetNewKey(d0, EMPTY, "a", "1");
    assert r1.names == ["a"];
    var d1 := Step(d0, Set("a", "1")).0;
    var r2 := SetNewKey(d1, r1, "b", "2");
    assert r2.names == ["a", "b"];
    var d2 := Step(d1, Set("b", "2")).0;
    r := DeleteFirstOfTwo(d2, r2);
  }

  lemma FreshDevice(valueLen: nat, maxKeys: nat)
    requires Configurable(valueLen, maxKeys)
    ensures var d := Step(FACTORY, Boot(valueLen, maxKeys)).0;
      Valid(d, EMPTY) && d.maxValueLen == valueLen && d.maxKeys == maxKeys
    ensures EMPTY.names == [] && |EMPTY.values| == KEYS_SIZE
  {
    EmptyStoreIsValid(Device(map[], valueLen, maxKeys, valueLen, maxKeys, false));
  }

  /** The value left behind by a delete shows under the next new key, if its set is cut short. */
  lemma LeftValueShows()
    ensures var ops := [Set("a", "1"), Set("b", "2"), Delete("a"), CutSet("c", "3", 2)];
      var d := Run(Step(FACTORY, Boot(16, 5)).0, ops);
      GetCall(d, "c", 16) == Value("2")
  {
    var d0 := Step(FACTORY, Boot(16, 5)).0;
    FourSteps(d0, Set("a", "1"), Set("b", "2"), Delete("a"), CutSet("c", "3", 2));
    var r := LeftBehind();
    var d3 := Step(Step(Step(d0, Set("a", "1")).0, Set("b", "2")).0, Delete("a")).0;
    hide Run, SetFirst, DeleteCall, GetCall, InitFlash;
    LeftFits(d3, r);
    assert Sound(r, 16);
    var r4 := SetKeepsValid(d3, r, "c", "3", 2);
    assert Step(d3, CutSet("c", "3", 2)).0 == SetFirst(d3, "c", "3", 2).0;
    hide Step, Represents;
    HeldAfterSet(r, 16, "c", "3", 2, "c");
    hide Held, AfterSet, Sound;
    GetReadsWhole(SetFirst(d3, "c", "3", 2).0, r4, "c", 16);
  }

  lemma LeftFits(d: Device, r: Registry)
    requires Valid(d, r) && d.maxValueLen == 16 && r.names == ["b"] && r.values[1] == Some("2")
    ensures LeftoverFits(d)
  {
    CounterIsCount(d.nvs, r);
  }
}
