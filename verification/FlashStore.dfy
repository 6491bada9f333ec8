/** The flash back end in the form the firmware has it: NVS cells overwritten in place, the
    registry walked by loops. From some update on the store may refuse every further one. */
module FlashStore {
  import opened Basics
  import opened SettingsText
  import opened FlashRegistry
  import opened FlashSettings
  import opened FlashCuts

  lemma NextUpdate(nvs: Nvs, u: Update, us: seq<Update>, n: nat)
    ensures ApplyFirst(nvs, [u] + us, n) == if n == 0 then nvs else ApplyFirst(Apply(nvs, u), us, n - 1)
  {
    assert ([u] + us)[1..] == us;
  }

  lemma ShiftTurn(nvs: Nvs, limit: nat, i: nat)
    requires i + 1 < Counter(nvs)
    ensures var name := ReadText(nvs, KeyId(i + 1), limit);
      ShiftUpdates(nvs, limit, i)
        == (if name.Some? then [Put(KeyId(i), Text(name.value))] else []) + ShiftUpdates(nvs, limit, i + 1)
  {
  }

  lemma ShiftEnd(nvs: Nvs, limit: nat, i: nat)
    requires i + 1 >= Counter(nvs)
    ensures ShiftUpdates(nvs, limit, i) == []
  {
  }

  lemma {:induction false} IndexInRange(nvs: Nvs, limit: nat, key: string, i: nat)
    ensures IndexFrom(nvs, limit, key, i).Some? ==> i <= IndexFrom(nvs, limit, key, i).value < Counter(nvs)
    decreases Counter(nvs) - i
  {
    if i < Counter(nvs) {
      IndexInRange(nvs, limit, key, i + 1);
    }
  }

  lemma {:induction false} ErasedValueKeepsIndex(nvs: Nvs, limit: nat, key: string, j: nat, i: nat)
    requires Counter(nvs) <= KEYS_SIZE
    ensures Counter(nvs - {ValueId(j)}) == Counter(nvs)
    ensures IndexFrom(nvs - {ValueId(j)}, limit, key, i) == IndexFrom(nvs, limit, key, i)
    decreases Counter(nvs) - i
  {
    if i < Counter(nvs) {
      ErasedValueKeepsIndex(nvs, limit, key, j, i + 1);
    }
  }

  class Store {
    var nvs: Nvs
    var accepts: nat        // how many more updates the store accepts
    var maxValueLen: nat
    var maxKeys: nat
    var cfgValueLen: nat
    var cfgMaxKeys: nat
    var up: bool

    constructor (cfgValueLen: nat, cfgMaxKeys: nat, nvs: Nvs, accepts: nat)
      ensures View() == Device(nvs, cfgValueLen, cfgMaxKeys, cfgValueLen, cfgMaxKeys, false)
      ensures this.accepts == accepts
    {
      this.nvs, this.accepts := nvs, accepts;
      maxValueLen, maxKeys := cfgValueLen, cfgMaxKeys;
      this.cfgValueLen, this.cfgMaxKeys := cfgValueLen, cfgMaxKeys;
      up := false;
    }

    function View(): Device
      reads this
    {
      Device(nvs, maxValueLen, maxKeys, cfgValueLen, cfgMaxKeys, up)
    }

    method NvsUpdate(u: Update) returns (ok: bool)
      modifies this`nvs, this`accepts
      ensures ok == (old(accepts) > 0)
      ensures ok ==> nvs == Apply(old(nvs), u) && accepts == old(accepts) - 1
      ensures !ok ==> nvs == old(nvs) && accepts == 0
    {
      if accepts == 0 {
        return false;
      }
      nvs, accepts := Apply(nvs, u), accepts - 1;
      return true;
    }

    method RegistryGetIndex(key: string) returns (index: Option<nat>)
      ensures index == IndexOf(nvs, maxValueLen, key)
    {
      var count := Counter(nvs);
      for i := 0 to count
        invariant IndexOf(nvs, maxValueLen, key) == IndexFrom(nvs, maxValueLen, key, i)
      {
        var name := ReadText(nvs, KeyId(i), maxValueLen);
        if name.Some? && name.value != "" && name.value == key {
          return Some(i);
        }
      }
      return None;
    }

    method RegistryAddKey(key: string) returns (result: Result)
      modifies this`nvs, this`accepts
      ensures Counter(old(nvs)) >= maxKeys || Counter(old(nvs)) >= KEYS_SIZE ==>
        result == Failed(NoSpace) && nvs == old(nvs) && accepts == old(accepts)
      ensures Counter(old(nvs)) < maxKeys && Counter(old(nvs)) < KEYS_SIZE ==>
        && nvs == ApplyFirst(old(nvs), AddUpdates(old(nvs), key), old(accepts))
        && accepts == (if old(accepts) < 2 then 0 else old(accepts) - 2)
        && result == if old(accepts) < 2 then Failed(IoError) else Done
    {
      var count := Counter(nvs);
      if count >= maxKeys || count >= KEYS_SIZE {
        return Failed(NoSpace);
      }
      var a, b := Put(KeyId(count), Text(key)), Put(COUNTER_ID, Number(count + 1));
      AppliedTwo(nvs, a, b, accepts);
      var ok := NvsUpdate(a);
      if !ok {
        return Failed(IoError);
      }
      ok := NvsUpdate(b);
      return if ok then Done else Failed(IoError);
    }

    /** Sets a key; if the store gives out on the way, the updates made so far stay. */
    method SettingsSet(key: string, value: string) returns (result: Result)
      modifies this`nvs, this`accepts
      ensures SetUpdates(old(nvs), maxValueLen, maxKeys, key, value).None? ==>
        result == Failed(NoSpace) && nvs == old(nvs)
      ensures SetUpdates(old(nvs), maxValueLen, maxKeys, key, value).Some? ==>
        var us := SetUpdates(old(nvs), maxValueLen, maxKeys, key, value).value;
        && nvs == ApplyFirst(old(nvs), us, old(accepts))
        && result == if old(accepts) < |us| then Failed(IoError) else Done
    {
      hide IndexFrom, Counter;
      ghost var start := nvs;
      var index := RegistryGetIndex(key);
      if index.None? {
        result := RegistryAddKey(key);
        if result.Failed? {
          if result == Failed(IoError) {
            AppliedThree(start, AddUpdates(start, key)[0], AddUpdates(start, key)[1],
                         SetUpdates(start, maxValueLen, maxKeys, key, value).value[2], old(accepts));
          }
          return;
        }
        index := RegistryGetIndex(key);
        AppliedThree(start, AddUpdates(start, key)[0], AddUpdates(start, key)[1],
                     Put(ValueCell(index), Text(value)), old(accepts));
      } else {
        ApplyOne(start, Put(ValueCell(index), Text(value)), accepts);
      }
      var ok := NvsUpdate(Put(ValueCell(index), Text(value)));
      return if ok then Done else Failed(IoError);
    }

    // The names readable from the store now are those of `start`, from `from` on.
    ghost predicate NamesAsIn(start: Nvs, from: nat)
      reads this
    {
      forall j :: from <= j < Counter(start) ==>
        ReadText(nvs, KeyId(j), maxValueLen) == ReadText(start, KeyId(j), maxValueLen)
    }

    /** One turn of the shift loop. */
    method ShiftOne(i: nat, ghost start: Nvs, ghost tail: seq<Update>) returns (ok: bool)
      requires i + 1 < Counter(start) && NamesAsIn(start, i + 1)
      modifies this`nvs, this`accepts
      ensures NamesAsIn(start, i + 2) && (i + 1 < Counter(start) ==> NamesAsIn(start, i + 1))
      ensures ApplyFirst(old(nvs), ShiftUpdates(start, maxValueLen, i) + tail, old(accepts))
        == if ok then ApplyFirst(nvs, ShiftUpdates(start, maxValueLen, i + 1) + tail, accepts) else nvs
    {
      hide Counter;
      ghost var rest := ShiftUpdates(start, maxValueLen, i + 1) + tail;
      ShiftTurn(start, maxValueLen, i);
      var name := ReadText(nvs, KeyId(i + 1), maxValueLen);
      ok := true;
      if name.Some? {
        var u := Put(KeyId(i), Text(name.value));
        assert ShiftUpdates(start, maxValueLen, i) + tail == [u] + rest;
        NextUpdate(nvs, u, rest, accepts);
        ok := NvsUpdate(u);
      } else {
        assert ShiftUpdates(start, maxValueLen, i) + tail == rest;
      }
    }

    /** Closes the gap the key leaves among the names, then drops the last name. Whatever the
        store still accepts of that is done. */
    method RegistryDeleteKey(key: string, ghost start: Nvs)
      requires IndexOf(nvs, maxValueLen, key).Some? && IndexOf(nvs, maxValueLen, key).value < Counter(nvs)
      requires Counter(nvs) == Counter(start) && NamesAsIn(start, 0)
      modifies this`nvs, this`accepts
      ensures var i := IndexOf(old(nvs), maxValueLen, key).value;
        nvs == ApplyFirst(old(nvs), DeleteUpdates(start, maxValueLen, i)[1..], old(accepts))
    {
      var count := Counter(nvs);
      var found := RegistryGetIndex(key);
      var index := found.value;
      hide IndexFrom, Counter, ShiftUpdates, ApplyFirst;
      ghost var tail := [Erase(KeyId(count - 1)), Put(COUNTER_ID, Number(count - 1))];
      ghost var todo := ShiftUpdates(start, maxValueLen, index) + tail;
      assert DeleteUpdates(start, maxValueLen, index)[1..] == todo;
      var i, ok := index, true;
      while i + 1 < count && ok
        invariant index <= i < count && NamesAsIn(start, i + 1)
        invariant ApplyFirst(old(nvs), todo, old(accepts))
          == if ok then ApplyFirst(nvs, ShiftUpdates(start, maxValueLen, i) + tail, accepts) else nvs
        decreases count - i
      {
        ok := ShiftOne(i, start, tail);
        i := i + 1;
      }
      if ok {
        ShiftEnd(start, maxValueLen, i);
        assert ShiftUpdates(start, maxValueLen, i) + tail == tail;
        AppliedTwo(nvs, tail[0], tail[1], accepts);
        var _ := NvsUpdate(Erase(KeyId(count - 1)));
        var _ := NvsUpdate(Put(COUNTER_ID, Number(count - 1)));
      }
    }

    method SettingsDelete(key: string) returns (result: Result)
      requires Counter(nvs) <= KEYS_SIZE
      modifies this`nvs, this`accepts
      ensures IndexOf(old(nvs), maxValueLen, key).None? ==> result == Failed(NoEntry) && nvs == old(nvs)
      ensures IndexOf(old(nvs), maxValueLen, key).Some? ==>
        var i := IndexOf(old(nvs), maxValueLen, key).value;
        && i < Counter(old(nvs))
        && nvs == ApplyFirst(old(nvs), DeleteUpdates(old(nvs), maxValueLen, i), old(accepts))
        && result == if old(accepts) == 0 then Failed(IoError) else Done
    {
      ghost var start := nvs;
      var index := RegistryGetIndex(key);
      if index.None? {
        return Failed(NoEntry);
      }
      IndexInRange(start, maxValueLen, key, 0);
      ErasedValueKeepsIndex(start, maxValueLen, key, index.value, 0);
      hide IndexFrom, ShiftUpdates;
      ghost var us := DeleteUpdates(start, maxValueLen, index.value);
      assert us == [Erase(ValueId(index.value))] + us[1..];
      NextUpdate(start, Erase(ValueId(index.value)), us[1..], accepts);
      var ok := NvsUpdate(Erase(ValueId(index.value)));
      if !ok {
        return Failed(IoError);
      }
      RegistryDeleteKey(key, start);
      return Done;
    }

    method SettingsGet(key: string, maxLen: nat) returns (result: Result)
      ensures result == GetCall(View(), key, maxLen)
    {
      if maxLen == 0 || |key| >= maxValueLen {
        return Failed(Invalid);
      }
      var index := RegistryGetIndex(key);
      hide IndexFrom;
      if index.None? {
        return Failed(NoEntry);
      }
      var text := ReadText(nvs, ValueId(index.value), maxValueLen - 1);
      return if text.Some? then Value(Prefix(text.value, maxLen - 1)) else Failed(NoEntry);
    }

    method PutLimitCells(valueLen: nat, keys: nat) returns (ok: bool)
      modifies this`nvs, this`accepts
      ensures ok == (old(accepts) >= 2) && accepts == (if ok then old(accepts) - 2 else 0)
      ensures nvs == ApplyFirst(old(nvs), LimitUpdates(valueLen, keys), old(accepts))
    {
      LimitsFirst(nvs, valueLen, keys, accepts);
      ok := NvsUpdate(Put(MAX_VALUE_LEN_ID, Number(valueLen)));
      if ok {
        ok := NvsUpdate(Put(MAX_KEYS_ID, Number(keys)));
      }
    }

    /** A resize, as far as the store accepts its two updates. */
    method Resize(newValueLen: nat, newMaxKeys: nat) returns (result: Result)
      modifies this`nvs, this`accepts, this`maxValueLen, this`maxKeys
      ensures View() == ResizeFirst(old(View()), newValueLen, newMaxKeys, old(accepts)).0
      ensures result == ResizeFirst(old(View()), newValueLen, newMaxKeys, old(accepts)).1
      ensures accepts == if result.Done? then old(accepts) - 2 else if result == Failed(IoError) then 0 else old(accepts)
    {
      hide ApplyFirst, LimitUpdates;
      if newMaxKeys >= KEYS_SIZE || newValueLen == 0 || newMaxKeys == 0 {
        return Failed(Invalid);
      }
      var oldValueLen, oldMaxKeys := NumberAt(nvs, MAX_VALUE_LEN_ID), NumberAt(nvs, MAX_KEYS_ID);
      if oldValueLen.None? || oldMaxKeys.None? {
        return Failed(NoEntry);
      }
      var count := Counter(nvs);
      if count > 0 && (newMaxKeys < count || newValueLen < oldValueLen.value) {
        return Failed(Invalid);
      }
      var ok := PutLimitCells(newValueLen, newMaxKeys);
      if !ok {
        return Failed(IoError);
      }
      maxValueLen, maxKeys := newValueLen, newMaxKeys;
      return Done;
    }

    method HandleConfigMismatch(storedValueLen: nat, storedMaxKeys: nat) returns (ok: bool)
      modifies this`nvs, this`accepts, this`maxValueLen, this`maxKeys
      ensures View() == MismatchFirst(old(View()), storedValueLen, storedMaxKeys, old(accepts)).0
      ensures ok == MismatchFirst(old(View()), storedValueLen, storedMaxKeys, old(accepts)).1
    {
      LimitsFirst(nvs, maxValueLen, maxKeys, accepts);
      hide ApplyFirst, LimitUpdates, Counter;
      ResizeCounts(View(), maxValueLen, maxKeys, accepts);
      var changed, finalValueLen, finalMaxKeys := false, maxValueLen, maxKeys;
      if storedValueLen != maxValueLen {
        if maxValueLen < storedValueLen {
          finalValueLen, changed := storedValueLen, true;
        } else {
          hide ResizeFirst;
          var result := Resize(maxValueLen, maxKeys);
          if result.Done? {
            return true;
          }
          finalValueLen, finalMaxKeys, changed := storedValueLen, storedMaxKeys, true;
        }
      }
      if storedMaxKeys != maxKeys && maxKeys < storedMaxKeys && Counter(nvs) > maxKeys {
        finalMaxKeys, changed := storedMaxKeys, true;
      }
      ok := true;
      if changed {
        maxValueLen, maxKeys := finalValueLen, finalMaxKeys;
        ok := PutLimitCells(finalValueLen, finalMaxKeys);
      }
    }

    /** A boot, as far as the store accepts its updates. */
    method Init()
      modifies this`nvs, this`accepts, this`maxValueLen, this`maxKeys, this`up
      ensures View() == InitFirst(old(View()), old(accepts))
    {
      FirstBootFirst(nvs, maxValueLen, maxKeys, accepts);
      hide MismatchFirst, ApplyFirst, LimitUpdates;
      if NumberAt(nvs, COUNTER_ID).None? {
        var ok := NvsUpdate(Put(COUNTER_ID, Number(0)));
        if ok {
          ok := PutLimitCells(maxValueLen, maxKeys);
        }
        up := ok;
        return;
      }
      var valueLen, keys := NumberAt(nvs, MAX_VALUE_LEN_ID), NumberAt(nvs, MAX_KEYS_ID);
      if valueLen.None? || keys.None? {
        up := false;
        return;
      }
      var ok := HandleConfigMismatch(valueLen.value, keys.value);
      up := ok;
    }

    // Clearing wipes every cell, takes the configured limits and starts over.
    method Clear()
      requires up
      modifies this`nvs, this`accepts, this`maxValueLen, this`maxKeys, this`up
      ensures View() ==
        InitFirst(old(View()).(nvs := map[], maxValueLen := cfgValueLen, maxKeys := cfgMaxKeys), old(accepts))
      ensures old(accepts) >= 3 ==> View() == Step(old(View()), Op.Clear).0
    {
      if accepts >= 3 {
        EnoughUpdates(View().(nvs := map[], maxValueLen := cfgValueLen, maxKeys := cfgMaxKeys), 1, 1, accepts);
      }
      nvs := map[];
      maxValueLen, maxKeys := cfgValueLen, cfgMaxKeys;
      hide InitFlash, InitFirst, ResizeFirst, ResizeLimits;
      Init();
    }
  }

  // A refused or interrupted resize leaves the limits in memory, and the counter.
  lemma ResizeCounts(d: Device, newValueLen: nat, newMaxKeys: nat, n: nat)
    ensures var (d', result) := ResizeFirst(d, newValueLen, newMaxKeys, n);
      && Counter(d'.nvs) == Counter(d.nvs)
      && (!result.Done? ==> d' == d.(nvs := d'.nvs))
      && (result.Failed? && result != Failed(IoError) ==> d' == d)
  {
    LimitsFirst(d.nvs, newValueLen, newMaxKeys, n);
    hide ApplyFirst, LimitUpdates;
  }

  lemma AppliedTwo(nvs: Nvs, a: Update, b: Update, n: nat)
    ensures ApplyFirst(nvs, [a, b], n) ==
      if n == 0 then nvs else if n == 1 then Apply(nvs, a) else Apply(Apply(nvs, a), b)
  {
    NextUpdate(nvs, a, [b], n);
    assert [a, b] == [a] + [b];
    if n > 0 {
      ApplyOne(Apply(nvs, a), b, n - 1);
    }
  }

  lemma AppliedThree(nvs: Nvs, a: Update, b: Update, c: Update, n: nat)
    ensures ApplyFirst(nvs, [a, b] + [c], n) ==
      if n < 3 then ApplyFirst(nvs, [a, b], n) else Apply(ApplyFirst(nvs, [a, b], 2), c)
    ensures n >= 2 ==> ApplyFirst(nvs, [a, b], n) == ApplyFirst(nvs, [a, b], 2)
  {
    ApplyThree(nvs, a, b, c, n);
    AppliedTwo(nvs, a, b, n);
    AppliedTwo(nvs, a, b, 2);
  }
}
