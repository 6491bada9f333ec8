/** Flash operations that end early, because the power is cut or the store refuses further
    updates: what every key shows after a delete, and how a boot recovers from a boot. */
module FlashCuts {
  import opened Basics
  import opened SettingsText
  import opened FlashRegistry
  import opened FlashSettings

  // ---------- Deletes ----------

  // What a lookup of the key finds.
  function Shown(nvs: Nvs, limit: nat, key: string): Option<string> {
    match IndexOf(nvs, limit, key)
    case None => None
    case Some(i) => if ValueId(i) in nvs && nvs[ValueId(i)].Text? then Some(nvs[ValueId(i)].s) else None
  }

  predicate Reads(nvs: Nvs, limit: nat, k: nat, name: Option<string>) {
    ReadText(nvs, KeyId(k), limit) == name
  }

  lemma {:induction false} IndexIs(nvs: Nvs, limit: nat, key: string, i: nat, at: nat)
    requires i <= at <= Counter(nvs) && key != ""
    requires forall k :: i <= k < at ==> !Reads(nvs, limit, k, Some(key))
    requires at < Counter(nvs) ==> Reads(nvs, limit, at, Some(key))
    ensures IndexFrom(nvs, limit, key, i) == if at < Counter(nvs) then Some(at) else None
    decreases at - i
  {
    if i < at {
      assert !Reads(nvs, limit, i, Some(key));
      IndexIs(nvs, limit, key, i + 1, at);
    }
  }

  // The name a cell gives after the first n updates of a delete, if it can be read.
  function NameAfter(names: seq<string>, i: nat, n: nat, k: nat): Option<string>
    requires k < |names|
  {
    if k + 1 == |names| && n > |names| - i then None
    else if i <= k && k + 1 < i + n && k + 1 < |names| then Some(names[k + 1])
    else Some(names[k])
  }

  function CountAfter(names: seq<string>, i: nat, n: nat): nat
    requires i < |names|
  {
    if n > |names| - i + 1 then |names| - 1 else |names|
  }

  lemma DeletePrefix(nvs: Nvs, r: Registry, limit: nat, i: nat, n: nat)
    requires Represents(nvs, r) && Sound(r, limit) && i < |r.names| && n > 0
    ensures Counter(nvs) == |r.names|
    ensures var shift, erased := ShiftUpdates(nvs, limit, i), nvs - {ValueId(i)};
      var last := |r.names| - 1;
      && |shift| == last - i
      && ApplyFirst(nvs, DeleteUpdates(nvs, limit, i), n) ==
           if n <= |shift| + 1 then ApplyFirst(erased, shift, n - 1)
           else
             var named := ApplyFirst(erased, shift, |shift|) - {KeyId(last)};
             if n == |shift| + 2 then named else named[COUNTER_ID := Number(last)]
  {
    CounterIsCount(nvs, r);
    var shift, erased := ShiftUpdates(nvs, limit, i), nvs - {ValueId(i)};
    var last := |r.names| - 1;
    ShiftMovesNames(nvs, erased, limit, r.names, i, 0);
    var us := DeleteUpdates(nvs, limit, i);
    var tail := [Erase(KeyId(last)), Put(COUNTER_ID, Number(last))];
    assert us[0] == Erase(ValueId(i)) && us[1..] == shift + tail;
    assert ApplyFirst(nvs, us, n) == ApplyFirst(erased, shift + tail, n - 1);
    hide DeleteUpdates, ShiftUpdates, Represents, Sound, ApplyFirst;
    ApplyConcat(erased, shift, tail, n - 1);
    if n > |shift| + 1 {
      FirstOfTwo(ApplyFirst(erased, shift, |shift|), tail[0], tail[1], n - 1 - |shift|);
    }
  }

  lemma FirstOfTwo(nvs: Nvs, a: Update, b: Update, n: nat)
    requires n > 0
    ensures ApplyFirst(nvs, [a, b], n) == if n == 1 then Apply(nvs, a) else Apply(Apply(nvs, a), b)
  {
    assert [a, b][1..] == [b];
    ApplyOne(Apply(nvs, a), b, n - 1);
  }

  // The name of a cell after m names have moved down from i on.
  function Moved(names: seq<string>, i: nat, m: nat, k: nat): string
    requires k < |names|
  {
    if i <= k < i + m && k + 1 < |names| then names[k + 1] else names[k]
  }

  lemma ShiftedName(nvs: Nvs, after: Nvs, r: Registry, limit: nat, i: nat, m: nat, k: nat)
    requires Sound(r, limit) && i < |r.names| && k < |r.names| && NamesAre(nvs, r.names)
    requires if k >= i then Shifted(after, r.names, i, m, k) else KeyId(k) in after && after[KeyId(k)] == nvs[KeyId(k)]
    ensures Reads(after, limit, k, Some(Moved(r.names, i, m, k)))
  {
  }

  lemma ShiftedCells(nvs: Nvs, r: Registry, limit: nat, i: nat, m: nat)
    requires Represents(nvs, r) && Sound(r, limit) && i < |r.names|
    ensures var after := ApplyFirst(nvs - {ValueId(i)}, ShiftUpdates(nvs, limit, i), m);
      && NumberAt(after, COUNTER_ID) == Some(|r.names|)
      && ValuesAre(after, r.values[i := None])
      && forall k :: 0 <= k < |r.names| ==> Reads(after, limit, k, Some(Moved(r.names, i, m, k)))
  {
    var erased := nvs - {ValueId(i)};
    var after := ApplyFirst(erased, ShiftUpdates(nvs, limit, i), m);
    ShiftMovesNames(nvs, erased, limit, r.names, i, m);
    hide ShiftUpdates, ApplyFirst;
    ErasedValue(nvs, after, r.values, i);
    hide ValuesAre, Shifted, Reads, Moved;
    forall k | 0 <= k < |r.names|
      ensures Reads(after, limit, k, Some(Moved(r.names, i, m, k)))
    {
      ShiftedName(nvs, after, r, limit, i, m, k);
    }
  }

  lemma LastName(shifted: Nvs, names: seq<string>, limit: nat, i: nat, n: nat, k: nat)
    requires i < |names| && k < |names| && n > 0
    requires var m := if n <= |names| - i then n - 1 else |names| - 1 - i;
      Reads(shifted, limit, k, Some(Moved(names, i, m, k)))
    ensures n <= |names| - i ==> Reads(shifted, limit, k, NameAfter(names, i, n, k))
    ensures n > |names| - i ==>
      && Reads(shifted - {KeyId(|names| - 1)}, limit, k, NameAfter(names, i, n, k))
      && Reads((shifted - {KeyId(|names| - 1)})[COUNTER_ID := Number(|names| - 1)], limit, k, NameAfter(names, i, n, k))
  {
  }

  lemma DeletedCells(nvs: Nvs, r: Registry, limit: nat, i: nat, n: nat)
    requires Represents(nvs, r) && Sound(r, limit) && i < |r.names| && n > 0
    ensures Counter(nvs) == |r.names|
    ensures var after := ApplyFirst(nvs, DeleteUpdates(nvs, limit, i), n);
      && Counter(after) == CountAfter(r.names, i, n)
      && ValuesAre(after, r.values[i := None])
      && forall k :: 0 <= k < |r.names| ==> Reads(after, limit, k, NameAfter(r.names, i, n, k))
  {
    DeletePrefix(nvs, r, limit, i, n);
    var shift, erased := ShiftUpdates(nvs, limit, i), nvs - {ValueId(i)};
    var m := if n <= |r.names| - i then n - 1 else |shift|;
    var shifted := ApplyFirst(erased, shift, m);
    var after := ApplyFirst(nvs, DeleteUpdates(nvs, limit, i), n);
    assert |r.names| <= KEYS_SIZE;
    ShiftedCells(nvs, r, limit, i, m);
    hide DeleteUpdates, ShiftUpdates, ApplyFirst, Represents, Sound, Reads, Moved, NameAfter;
    forall k | 0 <= k < |r.names|
      ensures Reads(after, limit, k, NameAfter(r.names, i, n, k))
    {
      hide ValuesAre;
      LastName(shifted, r.names, limit, i, n, k);
    }
    NamesAndCountApart(shifted, r.values[i := None], |r.names| - 1);
    hide ValuesAre;
  }

  lemma NamesAndCountApart(nvs: Nvs, values: seq<Option<string>>, last: nat)
    requires ValuesAre(nvs, values) && last < KEYS_SIZE
    ensures ValuesAre(nvs - {KeyId(last)}, values)
    ensures ValuesAre((nvs - {KeyId(last)})[COUNTER_ID := Number(last)], values)
  {
  }

  /** Wherever a delete is cut short: keys registered earlier show their values, the deleted one
      shows nothing, and the later ones show their own values or, once their names have moved
      down, what their predecessors' cells hold. */
  lemma CutDeleteShows(nvs: Nvs, r: Registry, limit: nat, i: nat, n: nat, j: nat)
    requires Represents(nvs, r) && Sound(r, limit) && i < |r.names| && j < |r.names|
    ensures Counter(nvs) == |r.names|
    ensures Shown(ApplyFirst(nvs, DeleteUpdates(nvs, limit, i), n), limit, r.names[j]) ==
      if n == 0 || j < i then r.values[j]
      else if j == i then None
      else if j >= i + n then r.values[j]
      else if j == i + 1 then None
      else r.values[j - 1]
  {
    CounterIsCount(nvs, r);
    var key := r.names[j];
    if n == 0 {
      IndexOfIsPosition(nvs, limit, r, key);
      PositionFinds(r.names, key);
      hide DeleteUpdates, IndexOf, Position;
    } else {
      DeletedCells(nvs, r, limit, i, n);
      assert |r.names| <= |r.values| == KEYS_SIZE;
      var after := ApplyFirst(nvs, DeleteUpdates(nvs, limit, i), n);
      hide ApplyFirst, DeleteUpdates, Represents, ValuesAre;
      var at := FoundAt(nvs, after, r, limit, i, n, j);
      hide IndexFrom, Sound, CountAfter;
      if at < Counter(after) {
        ValueShown(after, r.values[i := None], at);
      }
    }
  }

  lemma ValueShown(nvs: Nvs, values: seq<Option<string>>, at: nat)
    requires ValuesAre(nvs, values) && at < KEYS_SIZE
    ensures values[at] == if ValueId(at) in nvs && nvs[ValueId(at)].Text? then Some(nvs[ValueId(at)].s) else None
  {
  }

  lemma FoundAt(nvs: Nvs, after: Nvs, r: Registry, limit: nat, i: nat, n: nat, j: nat) returns (at: nat)
    requires Sound(r, limit) && i < |r.names| && j < |r.names| && n > 0
    requires Counter(after) == CountAfter(r.names, i, n)
    requires forall k :: 0 <= k < |r.names| ==> Reads(after, limit, k, NameAfter(r.names, i, n, k))
    ensures at == if j < i || j >= i + n then j else if j > i then j - 1 else if n == 1 then i else CountAfter(r.names, i, n)
    ensures at <= CountAfter(r.names, i, n)
    ensures IndexOf(after, limit, r.names[j]) == if at < Counter(after) then Some(at) else None
  {
    at := if j < i || j >= i + n then j else if j > i then j - 1 else if n == 1 then i else CountAfter(r.names, i, n);
    NamedAt(r, limit, i, n, j, at);
    hide NameAfter;
    forall k | 0 <= k < at
      ensures !Reads(after, limit, k, Some(r.names[j]))
    {
      assert Reads(after, limit, k, NameAfter(r.names, i, n, k)) && NameAfter(r.names, i, n, k) != Some(r.names[j]);
    }
    assert at < Counter(after) ==> Reads(after, limit, at, NameAfter(r.names, i, n, at));
    hide Reads, IndexFrom, CountAfter;
    IndexIs(after, limit, r.names[j], 0, at);
  }

  // The first cell that gives the name.
  lemma NamedAt(r: Registry, limit: nat, i: nat, n: nat, j: nat, at: nat)
    requires Sound(r, limit) && i < |r.names| && j < |r.names| && n > 0
    requires at ==
      if j < i || j >= i + n then j else if j > i then j - 1 else if n == 1 then i else CountAfter(r.names, i, n)
    ensures at <= CountAfter(r.names, i, n)
    ensures forall k :: 0 <= k < at ==> NameAfter(r.names, i, n, k) != Some(r.names[j])
    ensures at < CountAfter(r.names, i, n) ==> NameAfter(r.names, i, n, at) == Some(r.names[j])
  {
  }

  // ---------- Resizes and boots ----------

  function LimitUpdates(valueLen: nat, maxKeys: nat): seq<Update> {
    [Put(MAX_VALUE_LEN_ID, Number(valueLen)), Put(MAX_KEYS_ID, Number(maxKeys))]
  }

  // The arguments are refused before any cell is written.
  function ResizeRefused(d: Device, newValueLen: nat, newMaxKeys: nat): Option<Code> {
    if newMaxKeys >= KEYS_SIZE || newValueLen == 0 || newMaxKeys == 0 then Some(Invalid)
    else
      var oldValueLen, oldMaxKeys := NumberAt(d.nvs, MAX_VALUE_LEN_ID), NumberAt(d.nvs, MAX_KEYS_ID);
      if oldValueLen.None? || oldMaxKeys.None? then Some(NoEntry)
      else if Counter(d.nvs) > 0 && (newMaxKeys < Counter(d.nvs) || newValueLen < oldValueLen.value) then Some(Invalid)
      else None
  }

  /** A resize of which the store takes only the first updates: the limits in memory change only
      with both cells. */
  function ResizeFirst(d: Device, newValueLen: nat, newMaxKeys: nat, n: nat): (Device, Result) {
    var refused := ResizeRefused(d, newValueLen, newMaxKeys);
    if refused.Some? then (d, Failed(refused.value))
    else
      var written := d.(nvs := ApplyFirst(d.nvs, LimitUpdates(newValueLen, newMaxKeys), n));
      if n < 2 then (written, Failed(IoError))
      else (written.(maxValueLen := newValueLen, maxKeys := newMaxKeys), Done)
  }

  /** A boot over an existing store, and whether it comes up. */
  function MismatchFirst(d: Device, storedValueLen: nat, storedMaxKeys: nat, n: nat): (Device, bool) {
    var grow := d.maxValueLen > storedValueLen;
    var (resized, result) := ResizeFirst(d, d.maxValueLen, d.maxKeys, n);
    if grow && result.Done? then (resized, true)
    else
      var left := if grow && result == Failed(IoError) then 0 else n;
      var shrinkKeys := d.maxKeys < storedMaxKeys && Counter(d.nvs) > d.maxKeys;
      if d.maxValueLen == storedValueLen && !shrinkKeys then (d, true)
      else
        var maxKeys := if grow || shrinkKeys then storedMaxKeys else d.maxKeys;
        var nvs := if grow then resized.nvs else d.nvs;
        (d.(nvs := ApplyFirst(nvs, LimitUpdates(storedValueLen, maxKeys), left),
            maxValueLen := storedValueLen, maxKeys := maxKeys), left >= 2)
  }

  function InitFirst(d: Device, n: nat): Device {
    if NumberAt(d.nvs, COUNTER_ID).None? then
      d.(nvs := ApplyFirst(d.nvs, [Put(COUNTER_ID, Number(0))] + LimitUpdates(d.maxValueLen, d.maxKeys), n), up := n >= 3)
    else
      var valueLen, maxKeys := NumberAt(d.nvs, MAX_VALUE_LEN_ID), NumberAt(d.nvs, MAX_KEYS_ID);
      if valueLen.None? || maxKeys.None? then d.(up := false)
      else
        var (booted, ok) := MismatchFirst(d, valueLen.value, maxKeys.value, n);
        booted.(up := ok)
  }

  lemma LimitsFirst(nvs: Nvs, valueLen: nat, maxKeys: nat, n: nat)
    ensures ApplyFirst(nvs, LimitUpdates(valueLen, maxKeys), n) ==
      if n == 0 then nvs
      else if n == 1 then nvs[MAX_VALUE_LEN_ID := Number(valueLen)]
      else PutLimits(nvs, valueLen, maxKeys)
  {
    var us := LimitUpdates(valueLen, maxKeys);
    assert us[1..] == [us[1]];
    if n > 0 {
      ApplyOne(Apply(nvs, us[0]), us[1], n - 1);
    }
  }

  /** With two updates a resize is the whole resize, and with three a boot is the whole boot. */
  lemma EnoughUpdates(d: Device, newValueLen: nat, newMaxKeys: nat, n: nat)
    requires n >= 3
    ensures ResizeFirst(d, newValueLen, newMaxKeys, n - 1) == ResizeLimits(d, newValueLen, newMaxKeys)
    ensures InitFirst(d, n) == InitFlash(d)
  {
    LimitsFirst(d.nvs, newValueLen, newMaxKeys, n - 1);
    InitWhole(d, n);
    hide ApplyFirst, InitFirst, InitFlash;
  }

  /** A resize that is refused is refused at once. One that is cut fails and leaves the limits in
      use as they were; of the cells it may have changed the length limit, and nothing else. */
  lemma CutResizeShows(d: Device, newValueLen: nat, newMaxKeys: nat, n: nat)
    requires n < 2
    ensures var whole, cut := ResizeLimits(d, newValueLen, newMaxKeys), ResizeFirst(d, newValueLen, newMaxKeys, n);
      if whole.1 != Done then cut == whole
      else cut == (d.(nvs := if n == 0 then d.nvs else d.nvs[MAX_VALUE_LEN_ID := Number(newValueLen)]), Failed(IoError))
  {
    LimitsFirst(d.nvs, newValueLen, newMaxKeys, n);
    hide ApplyFirst;
  }

  lemma InitWhole(d: Device, n: nat)
    requires n >= 3
    ensures InitFirst(d, n) == InitFlash(d)
  {
    if NumberAt(d.nvs, COUNTER_ID).None? {
      FirstBootFirst(d.nvs, d.maxValueLen, d.maxKeys, n);
    } else if NumberAt(d.nvs, MAX_VALUE_LEN_ID).Some? && NumberAt(d.nvs, MAX_KEYS_ID).Some? {
      MismatchWhole(d, NumberAt(d.nvs, MAX_VALUE_LEN_ID).value, NumberAt(d.nvs, MAX_KEYS_ID).value, n);
    }
    hide ApplyFirst, MismatchFirst, HandleMismatch, LimitUpdates;
  }

  lemma FirstBootFirst(nvs: Nvs, valueLen: nat, maxKeys: nat, n: nat)
    ensures ApplyFirst(nvs, [Put(COUNTER_ID, Number(0))] + LimitUpdates(valueLen, maxKeys), n) ==
      if n == 0 then nvs
      else ApplyFirst(nvs[COUNTER_ID := Number(0)], LimitUpdates(valueLen, maxKeys), n - 1)
    ensures var us := [Put(COUNTER_ID, Number(0))] + LimitUpdates(valueLen, maxKeys);
      n >= 3 ==> ApplyFirst(nvs, us, n) == PutLimits(nvs[COUNTER_ID := Number(0)], valueLen, maxKeys)
  {
    var us := [Put(COUNTER_ID, Number(0))] + LimitUpdates(valueLen, maxKeys);
    assert us[1..] == LimitUpdates(valueLen, maxKeys);
    if n > 0 {
      LimitsFirst(nvs[COUNTER_ID := Number(0)], valueLen, maxKeys, n - 1);
    }
  }

  lemma MismatchWhole(d: Device, storedValueLen: nat, storedMaxKeys: nat, n: nat)
    requires n >= 2
    ensures MismatchFirst(d, storedValueLen, storedMaxKeys, n) == (HandleMismatch(d, storedValueLen, storedMaxKeys), true)
  {
    LimitsFirst(d.nvs, d.maxValueLen, d.maxKeys, n);
    var shrinkKeys := d.maxKeys < storedMaxKeys && Counter(d.nvs) > d.maxKeys;
    var maxKeys := if d.maxValueLen > storedValueLen || shrinkKeys then storedMaxKeys else d.maxKeys;
    LimitsFirst(d.nvs, storedValueLen, maxKeys, n);
    hide ApplyFirst, LimitUpdates, Counter, NumberAt;
  }

  // Both limits are stored, and the registry fits the length limit.
  ghost predicate Bootable(nvs: Nvs, r: Registry) {
    && Represents(nvs, r)
    && NumberAt(nvs, MAX_VALUE_LEN_ID).Some? && NumberAt(nvs, MAX_KEYS_ID).Some?
    && 0 < NumberAt(nvs, MAX_VALUE_LEN_ID).value && Sound(r, NumberAt(nvs, MAX_VALUE_LEN_ID).value)
  }

  lemma LimitsKeepBootable(nvs: Nvs, r: Registry, valueLen: nat, maxKeys: nat, n: nat)
    requires Bootable(nvs, r) && 0 < valueLen && Sound(r, valueLen)
    ensures Bootable(ApplyFirst(nvs, LimitUpdates(valueLen, maxKeys), n), r)
  {
    LimitsFirst(nvs, valueLen, maxKeys, n);
    hide ApplyFirst, LimitUpdates;
  }

  /** However early a boot over a sound store is cut, whatever limits it was to adopt: the store
      keeps its registry, and the next boot that is not cut comes up with it. */
  lemma CutBootRecovers(d: Device, r: Registry, cfgValueLen: nat, cfgMaxKeys: nat, n: nat,
                        nextValueLen: nat, nextMaxKeys: nat)
    requires Valid(d, r) && Configurable(cfgValueLen, cfgMaxKeys) && Configurable(nextValueLen, nextMaxKeys)
    ensures var cut := InitFirst(Device(d.nvs, cfgValueLen, cfgMaxKeys, cfgValueLen, cfgMaxKeys, false), n);
      && Represents(cut.nvs, r)
      && Valid(Step(cut, Boot(nextValueLen, nextMaxKeys)).0, r)
  {
    var boot := Device(d.nvs, cfgValueLen, cfgMaxKeys, cfgValueLen, cfgMaxKeys, false);
    CutBootKeepsBootable(d, r, boot, n);
    hide InitFirst, Configurable, Valid;
    BootableBoots(InitFirst(boot, n), r, nextValueLen, nextMaxKeys);
    hide Step;
  }

  lemma BootableBoots(cut: Device, r: Registry, valueLen: nat, maxKeys: nat)
    requires Bootable(cut.nvs, r) && Configurable(valueLen, maxKeys)
    ensures Represents(cut.nvs, r) && Valid(Step(cut, Boot(valueLen, maxKeys)).0, r)
  {
    var up := Device(cut.nvs, NumberAt(cut.nvs, MAX_VALUE_LEN_ID).value, 0, 1, 0, true);
    BootKeepsValid(up, r, valueLen, maxKeys);
    assert Step(up, Boot(valueLen, maxKeys)) == Step(cut, Boot(valueLen, maxKeys));
    hide InitFlash, Represents, Sound, NumberAt;
  }

  lemma CutBootKeepsBootable(d: Device, r: Registry, boot: Device, n: nat)
    requires Valid(d, r) && boot.nvs == d.nvs && 0 < boot.maxValueLen
    ensures Bootable(InitFirst(boot, n).nvs, r)
  {
    CounterIsCount(d.nvs, r);
    var stored := NumberAt(d.nvs, MAX_KEYS_ID).value;
    assert Bootable(d.nvs, r) && NumberAt(d.nvs, COUNTER_ID).Some?;
    if boot.maxValueLen > d.maxValueLen {
      LargerLimitKeepsSound(r, d.maxValueLen, boot.maxValueLen);
      LimitsKeepBootable(d.nvs, r, boot.maxValueLen, boot.maxKeys, n);
      var resized := ApplyFirst(d.nvs, LimitUpdates(boot.maxValueLen, boot.maxKeys), n);
      LimitsKeepBootable(resized, r, d.maxValueLen, stored, 0);
      LimitsKeepBootable(d.nvs, r, d.maxValueLen, stored, n);
    } else {
      LimitsKeepBootable(d.nvs, r, d.maxValueLen, stored, n);
      LimitsKeepBootable(d.nvs, r, d.maxValueLen, boot.maxKeys, n);
    }
    hide Bootable, Represents, Sound, ApplyFirst, LimitUpdates;
  }
}
