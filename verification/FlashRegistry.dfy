/** The flash back end of the settings: numbered NVS cells hold a counter, two limits, the
    registered key names and, one fixed offset further, their values. */
module FlashRegistry {
  import opened Basics
  import opened SettingsText

  const COUNTER_ID: nat := 0
  const MAX_VALUE_LEN_ID: nat := 1
  const MAX_KEYS_ID: nat := 2
  const KEYS_START: nat := 3
  const KEYS_SIZE: nat := 100

  datatype Cell = Number(n: nat) | Text(s: string)

  type Nvs = map<nat, Cell>

  // One atomic update of the store.
  datatype Update = Put(id: nat, cell: Cell) | Erase(id: nat)

  datatype Code = TooBig | Invalid | NoEntry | NoSpace | IoError

  datatype Result = Done | Value(value: string) | Failed(code: Code)

  function KeyId(i: nat): nat { KEYS_START + i }

  function ValueId(i: nat): nat { i + KEYS_START + KEYS_SIZE }

  function Apply(nvs: Nvs, u: Update): Nvs {
    match u
    case Put(id, cell) => nvs[id := cell]
    case Erase(id) => nvs - {id}
  }

  /** The store after the first updates of a list: a power cut, or a store that refuses every
      update from some point on, leaves such a prefix. */
  function ApplyFirst(nvs: Nvs, us: seq<Update>, n: nat): Nvs
    decreases |us|
  {
    if us == [] || n == 0 then nvs else ApplyFirst(Apply(nvs, us[0]), us[1..], n - 1)
  }

  function NumberAt(nvs: Nvs, id: nat): Option<nat> {
    if id in nvs && nvs[id].Number? then Some(nvs[id].n) else None
  }

  // A read into a buffer of `limit` characters.
  function ReadText(nvs: Nvs, id: nat, limit: nat): Option<string> {
    if id in nvs && nvs[id].Text? then Some(Prefix(nvs[id].s, limit)) else None
  }

  function Counter(nvs: Nvs): nat {
    if NumberAt(nvs, COUNTER_ID).Some? then NumberAt(nvs, COUNTER_ID).value else 0
  }

  // ---------- The registry on the store ----------

  /** The first registered index from `i` on that carries the key; empty names are skipped. */
  function IndexFrom(nvs: Nvs, limit: nat, key: string, i: nat): Option<nat>
    decreases Counter(nvs) - i
  {
    if i >= Counter(nvs) then None
    else if ReadText(nvs, KeyId(i), limit) == Some(key) && key != "" then Some(i)
    else IndexFrom(nvs, limit, key, i + 1)
  }

  function IndexOf(nvs: Nvs, limit: nat, key: string): Option<nat> {
    IndexFrom(nvs, limit, key, 0)
  }

  // The updates that register a key behind the last one.
  function AddUpdates(nvs: Nvs, key: string): seq<Update> {
    [Put(KeyId(Counter(nvs)), Text(key)), Put(COUNTER_ID, Number(Counter(nvs) + 1))]
  }

  // Where the value of a key goes; a key that cannot be found has index -1.
  function ValueCell(index: Option<nat>): nat {
    match index
    case Some(i) => ValueId(i)
    case None => KEYS_START + KEYS_SIZE - 1
  }

  function SetUpdates(nvs: Nvs, limit: nat, maxKeys: nat, key: string, value: string): (us: Option<seq<Update>>)
    ensures us.Some? ==> 1 <= |us.value| <= 3
  {
    var index := IndexOf(nvs, limit, key);
    if index.Some? then
      Some([Put(ValueCell(index), Text(value))])
    else if Counter(nvs) >= maxKeys || Counter(nvs) >= KEYS_SIZE then
      None
    else
      var added := AddUpdates(nvs, key);
      Some(added + [Put(ValueCell(IndexOf(ApplyFirst(nvs, added, 2), limit, key)), Text(value))])
  }

  // The updates that move the names from `i` on one place down.
  function ShiftUpdates(nvs: Nvs, limit: nat, i: nat): seq<Update>
    decreases Counter(nvs) - i
  {
    if i + 1 >= Counter(nvs) then [] else
    var name := ReadText(nvs, KeyId(i + 1), limit);
    (if name.Some? then [Put(KeyId(i), Text(name.value))] else []) + ShiftUpdates(nvs, limit, i + 1)
  }

  /** A delete erases the value cell, closes the gap among the names, and erases the last
      name; the value cells stay where they are. */
  function DeleteUpdates(nvs: Nvs, limit: nat, i: nat): seq<Update>
    requires i < Counter(nvs)
  {
    [Erase(ValueId(i))] + ShiftUpdates(nvs, limit, i)
      + [Erase(KeyId(Counter(nvs) - 1)), Put(COUNTER_ID, Number(Counter(nvs) - 1))]
  }

  // ---------- The registry as two lists ----------

  /** Names in registration order, and the value cells by position. */
  datatype Registry = Registry(names: seq<string>, values: seq<Option<string>>)

  function Position(names: seq<string>, key: string): Option<nat> {
    if names == [] then None
    else if names[0] == key then Some(0)
    else match Position(names[1..], key)
         case None => None
         case Some(i) => Some(i + 1)
  }

  ghost predicate NamesAre(nvs: Nvs, names: seq<string>) {
    forall i :: 0 <= i < |names| ==> KeyId(i) in nvs && nvs[KeyId(i)] == Text(names[i])
  }

  ghost predicate ValuesAre(nvs: Nvs, values: seq<Option<string>>) {
    && |values| == KEYS_SIZE
    && forall i :: 0 <= i < KEYS_SIZE ==>
         if values[i].Some? then ValueId(i) in nvs && nvs[ValueId(i)] == Text(values[i].value)
         else ValueId(i) !in nvs
  }

  ghost predicate Represents(nvs: Nvs, r: Registry) {
    && NumberAt(nvs, COUNTER_ID) == Some(|r.names|)
    && |r.names| <= KEYS_SIZE
    && NamesAre(nvs, r.names)
    && ValuesAre(nvs, r.values)
  }

  /** Names are distinct and non-empty, and no stored text reaches the length limit. */
  ghost predicate Sound(r: Registry, limit: nat) {
    && |r.names| <= |r.values| == KEYS_SIZE
    && (forall i :: 0 <= i < |r.names| ==> r.names[i] != "" && |r.names[i]| < limit)
    && (forall i, j :: 0 <= i < j < |r.names| ==> r.names[i] != r.names[j])
    && (forall i :: 0 <= i < |r.names| && r.values[i].Some? ==> |r.values[i].value| < limit)
  }

  lemma {:induction false} PositionFinds(names: seq<string>, key: string)
    ensures match Position(names, key)
      case Some(i) => i < |names| && names[i] == key && key !in names[..i]
      case None => key !in names
  {
    if names != [] {
      PositionFinds(names[1..], key);
    }
  }

  lemma {:induction false} IndexByName(nvs: Nvs, limit: nat, names: seq<string>, key: string, i: nat)
    requires NumberAt(nvs, COUNTER_ID) == Some(|names|) && NamesAre(nvs, names)
    requires (forall j :: 0 <= j < |names| ==> |names[j]| < limit) && key != "" && i <= |names|
    ensures IndexFrom(nvs, limit, key, i) ==
      match Position(names[i..], key) case None => None case Some(j) => Some(i + j)
    decreases |names| - i
  {
    if i < |names| {
      assert ReadText(nvs, KeyId(i), limit) == Some(names[i]);
      assert names[i..][1..] == names[i + 1..];
      IndexByName(nvs, limit, names, key, i + 1);
    }
  }

  lemma IndexOfIsPosition(nvs: Nvs, limit: nat, r: Registry, key: string)
    requires Represents(nvs, r) && Sound(r, limit) && key != ""
    ensures IndexOf(nvs, limit, key) == Position(r.names, key)
  {
    IndexByName(nvs, limit, r.names, key, 0);
    assert r.names[0..] == r.names;
  }

  // ---------- What each operation does to the lists ----------

  function AddName(r: Registry, key: string): Registry {
    r.(names := r.names + [key])
  }

  function PutValue(r: Registry, i: nat, value: string): Registry
    requires i < |r.values|
  {
    r.(values := r.values[i := Some(value)])
  }

  function DropName(r: Registry, i: nat): Registry
    requires i < |r.names| <= |r.values|
  {
    Registry(r.names[..i] + r.names[i + 1..], r.values[i := None])
  }

  lemma IdsNeverCollide(i: nat, j: nat)
    requires i < KEYS_SIZE && j < KEYS_SIZE
    ensures KeyId(i) != ValueId(j) && KeyId(i) > MAX_KEYS_ID && ValueId(j) > MAX_KEYS_ID
    ensures i != j ==> KeyId(i) != KeyId(j) && ValueId(i) != ValueId(j)
  {
  }

  lemma PutValueRepresented(nvs: Nvs, r: Registry, i: nat, value: string)
    requires Represents(nvs, r) && i < KEYS_SIZE
    ensures Represents(nvs[ValueId(i) := Text(value)], PutValue(r, i, value))
  {
  }

  lemma NameBehindLastIsInvisible(nvs: Nvs, r: Registry, key: string)
    requires Represents(nvs, r) && |r.names| < KEYS_SIZE
    ensures Represents(nvs[KeyId(|r.names|) := Text(key)], r)
  {
  }

  lemma CountingRegisters(nvs: Nvs, r: Registry, key: string)
    requires Represents(nvs, r) && |r.names| < KEYS_SIZE
    requires KeyId(|r.names|) in nvs && nvs[KeyId(|r.names|)] == Text(key)
    ensures Represents(nvs[COUNTER_ID := Number(|r.names| + 1)], AddName(r, key))
  {
  }

  // ---------- Setting ----------

  /** The registry a set leaves when only its first `n` updates take effect. */
  function AfterSet(r: Registry, key: string, value: string, n: nat): (r': Registry)
    requires |r.names| < |r.values| || Position(r.names, key).Some?
    requires |r.names| <= |r.values|
    ensures |r'.names| <= |r'.values| == |r.values|
  {
    PositionFinds(r.names, key);
    match Position(r.names, key)
    case Some(i) => if n >= 1 then PutValue(r, i, value) else r
    case None =>
      if n >= 3 then PutValue(AddName(r, key), |r.names|, value)
      else if n == 2 then AddName(r, key)
      else r
  }

  lemma ApplyTwo(nvs: Nvs, a: Update, b: Update)
    ensures ApplyFirst(nvs, [a, b], 2) == Apply(Apply(nvs, a), b)
  {
    assert [a, b][1..] == [b] && [b][1..] == [];
    assert ApplyFirst(Apply(nvs, a), [b], 1) == ApplyFirst(Apply(Apply(nvs, a), b), [], 0);
  }

  lemma ApplyOne(nvs: Nvs, a: Update, n: nat)
    ensures ApplyFirst(nvs, [a], n) == if n == 0 then nvs else Apply(nvs, a)
  {
    assert [a][1..] == [];
  }

  lemma ApplyThree(nvs: Nvs, a: Update, b: Update, c: Update, n: nat)
    ensures ApplyFirst(nvs, [a, b] + [c], n) ==
      if n == 0 then nvs
      else if n == 1 then Apply(nvs, a)
      else if n == 2 then Apply(Apply(nvs, a), b)
      else Apply(Apply(Apply(nvs, a), b), c)
  {
    var us := [a, b] + [c];
    assert us[1..] == [b, c] && [b, c][1..] == [c] && [c][1..] == [];
    if n > 1 {
      ApplyOne(Apply(Apply(nvs, a), b), c, n - 2);
      assert ApplyFirst(Apply(nvs, a), [b, c], n - 1) == ApplyFirst(Apply(Apply(nvs, a), b), [c], n - 2);
    }
  }

  lemma PositionAppended(names: seq<string>, key: string)
    requires key !in names
    ensures Position(names + [key], key) == Some(|names|)
  {
    PositionFinds(names + [key], key);
    assert (names + [key])[|names|] == key;
  }

  lemma AddNameKeepsSound(r: Registry, limit: nat, key: string)
    requires Sound(r, limit) && key != "" && |key| < limit && key !in r.names && |r.names| < KEYS_SIZE
    requires r.values[|r.names|].Some? ==> |r.values[|r.names|].value| < limit
    ensures Sound(AddName(r, key), limit)
  {
  }

  lemma PutValueKeepsSound(r: Registry, limit: nat, i: nat, value: string)
    requires Sound(r, limit) && i < KEYS_SIZE && |value| < limit
    ensures Sound(PutValue(r, i, value), limit)
  {
  }

  /** Looking a key up in the registry with the added name, whatever the cells hold. */
  lemma AddedIsFound(nvs: Nvs, r: Registry, limit: nat, key: string)
    requires Represents(nvs, r) && Sound(r, limit) && key !in r.names
    requires key != "" && |key| < limit && |r.names| < KEYS_SIZE
    ensures var added := ApplyFirst(nvs, AddUpdates(nvs, key), 2);
      Represents(added, AddName(r, key)) && IndexOf(added, limit, key) == Some(|r.names|)
  {
    hide Represents, IndexOf;
    assert Counter(nvs) == |r.names| by { CounterIsCount(nvs, r); }
    var named := nvs[KeyId(|r.names|) := Text(key)];
    NameBehindLastIsInvisible(nvs, r, key);
    CountingRegisters(named, r, key);
    ApplyTwo(nvs, Put(KeyId(|r.names|), Text(key)), Put(COUNTER_ID, Number(|r.names| + 1)));
    IndexOfAdded(ApplyFirst(nvs, AddUpdates(nvs, key), 2), r, limit, key);
  }

  lemma CounterIsCount(nvs: Nvs, r: Registry)
    requires Represents(nvs, r)
    ensures Counter(nvs) == |r.names|
  {
  }

  lemma IndexOfAdded(nvs: Nvs, r: Registry, limit: nat, key: string)
    requires Represents(nvs, AddName(r, key)) && Sound(r, limit) && key !in r.names
    requires key != "" && |key| < limit && |r.names| < KEYS_SIZE
    ensures IndexOf(nvs, limit, key) == Some(|r.names|)
  {
    IndexByName(nvs, limit, r.names + [key], key, 0);
    PositionAppended(r.names, key);
    assert (r.names + [key])[0..] == r.names + [key];
  }

  /** A set interrupted anywhere leaves a store that represents the old registry, the old one
      with the name added, or the finished one. */
  lemma SetRepresents(nvs: Nvs, r: Registry, limit: nat, maxKeys: nat, key: string, value: string, n: nat)
    requires Represents(nvs, r) && Sound(r, limit) && key != "" && |key| < limit
    ensures SetUpdates(nvs, limit, maxKeys, key, value).None?
      <==> key !in r.names && (|r.names| >= maxKeys || |r.names| >= KEYS_SIZE)
    ensures SetUpdates(nvs, limit, maxKeys, key, value).Some? ==>
      && (|r.names| < |r.values| || Position(r.names, key).Some?)
      && Represents(ApplyFirst(nvs, SetUpdates(nvs, limit, maxKeys, key, value).value, n), AfterSet(r, key, value, n))
      && |SetUpdates(nvs, limit, maxKeys, key, value).value| == if key in r.names then 1 else 3
  {
    hide Represents, IndexOf;
    IndexOfIsPosition(nvs, limit, r, key);
    PositionFinds(r.names, key);
    CounterIsCount(nvs, r);
    var us := SetUpdates(nvs, limit, maxKeys, key, value);
    match Position(r.names, key)
    case Some(i) =>
      ApplyOne(nvs, Put(ValueId(i), Text(value)), n);
      PutValueRepresented(nvs, r, i, value);
    case None =>
      if us.Some? {
        AddedIsFound(nvs, r, limit, key);
        var added := ApplyFirst(nvs, AddUpdates(nvs, key), 2);
        PutValueRepresented(added, AddName(r, key), |r.names|, value);
        NameBehindLastIsInvisible(nvs, r, key);
        var a, b := Put(KeyId(|r.names|), Text(key)), Put(COUNTER_ID, Number(|r.names| + 1));
        ApplyTwo(nvs, a, b);
        ApplyThree(nvs, a, b, Put(ValueId(|r.names|), Text(value)), n);
      }
  }

  // ---------- Deleting ----------

  lemma {:induction false} ApplyConcat(nvs: Nvs, us: seq<Update>, vs: seq<Update>, n: nat)
    ensures ApplyFirst(nvs, us + vs, n) ==
      if n <= |us| then ApplyFirst(nvs, us, n) else ApplyFirst(ApplyFirst(nvs, us, |us|), vs, n - |us|)
    decreases |us|
  {
    if us == [] {
      assert us + vs == vs;
    } else if n > 0 {
      assert (us + vs)[1..] == us[1..] + vs;
      ApplyConcat(Apply(nvs, us[0]), us[1..], vs, n - 1);
    }
  }

  ghost predicate OnlyNamesDiffer(nvs: Nvs, nvs': Nvs) {
    forall id :: !(KEYS_START <= id < KEYS_START + KEYS_SIZE) ==>
      (id in nvs <==> id in nvs') && (id in nvs ==> nvs[id] == nvs'[id])
  }

  // A name cell after the first updates of a shift from i on.
  ghost predicate Shifted(now: Nvs, names: seq<string>, i: nat, n: nat, k: nat)
    requires k < |names|
  {
    KeyId(k) in now && now[KeyId(k)] == Text(if i <= k < i + n && k < |names| - 1 then names[k + 1] else names[k])
  }

  /** The first updates of the shift, with the names read from the store it started on. */
  lemma {:induction false} ShiftMovesNames(nvs: Nvs, now: Nvs, limit: nat, names: seq<string>, i: nat, n: nat)
    requires NumberAt(nvs, COUNTER_ID) == Some(|names|) && NamesAre(nvs, names) && |names| <= KEYS_SIZE
    requires (forall j :: 0 <= j < |names| ==> |names[j]| < limit) && i < |names|
    requires forall j :: i <= j < |names| ==> KeyId(j) in now && now[KeyId(j)] == Text(names[j])
    ensures |ShiftUpdates(nvs, limit, i)| == |names| - 1 - i
    ensures var after := ApplyFirst(now, ShiftUpdates(nvs, limit, i), n);
      && OnlyNamesDiffer(now, after)
      && (forall j :: i <= j < |names| ==> Shifted(after, names, i, n, j))
      && (forall j :: 0 <= j < i && KeyId(j) in now ==> KeyId(j) in after && after[KeyId(j)] == now[KeyId(j)])
    decreases |names| - i
  {
    if i + 1 < |names| {
      FirstShift(nvs, limit, names, i);
      var us, rest := ShiftUpdates(nvs, limit, i), ShiftUpdates(nvs, limit, i + 1);
      if n == 0 {
        ShiftMovesNames(nvs, now, limit, names, i + 1, 0);
      } else {
        var next := now[KeyId(i) := Text(names[i + 1])];
        ShiftMovesNames(nvs, next, limit, names, i + 1, n - 1);
        var after := ApplyFirst(now, us, n);
        assert after == ApplyFirst(next, rest, n - 1);
        hide ShiftUpdates, ApplyFirst, NamesAre;
        assert KeyId(i) in after && after[KeyId(i)] == next[KeyId(i)];
        forall j | i <= j < |names|
          ensures Shifted(after, names, i, n, j)
        {
          assert j > i ==> Shifted(after, names, i + 1, n - 1, j);
        }
      }
    }
  }

  lemma FirstShift(nvs: Nvs, limit: nat, names: seq<string>, i: nat)
    requires NumberAt(nvs, COUNTER_ID) == Some(|names|) && NamesAre(nvs, names) && i + 1 < |names| && |names[i + 1]| < limit
    ensures var us, rest := ShiftUpdates(nvs, limit, i), ShiftUpdates(nvs, limit, i + 1);
      us == [Put(KeyId(i), Text(names[i + 1]))] + rest && us[0] == Put(KeyId(i), Text(names[i + 1])) && us[1..] == rest
  {
    assert ReadText(nvs, KeyId(i + 1), limit) == Some(names[i + 1]);
  }

  lemma ShiftErased(nvs: Nvs, r: Registry, limit: nat, i: nat)
    requires Represents(nvs, r) && Sound(r, limit) && i < |r.names|
    ensures var shift := ShiftUpdates(nvs, limit, i);
      var shifted := ApplyFirst(nvs - {ValueId(i)}, shift, |shift|);
      && NamesAre(shifted, DropName(r, i).names)
      && ValuesAre(shifted, DropName(r, i).values)
      && NumberAt(shifted, COUNTER_ID) == Some(|r.names|)
  {
    hide ShiftUpdates, ApplyFirst;
    var shift := ShiftUpdates(nvs, limit, i);
    var shifted := ApplyFirst(nvs - {ValueId(i)}, shift, |shift|);
    ShiftMovesNames(nvs, nvs - {ValueId(i)}, limit, r.names, i, |shift|);
    ErasedValue(nvs, shifted, r.values, i);
    hide ValuesAre;
    forall j | 0 <= j < |r.names| - 1
      ensures KeyId(j) in shifted && shifted[KeyId(j)] == Text(DropName(r, i).names[j])
    {
      if j >= i {
        assert Shifted(shifted, r.names, i, |shift|, j);
      }
    }
  }

  lemma ErasedValue(nvs: Nvs, shifted: Nvs, values: seq<Option<string>>, i: nat)
    requires ValuesAre(nvs, values) && i < KEYS_SIZE
    requires OnlyNamesDiffer(nvs - {ValueId(i)}, shifted)
    ensures ValuesAre(shifted, values[i := None])
  {
  }

  lemma LastNameErased(nvs: Nvs, names: seq<string>, values: seq<Option<string>>)
    requires NamesAre(nvs, names) && ValuesAre(nvs, values) && |names| < KEYS_SIZE
    ensures Represents((nvs - {KeyId(|names|)})[COUNTER_ID := Number(|names|)], Registry(names, values))
  {
  }

  lemma DropNameKeepsSound(r: Registry, limit: nat, i: nat)
    requires Sound(r, limit) && i < |r.names|
    ensures Sound(DropName(r, i), limit)
  {
  }

  /** Deleting drops the name and empties the value cell at its old position: later names move
      down, their values do not. */
  lemma DeleteRepresents(nvs: Nvs, r: Registry, limit: nat, i: nat)
    requires Represents(nvs, r) && Sound(r, limit) && i < |r.names|
    ensures Counter(nvs) == |r.names|
    ensures var us := DeleteUpdates(nvs, limit, i);
      Represents(ApplyFirst(nvs, us, |us|), DropName(r, i))
    ensures Sound(DropName(r, i), limit)
  {
    assert |r.names| <= KEYS_SIZE == |r.values|;
    hide Represents, NamesAre, ValuesAre, Sound, ShiftUpdates;
    var n := |r.names|;
    CounterIsCount(nvs, r);
    var us, shift := DeleteUpdates(nvs, limit, i), ShiftUpdates(nvs, limit, i);
    var tail := [Erase(KeyId(n - 1)), Put(COUNTER_ID, Number(n - 1))];
    assert us[1..] == shift + tail;
    var erased := nvs - {ValueId(i)};
    ApplyConcat(erased, shift, tail, |shift| + 2);
    ShiftErased(nvs, r, limit, i);
    var shifted := ApplyFirst(erased, shift, |shift|);
    ApplyTwo(shifted, tail[0], tail[1]);
    LastNameErased(shifted, DropName(r, i).names, DropName(r, i).values);
    DropNameKeepsSound(r, limit, i);
  }

  // ---------- What a key holds ----------

  function Held(r: Registry, key: string): Option<string>
    requires |r.names| <= |r.values|
  {
    PositionFinds(r.names, key);
    match Position(r.names, key)
    case Some(i) => r.values[i]
    case None => None
  }

  lemma HeldAt(r: Registry, limit: nat, i: nat)
    requires Sound(r, limit) && i < |r.names|
    ensures Held(r, r.names[i]) == r.values[i]
  {
    PositionFinds(r.names, r.names[i]);
  }

  lemma HeldNowhere(r: Registry, key: string)
    requires |r.names| <= |r.values| && key !in r.names
    ensures Held(r, key) == None
  {
    PositionFinds(r.names, key);
  }

  // No value cell is in use behind the registered names.
  ghost predicate NothingLeftOver(r: Registry) {
    |r.names| <= |r.values| && forall i :: |r.names| <= i < |r.values| ==> r.values[i] == None
  }

  lemma HeldAfterPut(r: Registry, limit: nat, i: nat, value: string, key: string)
    requires Sound(r, limit) && i < |r.names|
    ensures Held(PutValue(r, i, value), key) == if key == r.names[i] then Some(value) else Held(r, key)
  {
    PositionFinds(r.names, key);
  }

  lemma HeldAfterAdd(r: Registry, limit: nat, name: string, key: string)
    requires Sound(r, limit) && |r.names| < KEYS_SIZE && name !in r.names
    ensures Held(AddName(r, name), key) == if key == name then r.values[|r.names|] else Held(r, key)
  {
    PositionFinds(r.names, key);
    PositionAppended(r.names, name);
    PositionFinds(r.names + [name], key);
    if key in r.names {
      PositionOfPrefix(r.names, [name], key);
    }
  }

  lemma {:induction false} PositionOfPrefix(names: seq<string>, more: seq<string>, key: string)
    requires key in names
    ensures Position(names + more, key) == Position(names, key)
  {
    if names[0] != key {
      assert (names + more)[1..] == names[1..] + more;
      PositionOfPrefix(names[1..], more, key);
    }
  }

  // A value put behind the registered names shows under no key yet.
  lemma HeldBehindNames(r: Registry, value: string, key: string)
    requires |r.names| < |r.values|
    ensures Held(PutValue(r, |r.names|, value), key) == Held(r, key)
  {
    PositionFinds(r.names, key);
  }

  /** What every key holds after the first updates of a set: between the second and the third a
      new key shows the value that an earlier delete has left at its position. */
  lemma HeldAfterSet(r: Registry, limit: nat, key: string, value: string, n: nat, k: string)
    requires Sound(r, limit) && (key in r.names || |r.names| < KEYS_SIZE)
    requires key != "" && |key| < limit && |value| < limit
    ensures |r.names| < |r.values| || Position(r.names, key).Some?
    ensures Held(AfterSet(r, key, value, n), k) ==
      if k != key then Held(r, k)
      else if n >= 3 || (n >= 1 && key in r.names) then Some(value)
      else if n == 2 then r.values[|r.names|]
      else Held(r, k)
  {
    PositionFinds(r.names, key);
    if key in r.names {
      HeldAfterPut(r, limit, Position(r.names, key).value, value, k);
    } else {
      var put := PutValue(r, |r.names|, value);
      PutValueKeepsSound(r, limit, |r.names|, value);
      assert AddName(put, key) == PutValue(AddName(r, key), |r.names|, value);
      HeldNowhere(r, key);
      HeldBehindNames(r, value, k);
      hide Held, Sound, Position;
      HeldAfterAdd(r, limit, key, k);
      HeldAfterAdd(put, limit, key, k);
    }
  }

  /** Wherever a set is cut short, the key being set shows its old value, none or the new one,
      exactly when it was registered or no delete has left another value at its position. */
  lemma CutSetShowsNoOtherIff(r: Registry, limit: nat, key: string, value: string)
    requires Sound(r, limit) && (key in r.names || |r.names| < KEYS_SIZE)
    requires key != "" && |key| < limit && |value| < limit
    ensures |r.names| < |r.values| || Position(r.names, key).Some?
    ensures (forall n: nat ::
        var held := Held(AfterSet(r, key, value, n), key); held == Held(r, key) || held == None || held == Some(value))
      <==> key in r.names || r.values[|r.names|] == None || r.values[|r.names|] == Some(value)
  {
    forall n: nat {
      HeldAfterSet(r, limit, key, value, n, key);
    }
    HeldAfterSet(r, limit, key, value, 2, key);
    if key !in r.names {
      HeldNowhere(r, key);
    }
    hide Held, AfterSet, Sound;
  }

  lemma SetKeepsSound(r: Registry, limit: nat, key: string, value: string, n: nat)
    requires Sound(r, limit) && (key in r.names || |r.names| < KEYS_SIZE)
    requires key != "" && |key| < limit && |value| < limit
    requires n == 2 && key !in r.names && r.values[|r.names|].Some? ==> |r.values[|r.names|].value| < limit
    ensures |r.names| < |r.values| || Position(r.names, key).Some?
    ensures Sound(AfterSet(r, key, value, n), limit)
  {
    PositionFinds(r.names, key);
    assert |r.names| <= |r.values| == KEYS_SIZE;
    if key in r.names {
      PutValueKeepsSound(r, limit, Position(r.names, key).value, value);
    } else if n == 2 {
      AddNameKeepsSound(r, limit, key);
    } else if n >= 3 {
      PutBehindKeepsSound(r, limit, key, value);
    }
    hide Sound, Position, PutValue, AddName;
  }

  lemma SetLeavesNothingOver(r: Registry, key: string, value: string, n: nat)
    requires NothingLeftOver(r) && (key in r.names || |r.names| < |r.values|)
    ensures |r.names| < |r.values| || Position(r.names, key).Some?
    ensures NothingLeftOver(AfterSet(r, key, value, n))
  {
    PositionFinds(r.names, key);
    hide Position;
  }

  lemma PutBehindKeepsSound(r: Registry, limit: nat, key: string, value: string)
    requires Sound(r, limit) && key !in r.names && |r.names| < KEYS_SIZE
    requires key != "" && |key| < limit && |value| < limit
    ensures Sound(PutValue(AddName(r, key), |r.names|, value), limit)
  {
    var put := PutValue(r, |r.names|, value);
    PutValueKeepsSound(r, limit, |r.names|, value);
    AddNameKeepsSound(put, limit, key);
    hide Sound;
    assert AddName(put, key) == PutValue(AddName(r, key), |r.names|, value);
  }

  /** A set cut short after any number of updates leaves every other key with its old value,
      and the key being set with its old value or the new one; a set that ran to its end has
      stored the new one. Whatever is left is again a sound registry. */
  lemma CutSetIsHarmless(
      nvs: Nvs, r: Registry, limit: nat, maxKeys: nat, key: string, value: string, n: nat, k: string)
    requires Represents(nvs, r) && Sound(r, limit) && NothingLeftOver(r)
    requires key != "" && |key| < limit && |value| < limit
    requires SetUpdates(nvs, limit, maxKeys, key, value).Some?
    ensures key in r.names || |r.names| < KEYS_SIZE
    ensures |r.names| < |r.values| || Position(r.names, key).Some?
    ensures var us, r' := SetUpdates(nvs, limit, maxKeys, key, value).value, AfterSet(r, key, value, n);
      && Represents(ApplyFirst(nvs, us, n), r') && Sound(r', limit) && NothingLeftOver(r')
      && (k != key ==> Held(r', k) == Held(r, k))
      && (k == key ==> Held(r', k) == Held(r, k) || Held(r', k) == Some(value))
      && (k == key && n >= |us| ==> Held(r', k) == Some(value))
  {
    hide SetUpdates, AfterSet, Represents;
    SetRepresents(nvs, r, limit, maxKeys, key, value, n);
    SetKeepsSound(r, limit, key, value, n);
    SetLeavesNothingOver(r, key, value, n);
    HeldAfterSet(r, limit, key, value, n, k);
    if key !in r.names {
      HeldNowhere(r, key);
    }
  }

  /** What a delete does to every key: the deleted one is gone, earlier ones keep their value,
      the next one loses its value, and each later one takes over its predecessor's. */
  lemma HeldAfterDrop(r: Registry, limit: nat, i: nat, j: nat)
    requires Sound(r, limit) && i < |r.names| && j < |r.names|
    ensures Held(DropName(r, i), r.names[j]) ==
      if j == i || j == i + 1 then None
      else if j < i then Held(r, r.names[j])
      else Held(r, r.names[j - 1])
  {
    var d := DropName(r, i);
    DropNameKeepsSound(r, limit, i);
    HeldAt(r, limit, j);
    if j < i {
      HeldAt(d, limit, j);
    } else if j == i {
      HeldNowhere(d, r.names[i]);
    } else {
      assert d.names[j - 1] == r.names[j];
      HeldAt(d, limit, j - 1);
      HeldAt(r, limit, j - 1);
    }
  }

  /** A delete removes one key from the map, and does nothing else, exactly when no key
      registered after it has a value. */
  lemma DeleteIsRemovalIff(r: Registry, limit: nat, i: nat)
    requires Sound(r, limit) && i < |r.names|
    ensures (forall k :: Held(DropName(r, i), k) == if k == r.names[i] then None else Held(r, k))
      <==> (forall j :: i < j < |r.names| ==> r.values[j] == None)
  {
    var d := DropName(r, i);
    if forall j :: i < j < |r.names| ==> r.values[j] == None {
      forall k
        ensures Held(d, k) == if k == r.names[i] then None else Held(r, k)
      {
        if k in r.names {
          PositionFinds(r.names, k);
          var j := Position(r.names, k).value;
          HeldAfterDrop(r, limit, i, j);
          HeldAt(r, limit, j);
          if j > i + 1 {
            HeldAt(r, limit, j - 1);
          }
        } else {
          HeldNowhere(r, k);
          HeldNowhere(d, k);
        }
      }
    } else if forall k :: Held(d, k) == if k == r.names[i] then None else Held(r, k) {
      LaterKeysAreBlank(r, limit, i, |r.names| - 1);
      assert false;
    }
  }

  lemma {:induction false} LaterKeysAreBlank(r: Registry, limit: nat, i: nat, last: nat)
    requires Sound(r, limit) && i <= last < |r.names|
    requires forall k :: Held(DropName(r, i), k) == if k == r.names[i] then None else Held(r, k)
    ensures forall j :: i < j <= last ==> r.values[j] == None
    decreases last
  {
    if last > i {
      LaterKeysAreBlank(r, limit, i, last - 1);
      HeldAfterDrop(r, limit, i, last);
      HeldAt(r, limit, last);
      HeldAt(r, limit, last - 1);
    }
  }
}
