/** The RAM file store: a table of slots with buffers that are kept while they are big enough.
    Over every run it is a map from paths to contents, except that a write that finds no memory
    loses the file, and that an append may cut the old contents. */
module RamFiles {
  import opened Basics

  // The limits of boards other than the ESP32 ones, and the numbers a size can take.
  const MAX_FILES: nat := 8
  const MAX_SIZE: nat := 32 * 1024
  const SIZE_T: nat := 0x1_0000_0000

  // What can be passed to a call has a size.
  type Data = s: seq<Byte> | |s| < SIZE_T witness []

  // A file that has never had a buffer is there, but cannot be read.
  datatype Content = Blank | Bytes(bytes: seq<Byte>)

  datatype Buffer = NoBuffer | Buffer(cells: seq<Byte>)

  datatype File = File(inUse: bool, name: string, buffer: Buffer, size: nat)

  function Capacity(f: File): nat {
    if f.buffer.Buffer? then |f.buffer.cells| else 0
  }

  predicate SizeFits(f: File) {
    f.size <= Capacity(f)
  }

  function ContentOf(f: File): Content {
    if f.buffer.NoBuffer? then Blank
    else Bytes(if SizeFits(f) then f.buffer.cells[..f.size] else f.buffer.cells)
  }

  function Find(files: seq<File>, path: string): (n: nat)
    ensures n <= |files|
    ensures forall i :: 0 <= i < n ==> !(files[i].inUse && files[i].name == path)
    ensures n < |files| ==> files[n].inUse && files[n].name == path
  {
    if files == [] || (files[0].inUse && files[0].name == path) then 0 else 1 + Find(files[1..], path)
  }

  function FreeSlot(files: seq<File>): (n: nat)
    ensures n <= |files|
    ensures forall i :: 0 <= i < n ==> files[i].inUse
    ensures n < |files| ==> !files[n].inUse
  {
    if files == [] || !files[0].inUse then 0 else 1 + FreeSlot(files[1..])
  }

  // The slot a write goes to.
  function SlotFor(files: seq<File>, path: string): (n: nat)
    ensures n <= |files|
  {
    if Find(files, path) < |files| then Find(files, path) else FreeSlot(files)
  }

  // The file a write starts from: the one that is there, or an empty one.
  function Opened(files: seq<File>, path: string): (f: File)
    requires SlotFor(files, path) < |files|
    ensures f.inUse && f.name == path
  {
    if Find(files, path) < |files| then files[Find(files, path)] else File(true, path, NoBuffer, 0)
  }

  /** The buffer is replaced only if it is too small; without memory for it the file is gone. */
  function Written(f: File, data: seq<Byte>, memory: bool): File {
    if |data| <= Capacity(f) then
      f.(size := |data|, buffer := if f.buffer.NoBuffer? then NoBuffer else Buffer(data + f.buffer.cells[|data|..]))
    else if memory then f.(size := |data|, buffer := Buffer(data))
    else f.(inUse := false, buffer := NoBuffer)
  }

  function Write(files: seq<File>, path: string, data: seq<Byte>, memory: bool): (seq<File>, int) {
    var n := SlotFor(files, path);
    if n == |files| then (files, -ENOMEM) else
    var f := Written(Opened(files, path), data, memory);
    (files[n := f], if f.inUse then |data| else -ENOMEM)
  }

  function Read(files: seq<File>, path: string, max: nat): (int, seq<Byte>) {
    var n := Find(files, path);
    if n == |files| || files[n].buffer.NoBuffer? then (-ENOENT, []) else
    var bytes := ContentOf(files[n]).bytes;
    var data := if |bytes| < max then bytes else bytes[..max];
    (|data|, data)
  }

  function Delete(files: seq<File>, path: string): (seq<File>, int) {
    var n := Find(files, path);
    if n == |files| then (files, -ENOENT) else (files[n := File(false, "", NoBuffer, 0)], 0)
  }

  // How much of the old contents an append reads: a difference of unsigned sizes.
  function ReadBound(size: nat): nat
    requires size < SIZE_T
  {
    if size <= MAX_SIZE then MAX_SIZE - size else SIZE_T + MAX_SIZE - size
  }

  // The old contents as an append copies them into its scratch buffer of MAX_SIZE bytes.
  function Copied(files: seq<File>, path: string, data: Data): seq<Byte> {
    Read(files, path, ReadBound(|data|)).1
  }

  // What the check for space compares: the sum of two unsigned sizes.
  function SizeSum(held: nat, size: nat): nat {
    if held + size < SIZE_T then held + size else held + size - SIZE_T
  }

  // An overrun leaves the scratch buffer; nothing is said about what memory holds afterwards.
  datatype Appended = Appended(code: int) | Overrun

  /** Copies the old contents as far as the bound allows, appends the new bytes if both fit, and
      writes the whole. */
  function Append(files: seq<File>, path: string, data: Data, scratch: bool, memory: bool): (seq<File>, Appended) {
    var held := Copied(files, path, data);
    if !scratch then (files, Appended(-ENOMEM))
    else if |held| > MAX_SIZE then (files, Overrun)
    else if SizeSum(|held|, |data|) > MAX_SIZE then (files, Appended(-ENOSPC))
    else if |held| + |data| > MAX_SIZE then (files, Overrun)
    else
      var (files', rc) := Write(files, path, held + data, memory);
      (files', Appended(if rc < 0 then rc else |data|))
  }

  datatype Op =
    | WriteFile(path: string, data: Data, memory: bool)
    | ReadFile(path: string, max: nat)
    | DeleteFile(path: string)
    | AppendFile(path: string, data: Data, scratch: bool, memory: bool)

  datatype Reply = Reply(code: int, data: seq<Byte>) | Lost

  function Do(files: seq<File>, op: Op): (seq<File>, Reply) {
    match op
    case WriteFile(path, data, memory) => var (f, rc) := Write(files, path, data, memory); (f, Reply(rc, []))
    case ReadFile(path, max) => var (rc, data) := Read(files, path, max); (files, Reply(rc, data))
    case DeleteFile(path) => var (f, rc) := Delete(files, path); (f, Reply(rc, []))
    case AppendFile(path, data, scratch, memory) =>
      var (f, result) := Append(files, path, data, scratch, memory);
      (f, if result.Overrun? then Lost else Reply(result.code, []))
  }

  function Initial(): seq<File> {
    seq(MAX_FILES, _ => File(false, "", NoBuffer, 0))
  }

  // ---------- The map ----------

  ghost predicate Sound(files: seq<File>) {
    && |files| == MAX_FILES
    && (forall i :: 0 <= i < |files| && files[i].inUse ==> SizeFits(files[i]))
    && Unique(files)
  }

  // What a path stands for: its contents, and the size its buffer has room for.
  datatype Held = Held(content: Content, room: nat)

  function HeldOf(f: File): Held {
    Held(ContentOf(f), Capacity(f))
  }

  /** The files in use are the map, each path once. */
  ghost predicate Represents(files: seq<File>, m: map<string, Held>) {
    && (forall i :: 0 <= i < |files| && files[i].inUse ==> files[i].name in m && m[files[i].name] == HeldOf(files[i]))
    && (forall path :: path in m ==> Find(files, path) < |files|)
  }

  // The room there is for a path without asking for memory.
  function Room(m: map<string, Held>, path: string): nat {
    if path in m then m[path].room else 0
  }

  predicate NoSlot(m: map<string, Held>, path: string) {
    path !in m && |m| == MAX_FILES
  }

  /** A write on the map. */
  function MapWrite(m: map<string, Held>, path: string, data: seq<Byte>, memory: bool): (map<string, Held>, int) {
    if NoSlot(m, path) then (m, -ENOMEM)
    else if |data| <= Room(m, path) then
      var blank := path !in m || m[path].content.Blank?;
      (m[path := Held(if blank then Blank else Bytes(data), Room(m, path))], |data|)
    else if memory then (m[path := Held(Bytes(data), |data|)], |data|)
    else (m - {path}, -ENOMEM)
  }

  lemma WrittenContent(f: File, data: seq<Byte>, memory: bool)
    requires f.inUse && SizeFits(f)
    ensures var f' := Written(f, data, memory);
      && f'.name == f.name && (f'.inUse ==> SizeFits(f'))
      && (if |data| <= Capacity(f) then
            f'.inUse && HeldOf(f') == Held(if ContentOf(f) == Blank then Blank else Bytes(data), Capacity(f))
          else if memory then f'.inUse && HeldOf(f') == Held(Bytes(data), |data|)
          else !f'.inUse)
  {
    if f.buffer.Buffer? && |data| <= Capacity(f) {
      assert (data + f.buffer.cells[|data|..])[..|data|] == data;
    }
    assert data[..|data|] == data;
  }

  // ---------- How many files there are ----------

  function Names(files: seq<File>): set<string> {
    if files == [] then {} else
    var n := |files| - 1;
    Names(files[..n]) + if files[n].inUse then {files[n].name} else {}
  }

  function Used(files: seq<File>): (u: nat)
    ensures u <= |files|
    ensures u == |files| <==> forall i :: 0 <= i < |files| ==> files[i].inUse
  {
    if files == [] then 0 else
    var n := |files| - 1;
    Used(files[..n]) + if files[n].inUse then 1 else 0
  }

  ghost predicate Unique(files: seq<File>) {
    forall i, j :: 0 <= i < j < |files| && files[i].inUse && files[j].inUse ==> files[i].name != files[j].name
  }

  lemma {:induction false} NamesAre(files: seq<File>, path: string)
    ensures path in Names(files) <==> exists i :: 0 <= i < |files| && files[i].inUse && files[i].name == path
  {
    if files != [] {
      var n := |files| - 1;
      NamesAre(files[..n], path);
      assert forall i :: 0 <= i < n ==> files[..n][i] == files[i];
    }
  }

  lemma {:induction false} NamesCount(files: seq<File>)
    requires Unique(files)
    ensures |Names(files)| == Used(files)
  {
    if files != [] {
      var n := |files| - 1;
      assert forall i :: 0 <= i < n ==> files[..n][i] == files[i];
      NamesCount(files[..n]);
      NamesAre(files[..n], files[n].name);
    }
  }

  lemma UsedSlots(files: seq<File>, m: map<string, Held>)
    requires Sound(files) && Represents(files, m)
    ensures FreeSlot(files) == |files| <==> |m| == MAX_FILES
  {
    hide HeldOf, SizeFits;
    NamesCount(files);
    forall path
      ensures path in m.Keys <==> path in Names(files)
    {
      NamesAre(files, path);
      if path in m {
        assert files[Find(files, path)].inUse;
      }
    }
    hide Sound, Represents, Names, Used;
    assert m.Keys == Names(files);
    assert |m| == |m.Keys|;
  }

  // ---------- One slot changes ----------

  ghost predicate SlotOf(files: seq<File>, m: map<string, Held>, n: nat, path: string) {
    n < |files| && if files[n].inUse then files[n].name == path else path !in m
  }

  lemma OtherNames(files: seq<File>, m: map<string, Held>, n: nat, path: string, i: nat)
    requires Sound(files) && Represents(files, m) && SlotOf(files, m, n, path)
    requires i < |files| && i != n && files[i].inUse
    ensures files[i].name != path
  {
    hide HeldOf, SizeFits;
  }

  lemma SlotSound(files: seq<File>, m: map<string, Held>, n: nat, f: File, path: string)
    requires Sound(files) && Represents(files, m) && SlotOf(files, m, n, path)
    requires f.inUse ==> f.name == path && SizeFits(f)
    ensures Sound(files[n := f])
  {
    forall i | 0 <= i < |files| && i != n && files[i].inUse
      ensures files[i].name != path
    {
      OtherNames(files, m, n, path, i);
    }
    hide Represents, SizeFits;
  }

  lemma SlotFound(files: seq<File>, m: map<string, Held>, n: nat, f: File, path: string, q: string)
    requires Sound(files) && Represents(files, m) && SlotOf(files, m, n, path)
    requires if q == path then f.inUse && f.name == path else q in m
    ensures Find(files[n := f], q) < |files|
  {
    hide HeldOf, SizeFits;
    var files' := files[n := f];
    if q != path {
      var k := Find(files, q);
      assert files'[k] == files[k];
    } else {
      assert files'[n] == f;
    }
  }

  lemma SlotRepresents(files: seq<File>, m: map<string, Held>, n: nat, f: File, path: string)
    requires Sound(files) && Represents(files, m) && SlotOf(files, m, n, path)
    requires f.inUse ==> f.name == path && SizeFits(f)
    ensures Sound(files[n := f])
    ensures Represents(files[n := f], if f.inUse then m[path := HeldOf(f)] else m - {path})
  {
    SlotSound(files, m, n, f, path);
    var files' := files[n := f];
    var m' := if f.inUse then m[path := HeldOf(f)] else m - {path};
    hide HeldOf, SizeFits, Sound, SlotOf;
    forall q | q in m'
      ensures Find(files', q) < |files'|
    {
      hide Represents;
      SlotFound(files, m, n, f, path, q);
    }
    forall i | 0 <= i < |files| && files'[i].inUse
      ensures files'[i].name in m' && m'[files'[i].name] == HeldOf(files'[i])
    {
      if i != n {
        OtherNames(files, m, n, path, i);
      }
    }
  }

  // ---------- Writes, reads and deletes ----------

  lemma OpenedIs(files: seq<File>, m: map<string, Held>, path: string)
    requires Sound(files) && Represents(files, m) && SlotFor(files, path) < |files|
    ensures var f := Opened(files, path);
      && SizeFits(f) && Capacity(f) == Room(m, path)
      && (ContentOf(f) == Blank <==> path !in m || m[path].content.Blank?)
      && SlotOf(files, m, SlotFor(files, path), path)
  {
  }

  lemma SlotForIff(files: seq<File>, m: map<string, Held>, path: string)
    requires Sound(files) && Represents(files, m)
    ensures SlotFor(files, path) == |files| <==> NoSlot(m, path)
  {
    UsedSlots(files, m);
    hide HeldOf, SizeFits;
    if Find(files, path) < |files| {
      assert files[Find(files, path)].inUse;
    }
  }

  lemma WriteRefines(files: seq<File>, m: map<string, Held>, path: string, data: seq<Byte>, memory: bool)
    requires Sound(files) && Represents(files, m)
    ensures var (files', rc) := Write(files, path, data, memory);
      var (m', rc') := MapWrite(m, path, data, memory);
      rc == rc' && Sound(files') && Represents(files', m')
  {
    SlotForIff(files, m, path);
    var n := SlotFor(files, path);
    if n < |files| {
      OpenedIs(files, m, path);
      var f := Opened(files, path);
      WrittenContent(f, data, memory);
      hide Written, SlotFor, Opened, HeldOf, ContentOf, Capacity, SizeFits;
      SlotRepresents(files, m, n, Written(f, data, memory), path);
      hide Sound, Represents, SlotOf;
    }
  }

  /** A write fails exactly when a new path finds no slot, or when there is no memory and the
      data do not fit the buffer of the path; and a failed write leaves the files as they were
      exactly when the path was not among them. */
  lemma WriteFailsIff(files: seq<File>, m: map<string, Held>, path: string, data: seq<Byte>, memory: bool)
    requires Sound(files) && Represents(files, m)
    ensures var (files', rc) := Write(files, path, data, memory);
      && (rc < 0 <==> NoSlot(m, path) || (!memory && |data| > Room(m, path)))
      && (rc < 0 ==> (Represents(files', m) <==> path !in m))
  {
    WriteRefines(files, m, path, data, memory);
    var (m', rc') := MapWrite(m, path, data, memory);
    hide Write, Sound, HeldOf;
    var files' := Write(files, path, data, memory).0;
    if rc' < 0 && path !in m {
      assert m - {path} == m;
    }
    if rc' < 0 && path in m {
      assert path !in m';
      hide MapWrite;
      Absent(files', m', path);
    }
  }

  lemma Absent(files: seq<File>, m: map<string, Held>, path: string)
    requires Represents(files, m) && path !in m
    ensures forall m': map<string, Held> :: path in m' ==> !Represents(files, m')
  {
  }

  lemma ReadIsLookup(files: seq<File>, m: map<string, Held>, path: string, max: nat)
    requires Sound(files) && Represents(files, m)
    ensures Read(files, path, max) == MapRead(m, path, max)
  {
    if Find(files, path) < |files| {
      assert files[Find(files, path)].inUse;
    }
  }

  /** A read on the map: what is held, clipped to the caller's buffer. */
  function MapRead(m: map<string, Held>, path: string, max: nat): (int, seq<Byte>) {
    if path !in m || m[path].content.Blank? then (-ENOENT, []) else
    var bytes := m[path].content.bytes;
    var data := if |bytes| < max then bytes else bytes[..max];
    (|data|, data)
  }

  lemma DeleteIsRemovalIff(files: seq<File>, m: map<string, Held>, path: string)
    requires Sound(files) && Represents(files, m)
    ensures var (files', rc) := Delete(files, path);
      && Sound(files') && Represents(files', m - {path})
      && (rc == 0 <==> path in m) && (rc != 0 ==> rc == -ENOENT)
  {
    var n := Find(files, path);
    hide HeldOf, SizeFits;
    if n < |files| {
      assert files[n].inUse;
      SlotRepresents(files, m, n, File(false, "", NoBuffer, 0), path);
    } else {
      assert m - {path} == m;
    }
  }

  // ---------- Appends ----------

  // The bytes a path holds, if it can be read.
  function BytesAt(m: map<string, Held>, path: string): seq<Byte> {
    if path in m && m[path].content.Bytes? then m[path].content.bytes else []
  }

  /** An append on the map. New bytes that fit the scratch buffer find room: of the old ones as many
      are kept as fit before them. New bytes that do not fit find no space, if the old ones do and
      the sum of the sizes can be told; or else the buffer is overrun. */
  function MapAppend(m: map<string, Held>, path: string, data: Data, scratch: bool, memory: bool)
    : (map<string, Held>, Appended)
  {
    var before := BytesAt(m, path);
    if !scratch then (m, Appended(-ENOMEM))
    else if |data| > 32768 then
      (m, if |before| <= 32768 && |before| + |data| < 0x1_0000_0000 then Appended(-ENOSPC) else Overrun)
    else
      var kept := if |before| + |data| <= 32768 then before else before[..32768 - |data|];
      var (m', rc) := MapWrite(m, path, kept + data, memory);
      (m', Appended(if rc < 0 then rc else |data|))
  }

  // What is copied: the beginning of the old bytes, up to the bound.
  lemma CopiedIs(files: seq<File>, m: map<string, Held>, path: string, data: Data)
    requires Sound(files) && Represents(files, m)
    ensures var before, bound := BytesAt(m, path), ReadBound(|data|);
      Copied(files, path, data) == if |before| < bound then before else before[..bound]
  {
    ReadIsLookup(files, m, path, ReadBound(|data|));
    hide Read, Sound, Represents, ReadBound;
  }

  lemma AppendRefines(files: seq<File>, m: map<string, Held>, path: string, data: Data, scratch: bool, memory: bool)
    requires Sound(files) && Represents(files, m)
    ensures var (files', result) := Append(files, path, data, scratch, memory);
      var (m', result') := MapAppend(m, path, data, scratch, memory);
      result == result' && Sound(files') && Represents(files', m')
  {
    var before := BytesAt(m, path);
    CopiedIs(files, m, path, data);
    if |data| <= 32768 {
      var kept := if |before| + |data| <= 32768 then before else before[..32768 - |data|];
      assert Copied(files, path, data) == kept by { assert before[..|before|] == before; }
      WriteRefines(files, m, path, kept + data, memory);
    }
    hide Sound, Represents, Write, MapWrite, Copied, BytesAt;
  }

  /** The copy of the old contents stays inside the scratch buffer exactly when the new bytes are
      at most its size, so that the bound does not wrap, or the old ones are. */
  lemma CopyStaysInsideIff(files: seq<File>, m: map<string, Held>, path: string, data: Data)
    requires Sound(files) && Represents(files, m)
    ensures |Copied(files, path, data)| <= MAX_SIZE <==> |data| <= MAX_SIZE || |BytesAt(m, path)| <= MAX_SIZE
  {
    CopiedIs(files, m, path, data);
    hide Sound, Represents, Copied, BytesAt;
  }

  /** For new bytes beyond the scratch buffer no space is reported exactly if the old contents
      stay within it and the sum of both sizes does not wrap; otherwise one of the two copies
      leaves the buffer. New bytes that fit always find room: the before ones are cut for them. */
  lemma NoSpaceIff(files: seq<File>, m: map<string, Held>, path: string, data: Data, memory: bool)
    requires Sound(files) && Represents(files, m)
    ensures var result, held := Append(files, path, data, true, memory).1, |BytesAt(m, path)|;
      && (result == Appended(-ENOSPC) <==> |data| > MAX_SIZE && held <= MAX_SIZE && held + |data| < SIZE_T)
      && (result == Overrun <==> |data| > MAX_SIZE && (held > MAX_SIZE || held + |data| >= SIZE_T))
  {
    AppendRefines(files, m, path, data, true, memory);
    hide BytesAt, Append, Sound, Represents;
  }

  /** A granted append leaves as much of the old contents as fits in the scratch buffer with the
      new bytes behind it: all of it exactly if both fit. */
  lemma AppendKeepsAllIff(files: seq<File>, m: map<string, Held>, path: string, data: Data, memory: bool)
    requires Sound(files) && Represents(files, m) && path in m && m[path].content.Bytes?
    requires var result := Append(files, path, data, true, memory).1; result.Appended? && result.code >= 0
    ensures var files', before := Append(files, path, data, true, memory).0, m[path].content.bytes;
      var n, room := Find(files', path), MAX_SIZE - |data|;
      && n < |files'| && |data| <= MAX_SIZE
      && ContentOf(files'[n]) == Bytes((if |before| <= room then before else before[..room]) + data)
      && (ContentOf(files'[n]) == Bytes(before + data) <==> |before| + |data| <= MAX_SIZE)
  {
    var before := m[path].content.bytes;
    AppendRefines(files, m, path, data, true, memory);
    hide Append, Sound, MapWrite, Find;
    var kept := if |before| + |data| <= MAX_SIZE then before else before[..MAX_SIZE - |data|];
    var m' := MapWrite(m, path, kept + data, memory).0;
    WriteHolds(m, path, kept + data, memory);
    WholeIff(before, kept, data);
    FoundContent(Append(files, path, data, true, memory).0, m', path);
    hide Represents;
  }

  lemma WriteHolds(m: map<string, Held>, path: string, data: seq<Byte>, memory: bool)
    requires path in m && m[path].content.Bytes? && MapWrite(m, path, data, memory).1 >= 0
    ensures var m' := MapWrite(m, path, data, memory).0; path in m' && m'[path].content == Bytes(data)
  {
  }

  lemma WholeIff(before: seq<Byte>, kept: seq<Byte>, data: seq<Byte>)
    requires |kept| <= |before| && (|kept| == |before| ==> kept == before)
    ensures kept + data == before + data <==> |kept| == |before|
  {
    assert |kept + data| == |kept| + |data| && |before + data| == |before| + |data|;
  }

  lemma FoundContent(files: seq<File>, m: map<string, Held>, path: string)
    requires Represents(files, m) && path in m
    ensures Find(files, path) < |files| && ContentOf(files[Find(files, path)]) == m[path].content
  {
    assert files[Find(files, path)].inUse;
  }

  // ---------- Runs ----------

  function MapDo(m: map<string, Held>, op: Op): (map<string, Held>, Reply) {
    match op
    case WriteFile(path, data, memory) => var (m', rc) := MapWrite(m, path, data, memory); (m', Reply(rc, []))
    case ReadFile(path, max) => var (rc, data) := MapRead(m, path, max); (m, Reply(rc, data))
    case DeleteFile(path) => (m - {path}, Reply(if path in m then 0 else -ENOENT, []))
    case AppendFile(path, data, scratch, memory) =>
      var (m', result) := MapAppend(m, path, data, scratch, memory);
      (m', if result.Overrun? then Lost else Reply(result.code, []))
  }

  function Run(files: seq<File>, ops: seq<Op>): seq<File>
    decreases |ops|
  {
    if ops == [] then files else Run(Do(files, ops[0]).0, ops[1..])
  }

  function Replies(files: seq<File>, ops: seq<Op>): seq<Reply>
    decreases |ops|
  {
    if ops == [] then [] else [Do(files, ops[0]).1] + Replies(Do(files, ops[0]).0, ops[1..])
  }

  function MapReplies(m: map<string, Held>, ops: seq<Op>): seq<Reply>
    decreases |ops|
  {
    if ops == [] then [] else [MapDo(m, ops[0]).1] + MapReplies(MapDo(m, ops[0]).0, ops[1..])
  }

  lemma StepRefines(files: seq<File>, m: map<string, Held>, op: Op)
    requires Sound(files) && Represents(files, m)
    ensures var (files', reply) := Do(files, op);
      var (m', reply') := MapDo(m, op);
      reply == reply' && Sound(files') && Represents(files', m')
  {
    hide Sound, Represents, Write, Read, Delete, Append, MapWrite, MapRead, MapAppend;
    match op
    case WriteFile(path, data, memory) => WriteRefines(files, m, path, data, memory);
    case ReadFile(path, max) => ReadIsLookup(files, m, path, max);
    case DeleteFile(path) => DeleteIsRemovalIff(files, m, path);
    case AppendFile(path, data, scratch, memory) => AppendRefines(files, m, path, data, scratch, memory);
  }

  lemma {:induction false} RunRefines(files: seq<File>, m: map<string, Held>, ops: seq<Op>)
    requires Sound(files) && Represents(files, m)
    ensures Sound(Run(files, ops)) && Replies(files, ops) == MapReplies(m, ops)
    decreases |ops|
  {
    if ops != [] {
      hide Sound, Represents, Do, MapDo;
      StepRefines(files, m, ops[0]);
      RunRefines(Do(files, ops[0]).0, MapDo(m, ops[0]).0, ops[1..]);
    }
  }

  /** Over every run, whatever memory there is: each call returns what it returns on the map. */
  lemma StoreIsAMap(ops: seq<Op>)
    ensures Replies(Initial(), ops) == MapReplies(map[], ops)
    ensures Sound(Run(Initial(), ops))
  {
    EmptyStoreRepresents();
    hide Sound, Represents, Initial, Replies, MapReplies, Run;
    RunRefines(Initial(), map[], ops);
  }

  lemma EmptyStoreRepresents()
    ensures Sound(Initial()) && Represents(Initial(), map[])
  {
  }

  /** A run that reaches the overrun: a file larger than the scratch buffer, and an append of
      more than it holds. */
  lemma OversizedAppendOverruns(path: string, first: Data, data: Data)
    requires |first| > MAX_SIZE && MAX_SIZE < |data|
    ensures Replies(Initial(), [WriteFile(path, first, true), AppendFile(path, data, true, true)])
      == [Reply(|first|, []), Lost]
  {
    var ops := [WriteFile(path, first, true), AppendFile(path, data, true, true)];
    StoreIsAMap(ops);
    var m := MapWrite(map[], path, first, true).0;
    assert m[path] == Held(Bytes(first), |first|);
    assert ops[1..] == [ops[1]] && ops[1..][1..] == [];
    hide Replies, MapWrite;
    assert MapReplies(map[], ops) == [MapDo(map[], ops[0]).1] + MapReplies(m, ops[1..]);
  }
}
