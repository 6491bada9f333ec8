/** Named regions in one pool of bytes. In every run the regions are aligned and apart, so that
    the pool does what a private memory for each region would do. */
module SharedMemory {
  import opened Basics

  const POOL_SIZE: nat := 64 * 1024
  const MAX_REGIONS: nat := 16
  const MAX_NAME_LEN: nat := 32
  const MAX_GRANTS: nat := 8
  const WORD: nat := 0x1_0000_0000

  datatype Access = Access(read: bool, write: bool)

  datatype Grant = Grant(app: nat, access: Access)

  // Who may do what with a region, and how often it is open.
  datatype Info = Info(name: string, owner: nat, refs: nat, access: Access, grants: seq<Grant>)

  datatype Place = Place(start: nat, size: nat)

  datatype Pool = Pool(infos: seq<Option<Info>>, places: seq<Place>, bytes: seq<Byte>, used: nat)

  datatype Op =
    | Create(name: string, size: nat, access: Access)
    | Open(name: string, access: Access)
    | Close(handle: int)
    | Destroy(handle: int)
    | SetPermission(handle: int, app: nat, access: Access)
    | Read(handle: int, offset: nat, len: nat)
    | Write(handle: int, offset: nat, data: seq<Byte>)

  datatype Call = Call(caller: nat, op: Op)

  datatype Reply = Failed(code: int) | Handle(handle: nat) | Done | Got(data: seq<Byte>) | Wrote(count: nat)

  // ---------- Names and permissions ----------

  predicate Held(infos: seq<Option<Info>>, handle: int) {
    0 <= handle < |infos| && infos[handle].Some?
  }

  // A name is cut to the field it is kept in.
  function Stored(name: string): string {
    if |name| < MAX_NAME_LEN then name else name[..MAX_NAME_LEN - 1]
  }

  function FindName(infos: seq<Option<Info>>, name: string): (n: nat)
    ensures n <= |infos|
    ensures forall i :: 0 <= i < n ==> !(infos[i].Some? && infos[i].value.name == name)
    ensures n < |infos| ==> infos[n].Some? && infos[n].value.name == name
  {
    if infos == [] || (infos[0].Some? && infos[0].value.name == name) then 0 else 1 + FindName(infos[1..], name)
  }

  function FreeSlot(infos: seq<Option<Info>>): (n: nat)
    ensures n <= |infos|
    ensures forall i :: 0 <= i < n ==> infos[i].Some?
    ensures n < |infos| ==> infos[n].None?
  {
    if infos == [] || infos[0].None? then 0 else 1 + FreeSlot(infos[1..])
  }

  predicate Covers(access: Access, request: Access) {
    (request.read ==> access.read) && (request.write ==> access.write)
  }

  function GrantOf(grants: seq<Grant>, app: nat): (n: nat)
    ensures n <= |grants|
    ensures forall i :: 0 <= i < n ==> grants[i].app != app
    ensures n < |grants| ==> grants[n].app == app
  {
    if grants == [] || grants[0].app == app then 0 else 1 + GrantOf(grants[1..], app)
  }

  predicate Allowed(info: Info, caller: nat, request: Access) {
    var n := GrantOf(info.grants, caller);
    caller == info.owner || Covers(if n < |info.grants| then info.grants[n].access else info.access, request)
  }

  /** The calls that only concern names, permissions and reference counts. */
  function Admin(infos: seq<Option<Info>>, caller: nat, op: Op): (seq<Option<Info>>, Reply)
    requires op.Open? || op.Close? || op.Destroy? || op.SetPermission?
  {
    match op
    case Open(name, request) =>
      var n := FindName(infos, name);
      if n == |infos| then (infos, Failed(-ENOENT))
      else if !Allowed(infos[n].value, caller, request) then (infos, Failed(-EACCES))
      else (infos[n := Some(infos[n].value.(refs := (infos[n].value.refs + 1) % WORD))], Handle(n))
    case Close(h) =>
      if !Held(infos, h) then (infos, Failed(-EINVAL))
      else if infos[h].value.refs <= 1 then (infos[h := None], Done)
      else (infos[h := Some(infos[h].value.(refs := infos[h].value.refs - 1))], Done)
    case Destroy(h) =>
      if !Held(infos, h) then (infos, Failed(-EINVAL))
      else if infos[h].value.owner != caller then (infos, Failed(-EACCES))
      else (infos[h := None], Done)
    case SetPermission(h, app, access) =>
      if !Held(infos, h) then (infos, Failed(-EINVAL))
      else if infos[h].value.owner != caller then (infos, Failed(-EACCES))
      else
        var grants := infos[h].value.grants;
        var n := GrantOf(grants, app);
        if n < |grants| then
          (infos[h := Some(infos[h].value.(grants := grants[n := Grant(app, access)]))], Done)
        else if |grants| >= MAX_GRANTS then (infos, Failed(-ENOMEM))
        else (infos[h := Some(infos[h].value.(grants := grants + [Grant(app, access)]))], Done)
  }

  /** A permission that is set holds for its app, and changes nothing for another. */
  lemma SetPermissionTakesEffect(infos: seq<Option<Info>>, h: int, owner: nat, app: nat, access: Access,
                                 other: nat, request: Access)
    requires Admin(infos, owner, SetPermission(h, app, access)).1 == Done && other != owner
    ensures var infos' := Admin(infos, owner, SetPermission(h, app, access)).0;
      && Held(infos, h) && Held(infos', h)
      && (Allowed(infos'[h].value, other, request) <==>
          if other == app then Covers(access, request) else Allowed(infos[h].value, other, request))
  {
    var info := infos[h].value;
    var n := GrantOf(info.grants, app);
    hide GrantOf, Covers, Allowed;
    PermissionDecides(info, n, Grant(app, access), other, request);
  }

  lemma PermissionDecides(info: Info, n: nat, grant: Grant, other: nat, request: Access)
    requires n == GrantOf(info.grants, grant.app) && other != info.owner
    ensures var grants := if n < |info.grants| then info.grants[n := grant] else info.grants + [grant];
      Allowed(info.(grants := grants), other, request) <==>
        if other == grant.app then Covers(grant.access, request) else Allowed(info, other, request)
  {
    var grants := if n < |info.grants| then info.grants[n := grant] else info.grants + [grant];
    hide Covers;
    GrantsOfOthers(info.grants, grants, n, grant, other);
    hide GrantOf;
  }

  lemma GrantsOfOthers(grants: seq<Grant>, grants': seq<Grant>, n: nat, grant: Grant, other: nat)
    requires n == GrantOf(grants, grant.app)
    requires grants' == if n < |grants| then grants[n := grant] else grants + [grant]
    ensures var k, k' := GrantOf(grants, other), GrantOf(grants', other);
      if other == grant.app then k' == n < |grants'|
      else if k < |grants| then k' == k && grants'[k] == grants[k] else k' == |grants'|
  {
  }

  // ---------- Bytes ----------

  function Aligned(size: nat): (a: nat)
    ensures size <= a < size + 8 && a % 8 == 0
  {
    (size + 7) / 8 * 8
  }

  function Zeros(n: nat): seq<Byte> {
    seq(n, _ => 0)
  }

  function Slice(bytes: seq<Byte>, at: nat, n: nat): (r: seq<Byte>)
    ensures at + n <= |bytes| ==> |r| == n && forall i :: 0 <= i < n ==> r[i] == bytes[at + i]
  {
    if at + n <= |bytes| then bytes[at..at + n] else []
  }

  function Overwrite(bytes: seq<Byte>, at: nat, data: seq<Byte>): (r: seq<Byte>)
    ensures |r| == |bytes|
    ensures at + |data| <= |bytes| ==>
      forall i :: 0 <= i < |bytes| ==> r[i] == if at <= i < at + |data| then data[i - at] else bytes[i]
  {
    if at + |data| <= |bytes| then bytes[..at] + data + bytes[at + |data|..] else bytes
  }

  // How much of a request at an offset is inside a region.
  function Clip(size: nat, offset: nat, len: nat): (n: nat)
    ensures n <= len && (offset < size ==> offset + n <= size)
  {
    if offset >= size then 0 else if len < size - offset then len else size - offset
  }

  // ---------- The pool ----------

  function CreateReply(infos: seq<Option<Info>>, used: nat, name: string, size: nat): Reply {
    if size == 0 then Failed(-EINVAL)
    else if FindName(infos, name) < |infos| then Failed(-EEXIST)
    else if FreeSlot(infos) == |infos| || used + Aligned(size) > POOL_SIZE then Failed(-ENOMEM)
    else Handle(FreeSlot(infos))
  }

  function Do(p: Pool, caller: nat, op: Op): (r: (Pool, Reply))
    requires |p.places| == |p.infos|
    ensures |r.0.places| == |r.0.infos| == |p.infos|
  {
    match op
    case Create(name, size, access) =>
      var reply := CreateReply(p.infos, p.used, name, size);
      if reply.Failed? then (p, reply) else
      var n := FreeSlot(p.infos);
      (Pool(p.infos[n := Some(Info(Stored(name), caller, 1, access, []))], p.places[n := Place(p.used, size)],
            Overwrite(p.bytes, p.used, Zeros(size)), p.used + Aligned(size)), reply)
    case Read(h, offset, len) =>
      if !Held(p.infos, h) then (p, Failed(-EINVAL))
      else if !Allowed(p.infos[h].value, caller, Access(true, false)) then (p, Failed(-EACCES))
      else (p, Got(Slice(p.bytes, p.places[h].start + offset, Clip(p.places[h].size, offset, len))))
    case Write(h, offset, data) =>
      if !Held(p.infos, h) then (p, Failed(-EINVAL))
      else if !Allowed(p.infos[h].value, caller, Access(false, true)) then (p, Failed(-EACCES))
      else
        var n := Clip(p.places[h].size, offset, |data|);
        (p.(bytes := Overwrite(p.bytes, p.places[h].start + offset, data[..n])), Wrote(n))
    case _ =>
      var (infos, reply) := Admin(p.infos, caller, op);
      (p.(infos := infos), reply)
  }

  function Initial(): Pool {
    Pool(seq(MAX_REGIONS, _ => None), seq(MAX_REGIONS, _ => Place(0, 0)), Zeros(POOL_SIZE), 0)
  }

  // ---------- Separation ----------

  predicate Apart(a: Place, b: Place) {
    a.start + Aligned(a.size) <= b.start || b.start + Aligned(b.size) <= a.start
  }

  ghost predicate Separate(p: Pool) {
    && |p.infos| == |p.places| == MAX_REGIONS && |p.bytes| == POOL_SIZE
    && p.used <= POOL_SIZE && p.used % 8 == 0
    && (forall h :: 0 <= h < MAX_REGIONS && p.infos[h].Some? ==>
          p.places[h].start % 8 == 0 && p.places[h].start + Aligned(p.places[h].size) <= p.used)
    && (forall h, k :: 0 <= h < MAX_REGIONS && 0 <= k < MAX_REGIONS && h != k && p.infos[h].Some? && p.infos[k].Some? ==>
          Apart(p.places[h], p.places[k]))
  }

  lemma AdminOnlyFrees(infos: seq<Option<Info>>, caller: nat, op: Op)
    requires op.Open? || op.Close? || op.Destroy? || op.SetPermission?
    ensures var infos' := Admin(infos, caller, op).0;
      |infos'| == |infos| && forall h :: 0 <= h < |infos| && infos'[h].Some? ==> infos[h].Some?
  {
  }

  lemma CreateKeepsSeparate(p: Pool, caller: nat, op: Op)
    requires Separate(p) && op.Create?
    ensures Separate(Do(p, caller, op).0)
  {
    var aligned := Aligned(op.size);
    assert (p.used + aligned) % 8 == 0;
    hide Aligned, FindName, Stored;
    assert forall h :: 0 <= h < MAX_REGIONS && p.infos[h].Some? ==> Apart(p.places[h], Place(p.used, op.size));
  }

  /** Every step keeps the live regions aligned, inside the pool and apart. */
  lemma StepKeepsSeparate(p: Pool, caller: nat, op: Op)
    requires Separate(p)
    ensures Separate(Do(p, caller, op).0)
  {
    hide Aligned, Admin, Allowed;
    match op
    case Create(_, _, _) => CreateKeepsSeparate(p, caller, op);
    case Read(_, _, _) =>
    case Write(_, _, _) =>
    case _ => AdminOnlyFrees(p.infos, caller, op);
  }

  // ---------- Private memories ----------

  // The same directory, with the bytes of each region to itself.
  datatype Private = Private(infos: seq<Option<Info>>, memory: seq<seq<Byte>>, spent: nat)

  function DoPrivate(s: Private, caller: nat, op: Op): (r: (Private, Reply))
    requires |s.memory| == |s.infos|
    ensures |r.0.memory| == |r.0.infos| == |s.infos|
  {
    match op
    case Create(name, size, access) =>
      var reply := CreateReply(s.infos, s.spent, name, size);
      if reply.Failed? then (s, reply) else
      var n := FreeSlot(s.infos);
      (Private(s.infos[n := Some(Info(Stored(name), caller, 1, access, []))], s.memory[n := Zeros(size)],
               s.spent + Aligned(size)), reply)
    case Read(h, offset, len) =>
      if !Held(s.infos, h) then (s, Failed(-EINVAL))
      else if !Allowed(s.infos[h].value, caller, Access(true, false)) then (s, Failed(-EACCES))
      else
        var n := Clip(|s.memory[h]|, offset, len);
        (s, Got(if n == 0 then [] else s.memory[h][offset..offset + n]))
    case Write(h, offset, data) =>
      if !Held(s.infos, h) then (s, Failed(-EINVAL))
      else if !Allowed(s.infos[h].value, caller, Access(false, true)) then (s, Failed(-EACCES))
      else
        var n := Clip(|s.memory[h]|, offset, |data|);
        (s.(memory := s.memory[h := Overwrite(s.memory[h], offset, data[..n])]), Wrote(n))
    case _ =>
      var (infos, reply) := Admin(s.infos, caller, op);
      (Private(infos, Kept(infos, s.memory), s.spent), reply)
  }

  // The memories of the regions that are still live.
  function Kept(infos: seq<Option<Info>>, memory: seq<seq<Byte>>): (r: seq<seq<Byte>>)
    requires |memory| == |infos|
    ensures |r| == |infos|
  {
    seq(|infos|, i requires 0 <= i < |infos| => if infos[i].Some? then memory[i] else [])
  }

  ghost function View(p: Pool): (s: Private)
    requires |p.places| == |p.infos|
    ensures |s.memory| == |s.infos|
  {
    Private(p.infos, seq(|p.infos|, h requires 0 <= h < |p.infos| => MemoryAt(p, h)), p.used)
  }

  // The bytes of a live region.
  ghost function MemoryAt(p: Pool, h: nat): seq<Byte>
    requires h < |p.infos| == |p.places|
  {
    if p.infos[h].Some? then Slice(p.bytes, p.places[h].start, p.places[h].size) else []
  }

  lemma SliceElsewhere(bytes: seq<Byte>, at: nat, data: seq<Byte>, from: nat, n: nat)
    requires at + |data| <= |bytes| && from + n <= |bytes|
    requires at + |data| <= from || from + n <= at
    ensures Slice(Overwrite(bytes, at, data), from, n) == Slice(bytes, from, n)
  {
    hide Overwrite;
  }

  lemma SliceInside(bytes: seq<Byte>, start: nat, size: nat, offset: nat, data: seq<Byte>)
    requires start + size <= |bytes| && offset + |data| <= size
    ensures Slice(Overwrite(bytes, start + offset, data), start, size) == Overwrite(Slice(bytes, start, size), offset, data)
  {
    hide Overwrite;
  }

  lemma SliceOfSlice(bytes: seq<Byte>, start: nat, size: nat, offset: nat, n: nat)
    requires start + size <= |bytes| && offset + n <= size
    ensures Slice(bytes, start + offset, n) == Slice(bytes, start, size)[offset..offset + n]
  {
  }

  lemma AdminIsPrivate(p: Pool, caller: nat, op: Op)
    requires Separate(p) && (op.Open? || op.Close? || op.Destroy? || op.SetPermission?)
    ensures View(Do(p, caller, op).0) == DoPrivate(View(p), caller, op).0
    ensures Do(p, caller, op).1 == DoPrivate(View(p), caller, op).1
  {
    AdminOnlyFrees(p.infos, caller, op);
    hide Admin, Slice;
    assert View(Do(p, caller, op).0).memory == DoPrivate(View(p), caller, op).0.memory;
  }

  lemma ReadIsPrivate(p: Pool, caller: nat, op: Op)
    requires Separate(p) && op.Read?
    ensures View(Do(p, caller, op).0) == DoPrivate(View(p), caller, op).0
    ensures Do(p, caller, op).1 == DoPrivate(View(p), caller, op).1
  {
    var h := op.handle;
    hide Allowed, Aligned, Slice, Clip;
    if Held(p.infos, h) {
      var place := p.places[h];
      var n := Clip(place.size, op.offset, op.len);
      ClipFits(place.size, op.offset, op.len);
      if n > 0 {
        SliceOfSlice(p.bytes, place.start, place.size, op.offset, n);
      } else {
        NoSlice(p.bytes, place.start + op.offset);
      }
    }
  }

  lemma ClipFits(size: nat, offset: nat, len: nat)
    ensures Clip(size, offset, len) > 0 ==> offset + Clip(size, offset, len) <= size
  {
  }

  lemma NoSlice(bytes: seq<Byte>, at: nat)
    ensures Slice(bytes, at, 0) == []
  {
  }

  // Bytes change only inside one region's place.
  lemma OthersSeeNothing(p: Pool, h: int, at: nat, data: seq<Byte>, k: int)
    requires Separate(p) && Held(p.infos, h) && Held(p.infos, k) && h != k
    requires p.places[h].start <= at && at + |data| <= p.places[h].start + p.places[h].size
    ensures var place := p.places[k];
      Slice(Overwrite(p.bytes, at, data), place.start, place.size) == Slice(p.bytes, place.start, place.size)
  {
    assert Apart(p.places[h], p.places[k]);
    SliceElsewhere(p.bytes, at, data, p.places[k].start, p.places[k].size);
    hide Slice, Overwrite;
  }

  lemma WriteViewsAt(p: Pool, h: int, offset: nat, data: seq<Byte>, k: nat)
    requires Separate(p) && Held(p.infos, h) && offset + |data| <= p.places[h].size && k < MAX_REGIONS
    ensures MemoryAt(p.(bytes := Overwrite(p.bytes, p.places[h].start + offset, data)), k) ==
      if k == h then Overwrite(MemoryAt(p, h), offset, data) else MemoryAt(p, k)
  {
    var place := p.places[h];
    if k == h {
      SliceInside(p.bytes, place.start, place.size, offset, data);
    } else if p.infos[k].Some? {
      OthersSeeNothing(p, h, place.start + offset, data, k);
    }
    hide Slice, Overwrite;
  }

  lemma WriteViews(p: Pool, h: int, offset: nat, data: seq<Byte>)
    requires Separate(p) && Held(p.infos, h) && offset + |data| <= p.places[h].size
    ensures var p' := p.(bytes := Overwrite(p.bytes, p.places[h].start + offset, data));
      View(p').memory == View(p).memory[h := Overwrite(View(p).memory[h], offset, data)]
  {
    assert |p.infos| == |p.places| == MAX_REGIONS;
    hide Slice, Overwrite, Separate, MemoryAt;
    forall k | 0 <= k < MAX_REGIONS {
      WriteViewsAt(p, h, offset, data, k);
    }
  }

  lemma WriteNothing(bytes: seq<Byte>, at: nat)
    ensures Overwrite(bytes, at, []) == bytes
  {
    if at <= |bytes| {
      assert bytes[..at] + [] + bytes[at..] == bytes;
    }
  }

  lemma ClippedWriteViews(p: Pool, h: int, offset: nat, data: seq<Byte>)
    requires Separate(p) && Held(p.infos, h)
    ensures var n := Clip(p.places[h].size, offset, |data|);
      && |View(p).memory[h]| == p.places[h].size
      && View(p.(bytes := Overwrite(p.bytes, p.places[h].start + offset, data[..n]))).memory
         == View(p).memory[h := Overwrite(View(p).memory[h], offset, data[..n])]
  {
    var n := Clip(p.places[h].size, offset, |data|);
    ClipFits(p.places[h].size, offset, |data|);
    assert |View(p).memory[h]| == p.places[h].size;
    if n > 0 {
      WriteViews(p, h, offset, data[..n]);
    } else {
      hide Overwrite, Slice;
      assert data[..n] == [];
      WriteNothing(p.bytes, p.places[h].start + offset);
      WriteNothing(View(p).memory[h], offset);
    }
  }

  lemma WriteIsPrivate(p: Pool, caller: nat, op: Op)
    requires Separate(p) && op.Write?
    ensures View(Do(p, caller, op).0) == DoPrivate(View(p), caller, op).0
    ensures Do(p, caller, op).1 == DoPrivate(View(p), caller, op).1
  {
    hide Allowed, Overwrite, Clip, Slice;
    if Held(p.infos, op.handle) {
      ClippedWriteViews(p, op.handle, op.offset, op.data);
    }
    hide Separate;
  }

  lemma CreateIsPrivate(p: Pool, caller: nat, op: Op)
    requires Separate(p) && op.Create?
    ensures View(Do(p, caller, op).0) == DoPrivate(View(p), caller, op).0
    ensures Do(p, caller, op).1 == DoPrivate(View(p), caller, op).1
  {
    hide FindName, Stored, Aligned, Slice, Overwrite, Zeros;
    if CreateReply(p.infos, p.used, op.name, op.size).Handle? {
      CreateViews(p, caller, op);
    }
  }

  lemma CreateViews(p: Pool, caller: nat, op: Op)
    requires Separate(p) && op.Create? && CreateReply(p.infos, p.used, op.name, op.size).Handle?
    ensures View(Do(p, caller, op).0).memory == View(p).memory[FreeSlot(p.infos) := Zeros(op.size)]
  {
    var n, p' := FreeSlot(p.infos), Do(p, caller, op).0;
    assert p.used + op.size <= POOL_SIZE;
    assert |Zeros(op.size)| == op.size;
    SliceOfNew(p.bytes, p.used, Zeros(op.size));
    forall k | 0 <= k < MAX_REGIONS && k != n
      ensures View(p').memory[k] == View(p).memory[k]
    {
      if p.infos[k].Some? {
        SliceElsewhere(p.bytes, p.used, Zeros(op.size), p.places[k].start, p.places[k].size);
      }
      hide Slice, Overwrite, FindName, Stored, Zeros, Aligned;
    }
    hide Slice, Overwrite, FindName, Stored, Zeros, Aligned, Separate;
  }

  lemma SliceOfNew(bytes: seq<Byte>, at: nat, data: seq<Byte>)
    requires at + |data| <= |bytes|
    ensures Slice(Overwrite(bytes, at, data), at, |data|) == data
  {
    hide Overwrite;
  }

  /** One step on the pool is that step on private memories, with the same reply. */
  lemma StepIsPrivate(p: Pool, caller: nat, op: Op)
    requires Separate(p)
    ensures View(Do(p, caller, op).0) == DoPrivate(View(p), caller, op).0
    ensures Do(p, caller, op).1 == DoPrivate(View(p), caller, op).1
  {
    assert |p.places| == |p.infos|;
    hide Do, DoPrivate, View, Separate;
    match op
    case Create(_, _, _) => CreateIsPrivate(p, caller, op);
    case Read(_, _, _) => ReadIsPrivate(p, caller, op);
    case Write(_, _, _) => WriteIsPrivate(p, caller, op);
    case _ => AdminIsPrivate(p, caller, op);
  }

  // ---------- Runs ----------

  function Run(calls: seq<Call>): (p: Pool)
    ensures |p.places| == |p.infos|
    decreases |calls|
  {
    if calls == [] then Initial() else
    var call := calls[|calls| - 1];
    Do(Run(calls[..|calls| - 1]), call.caller, call.op).0
  }

  function Replies(calls: seq<Call>): seq<Reply>
    decreases |calls|
  {
    if calls == [] then [] else
    var before, call := calls[..|calls| - 1], calls[|calls| - 1];
    Replies(before) + [Do(Run(before), call.caller, call.op).1]
  }

  function RunPrivate(calls: seq<Call>): (s: Private)
    ensures |s.memory| == |s.infos|
    decreases |calls|
  {
    if calls == [] then Private(seq(MAX_REGIONS, _ => None), seq(MAX_REGIONS, _ => []), 0) else
    var call := calls[|calls| - 1];
    DoPrivate(RunPrivate(calls[..|calls| - 1]), call.caller, call.op).0
  }

  function PrivateReplies(calls: seq<Call>): seq<Reply>
    decreases |calls|
  {
    if calls == [] then [] else
    var before, call := calls[..|calls| - 1], calls[|calls| - 1];
    PrivateReplies(before) + [DoPrivate(RunPrivate(before), call.caller, call.op).1]
  }

  lemma {:induction false} RunKeepsSeparate(calls: seq<Call>)
    ensures Separate(Run(calls))
    decreases |calls|
  {
    if calls != [] {
      hide Separate, Do, Initial;
      RunKeepsSeparate(calls[..|calls| - 1]);
      StepKeepsSeparate(Run(calls[..|calls| - 1]), calls[|calls| - 1].caller, calls[|calls| - 1].op);
    } else {
      assert forall h :: 0 <= h < MAX_REGIONS ==> Initial().infos[h] == None;
    }
  }

  /** Every run of calls on the pool gives the replies of the same run on private memories. */
  lemma {:induction false} PoolIsPrivateMemories(calls: seq<Call>)
    ensures View(Run(calls)) == RunPrivate(calls)
    ensures Replies(calls) == PrivateReplies(calls)
    decreases |calls|
  {
    if calls == [] {
      assert View(Initial()).memory == seq(MAX_REGIONS, _ => []);
    } else {
      var before, call := calls[..|calls| - 1], calls[|calls| - 1];
      PoolIsPrivateMemories(before);
      RunKeepsSeparate(before);
      StepIsPrivate(Run(before), call.caller, call.op);
      hide Separate, Do, DoPrivate, View, Initial;
    }
  }

  // ---------- What it means for a reader ----------

  /** Two live regions share no byte. */
  lemma LiveRegionsShareNothing(calls: seq<Call>, h: int, k: int, i: nat)
    requires var p := Run(calls); Held(p.infos, h) && Held(p.infos, k) && h != k
    ensures var p := Run(calls);
      && p.places[h].start % 8 == 0 && p.places[h].start + p.places[h].size <= POOL_SIZE
      && !(p.places[h].start <= i < p.places[h].start + p.places[h].size
           && p.places[k].start <= i < p.places[k].start + p.places[k].size)
  {
    RunKeepsSeparate(calls);
    assert Apart(Run(calls).places[h], Run(calls).places[k]);
  }

  /** After a write, a region reads as before but for the written part, clipped to its end;
      and every other region reads as before. */
  lemma ReadAfterWrite(calls: seq<Call>, write: Call, h: int, k: int)
    requires write.op.Write? && write.op.handle == h && Held(Run(calls).infos, k)
    requires Do(Run(calls), write.caller, write.op).1.Wrote?
    ensures var before, after := View(Run(calls)).memory[k], View(Run(calls + [write])).memory[k];
      && |after| == |before|
      && forall i :: 0 <= i < |after| ==>
           after[i] == if k == h && write.op.offset <= i < write.op.offset + |write.op.data|
                       then write.op.data[i - write.op.offset] else before[i]
  {
    RunOneMore(calls, write);
    RunKeepsSeparate(calls);
    hide *;
    WriteShows(Run(calls), write, h, k);
  }

  lemma RunOneMore(calls: seq<Call>, call: Call)
    ensures Run(calls + [call]) == Do(Run(calls), call.caller, call.op).0
  {
    assert (calls + [call])[..|calls|] == calls;
    hide Do;
  }

  lemma WriteShows(p: Pool, write: Call, h: int, k: int)
    requires |p.places| == |p.infos| && Separate(p) && write.op.Write? && write.op.handle == h && Held(p.infos, k)
    requires Do(p, write.caller, write.op).1.Wrote?
    ensures var before, after := View(p).memory, View(Do(p, write.caller, write.op).0).memory;
      && k < |before| && k < |after| && |after[k]| == |before[k]|
      && forall i :: 0 <= i < |after[k]| ==>
           after[k][i] == if k == h && write.op.offset <= i < write.op.offset + |write.op.data|
                          then write.op.data[i - write.op.offset] else before[k][i]
  {
    hide Do, Separate, Overwrite;
    ViewAfterWrite(p, write, h);
    OverwriteClipped(View(p).memory[h], write.op.offset, write.op.data);
    hide View;
  }

  lemma ViewAfterWrite(p: Pool, write: Call, h: int)
    requires Separate(p) && write.op.Write? && write.op.handle == h
    requires Do(p, write.caller, write.op).1.Wrote?
    ensures Held(p.infos, h)
    ensures var memory, data := View(p).memory, write.op.data;
      View(Do(p, write.caller, write.op).0).memory ==
      memory[h := Overwrite(memory[h], write.op.offset, data[..Clip(|memory[h]|, write.op.offset, |data|)])]
  {
    hide Allowed, Overwrite, Clip, Slice;
    ClippedWriteViews(p, h, write.op.offset, write.op.data);
    hide View, Separate;
  }

  lemma OverwriteClipped(bytes: seq<Byte>, offset: nat, data: seq<Byte>)
    ensures var r := Overwrite(bytes, offset, data[..Clip(|bytes|, offset, |data|)]);
      && |r| == |bytes|
      && forall i :: 0 <= i < |bytes| ==>
           r[i] == if offset <= i < offset + |data| then data[i - offset] else bytes[i]
  {
    hide Overwrite;
    if offset >= |bytes| {
      assert data[..0] == [];
      WriteNothing(bytes, offset);
    }
  }

  // ---------- Reference counts and space ----------

  ghost predicate Counted(infos: seq<Option<Info>>, h: int, opens: int, limit: nat) {
    Held(infos, h) ==> 1 <= infos[h].value.refs == opens <= limit
  }

  // One for the creation of the region that is live in the slot, and one for each time it has
  // been opened and not closed since.
  function Opens(calls: seq<Call>, h: int): int
    decreases |calls|
  {
    if calls == [] then 0 else
    var before, call := calls[..|calls| - 1], calls[|calls| - 1];
    OpensAfter(Run(before), call, h, Opens(before, h))
  }

  function OpensAfter(p: Pool, call: Call, h: int, opens: int): int
    requires |p.places| == |p.infos|
  {
    var reply := Do(p, call.caller, call.op).1;
    if call.op.Create? && reply == Handle(FreeSlot(p.infos)) && FreeSlot(p.infos) == h then 1
    else if call.op.Open? && reply.Handle? && reply.handle == h then opens + 1
    else if call.op.Close? && call.op.handle == h then opens - 1
    else opens
  }

  lemma StepCounts(p: Pool, call: Call, h: int, opens: int, limit: nat)
    requires |p.places| == |p.infos| && Counted(p.infos, h, opens, limit) && limit + 1 < WORD
    ensures Counted(Do(p, call.caller, call.op).0.infos, h, OpensAfter(p, call, h, opens), limit + 1)
  {
    hide FindName, Allowed, GrantOf, Aligned, Slice, Overwrite, Clip, Stored;
  }

  /** In every run of fewer than 2^32 calls, a live region's count is one for its creation plus
      its opens minus its closes, and is never 0. */
  lemma {:induction false} RefsAreOpensMinusCloses(calls: seq<Call>, h: int)
    requires |calls| + 1 < WORD
    ensures Counted(Run(calls).infos, h, Opens(calls, h), |calls|)
    decreases |calls|
  {
    if calls != [] {
      var before, call := calls[..|calls| - 1], calls[|calls| - 1];
      RefsAreOpensMinusCloses(before, h);
      StepCounts(Run(before), call, h, Opens(before, h), |before|);
      hide Do, Counted, Initial;
    }
  }

  // The space of every region ever created.
  function Taken(calls: seq<Call>): nat
    decreases |calls|
  {
    if calls == [] then 0 else
    var before, call := calls[..|calls| - 1], calls[|calls| - 1];
    Taken(before) + if call.op.Create? && Do(Run(before), call.caller, call.op).1.Handle? then Aligned(call.op.size) else 0
  }

  lemma UsedGrows(p: Pool, caller: nat, op: Op)
    requires |p.places| == |p.infos|
    ensures Do(p, caller, op).0.used ==
      p.used + if op.Create? && Do(p, caller, op).1.Handle? then Aligned(op.size) else 0
  {
    hide Admin, Aligned, Overwrite, FindName, FreeSlot, Stored, Zeros, Allowed, Slice, Clip;
  }

  lemma {:induction false} SpaceIsNeverReused(calls: seq<Call>)
    ensures Run(calls).used == Taken(calls) <= POOL_SIZE
    decreases |calls|
  {
    if calls != [] {
      RunKeepsSeparate(calls);
      assert Run(calls).used <= POOL_SIZE;
      hide Separate, Do;
      var before, call := calls[..|calls| - 1], calls[|calls| - 1];
      SpaceIsNeverReused(before);
      UsedGrows(Run(before), call.caller, call.op);
      hide Aligned;
    }
  }

  /** Space is never given back: whatever was closed or destroyed, a region is created exactly
      if its size is not 0, a slot is free, no live region has the name, and the space of all
      regions ever created leaves room for it. */
  lemma CreatedIff(calls: seq<Call>, caller: nat, name: string, size: nat, access: Access)
    ensures var infos := Run(calls).infos;
      Do(Run(calls), caller, Create(name, size, access)).1.Handle? <==>
      && size > 0 && (exists h :: 0 <= h < |infos| && infos[h].None?)
      && (forall h :: 0 <= h < |infos| && infos[h].Some? ==> infos[h].value.name != name)
      && Taken(calls) + Aligned(size) <= POOL_SIZE
  {
    SpaceIsNeverReused(calls);
    hide Run, Taken, Aligned, Overwrite, Stored, Zeros;
    var infos := Run(calls).infos;
    var n := FindName(infos, name);
    var k := FreeSlot(infos);
  }
}
