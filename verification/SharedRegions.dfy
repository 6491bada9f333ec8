/** What the callers of shared memory are promised: a finite map from handles to regions, each
    with bytes and permissions of its own; and that in every run the pool keeps the promise. */
module SharedRegions {
  import opened Basics
  import opened SharedMemory

  datatype Region = Region(
    name: string, owner: nat, refs: nat, access: Access, granted: map<nat, Access>, bytes: seq<Byte>)

  // The regions by their handles, and the space of all that were ever created.
  datatype World = World(regions: map<nat, Region>, spent: nat)

  // ---------- The promise ----------

  /** The lowest free handle from `n` on, or 16. */
  function FreeFrom(regions: map<nat, Region>, n: nat): (h: nat)
    requires n <= 16
    ensures n <= h <= 16
    decreases 16 - n
  {
    if n == 16 || n !in regions then n else FreeFrom(regions, n + 1)
  }

  /** The lowest handle from `n` on of a region of that name, or 16. */
  function NamedFrom(regions: map<nat, Region>, name: string, n: nat): (h: nat)
    requires n <= 16
    ensures n <= h <= 16
    ensures h < 16 ==> h in regions && regions[h].name == name
    decreases 16 - n
  {
    if n == 16 || (n in regions && regions[n].name == name) then n else NamedFrom(regions, name, n + 1)
  }

  /** The owner may do everything, an app with a permission of its own what that says, and any
      other app what the region was created with. */
  predicate May(region: Region, app: nat, request: Access) {
    var access := if app in region.granted then region.granted[app] else region.access;
    app == region.owner || ((access.read || !request.read) && (access.write || !request.write))
  }

  function Least(a: nat, b: nat): (m: nat)
    ensures m <= a && m <= b
  {
    if a < b then a else b
  }

  function Space(size: nat): nat {
    if size % 8 == 0 then size else size + 8 - size % 8
  }

  /** A new region is all zeros, and its name is cut to 31 characters. */
  function Fresh(owner: nat, name: string, size: nat, access: Access): Region {
    Region(name[..Least(|name|, 31)], owner, 1, access, map[], seq(size, _ => 0))
  }

  function Serve(w: World, caller: nat, op: Op): (World, Reply) {
    match op
    case Create(name, size, access) =>
      var h := FreeFrom(w.regions, 0);
      if size == 0 then (w, Failed(-EINVAL))
      else if NamedFrom(w.regions, name, 0) < 16 then (w, Failed(-EEXIST))
      else if h == 16 || w.spent + Space(size) > 65536 then (w, Failed(-ENOMEM))
      else
        (World(w.regions[h := Fresh(caller, name, size, access)], w.spent + Space(size)), Handle(h))
    case Open(name, request) =>
      var h := NamedFrom(w.regions, name, 0);
      if h == 16 then (w, Failed(-ENOENT))
      else if !May(w.regions[h], caller, request) then (w, Failed(-EACCES))
      else (w.(regions := w.regions[h := w.regions[h].(refs := (w.regions[h].refs + 1) % 0x1_0000_0000)]), Handle(h))
    case Close(h) =>
      if h !in w.regions then (w, Failed(-EINVAL))
      else if w.regions[h].refs > 1 then
        (w.(regions := w.regions[h := w.regions[h].(refs := w.regions[h].refs - 1)]), Done)
      else (w.(regions := w.regions - {h}), Done)
    case Destroy(h) =>
      if h !in w.regions then (w, Failed(-EINVAL))
      else if caller != w.regions[h].owner then (w, Failed(-EACCES))
      else (w.(regions := w.regions - {h}), Done)
    case SetPermission(h, app, access) =>
      if h !in w.regions then (w, Failed(-EINVAL))
      else if caller != w.regions[h].owner then (w, Failed(-EACCES))
      else
        var granted := w.regions[h].granted;
        if app !in granted && |granted| >= 8 then (w, Failed(-ENOMEM))
        else (w.(regions := w.regions[h := w.regions[h].(granted := granted[app := access])]), Done)
    case Read(h, offset, len) =>
      if h !in w.regions then (w, Failed(-EINVAL))
      else if !May(w.regions[h], caller, Access(true, false)) then (w, Failed(-EACCES))
      else
        var bytes := w.regions[h].bytes;
        (w, Got(bytes[Least(offset, |bytes|)..Least(offset + len, |bytes|)]))
    case Write(h, offset, data) =>
      if h !in w.regions then (w, Failed(-EINVAL))
      else if !May(w.regions[h], caller, Access(false, true)) then (w, Failed(-EACCES))
      else
        var bytes := w.regions[h].bytes;
        var from, to := Least(offset, |bytes|), Least(offset + |data|, |bytes|);
        var changed := bytes[..from] + data[..to - from] + bytes[to..];
        (w.(regions := w.regions[h := w.regions[h].(bytes := changed)]), Wrote(to - from))
  }

  // ---------- The directory as a map ----------

  // Permissions are kept in a list, one entry for each app.
  function Granted(grants: seq<Grant>): map<nat, Access> {
    if grants == [] then map[] else Granted(grants[1..])[grants[0].app := grants[0].access]
  }

  ghost predicate OneEach(grants: seq<Grant>) {
    forall i, j :: 0 <= i < j < |grants| ==> grants[i].app != grants[j].app
  }

  function RegionOf(info: Info, bytes: seq<Byte>): Region {
    Region(info.name, info.owner, info.refs, info.access, Granted(info.grants), bytes)
  }

  function WorldOf(s: Private): World
    requires |s.memory| == |s.infos|
  {
    World(map h: nat | h < |s.infos| && s.infos[h].Some? :: RegionOf(s.infos[h].value, s.memory[h]), s.spent)
  }

  ghost predicate Proper(s: Private) {
    && |s.infos| == |s.memory| == MAX_REGIONS
    && forall h :: 0 <= h < MAX_REGIONS && s.infos[h].Some? ==>
         OneEach(s.infos[h].value.grants) && |s.infos[h].value.grants| <= MAX_GRANTS
  }

  lemma {:induction false} GrantedIs(grants: seq<Grant>, app: nat)
    ensures var n := GrantOf(grants, app);
      && (app in Granted(grants) <==> n < |grants|)
      && (n < |grants| ==> Granted(grants)[app] == grants[n].access)
  {
    if grants != [] {
      GrantedIs(grants[1..], app);
    }
  }

  lemma {:induction false} GrantedCount(grants: seq<Grant>)
    requires OneEach(grants)
    ensures |Granted(grants)| == |grants|
  {
    if grants != [] {
      var rest := grants[1..];
      GrantedCount(rest);
      GrantedIs(rest, grants[0].app);
      assert forall i :: 0 <= i < |rest| ==> rest[i] == grants[i + 1];
      assert Granted(grants).Keys == Granted(rest).Keys + {grants[0].app};
    }
  }

  lemma {:induction false} GrantedChanges(grants: seq<Grant>, n: nat, grant: Grant)
    requires n == GrantOf(grants, grant.app)
    ensures var after := if n < |grants| then grants[n := grant] else grants + [grant];
      Granted(after) == Granted(grants)[grant.app := grant.access]
  {
    var after := if n < |grants| then grants[n := grant] else grants + [grant];
    forall app: nat
      ensures app in Granted(after) <==> app in Granted(grants)[grant.app := grant.access]
      ensures app in Granted(after) ==> Granted(after)[app] == Granted(grants)[grant.app := grant.access][app]
    {
      GrantedIs(grants, app);
      GrantedIs(after, app);
      GrantsOfOthers(grants, after, n, grant, app);
    }
  }

  lemma MayIsAllowed(info: Info, bytes: seq<Byte>, app: nat, request: Access)
    ensures May(RegionOf(info, bytes), app, request) <==> Allowed(info, app, request)
  {
    GrantedIs(info.grants, app);
  }

  lemma {:induction false} NamedIsFind(s: Private, name: string, n: nat)
    requires Proper(s) && n <= MAX_REGIONS
    requires forall i :: 0 <= i < n ==> !(s.infos[i].Some? && s.infos[i].value.name == name)
    ensures NamedFrom(WorldOf(s).regions, name, n) == FindName(s.infos, name)
    decreases MAX_REGIONS - n
  {
    if n < MAX_REGIONS && !(s.infos[n].Some? && s.infos[n].value.name == name) {
      NamedIsFind(s, name, n + 1);
    }
    hide Granted, OneEach;
  }

  lemma {:induction false} FreeIsFree(s: Private, n: nat)
    requires Proper(s) && n <= MAX_REGIONS
    requires forall i :: 0 <= i < n ==> s.infos[i].Some?
    ensures FreeFrom(WorldOf(s).regions, n) == FreeSlot(s.infos)
    decreases MAX_REGIONS - n
  {
    if n < MAX_REGIONS && s.infos[n].Some? {
      FreeIsFree(s, n + 1);
    }
    hide Granted, OneEach;
  }

  lemma SpaceIsAligned(size: nat)
    ensures Space(size) == Aligned(size)
  {
    var q, r := size / 8, size % 8;
    assert size + 7 == 8 * q + r + 7;
    assert (size + 7) / 8 == if r == 0 then q else q + 1;
  }

  // ---------- One step ----------

  // A step that touches one handle.
  lemma OneSlot(s: Private, s': Private, n: nat)
    requires n < |s.infos| == |s.memory| == |s'.infos| == |s'.memory|
    requires forall k :: 0 <= k < |s.infos| && k != n ==>
      s'.infos[k] == s.infos[k] && (s.infos[k].Some? ==> s'.memory[k] == s.memory[k])
    ensures WorldOf(s').regions ==
      if s'.infos[n].Some? then WorldOf(s).regions[n := RegionOf(s'.infos[n].value, s'.memory[n])]
      else WorldOf(s).regions - {n}
  {
    hide RegionOf;
  }

  // The step is the promised one.
  ghost predicate Serves(s: Private, caller: nat, op: Op)
    requires |s.memory| == |s.infos|
  {
    var s', reply := DoPrivate(s, caller, op).0, DoPrivate(s, caller, op).1;
    Proper(s') && (WorldOf(s'), reply) == Serve(WorldOf(s), caller, op)
  }

  lemma CreatePromised(s: Private, caller: nat, name: string, size: nat, access: Access)
    requires Proper(s)
    ensures var reply, w := CreateReply(s.infos, s.spent, name, size), WorldOf(s);
      Serve(w, caller, Create(name, size, access)) ==
      if reply.Failed? then (w, reply) else
      (World(w.regions[FreeSlot(s.infos) := Fresh(caller, name, size, access)], s.spent + Aligned(size)), reply)
  {
    assert |s.infos| == MAX_REGIONS;
    NamedIsFind(s, name, 0);
    FreeIsFree(s, 0);
    SpaceIsAligned(size);
    WorldSpent(s);
    hide FindName, FreeSlot, Aligned, Space, NamedFrom, FreeFrom, WorldOf, Proper, Fresh;
  }

  lemma CreateServes(s: Private, caller: nat, op: Op)
    requires Proper(s) && op.Create?
    ensures Serves(s, caller, op)
  {
    CreatePromised(s, caller, op.name, op.size, op.access);
    hide Serve, FindName, FreeSlot, Aligned, WorldOf, Stored, Zeros, Fresh;
    if DoPrivate(s, caller, op).1.Handle? {
      CreateAdds(s, caller, op);
    }
    hide Proper;
  }

  lemma CreateAdds(s: Private, caller: nat, op: Op)
    requires Proper(s) && op.Create? && DoPrivate(s, caller, op).1.Handle?
    ensures Proper(DoPrivate(s, caller, op).0)
    ensures WorldOf(DoPrivate(s, caller, op).0) ==
      World(WorldOf(s).regions[FreeSlot(s.infos) := Fresh(caller, op.name, op.size, op.access)],
            s.spent + Aligned(op.size))
  {
    NewRegion(op.name, op.size);
    WorldSpent(DoPrivate(s, caller, op).0);
    hide FindName, FreeSlot, Aligned, Granted, Stored, Zeros, WorldOf;
    OneSlot(s, DoPrivate(s, caller, op).0, FreeSlot(s.infos));
  }

  lemma NewRegion(name: string, size: nat)
    ensures Stored(name) == name[..Least(|name|, 31)] && Zeros(size) == seq(size, _ => 0)
    ensures Granted([]) == map[] && OneEach([])
  {
  }

  lemma SameWorld(s: Private, s': Private)
    requires |s.infos| == |s.memory| == |s'.memory| && s'.infos == s.infos && s'.spent == s.spent
    requires forall k :: 0 <= k < |s.infos| && s.infos[k].Some? ==> s'.memory[k] == s.memory[k]
    ensures WorldOf(s') == WorldOf(s)
  {
    hide RegionOf;
  }

  // A call that changes one entry of the directory, or none.
  lemma AdminChanges(s: Private, caller: nat, op: Op, n: nat)
    requires Proper(s) && n < MAX_REGIONS && (op.Open? || op.Close? || op.Destroy? || op.SetPermission?)
    requires var infos := Admin(s.infos, caller, op).0; |infos| == |s.infos| && infos == s.infos[n := infos[n]]
    requires Admin(s.infos, caller, op).0[n].Some? ==> s.infos[n].Some?
    ensures var infos := Admin(s.infos, caller, op).0;
      var (s', reply) := DoPrivate(s, caller, op);
      && reply == Admin(s.infos, caller, op).1
      && s'.infos == infos && |s'.memory| == MAX_REGIONS
      && WorldOf(s') == WorldOf(s).(regions :=
           if infos[n].Some? then WorldOf(s).regions[n := RegionOf(infos[n].value, s.memory[n])]
           else WorldOf(s).regions - {n})
      && (infos == s.infos ==> WorldOf(s') == WorldOf(s))
  {
    hide Admin, RegionOf, WorldOf;
    if Admin(s.infos, caller, op).0 == s.infos {
      SameWorld(s, DoPrivate(s, caller, op).0);
    }
    OneSlot(s, DoPrivate(s, caller, op).0, n);
    WorldSpent(s);
    WorldSpent(DoPrivate(s, caller, op).0);
  }

  lemma AdminRefuses(s: Private, caller: nat, op: Op)
    requires Proper(s) && (op.Open? || op.Close? || op.Destroy? || op.SetPermission?)
    requires Admin(s.infos, caller, op).0 == s.infos
    ensures var s', reply := DoPrivate(s, caller, op).0, DoPrivate(s, caller, op).1;
      Proper(s') && WorldOf(s') == WorldOf(s) && reply == Admin(s.infos, caller, op).1
  {
    SameWorld(s, DoPrivate(s, caller, op).0);
    hide Admin, WorldOf, OneEach;
  }

  lemma WorldSpent(s: Private)
    requires |s.memory| == |s.infos|
    ensures WorldOf(s).spent == s.spent
  {
  }

  lemma RegionAt(s: Private, h: int)
    requires |s.memory| == |s.infos|
    ensures h in WorldOf(s).regions <==> Held(s.infos, h)
    ensures Held(s.infos, h) ==> WorldOf(s).regions[h] == RegionOf(s.infos[h].value, s.memory[h])
  {
  }

  // The directory stays proper where a region keeps its permissions.
  lemma StaysProper(s: Private, s': Private, n: nat)
    requires Proper(s) && n < MAX_REGIONS && |s'.infos| == |s'.memory| == MAX_REGIONS
    requires s'.infos == s.infos[n := s'.infos[n]]
    requires s'.infos[n].Some? ==> s.infos[n].Some? && s'.infos[n].value.grants == s.infos[n].value.grants
    ensures Proper(s')
  {
    hide OneEach;
  }

  lemma OpenPromised(s: Private, caller: nat, name: string, request: Access)
    requires Proper(s)
    ensures var n, w := FindName(s.infos, name), WorldOf(s);
      Serve(w, caller, Open(name, request)) ==
      if n == |s.infos| then (w, Failed(-ENOENT))
      else if !Allowed(s.infos[n].value, caller, request) then (w, Failed(-EACCES))
      else
        var info := s.infos[n].value.(refs := (s.infos[n].value.refs + 1) % WORD);
        (w.(regions := w.regions[n := RegionOf(info, s.memory[n])]), Handle(n))
  {
    NamedIsFind(s, name, 0);
    var n := FindName(s.infos, name);
    RegionAt(s, n);
    hide FindName, NamedFrom, WorldOf, Granted;
    assert |s.infos| == MAX_REGIONS;
    if n < |s.infos| {
      MayIsAllowed(s.infos[n].value, s.memory[n], caller, request);
    }
    hide Allowed, May, Proper;
  }

  lemma OpenServes(s: Private, caller: nat, op: Op)
    requires Proper(s) && op.Open?
    ensures Serves(s, caller, op)
  {
    var n := FindName(s.infos, op.name);
    assert |s.infos| == MAX_REGIONS;
    hide FindName, Allowed, WorldOf, RegionOf, Serve, DoPrivate, Proper;
    OpenPromised(s, caller, op.name, op.access);
    if n < |s.infos| && Allowed(s.infos[n].value, caller, op.access) {
      AdminChanges(s, caller, op, n);
      StaysProper(s, DoPrivate(s, caller, op).0, n);
    } else {
      AdminRefuses(s, caller, op);
    }
  }

  lemma LeaveServes(s: Private, caller: nat, op: Op)
    requires Proper(s) && (op.Close? || op.Destroy?)
    ensures Serves(s, caller, op)
  {
    RegionAt(s, op.handle);
    assert |s.infos| == MAX_REGIONS;
    hide Granted, WorldOf, DoPrivate, Proper;
    if Admin(s.infos, caller, op).1 == Done {
      AdminChanges(s, caller, op, op.handle);
      StaysProper(s, DoPrivate(s, caller, op).0, op.handle);
    } else {
      AdminRefuses(s, caller, op);
    }
  }

  lemma PermitServes(s: Private, caller: nat, op: Op)
    requires Proper(s) && op.SetPermission?
    ensures Serves(s, caller, op)
  {
    RegionAt(s, op.handle);
    hide Granted, WorldOf, OneEach, DoPrivate, GrantOf;
    if Admin(s.infos, caller, op).1 == Done {
      PermitHeld(s, caller, op);
    } else {
      AdminRefuses(s, caller, op);
      if Held(s.infos, op.handle) {
        GrantedIs(s.infos[op.handle].value.grants, op.app);
        GrantedCount(s.infos[op.handle].value.grants);
      }
    }
    hide Proper;
  }

  lemma PermitHeld(s: Private, caller: nat, op: Op)
    requires Proper(s) && op.SetPermission? && Admin(s.infos, caller, op).1 == Done
    ensures Serves(s, caller, op)
  {
    var grants := s.infos[op.handle].value.grants;
    RegionAt(s, op.handle);
    GrantedIs(grants, op.app);
    GrantedCount(grants);
    GrantedChanges(grants, GrantOf(grants, op.app), Grant(op.app, op.access));
    hide Granted, WorldOf, GrantOf, DoPrivate;
    AdminChanges(s, caller, op, op.handle);
    PermitStaysProper(s, caller, op);
    hide Proper;
  }

  lemma PermitStaysProper(s: Private, caller: nat, op: Op)
    requires Proper(s) && op.SetPermission? && Admin(s.infos, caller, op).1 == Done
    ensures Proper(DoPrivate(s, caller, op).0)
  {
  }

  lemma ReadServes(s: Private, caller: nat, op: Op)
    requires Proper(s) && op.Read?
    ensures Serves(s, caller, op)
  {
    RegionAt(s, op.handle);
    hide Granted, WorldOf, Proper, Allowed, May, Clip, Least;
    if Held(s.infos, op.handle) {
      MayIsAllowed(s.infos[op.handle].value, s.memory[op.handle], caller, Access(true, false));
      ReadPart(s.memory[op.handle], op.offset, op.len);
    }
  }

  lemma ReadPart(bytes: seq<Byte>, offset: nat, len: nat)
    ensures var n := Clip(|bytes|, offset, len);
      (if n == 0 then [] else bytes[offset..offset + n]) == bytes[Least(offset, |bytes|)..Least(offset + len, |bytes|)]
  {
  }

  lemma WriteServes(s: Private, caller: nat, op: Op)
    requires Proper(s) && op.Write?
    ensures Serves(s, caller, op)
  {
    RegionAt(s, op.handle);
    hide WorldOf, OneEach, Overwrite;
    if Held(s.infos, op.handle) {
      var bytes := s.memory[op.handle];
      MayIsAllowed(s.infos[op.handle].value, bytes, caller, Access(false, true));
      hide Allowed, May, Granted;
      OneSlot(s, DoPrivate(s, caller, op).0, op.handle);
      WorldSpent(s);
      WorldSpent(DoPrivate(s, caller, op).0);
      WrittenPart(bytes, op.offset, op.data);
    }
  }

  lemma WrittenPart(bytes: seq<Byte>, offset: nat, data: seq<Byte>)
    ensures var from, to := Least(offset, |bytes|), Least(offset + |data|, |bytes|);
      && from <= to <= |bytes| && to - from == Clip(|bytes|, offset, |data|)
      && Overwrite(bytes, offset, data[..Clip(|bytes|, offset, |data|)]) == bytes[..from] + data[..to - from] + bytes[to..]
  {
    var from, to, n := Least(offset, |bytes|), Least(offset + |data|, |bytes|), Clip(|bytes|, offset, |data|);
    assert from <= to <= |bytes| && to - from == n && (n > 0 ==> from == offset);
    hide Clip, Least;
    if n == 0 {
      assert data[..0] == [] && bytes[..from] + [] + bytes[from..] == bytes;
      WriteNothing(bytes, offset);
    }
  }

  /** One call on private memories is the promised one. */
  lemma StepServes(s: Private, caller: nat, op: Op)
    requires Proper(s)
    ensures Serves(s, caller, op)
  {
    assert |s.memory| == |s.infos|;
    hide *;
    match op
    case Create(_, _, _) => CreateServes(s, caller, op);
    case Open(_, _) => OpenServes(s, caller, op);
    case Close(_) => LeaveServes(s, caller, op);
    case Destroy(_) => LeaveServes(s, caller, op);
    case SetPermission(_, _, _) => PermitServes(s, caller, op);
    case Read(_, _, _) => ReadServes(s, caller, op);
    case Write(_, _, _) => WriteServes(s, caller, op);
  }

  // ---------- Runs ----------

  function WorldRun(calls: seq<Call>): (World, seq<Reply>)
    decreases |calls|
  {
    if calls == [] then (World(map[], 0), []) else
    var (before, replies) := WorldRun(calls[..|calls| - 1]);
    var (after, reply) := Serve(before, calls[|calls| - 1].caller, calls[|calls| - 1].op);
    (after, replies + [reply])
  }

  lemma {:induction false} PrivateKeepsPromise(calls: seq<Call>)
    ensures Proper(RunPrivate(calls))
    ensures (WorldOf(RunPrivate(calls)), PrivateReplies(calls)) == WorldRun(calls)
    decreases |calls|
  {
    if calls != [] {
      var before, call := calls[..|calls| - 1], calls[|calls| - 1];
      PrivateKeepsPromise(before);
      StepServes(RunPrivate(before), call.caller, call.op);
      hide Proper, DoPrivate, Serve, WorldOf;
    }
  }

  /** Every run of calls on the pool is answered as promised. */
  lemma PoolKeepsPromise(calls: seq<Call>)
    ensures (WorldOf(View(Run(calls))), Replies(calls)) == WorldRun(calls)
  {
    PoolIsPrivateMemories(calls);
    PrivateKeepsPromise(calls);
    hide *;
  }

  // ---------- Destroyed and closed regions ----------

  // The call is made on this handle.
  predicate Uses(op: Op, h: int) {
    (op.Close? || op.Destroy? || op.SetPermission? || op.Read? || op.Write?) && op.handle == h
  }

  /** A region is destroyed exactly if its owner asks for it. Its handle is then good for nothing,
      and every other region is as it was, bytes included. */
  lemma DestroyFrees(calls: seq<Call>, caller: nat, h: int)
    ensures var p, p' := Run(calls), Run(calls + [Call(caller, Destroy(h))]);
      && (Do(p, caller, Destroy(h)).1 == Done <==> Held(p.infos, h) && p.infos[h].value.owner == caller)
      && (Do(p, caller, Destroy(h)).1 != Done ==> p' == p)
      && (Do(p, caller, Destroy(h)).1 == Done ==>
            && p'.places == p.places && p'.bytes == p.bytes && p'.used == p.used
            && |p'.infos| == |p.infos|
            && (forall k :: 0 <= k < |p.infos| ==> p'.infos[k] == if k == h then None else p.infos[k])
            && (forall app, op :: Uses(op, h) ==> Do(p', app, op) == (p', Failed(-EINVAL))))
  {
    RunOneMore(calls, Call(caller, Destroy(h)));
    hide Run, Allowed, Slice, Overwrite, Clip;
  }

  /** Its name is free again: it can be created while there is space, and not be opened. */
  lemma DestroyedNameIsFree(calls: seq<Call>, caller: nat, h: int, app: nat, size: nat, access: Access)
    requires Do(Run(calls), caller, Destroy(h)).1 == Done
    requires var infos := Run(calls).infos; forall k :: 0 <= k < |infos| && k != h && Held(infos, k) ==>
      Held(infos, h) && infos[k].value.name != infos[h].value.name
    ensures Held(Run(calls).infos, h)
    ensures var name, p' := Run(calls).infos[h].value.name, Run(calls + [Call(caller, Destroy(h))]);
      && (Do(p', app, Create(name, size, access)).1.Handle? <==> size > 0 && Taken(calls) + Aligned(size) <= POOL_SIZE)
      && Do(p', app, Open(name, access)).1 == Failed(-ENOENT)
  {
    var destroy := Call(caller, Destroy(h));
    DestroyFrees(calls, caller, h);
    CreatedIff(calls + [destroy], app, Run(calls).infos[h].value.name, size, access);
    assert (calls + [destroy])[..|calls|] == calls;
    assert Taken(calls + [destroy]) == Taken(calls);
    hide Run, Taken, Aligned;
  }

  /** Whether a region is live in the slot, by the replies given: it was created there, and since
      then neither destroyed nor closed as often as created and opened. */
  predicate Alive(calls: seq<Call>, h: nat)
    decreases |calls|
  {
    calls != [] &&
    var before, call := calls[..|calls| - 1], calls[|calls| - 1];
    var reply := Do(Run(before), call.caller, call.op).1;
    if call.op.Create? && reply == Handle(h) then true
    else if reply == Done && call.op == Destroy(h) then false
    else if reply == Done && call.op == Close(h) && Opens(before, h) == 1 then false
    else Alive(before, h)
  }

  lemma StepLives(p: Pool, call: Call, h: nat, opens: int, limit: nat)
    requires |p.places| == |p.infos| && Counted(p.infos, h, opens, limit)
    ensures var (p', reply) := Do(p, call.caller, call.op);
      Held(p'.infos, h) <==>
        if call.op.Create? && reply == Handle(h) then true
        else if reply == Done && call.op == Destroy(h) then false
        else if reply == Done && call.op == Close(h) && opens == 1 then false
        else Held(p.infos, h)
  {
    hide FindName, Allowed, GrantOf, Aligned, Slice, Overwrite, Clip, Stored;
  }

  /** In every run of fewer than 2^32 calls a handle can be used exactly while its region is alive. */
  lemma {:induction false} LiveIffAlive(calls: seq<Call>, h: nat)
    requires |calls| + 1 < WORD
    ensures Held(Run(calls).infos, h) <==> Alive(calls, h)
    decreases |calls|
  {
    if calls != [] {
      var before, call := calls[..|calls| - 1], calls[|calls| - 1];
      LiveIffAlive(before, h);
      RefsAreOpensMinusCloses(before, h);
      hide Do, Counted;
      StepLives(Run(before), call, h, Opens(before, h), |before|);
    }
  }
}
