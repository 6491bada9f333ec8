/** The shared-memory tables and the pool, updated in place: bytes are copied into the pool one
    by one, inside the region they are meant for. */
module SharedPool {
  import opened Basics
  import opened SharedMemory

  class ShmemState {
    var infos: array<Option<Info>>
    var places: array<Place>
    var bytes: array<Byte>
    var used: nat

    ghost function State(): Pool
      reads this, infos, places, bytes
    {
      Pool(infos[..], places[..], bytes[..], used)
    }

    // The regions of the pool are apart.
    ghost predicate Valid()
      reads this, infos, places, bytes
    {
      infos.Length == places.Length && Separate(State())
    }

    constructor ()
      ensures Valid() && fresh(infos) && fresh(places) && fresh(bytes) && State() == Initial()
    {
      infos := new Option<Info>[MAX_REGIONS](_ => None);
      places := new Place[MAX_REGIONS](_ => Place(0, 0));
      bytes := new Byte[POOL_SIZE](_ => 0);
      used := 0;
      new;
      RunKeepsSeparate([]);
      assert infos[..] == Initial().infos && places[..] == Initial().places && bytes[..] == Initial().bytes;
    }

    method FindRegion(name: string) returns (n: nat)
      ensures n == FindName(infos[..], name)
    {
      n := 0;
      while n < infos.Length && !(infos[n].Some? && infos[n].value.name == name)
        invariant n <= infos.Length
        invariant forall i :: 0 <= i < n ==> !(infos[i].Some? && infos[i].value.name == name)
      {
        n := n + 1;
      }
    }

    method FindFreeSlot() returns (n: nat)
      ensures n == FreeSlot(infos[..])
    {
      n := 0;
      while n < infos.Length && infos[n].Some?
        invariant n <= infos.Length
        invariant forall i :: 0 <= i < n ==> infos[i].Some?
      {
        n := n + 1;
      }
    }

    method FindGrant(grants: seq<Grant>, app: nat) returns (n: nat)
      ensures n == GrantOf(grants, app)
    {
      n := 0;
      while n < |grants| && grants[n].app != app
        invariant n <= |grants|
        invariant forall i :: 0 <= i < n ==> grants[i].app != app
      {
        n := n + 1;
      }
    }

    method CheckPermission(info: Info, caller: nat, request: Access) returns (ok: bool)
      ensures ok == Allowed(info, caller, request)
    {
      if caller == info.owner {
        return true;
      }
      var n := FindGrant(info.grants, caller);
      return Covers(if n < |info.grants| then info.grants[n].access else info.access, request);
    }

    method CopyIn(at: nat, data: seq<Byte>)
      requires at + |data| <= bytes.Length
      modifies bytes
      ensures bytes[..] == Overwrite(old(bytes[..]), at, data)
    {
      for i := 0 to |data|
        invariant forall k :: 0 <= k < bytes.Length ==>
          bytes[k] == if at <= k < at + i then data[k - at] else old(bytes[k])
      {
        bytes[at + i] := data[i];
      }
      ghost var r := Overwrite(old(bytes[..]), at, data);
      hide Overwrite;
      assert forall k :: 0 <= k < bytes.Length ==> bytes[..][k] == r[k];
    }

    method CreateRegion(caller: nat, name: string, size: nat, access: Access) returns (rc: int)
      requires Valid()
      modifies this`used, infos, places, bytes
      ensures Valid() && State() == Do(old(State()), caller, Create(name, size, access)).0
      ensures var reply := Do(old(State()), caller, Create(name, size, access)).1;
        rc == if reply.Failed? then reply.code else reply.handle
    {
      StepKeepsSeparate(State(), caller, Create(name, size, access));
      hide Separate, FindName, FreeSlot, Overwrite, Stored;
      if size == 0 {
        return -EINVAL;
      }
      var found := FindRegion(name);
      if found < infos.Length {
        return -EEXIST;
      }
      var slot := FindFreeSlot();
      if slot == infos.Length {
        return -ENOMEM;
      }
      var aligned := (size + 7) / 8 * 8;
      if used + aligned > POOL_SIZE {
        return -ENOMEM;
      }
      assert bytes.Length == POOL_SIZE;
      var start := used;
      used := used + aligned;
      infos[slot] := Some(Info(Stored(name), caller, 1, access, []));
      places[slot] := Place(start, size);
      CopyIn(start, seq(size, _ => 0));
      return slot;
    }

    method OpenRegion(caller: nat, name: string, request: Access) returns (rc: int)
      requires Valid()
      modifies infos
      ensures Valid() && State() == Do(old(State()), caller, Open(name, request)).0
      ensures var reply := Do(old(State()), caller, Open(name, request)).1;
        rc == if reply.Failed? then reply.code else reply.handle
    {
      StepKeepsSeparate(State(), caller, Open(name, request));
      hide Separate, FindName, Allowed;
      var n := FindRegion(name);
      if n == infos.Length {
        return -ENOENT;
      }
      var info := infos[n].value;
      var allowed := CheckPermission(info, caller, request);
      if !allowed {
        return -EACCES;
      }
      infos[n] := Some(info.(refs := (info.refs + 1) % WORD));
      return n;
    }

    method CloseRegion(caller: nat, handle: int) returns (rc: int)
      requires Valid()
      modifies infos
      ensures Valid() && State() == Do(old(State()), caller, Close(handle)).0
      ensures rc == if Do(old(State()), caller, Close(handle)).1 == Done then 0 else -EINVAL
    {
      StepKeepsSeparate(State(), caller, Close(handle));
      hide Separate;
      if !(0 <= handle < infos.Length) || infos[handle].None? {
        return -EINVAL;
      }
      var info := infos[handle].value;
      if info.refs > 0 {
        info := info.(refs := info.refs - 1);
      }
      infos[handle] := if info.refs == 0 then None else Some(info);
      return 0;
    }

    method DestroyRegion(caller: nat, handle: int) returns (rc: int)
      requires Valid()
      modifies infos
      ensures Valid() && State() == Do(old(State()), caller, Destroy(handle)).0
      ensures var reply := Do(old(State()), caller, Destroy(handle)).1; rc == if reply.Failed? then reply.code else 0
    {
      StepKeepsSeparate(State(), caller, Destroy(handle));
      hide Separate;
      if !(0 <= handle < infos.Length) || infos[handle].None? {
        return -EINVAL;
      }
      if infos[handle].value.owner != caller {
        return -EACCES;
      }
      infos[handle] := None;
      return 0;
    }

    method SetRegionPermission(caller: nat, handle: int, app: nat, access: Access) returns (rc: int)
      requires Valid()
      modifies infos
      ensures Valid() && State() == Do(old(State()), caller, SetPermission(handle, app, access)).0
      ensures var reply := Do(old(State()), caller, SetPermission(handle, app, access)).1;
        rc == if reply.Failed? then reply.code else 0
    {
      StepKeepsSeparate(State(), caller, SetPermission(handle, app, access));
      hide Separate, GrantOf;
      if !(0 <= handle < infos.Length) || infos[handle].None? {
        return -EINVAL;
      }
      var info := infos[handle].value;
      if info.owner != caller {
        return -EACCES;
      }
      var n := FindGrant(info.grants, app);
      if n < |info.grants| {
        infos[handle] := Some(info.(grants := info.grants[n := Grant(app, access)]));
        return 0;
      }
      if |info.grants| >= MAX_GRANTS {
        return -ENOMEM;
      }
      infos[handle] := Some(info.(grants := info.grants + [Grant(app, access)]));
      return 0;
    }

    /** The bytes read are those of the region's private memory, clipped to its end. */
    method ReadRegion(caller: nat, handle: int, offset: nat, len: nat) returns (rc: int, data: seq<Byte>)
      requires Valid()
      ensures var reply := Do(State(), caller, Read(handle, offset, len)).1;
        if reply.Failed? then rc == reply.code && data == [] else data == reply.data && rc == |data|
      ensures DoPrivate(View(State()), caller, Read(handle, offset, len)).1 ==
        Do(State(), caller, Read(handle, offset, len)).1
    {
      ReadIsPrivate(State(), caller, Read(handle, offset, len));
      hide View, Allowed, Aligned, DoPrivate;
      if !(0 <= handle < infos.Length) || infos[handle].None? {
        return -EINVAL, [];
      }
      var allowed := CheckPermission(infos[handle].value, caller, Access(true, false));
      if !allowed {
        return -EACCES, [];
      }
      if offset >= places[handle].size {
        NoSlice(bytes[..], places[handle].start + offset);
        return 0, [];
      }
      var available := places[handle].size - offset;
      var toRead := if len < available then len else available;
      var start := places[handle].start + offset;
      assert start + toRead <= bytes.Length;
      return toRead, bytes[start..start + toRead];
    }

    /** The region's private memory is overwritten from the offset on, clipped to its end; no
        other region's memory changes. */
    method WriteRegion(caller: nat, handle: int, offset: nat, data: seq<Byte>) returns (rc: int)
      requires Valid()
      modifies bytes
      ensures Valid() && State() == Do(old(State()), caller, Write(handle, offset, data)).0
      ensures var reply := Do(old(State()), caller, Write(handle, offset, data)).1;
        rc == if reply.Failed? then reply.code else reply.count
      ensures View(State()) == DoPrivate(old(View(State())), caller, Write(handle, offset, data)).0
    {
      StepKeepsSeparate(State(), caller, Write(handle, offset, data));
      WriteIsPrivate(State(), caller, Write(handle, offset, data));
      WriteOutcome(State(), caller, handle, offset, data);
      hide View, Allowed, DoPrivate, Overwrite, Do, Separate;
      if !(0 <= handle < infos.Length) || infos[handle].None? {
        return -EINVAL;
      }
      var allowed := CheckPermission(infos[handle].value, caller, Access(false, true));
      if !allowed {
        return -EACCES;
      }
      if offset >= places[handle].size {
        return 0;
      }
      var available := places[handle].size - offset;
      var toWrite := if |data| < available then |data| else available;
      CopyIn(places[handle].start + offset, data[..toWrite]);
      return toWrite;
    }
  }

  lemma WriteOutcome(p: Pool, caller: nat, handle: int, offset: nat, data: seq<Byte>)
    requires Separate(p)
    ensures |p.infos| == |p.places|
    ensures var (p', reply) := Do(p, caller, Write(handle, offset, data));
      if !Held(p.infos, handle) then p' == p && reply == Failed(-EINVAL)
      else if !Allowed(p.infos[handle].value, caller, Access(false, true)) then p' == p && reply == Failed(-EACCES)
      else if offset >= p.places[handle].size then p' == p && reply == Wrote(0)
      else
        var available := p.places[handle].size - offset;
        var toWrite := if |data| < available then |data| else available;
        var at := p.places[handle].start + offset;
        && at + toWrite <= |p.bytes|
        && p' == p.(bytes := Overwrite(p.bytes, at, data[..toWrite])) && reply == Wrote(toWrite)
  {
    hide Allowed, Overwrite;
    if Held(p.infos, handle) && offset >= p.places[handle].size {
      assert data[..0] == [];
      WriteNothing(p.bytes, p.places[handle].start + offset);
    }
  }
}
