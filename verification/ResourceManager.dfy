/** The resource manager's table of apps, updated in place slot by slot. */
module ResourceManager {
  import opened Basics
  import opened Resources

  function Code(status: Status): int {
    match status
    case Ok => 0
    case NoEntry => -ENOENT
    case Exists => -EEXIST
    case NoMemory => -ENOMEM
    case QuotaExceeded => -EDQUOT
  }

  lemma RequestCounts(m: Manager, id: Counter, kind: Kind, amount: Counter)
    ensures var n := Find(m.apps, id);
      Do(m, Request(id, kind, amount)) ==
      if n == |m.apps| then (m, NoEntry)
      else if Wrap(Get(m.apps[n].usage, kind) + amount) > Get(m.apps[n].quota, kind) then (m, QuotaExceeded)
      else (Counted(m, n, kind, Wrap(Get(m.apps[n].usage, kind) + amount), Wrap(Get(m.system, kind) + amount)), Ok)
  {
    hide Get, Set, Wrap, Find;
  }

  lemma ReleaseOutcome(m: Manager, id: Counter, kind: Kind, amount: Counter)
    ensures var n := Find(m.apps, id);
      if n == |m.apps| then Do(m, Release(id, kind, amount)) == (m, NoEntry)
      else var current, total := Get(m.apps[n].usage, kind), Get(m.system, kind);
        Do(m, Release(id, kind, amount)) ==
          (Counted(m, n, kind, if amount >= current then 0 else current - amount,
                   if amount <= total then total - amount else total), Ok)
  {
    hide Get, Set, Find;
    if Find(m.apps, id) < |m.apps| {
      ReleaseCounts(m, id, kind, amount);
    }
  }

  class Table {
    var apps: array<App>
    var defaultQuota: Amounts
    var system: Amounts

    ghost function Books(): Manager
      reads this, apps
    {
      Manager(apps[..], defaultQuota, system)
    }

    constructor ()
      ensures Books() == Initial() && fresh(apps)
    {
      apps := new App[MAX_APPS](_ => App(false, 0, NOTHING, NOTHING));
      defaultQuota, system := DEFAULT, NOTHING;
      new;
      assert apps[..] == Initial().apps;
    }

    method FindApp(id: Counter) returns (n: nat)
      ensures n == Find(apps[..], id)
    {
      n := 0;
      while n < apps.Length && !(apps[n].inUse && apps[n].id == id)
        invariant n <= apps.Length
        invariant forall i :: 0 <= i < n ==> !(apps[i].inUse && apps[i].id == id)
      {
        n := n + 1;
      }
    }

    method FindFreeSlot() returns (n: nat)
      ensures n == FreeSlot(apps[..])
    {
      n := 0;
      while n < apps.Length && apps[n].inUse
        invariant n <= apps.Length
        invariant forall i :: 0 <= i < n ==> apps[i].inUse
      {
        n := n + 1;
      }
    }

    method RegisterApp(id: Counter, quota: Option<Amounts>) returns (rc: int)
      modifies apps
      ensures Books() == Step(old(Books()), Register(id, quota))
      ensures rc == Code(Do(old(Books()), Register(id, quota)).1)
    {
      var n := FindApp(id);
      if n < apps.Length {
        return -EEXIST;
      }
      n := FindFreeSlot();
      if n == apps.Length {
        return -ENOMEM;
      }
      apps[n] := App(true, id, if quota.Some? then quota.value else defaultQuota, NOTHING);
      return 0;
    }

    method UnregisterApp(id: Counter) returns (rc: int)
      modifies apps
      ensures Books() == Step(old(Books()), Unregister(id))
      ensures rc == Code(Do(old(Books()), Unregister(id)).1)
    {
      var n := FindApp(id);
      if n == apps.Length {
        return -ENOENT;
      }
      apps[n] := apps[n].(inUse := false);
      return 0;
    }

    method UpdateAppQuota(id: Counter, quota: Amounts) returns (rc: int)
      modifies apps
      ensures Books() == Step(old(Books()), UpdateQuota(id, quota))
      ensures rc == Code(Do(old(Books()), UpdateQuota(id, quota)).1)
    {
      var n := FindApp(id);
      if n == apps.Length {
        return -ENOENT;
      }
      apps[n] := apps[n].(quota := quota);
      return 0;
    }

    // Sets a counter of one app, then the system total of its kind.
    method SetCounts(n: nat, kind: Kind, value: Counter, total: Counter)
      requires n < apps.Length
      modifies this`system, apps
      ensures apps == old(apps) && Books() == Counted(old(Books()), n, kind, value, total)
    {
      hide Set;
      apps[n] := apps[n].(usage := Set(apps[n].usage, kind, value));
      system := Set(system, kind, total);
    }

    method RequestAmount(id: Counter, kind: Kind, amount: Counter) returns (rc: int)
      modifies this`system, apps
      ensures apps == old(apps) && Books() == Step(old(Books()), Request(id, kind, amount))
      ensures rc == Code(Do(old(Books()), Request(id, kind, amount)).1)
    {
      hide Get, Wrap, Find, Counted, Do;
      RequestCounts(Books(), id, kind, amount);
      var n := FindApp(id);
      if n == apps.Length {
        return -ENOENT;
      }
      var value := Wrap(Get(apps[n].usage, kind) + amount);
      if value > Get(apps[n].quota, kind) {
        return -EDQUOT;
      }
      SetCounts(n, kind, value, Wrap(Get(system, kind) + amount));
      return 0;
    }

    method ReleaseAmount(id: Counter, kind: Kind, amount: Counter) returns (rc: int)
      modifies this`system, apps
      ensures apps == old(apps) && Books() == Step(old(Books()), Release(id, kind, amount))
      ensures rc == Code(Do(old(Books()), Release(id, kind, amount)).1)
    {
      hide Get, Find, Counted, Do;
      ReleaseOutcome(Books(), id, kind, amount);
      var n := FindApp(id);
      if n == apps.Length {
        return -ENOENT;
      }
      var current, total := Get(apps[n].usage, kind), Get(system, kind);
      SetCounts(n, kind, if amount >= current then 0 else current - amount,
                if amount <= total then total - amount else total);
      return 0;
    }

    method ResourceAvailable(id: Counter, kind: Kind, amount: Counter) returns (available: bool)
      ensures available == Available(Books(), id, kind, amount)
    {
      var n := FindApp(id);
      if n == apps.Length {
        return false;
      }
      return Wrap(Get(apps[n].usage, kind) + amount) <= Get(apps[n].quota, kind);
    }

    method ClearAll()
      modifies apps
      ensures apps[..] == Cleared(old(apps[..]))
    {
      for i := 0 to apps.Length
        invariant forall k :: 0 <= k < i ==>
          apps[k] == if old(apps[k]).inUse then old(apps[k]).(usage := NOTHING) else old(apps[k])
        invariant forall k :: i <= k < apps.Length ==> apps[k] == old(apps[k])
      {
        if apps[i].inUse {
          apps[i] := apps[i].(usage := NOTHING);
        }
      }
      ghost var cleared := Cleared(old(apps[..]));
      assert forall k :: 0 <= k < apps.Length ==> apps[..][k] == cleared[k];
    }

    method ResetAppUsage(id: Counter) returns (rc: int)
      modifies this`system, apps
      ensures apps == old(apps)
      ensures Books() == Step(old(Books()), Reset(id))
      ensures rc == Code(Do(old(Books()), Reset(id)).1)
    {
      if id == 0 {
        ClearAll();
        system := NOTHING;
        return 0;
      }
      var n := FindApp(id);
      if n == apps.Length {
        return -ENOENT;
      }
      apps[n] := apps[n].(usage := NOTHING);
      return 0;
    }
  }
}
