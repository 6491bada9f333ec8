/** What the callers of the resource manager are promised: a ledger of accounts by the id of the
    app; and that in every run the table keeps the promise. */
module ResourceLedger {
  import opened Basics
  import opened Resources

  type Column = map<Kind, nat>

  datatype Account = Account(quota: Column, used: Column)

  datatype Ledger = Ledger(accounts: map<Counter, Account>, defaults: Column, total: Column)

  // ---------- The promise ----------

  function Zero(): Column {
    map[Memory := 0, CpuTime := 0, Storage := 0, NetworkTx := 0, NetworkRx := 0, FileHandles := 0, Sockets := 0]
  }

  function ColumnOf(a: Amounts): Column {
    map[Memory := a.memory, CpuTime := a.cpuTime, Storage := a.storage, NetworkTx := a.networkTx,
        NetworkRx := a.networkRx, FileHandles := a.fileHandles, Sockets := a.sockets]
  }

  // What a kind's column says, 0 for none.
  function In(column: Column, kind: Kind): nat {
    if kind in column then column[kind] else 0
  }

  // A sum in 32 bits, and a total in the bits of its field.
  function Sum32(n: nat): nat {
    n % 0x1_0000_0000
  }

  function Bits(kind: Kind, n: nat): nat {
    if kind == FileHandles || kind == Sockets then n % 0x1_0000 else Sum32(n)
  }

  function ServeRequest(l: Ledger, id: Counter, kind: Kind, amount: Counter): (Ledger, Status) {
    if id !in l.accounts then (l, NoEntry) else
    var account := l.accounts[id];
    var used := Sum32(In(account.used, kind) + amount);
    if used > In(account.quota, kind) then (l, QuotaExceeded) else
    (l.(accounts := l.accounts[id := account.(used := account.used[kind := used])],
        total := l.total[kind := Bits(kind, In(l.total, kind) + amount)]), Ok)
  }

  function Serve(l: Ledger, op: Op): (Ledger, Status) {
    match op
    case Register(id, quota) =>
      if id in l.accounts then (l, Exists)
      else if |l.accounts| == 16 then (l, NoMemory)
      else
        var granted := match quota case Some(q) => ColumnOf(q) case None => l.defaults;
        (l.(accounts := l.accounts[id := Account(granted, Zero())]), Ok)
    case Unregister(id) =>
      if id !in l.accounts then (l, NoEntry) else (l.(accounts := l.accounts - {id}), Ok)
    case SetDefault(quota) => (l.(defaults := ColumnOf(quota)), Ok)
    case UpdateQuota(id, quota) =>
      if id !in l.accounts then (l, NoEntry)
      else (l.(accounts := l.accounts[id := l.accounts[id].(quota := ColumnOf(quota))]), Ok)
    case Request(id, kind, amount) => ServeRequest(l, id, kind, amount)
    case Release(id, kind, amount) =>
      if id !in l.accounts then (l, NoEntry) else
      var account := l.accounts[id];
      var used, total := In(account.used, kind), In(l.total, kind);
      (l.(accounts := l.accounts[id := account.(used := account.used[kind := if used < amount then 0 else used - amount])],
          total := if total < amount then l.total else l.total[kind := total - amount]), Ok)
    case Reset(id) =>
      if id == 0 then
        (l.(accounts := map a | a in l.accounts :: l.accounts[a].(used := Zero()), total := Zero()), Ok)
      else if id !in l.accounts then (l, NoEntry)
      else (l.(accounts := l.accounts[id := l.accounts[id].(used := Zero())]), Ok)
  }

  // ---------- The table as a ledger ----------

  function AccountOf(app: App): Account {
    Account(ColumnOf(app.quota), ColumnOf(app.usage))
  }

  function AccountsOf(apps: seq<App>): map<Counter, Account> {
    if apps == [] then map[]
    else if apps[0].inUse then AccountsOf(apps[1..])[apps[0].id := AccountOf(apps[0])]
    else AccountsOf(apps[1..])
  }

  function LedgerOf(m: Manager): Ledger {
    Ledger(AccountsOf(m.apps), ColumnOf(m.defaultQuota), ColumnOf(m.system))
  }

  // No two apps have the same id.
  ghost predicate Distinct(apps: seq<App>) {
    forall i, j :: 0 <= i < j < |apps| && apps[i].inUse && apps[j].inUse ==> apps[i].id != apps[j].id
  }

  lemma {:induction false} AccountsAre(apps: seq<App>, id: Counter)
    ensures var n := Find(apps, id);
      && (id in AccountsOf(apps) <==> n < |apps|)
      && (n < |apps| ==> AccountsOf(apps)[id] == AccountOf(apps[n]))
  {
    if apps != [] {
      AccountsAre(apps[1..], id);
    }
    hide AccountOf;
  }

  lemma {:induction false} HowMany(apps: seq<App>)
    requires Distinct(apps)
    ensures |AccountsOf(apps)| <= |apps|
    ensures |AccountsOf(apps)| == |apps| <==> FreeSlot(apps) == |apps|
  {
    if apps != [] {
      var rest := apps[1..];
      assert forall i :: 0 <= i < |rest| ==> rest[i] == apps[i + 1];
      HowMany(rest);
      AccountsAre(rest, apps[0].id);
      assert AccountsOf(apps).Keys == AccountsOf(rest).Keys + if apps[0].inUse then {apps[0].id} else {};
    }
    hide AccountOf;
  }

  // An app that comes to a free slot, changes or goes.
  lemma SlotChanges(apps: seq<App>, n: nat, app: App)
    requires Distinct(apps) && n < |apps|
    requires apps[n].inUse ==> app.id == apps[n].id
    requires app.inUse && !apps[n].inUse ==> Find(apps, app.id) == |apps|
    ensures Distinct(apps[n := app])
    ensures AccountsOf(apps[n := app]) ==
      if app.inUse then AccountsOf(apps)[app.id := AccountOf(app)]
      else if apps[n].inUse then AccountsOf(apps) - {app.id} else AccountsOf(apps)
  {
    var after := apps[n := app];
    forall id: Counter
      ensures id in AccountsOf(after) <==>
        if id == app.id && (app.inUse || apps[n].inUse) then app.inUse else id in AccountsOf(apps)
      ensures id in AccountsOf(after) ==>
        AccountsOf(after)[id] == if id == app.id && app.inUse then AccountOf(app) else AccountsOf(apps)[id]
    {
      AccountsAre(apps, id);
      AccountsAre(after, id);
      hide Find, AccountsOf, AccountOf;
      var k, k' := Find(apps, id), Find(after, id);
      assert k < |apps| && k != n ==> after[k].inUse && after[k].id == id;
      assert k' < |apps| && k' != n ==> apps[k'].inUse && apps[k'].id == id;
      assert apps[n].inUse && k != n && k < |apps| ==> id != apps[n].id;
      assert after[n] == app;
    }
    hide Find, AccountsOf, AccountOf;
  }

  lemma {:induction false} ClearedAccounts(apps: seq<App>)
    ensures AccountsOf(Cleared(apps)) == map a | a in AccountsOf(apps) :: AccountsOf(apps)[a].(used := Zero())
  {
    if apps != [] {
      ClearedAccounts(apps[1..]);
      assert ColumnOf(NOTHING) == Zero();
      assert Cleared(apps)[1..] == Cleared(apps[1..]);
    }
    hide ColumnOf;
  }

  lemma ColumnGets(a: Amounts, kind: Kind)
    ensures In(ColumnOf(a), kind) == Get(a, kind)
  {
  }

  lemma ColumnSets(a: Amounts, kind: Kind, value: Counter)
    ensures ColumnOf(Set(a, kind, value)) == ColumnOf(a)[kind := Cut(kind, value)]
  {
  }

  lemma CutIsBits(kind: Kind, n: nat)
    requires n < 2 * WORD
    ensures Cut(kind, Wrap(n)) == Bits(kind, n)
  {
    WrapIs(n);
    hide Wrap;
    var q, r := n / 0x1_0000, n % 0x1_0000;
    assert n == q * 0x1_0000 + r;
    if n >= WORD {
      assert n - WORD == (q - 0x1_0000) * 0x1_0000 + r;
      SameRemainder(n - WORD, q - 0x1_0000, r);
    }
  }

  lemma SameRemainder(n: nat, q: nat, r: nat)
    requires n == q * 0x1_0000 + r && r < 0x1_0000
    ensures n % 0x1_0000 == r
  {
  }

  // ---------- One step ----------

  ghost predicate Proper(m: Manager) {
    |m.apps| == MAX_APPS && Distinct(m.apps)
  }

  // The step is the promised one.
  ghost predicate Serves(m: Manager, op: Op) {
    Proper(Do(m, op).0) && (LedgerOf(Do(m, op).0), Do(m, op).1) == Serve(LedgerOf(m), op)
  }

  lemma RegisterServes(m: Manager, op: Op)
    requires Proper(m) && op.Register?
    ensures Serves(m, op)
  {
    var n := FreeSlot(m.apps);
    AccountsAre(m.apps, op.id);
    HowMany(m.apps);
    if n < |m.apps| && Find(m.apps, op.id) == |m.apps| {
      var app := App(true, op.id, if op.quota.Some? then op.quota.value else m.defaultQuota, NOTHING);
      SlotChanges(m.apps, n, app);
      assert ColumnOf(NOTHING) == Zero();
    }
    hide Find, FreeSlot, AccountsOf, ColumnOf, Distinct, Zero;
  }

  lemma KnownServes(m: Manager, op: Op)
    requires Proper(m) && (op.Unregister? || op.UpdateQuota? || (op.Reset? && op.id != 0))
    ensures Serves(m, op)
  {
    var n := Find(m.apps, op.id);
    AccountsAre(m.apps, op.id);
    if n < |m.apps| {
      var app := Do(m, op).0.apps[n];
      SlotChanges(m.apps, n, app);
      assert ColumnOf(NOTHING) == Zero();
    }
    hide Find, AccountsOf, ColumnOf, Distinct, Zero;
  }

  lemma RequestPromised(m: Manager, id: Counter, kind: Kind, amount: Counter)
    requires Find(m.apps, id) < |m.apps|
    ensures var app, l := m.apps[Find(m.apps, id)], LedgerOf(m);
      var used, total := Wrap(Get(app.usage, kind) + amount), Wrap(Get(m.system, kind) + amount);
      ServeRequest(l, id, kind, amount) ==
      if used > Get(app.quota, kind) then (l, QuotaExceeded)
      else
        (l.(accounts := l.accounts[id := AccountOf(app.(usage := Set(app.usage, kind, used)))],
            total := ColumnOf(Set(m.system, kind, total))), Ok)
  {
    var app := m.apps[Find(m.apps, id)];
    hide Get, Set, Cut, Bits, Find, AccountsOf, ColumnOf, In, Wrap, Width, Sum32;
    AccountsAre(m.apps, id);
    ColumnGets(app.usage, kind);
    ColumnGets(app.quota, kind);
    ColumnGets(m.system, kind);
    var used, total := Get(app.usage, kind) + amount, Get(m.system, kind) + amount;
    WrapIsMod(used);
    QuotaFits(app, kind, Wrap(used));
    CutIsBits(kind, total);
    ColumnSets(app.usage, kind, Wrap(used));
    ColumnSets(m.system, kind, Wrap(total));
  }

  lemma WrapIsMod(n: nat)
    ensures Wrap(n) == Sum32(n)
  {
  }

  lemma QuotaFits(app: App, kind: Kind, value: Counter)
    ensures value <= Get(app.quota, kind) ==> Cut(kind, value) == value
  {
  }

  lemma RequestServes(m: Manager, op: Op)
    requires Proper(m) && op.Request?
    ensures Serves(m, op)
  {
    var n := Find(m.apps, op.id);
    AccountsAre(m.apps, op.id);
    if n < |m.apps| {
      RequestPromised(m, op.id, op.kind, op.amount);
      var value := Wrap(Get(m.apps[n].usage, op.kind) + op.amount);
      hide ServeRequest, Get, Set, Wrap;
      SlotChanges(m.apps, n, m.apps[n].(usage := Set(m.apps[n].usage, op.kind, value)));
    }
    hide Find, AccountsOf, ColumnOf, Distinct, AccountOf, Sum32;
  }

  lemma ReleaseServes(m: Manager, op: Op)
    requires Proper(m) && op.Release?
    ensures Serves(m, op)
  {
    var n := Find(m.apps, op.id);
    AccountsAre(m.apps, op.id);
    if n < |m.apps| {
      var current, total := Get(m.apps[n].usage, op.kind), Get(m.system, op.kind);
      ColumnGets(m.apps[n].usage, op.kind);
      ColumnGets(m.system, op.kind);
      var value := if op.amount >= current then 0 else current - op.amount;
      ColumnSets(m.apps[n].usage, op.kind, value);
      if op.amount <= total {
        ColumnSets(m.system, op.kind, total - op.amount);
      }
      hide Get, Set, Cut;
      SlotChanges(m.apps, n, m.apps[n].(usage := Set(m.apps[n].usage, op.kind, value)));
    }
    hide Find, AccountsOf, ColumnOf, Distinct, In;
  }

  lemma ResetAllServes(m: Manager)
    requires Proper(m)
    ensures Serves(m, Reset(0))
  {
    ClearedAccounts(m.apps);
    assert ColumnOf(NOTHING) == Zero();
    hide AccountsOf, ColumnOf, Zero, Cleared;
    assert LedgerOf(Do(m, Reset(0)).0).accounts == Serve(LedgerOf(m), Reset(0)).0.accounts;
  }

  /** One call on the table is the promised one. */
  lemma StepServes(m: Manager, op: Op)
    requires Proper(m)
    ensures Serves(m, op)
  {
    match op
    case Register(_, _) => RegisterServes(m, op);
    case Unregister(_) => KnownServes(m, op);
    case SetDefault(_) =>
    case UpdateQuota(_, _) => KnownServes(m, op);
    case Request(_, _, _) => RequestServes(m, op);
    case Release(_, _, _) => ReleaseServes(m, op);
    case Reset(id) => if id == 0 { ResetAllServes(m); } else { KnownServes(m, op); }
    hide AccountsOf, ColumnOf, RegisterApp, RequestFrom, ReleaseTo, ResetUsage;
  }

  // ---------- Runs ----------

  function Statuses(ops: seq<Op>): seq<Status>
    decreases |ops|
  {
    if ops == [] then [] else
    Statuses(ops[..|ops| - 1]) + [Do(Run(Initial(), ops[..|ops| - 1]), ops[|ops| - 1]).1]
  }

  function LedgerRun(ops: seq<Op>): (Ledger, seq<Status>)
    decreases |ops|
  {
    if ops == [] then (Ledger(map[], ColumnOf(DEFAULT), Zero()), []) else
    var (before, statuses) := LedgerRun(ops[..|ops| - 1]);
    var (after, status) := Serve(before, ops[|ops| - 1]);
    (after, statuses + [status])
  }

  lemma {:induction false} NobodyRegistered(apps: seq<App>)
    requires forall i :: 0 <= i < |apps| ==> !apps[i].inUse
    ensures AccountsOf(apps) == map[]
  {
    if apps != [] {
      NobodyRegistered(apps[1..]);
    }
  }

  /** Every run of calls from power-up is answered as promised, and leaves the quotas, usages and
      totals promised. */
  lemma {:induction false} TableKeepsPromise(ops: seq<Op>)
    ensures Proper(Run(Initial(), ops))
    ensures (LedgerOf(Run(Initial(), ops)), Statuses(ops)) == LedgerRun(ops)
    decreases |ops|
  {
    if ops == [] {
      NobodyRegistered(Initial().apps);
      assert ColumnOf(NOTHING) == Zero();
    } else {
      var before, op := ops[..|ops| - 1], ops[|ops| - 1];
      TableKeepsPromise(before);
      StepServes(Run(Initial(), before), op);
      hide Proper, Do, Serve, LedgerOf, Initial;
    }
  }
}
