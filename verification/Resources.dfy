/** Quota accounting per app in 32-bit and 16-bit counters, and the ledger it keeps: the system
    total is what the registered apps use plus what has been dropped with unregistered or reset
    apps. */
module Resources {
  import opened Basics

  const WORD: nat := 0x1_0000_0000
  const MAX_APPS: nat := 16

  type Counter = n: nat | n < 0x1_0000_0000 witness 0

  type Short = n: nat | n < 0x1_0000 witness 0

  datatype Kind = Memory | CpuTime | Storage | NetworkTx | NetworkRx | FileHandles | Sockets

  datatype Amounts = Amounts(memory: Counter, cpuTime: Counter, storage: Counter, networkTx: Counter,
                             networkRx: Counter, fileHandles: Short, sockets: Short)

  const NOTHING := Amounts(0, 0, 0, 0, 0, 0, 0)
  const DEFAULT := Amounts(64 * 1024, 10000000, 128 * 1024, 1024 * 1024, 1024 * 1024, 8, 4)

  datatype App = App(inUse: bool, id: Counter, quota: Amounts, usage: Amounts)

  datatype Manager = Manager(apps: seq<App>, defaultQuota: Amounts, system: Amounts)

  datatype Status = Ok | NoEntry | Exists | NoMemory | QuotaExceeded

  datatype Op =
    | Register(id: Counter, quota: Option<Amounts>)
    | Unregister(id: Counter)
    | SetDefault(defaults: Amounts)
    | UpdateQuota(id: Counter, newQuota: Amounts)
    | Request(id: Counter, kind: Kind, amount: Counter)
    | Release(id: Counter, kind: Kind, amount: Counter)
    | Reset(id: Counter)

  // The numbers a counter of the kind can hold.
  function Width(kind: Kind): nat {
    if kind == FileHandles || kind == Sockets then 0x1_0000 else WORD
  }

  function Get(a: Amounts, kind: Kind): (n: Counter)
    ensures n < Width(kind)
  {
    match kind
    case Memory => a.memory
    case CpuTime => a.cpuTime
    case Storage => a.storage
    case NetworkTx => a.networkTx
    case NetworkRx => a.networkRx
    case FileHandles => a.fileHandles
    case Sockets => a.sockets
  }

  // A 32-bit value as a counter of the kind keeps it.
  function Cut(kind: Kind, value: Counter): (n: Counter)
    ensures n < Width(kind) && (value < Width(kind) ==> n == value)
  {
    if value < Width(kind) then value else value % 0x1_0000
  }

  function Set(a: Amounts, kind: Kind, value: Counter): (r: Amounts)
    ensures Get(r, kind) == Cut(kind, value)
    ensures forall other :: other != kind ==> Get(r, other) == Get(a, other)
  {
    match kind
    case Memory => a.(memory := value)
    case CpuTime => a.(cpuTime := value)
    case Storage => a.(storage := value)
    case NetworkTx => a.(networkTx := value)
    case NetworkRx => a.(networkRx := value)
    case FileHandles => a.(fileHandles := Cut(FileHandles, value))
    case Sockets => a.(sockets := Cut(Sockets, value))
  }

  function Wrap(n: nat): Counter {
    if n < WORD then n else n % WORD
  }

  function Find(apps: seq<App>, id: Counter): (n: nat)
    ensures n <= |apps|
    ensures forall i :: 0 <= i < n ==> !(apps[i].inUse && apps[i].id == id)
    ensures n < |apps| ==> apps[n].inUse && apps[n].id == id
  {
    if apps == [] || (apps[0].inUse && apps[0].id == id) then 0 else 1 + Find(apps[1..], id)
  }

  lemma FindSame(apps: seq<App>, apps': seq<App>, id: Counter)
    requires |apps| == |apps'|
    requires forall i :: 0 <= i < |apps| ==> apps[i].inUse == apps'[i].inUse && apps[i].id == apps'[i].id
    ensures Find(apps, id) == Find(apps', id)
  {
  }

  function FreeSlot(apps: seq<App>): (n: nat)
    ensures n <= |apps|
    ensures forall i :: 0 <= i < n ==> apps[i].inUse
    ensures n < |apps| ==> !apps[n].inUse
  {
    if apps == [] || !apps[0].inUse then 0 else 1 + FreeSlot(apps[1..])
  }

  // ---------- Operations ----------

  function RegisterApp(m: Manager, id: Counter, quota: Option<Amounts>): (Manager, Status) {
    var n := FreeSlot(m.apps);
    if Find(m.apps, id) < |m.apps| then (m, Exists)
    else if n == |m.apps| then (m, NoMemory)
    else (m.(apps := m.apps[n := App(true, id, if quota.Some? then quota.value else m.defaultQuota, NOTHING)]), Ok)
  }

  function WithUsage(m: Manager, n: nat, usage: Amounts): Manager
    requires n < |m.apps|
  {
    m.(apps := m.apps[n := m.apps[n].(usage := usage)])
  }

  function RequestFrom(m: Manager, id: Counter, kind: Kind, amount: Counter): (Manager, Status) {
    var n := Find(m.apps, id);
    if n == |m.apps| then (m, NoEntry) else
    var value := Wrap(Get(m.apps[n].usage, kind) + amount);
    if value > Get(m.apps[n].quota, kind) then (m, QuotaExceeded) else
    (WithUsage(m, n, Set(m.apps[n].usage, kind, value))
     .(system := Set(m.system, kind, Wrap(Get(m.system, kind) + amount))), Ok)
  }

  function ReleaseTo(m: Manager, id: Counter, kind: Kind, amount: Counter): (Manager, Status) {
    var n := Find(m.apps, id);
    if n == |m.apps| then (m, NoEntry) else
    var current, total := Get(m.apps[n].usage, kind), Get(m.system, kind);
    var m' := WithUsage(m, n, Set(m.apps[n].usage, kind, if amount >= current then 0 else current - amount));
    (if amount <= total then m'.(system := Set(m.system, kind, total - amount)) else m', Ok)
  }

  function Cleared(apps: seq<App>): (r: seq<App>)
    ensures |r| == |apps|
    ensures forall i :: 0 <= i < |apps| ==> r[i] == if apps[i].inUse then apps[i].(usage := NOTHING) else apps[i]
  {
    if apps == [] then [] else
    [if apps[0].inUse then apps[0].(usage := NOTHING) else apps[0]] + Cleared(apps[1..])
  }

  /** Id 0 stands for every app. */
  function ResetUsage(m: Manager, id: Counter): (Manager, Status) {
    var n := Find(m.apps, id);
    if id == 0 then (m.(apps := Cleared(m.apps), system := NOTHING), Ok)
    else if n == |m.apps| then (m, NoEntry)
    else (WithUsage(m, n, NOTHING), Ok)
  }

  function Do(m: Manager, op: Op): (Manager, Status) {
    match op
    case Register(id, quota) => RegisterApp(m, id, quota)
    case Unregister(id) =>
      var n := Find(m.apps, id);
      if n == |m.apps| then (m, NoEntry) else (m.(apps := m.apps[n := m.apps[n].(inUse := false)]), Ok)
    case SetDefault(quota) => (m.(defaultQuota := quota), Ok)
    case UpdateQuota(id, quota) =>
      var n := Find(m.apps, id);
      if n == |m.apps| then (m, NoEntry) else (m.(apps := m.apps[n := m.apps[n].(quota := quota)]), Ok)
    case Request(id, kind, amount) => RequestFrom(m, id, kind, amount)
    case Release(id, kind, amount) => ReleaseTo(m, id, kind, amount)
    case Reset(id) => ResetUsage(m, id)
  }

  function Step(m: Manager, op: Op): Manager {
    Do(m, op).0
  }

  function Initial(): Manager {
    Manager(seq(MAX_APPS, _ => App(false, 0, NOTHING, NOTHING)), DEFAULT, NOTHING)
  }

  // ---------- The ledger ----------

  function Uses(app: App, kind: Kind): nat {
    if app.inUse then Get(app.usage, kind) else 0
  }

  function Sum(apps: seq<App>, kind: Kind): nat {
    if apps == [] then 0 else Uses(apps[0], kind) + Sum(apps[1..], kind)
  }

  lemma {:induction false} SumUpdates(apps: seq<App>, n: nat, app: App, kind: Kind)
    requires n < |apps|
    ensures Sum(apps[n := app], kind) == Sum(apps, kind) - Uses(apps[n], kind) + Uses(app, kind)
    ensures Uses(apps[n], kind) <= Sum(apps, kind)
  {
    if n == 0 {
      assert apps[0 := app][1..] == apps[1..];
    } else {
      SumUpdates(apps[1..], n - 1, app, kind);
      assert apps[n := app][1..] == apps[1..][n - 1 := app];
    }
  }

  lemma {:induction false} SumOfNothing(apps: seq<App>, kind: Kind)
    requires forall i :: 0 <= i < |apps| ==> Uses(apps[i], kind) == 0
    ensures Sum(apps, kind) == 0
  {
    if apps != [] {
      SumOfNothing(apps[1..], kind);
    }
  }

  // What a step takes out of the apps' usage without taking it out of the total.
  function Dropped(m: Manager, op: Op, kind: Kind, before: nat): nat {
    match op
    case Unregister(id) =>
      var n := Find(m.apps, id);
      if n < |m.apps| then before + Uses(m.apps[n], kind) else before
    case Reset(id) =>
      var n := Find(m.apps, id);
      if id == 0 then 0 else if n < |m.apps| then before + Uses(m.apps[n], kind) else before
    case _ => before
  }

  predicate Balanced(m: Manager, kind: Kind, dropped: nat) {
    Get(m.system, kind) == Sum(m.apps, kind) + dropped
  }

  // The counter of the app the call names, or 0.
  function UsedBy(m: Manager, id: Counter, kind: Kind): Counter {
    var n := Find(m.apps, id);
    if n < |m.apps| then Get(m.apps[n].usage, kind) else 0
  }

  /** What resource_available answers. */
  function Available(m: Manager, id: Counter, kind: Kind, amount: Counter): bool {
    var n := Find(m.apps, id);
    n < |m.apps| && Wrap(Get(m.apps[n].usage, kind) + amount) <= Get(m.apps[n].quota, kind)
  }

  /** The two ways to upset the books: a granted request after which the total, with the app's
      new usage in place of its old one, would not fit its counter; and a release of more than
      the app uses, unless the app uses nothing and the total is too small to notice. */
  predicate Upsets(m: Manager, op: Op, kind: Kind) {
    match op
    case Request(id, k, amount) =>
      k == kind && Available(m, id, kind, amount)
      && Get(m.system, kind) - UsedBy(m, id, kind) + Wrap(UsedBy(m, id, kind) + amount) >= Width(kind)
    case Release(id, k, amount) =>
      k == kind && Find(m.apps, id) < |m.apps| && amount > UsedBy(m, id, kind)
      && (UsedBy(m, id, kind) > 0 || amount <= Get(m.system, kind))
    case _ => false
  }

  lemma OutcomeIs(m: Manager, id: Counter, kind: Kind, amount: Counter)
    ensures Do(m, Request(id, kind, amount)).1 == Ok <==> Available(m, id, kind, amount)
    ensures Do(m, Request(id, kind, amount)).1 != Ok ==> Step(m, Request(id, kind, amount)) == m
    ensures Do(m, Release(id, kind, amount)).1 == Ok <==> Find(m.apps, id) < |m.apps|
    ensures Do(m, Release(id, kind, amount)).1 != Ok ==> Step(m, Release(id, kind, amount)) == m
  {
    hide Get, Set, Wrap, Find;
  }

  lemma WrapIs(n: nat)
    requires n < 2 * WORD
    ensures Wrap(n) == if n < WORD then n else n - WORD
  {
  }

  // A counter of one app and the system total of its kind are set.
  function Counted(m: Manager, n: nat, kind: Kind, value: Counter, total: Counter): Manager
    requires n < |m.apps|
  {
    WithUsage(m, n, Set(m.apps[n].usage, kind, value)).(system := Set(m.system, kind, total))
  }

  lemma CountMoves(m: Manager, n: nat, kind: Kind, value: Counter, total: Counter, other: Kind)
    requires n < |m.apps| && m.apps[n].inUse
    ensures var m', current := Counted(m, n, kind, value, total), Get(m.apps[n].usage, kind);
      && Get(m'.system, other) == (if other == kind then Cut(kind, total) else Get(m.system, other))
      && Sum(m'.apps, other) == Sum(m.apps, other) + (if other == kind then Cut(kind, value) - current else 0)
      && (other == kind ==> current <= Sum(m.apps, other))
  {
    var app' := m.apps[n].(usage := Set(m.apps[n].usage, kind, value));
    SumUpdates(m.apps, n, app', other);
    hide Get, Set, Sum;
  }

  lemma SetSame(a: Amounts, kind: Kind)
    ensures Set(a, kind, Get(a, kind)) == a
  {
  }

  lemma RequestMoves(m: Manager, id: Counter, kind: Kind, amount: Counter, other: Kind)
    requires Available(m, id, kind, amount)
    ensures var m', current, total := Step(m, Request(id, kind, amount)), UsedBy(m, id, kind), Get(m.system, kind);
      && Wrap(current + amount) < Width(kind)
      && Get(m'.system, other) == (if other == kind then Cut(kind, Wrap(total + amount)) else Get(m.system, other))
      && Sum(m'.apps, other) == Sum(m.apps, other) + (if other == kind then Wrap(current + amount) - current else 0)
      && (other == kind ==> current <= Sum(m.apps, other))
  {
    hide Get, Find, Cut, Wrap, Available;
    GrantedIs(m, id, kind, amount);
    var n := Find(m.apps, id);
    var value, total := Wrap(Get(m.apps[n].usage, kind) + amount), Wrap(Get(m.system, kind) + amount);
    CountMoves(m, n, kind, value, total, other);
    hide Step, Sum, Counted;
  }

  lemma GrantedIs(m: Manager, id: Counter, kind: Kind, amount: Counter)
    requires Available(m, id, kind, amount)
    ensures var n := Find(m.apps, id);
      && n < |m.apps| && Wrap(Get(m.apps[n].usage, kind) + amount) < Width(kind)
      && Do(m, Request(id, kind, amount)) ==
           (Counted(m, n, kind, Wrap(Get(m.apps[n].usage, kind) + amount), Wrap(Get(m.system, kind) + amount)), Ok)
  {
    hide Wrap, Get, Find, Cut, Set;
    assert Get(m.apps[Find(m.apps, id)].quota, kind) < Width(kind);
  }

  // The total, counted in 32 bits and cut to its width, is the sum if that fits.
  lemma CutTotal(kind: Kind, total: Counter, current: Counter, amount: Counter)
    requires total < Width(kind) && current <= total && Wrap(current + amount) < Width(kind)
    ensures var sum := total - current + Wrap(current + amount);
      Cut(kind, Wrap(total + amount)) == sum <==> sum < Width(kind)
  {
    WrapIs(current + amount);
    WrapIs(total + amount);
    hide Wrap;
    if Width(kind) != WORD {
      var sum := total - current + (if current + amount < WORD then current + amount else current + amount - WORD);
      CutShort(total + amount, sum, if current + amount < WORD then 0 else 1);
    }
  }

  lemma CutShort(n: nat, sum: nat, k: nat)
    requires n == sum + k * WORD && k <= 1 && sum < 0x2_0000
    ensures var value := if n < WORD then n else n - WORD;
      value % 0x1_0000 == if sum < 0x1_0000 then sum else sum - 0x1_0000
  {
  }

  lemma RequestBalancedIff(m: Manager, id: Counter, kind: Kind, amount: Counter, other: Kind, dropped: nat)
    requires Balanced(m, other, dropped)
    ensures var op := Request(id, kind, amount);
      Balanced(Step(m, op), other, dropped) <==> !Upsets(m, op, other)
  {
    OutcomeIs(m, id, kind, amount);
    hide Get, Find, Wrap, Sum, Do, Step, UsedBy, Available, Cut, Width;
    if Available(m, id, kind, amount) {
      RequestMoves(m, id, kind, amount, other);
      if other == kind {
        CutTotal(kind, Get(m.system, kind), UsedBy(m, id, kind), amount);
      }
    }
  }

  lemma ReleaseCounts(m: Manager, id: Counter, kind: Kind, amount: Counter)
    requires Find(m.apps, id) < |m.apps|
    ensures var n := Find(m.apps, id);
      var current, total := Get(m.apps[n].usage, kind), Get(m.system, kind);
      Do(m, Release(id, kind, amount)) ==
        (Counted(m, n, kind, if amount >= current then 0 else current - amount,
                 if amount <= total then total - amount else total), Ok)
  {
    hide Get, Set, Find;
    SetSame(m.system, kind);
  }

  lemma ReleaseMoves(m: Manager, id: Counter, kind: Kind, amount: Counter, other: Kind)
    requires Do(m, Release(id, kind, amount)).1 == Ok
    ensures var m', current, total := Step(m, Release(id, kind, amount)), UsedBy(m, id, kind), Get(m.system, kind);
      && Get(m'.system, other) ==
           (if other == kind then (if amount <= total then total - amount else total) else Get(m.system, other))
      && Sum(m'.apps, other) ==
           Sum(m.apps, other) - (if other == kind then (if amount >= current then current else amount) else 0)
      && (other == kind ==> current <= Sum(m.apps, other))
  {
    hide Get, Sum, Cut;
    ReleaseCounts(m, id, kind, amount);
    var n := Find(m.apps, id);
    hide Do, Counted, Find;
    var current, total := Get(m.apps[n].usage, kind), Get(m.system, kind);
    CountMoves(m, n, kind, if amount >= current then 0 else current - amount,
               if amount <= total then total - amount else total, other);
  }

  lemma ReleaseBalancedIff(m: Manager, id: Counter, kind: Kind, amount: Counter, other: Kind, dropped: nat)
    requires Balanced(m, other, dropped)
    ensures var op := Release(id, kind, amount);
      Balanced(Step(m, op), other, dropped) <==> !Upsets(m, op, other)
  {
    OutcomeIs(m, id, kind, amount);
    if Find(m.apps, id) < |m.apps| {
      ReleaseMoves(m, id, kind, amount, other);
      hide Get, Sum, Do, Step, UsedBy, Find;
    } else {
      hide Get, Find, Sum, Do, Step, UsedBy;
    }
  }

  lemma RegisterKeepsBalance(m: Manager, id: Counter, quota: Option<Amounts>, kind: Kind, dropped: nat)
    requires Balanced(m, kind, dropped)
    ensures Balanced(Step(m, Register(id, quota)), kind, dropped)
  {
    var n := FreeSlot(m.apps);
    if n < |m.apps| {
      SumUpdates(m.apps, n, App(true, id, if quota.Some? then quota.value else m.defaultQuota, NOTHING), kind);
    }
  }

  lemma DropKeepsBalance(m: Manager, op: Op, kind: Kind, dropped: nat)
    requires Balanced(m, kind, dropped) && (op.Unregister? || op.Reset?)
    ensures Balanced(Step(m, op), kind, Dropped(m, op, kind, dropped))
  {
    if op == Reset(0) {
      SumOfNothing(Cleared(m.apps), kind);
    } else {
      var n := Find(m.apps, op.id);
      if n < |m.apps| {
        SumUpdates(m.apps, n, if op.Unregister? then m.apps[n].(inUse := false) else m.apps[n].(usage := NOTHING), kind);
      }
    }
  }

  lemma QuotaKeepsBalance(m: Manager, id: Counter, quota: Amounts, kind: Kind, dropped: nat)
    requires Balanced(m, kind, dropped)
    ensures Balanced(Step(m, UpdateQuota(id, quota)), kind, dropped)
  {
    var n := Find(m.apps, id);
    if n < |m.apps| {
      SumUpdates(m.apps, n, m.apps[n].(quota := quota), kind);
    }
  }

  /** Conservation, step by step: the books stay balanced exactly when the step is not one of
      the two that upset them. */
  lemma StepBalancedIff(m: Manager, op: Op, kind: Kind, dropped: nat)
    requires Balanced(m, kind, dropped)
    ensures Balanced(Step(m, op), kind, Dropped(m, op, kind, dropped)) <==> !Upsets(m, op, kind)
  {
    hide Balanced, Step;
    match op
    case Register(id, quota) => RegisterKeepsBalance(m, id, quota, kind, dropped);
    case Unregister(_) => DropKeepsBalance(m, op, kind, dropped);
    case SetDefault(quota) => DefaultKeepsBalance(m, quota, kind, dropped);
    case UpdateQuota(id, quota) => QuotaKeepsBalance(m, id, quota, kind, dropped);
    case Request(id, k, amount) => RequestBalancedIff(m, id, k, amount, kind, dropped);
    case Release(id, k, amount) => ReleaseBalancedIff(m, id, k, amount, kind, dropped);
    case Reset(_) => DropKeepsBalance(m, op, kind, dropped);
  }

  lemma DefaultKeepsBalance(m: Manager, quota: Amounts, kind: Kind, dropped: nat)
    requires Balanced(m, kind, dropped)
    ensures Balanced(Step(m, SetDefault(quota)), kind, dropped)
  {
  }

  function Run(m: Manager, ops: seq<Op>): Manager
    decreases |ops|
  {
    if ops == [] then m else Step(Run(m, ops[..|ops| - 1]), ops[|ops| - 1])
  }

  predicate Upset(ops: seq<Op>, kind: Kind)
    decreases |ops|
  {
    ops != [] && (Upset(ops[..|ops| - 1], kind) || Upsets(Run(Initial(), ops[..|ops| - 1]), ops[|ops| - 1], kind))
  }

  // Everything dropped since the last reset of all apps.
  function DroppedBy(ops: seq<Op>, kind: Kind): nat
    decreases |ops|
  {
    if ops == [] then 0 else
    Dropped(Run(Initial(), ops[..|ops| - 1]), ops[|ops| - 1], kind, DroppedBy(ops[..|ops| - 1], kind))
  }

  /** Over every run without those two steps, the system total of each resource is the sum
      over the registered apps plus what was dropped. */
  lemma {:induction false} TotalIsSumPlusDropped(ops: seq<Op>, kind: Kind)
    requires !Upset(ops, kind)
    ensures Balanced(Run(Initial(), ops), kind, DroppedBy(ops, kind))
    decreases |ops|
  {
    if ops == [] {
      SumOfNothing(Initial().apps, kind);
    } else {
      hide Balanced, Step, Upsets, Dropped, Initial;
      TotalIsSumPlusDropped(ops[..|ops| - 1], kind);
      StepBalancedIff(Run(Initial(), ops[..|ops| - 1]), ops[|ops| - 1], kind, DroppedBy(ops[..|ops| - 1], kind));
    }
  }

  // ---------- Quotas ----------

  ghost predicate Within(usage: Amounts, quota: Amounts) {
    forall kind :: Get(usage, kind) <= Get(quota, kind)
  }

  ghost predicate AllWithin(m: Manager) {
    forall i :: 0 <= i < |m.apps| && m.apps[i].inUse ==> Within(m.apps[i].usage, m.apps[i].quota)
  }

  /** A quota is set below what the app uses already. */
  ghost predicate Undercuts(m: Manager, op: Op) {
    op.UpdateQuota? && Find(m.apps, op.id) < |m.apps| && !Within(m.apps[Find(m.apps, op.id)].usage, op.newQuota)
  }

  /** No app uses more than its quota, wrap-around or not, until a quota is set too low. */
  lemma StepStaysWithinIff(m: Manager, op: Op)
    requires AllWithin(m)
    ensures AllWithin(Step(m, op)) <==> !Undercuts(m, op)
  {
    if op.UpdateQuota? {
      QuotaStaysWithinIff(m, op);
    } else if op.Request? || op.Release? {
      CountStaysWithin(m, op);
    } else {
      hide Get, Find;
      assert forall quota :: Within(NOTHING, quota) by { NothingIsWithin(); }
    }
  }

  lemma NothingIsWithin()
    ensures forall quota :: Within(NOTHING, quota)
  {
  }

  lemma QuotaStaysWithinIff(m: Manager, op: Op)
    requires AllWithin(m) && op.UpdateQuota?
    ensures AllWithin(Step(m, op)) <==> !Undercuts(m, op)
  {
    hide Within;
    var n := Find(m.apps, op.id);
    if n < |m.apps| {
      assert Step(m, op).apps[n].quota == op.newQuota;
    }
  }

  lemma CountStaysWithin(m: Manager, op: Op)
    requires AllWithin(m) && (op.Request? || op.Release?)
    ensures AllWithin(Step(m, op))
  {
    var n := Find(m.apps, op.id);
    if n < |m.apps| {
      assert Within(m.apps[n].usage, m.apps[n].quota);
      hide Get, Wrap, Set;
    }
  }

  ghost predicate NeverUndercut(ops: seq<Op>)
    decreases |ops|
  {
    ops == [] ||
    (NeverUndercut(ops[..|ops| - 1]) && !Undercuts(Run(Initial(), ops[..|ops| - 1]), ops[|ops| - 1]))
  }

  ghost predicate WithinThroughout(ops: seq<Op>)
    decreases |ops|
  {
    AllWithin(Run(Initial(), ops)) && (ops == [] || WithinThroughout(ops[..|ops| - 1]))
  }

  lemma {:induction false} RunStaysWithinIff(ops: seq<Op>)
    ensures WithinThroughout(ops) <==> NeverUndercut(ops)
    decreases |ops|
  {
    if ops != [] {
      hide AllWithin, Step, Undercuts, Initial;
      RunStaysWithinIff(ops[..|ops| - 1]);
      if NeverUndercut(ops[..|ops| - 1]) {
        WithinNow(ops[..|ops| - 1]);
        StepStaysWithinIff(Run(Initial(), ops[..|ops| - 1]), ops[|ops| - 1]);
      }
    }
  }

  lemma WithinNow(ops: seq<Op>)
    requires WithinThroughout(ops)
    ensures AllWithin(Run(Initial(), ops))
  {
  }

  // ---------- Availability ----------

  /** The answer is yes exactly when the request is granted; but a granted request adds its
      amount to the usage only if the sum stays below 2^32, and lowers the usage otherwise. */
  lemma AvailableIffGranted(m: Manager, id: Counter, kind: Kind, amount: Counter)
    ensures Available(m, id, kind, amount) <==> Do(m, Request(id, kind, amount)).1 == Ok
    ensures Available(m, id, kind, amount) ==>
      var before, after := UsedBy(m, id, kind), UsedBy(Step(m, Request(id, kind, amount)), id, kind);
      (if before + amount < WORD then after == before + amount else after < before)
  {
    if Available(m, id, kind, amount) {
      GrantMovesUsage(m, id, kind, amount);
    }
    hide Wrap, Get, Find, UsedBy;
  }

  lemma GrantMovesUsage(m: Manager, id: Counter, kind: Kind, amount: Counter)
    requires Available(m, id, kind, amount)
    ensures var before, after := UsedBy(m, id, kind), UsedBy(Step(m, Request(id, kind, amount)), id, kind);
      if before + amount < WORD then after == before + amount else after < before
  {
    WrapIs(UsedBy(m, id, kind) + amount);
    FindSame(m.apps, Step(m, Request(id, kind, amount)).apps, id);
    hide Wrap, Get, Find;
  }

  // ---------- A run whose total does not fit its counter ----------

  lemma RunThen(ops: seq<Op>, op: Op)
    ensures Run(Initial(), ops + [op]) == Step(Run(Initial(), ops), op)
  {
    assert (ops + [op])[..|ops|] == ops;
    hide Step, Initial;
  }

  // Two apps with a quota of 65535 sockets, and what they use.
  function TwoApps(a: Short, b: Short, total: Short): Manager {
    var quota := DEFAULT.(sockets := 65535);
    Manager(Initial().apps[0 := App(true, 1, quota, NOTHING.(sockets := a))]
                          [1 := App(true, 2, quota, NOTHING.(sockets := b))],
            DEFAULT, NOTHING.(sockets := total))
  }

  lemma RegisterNew(m: Manager, id: Counter, quota: Amounts, n: nat)
    requires n < |m.apps| && !m.apps[n].inUse
    requires forall i :: 0 <= i < |m.apps| && m.apps[i].inUse ==> m.apps[i].id != id
    requires forall i :: 0 <= i < n ==> m.apps[i].inUse
    ensures Step(m, Register(id, Some(quota))) == m.(apps := m.apps[n := App(true, id, quota, NOTHING)])
  {
    assert Find(m.apps, id) == |m.apps| && FreeSlot(m.apps) == n;
    hide Find, FreeSlot;
  }

  lemma TwoRegister()
    ensures var quota := Some(DEFAULT.(sockets := 65535));
      Step(Step(Initial(), Register(1, quota)), Register(2, quota)) == TwoApps(0, 0, 0)
  {
    var quota := DEFAULT.(sockets := 65535);
    RegisterNew(Initial(), 1, quota, 0);
    var one := Initial().(apps := Initial().apps[0 := App(true, 1, quota, NOTHING)]);
    RegisterNew(one, 2, quota, 1);
    hide Step;
  }

  lemma TwoRequest()
    ensures Step(TwoApps(0, 0, 0), Request(1, Sockets, 40000)) == TwoApps(40000, 0, 40000)
    ensures Step(TwoApps(40000, 0, 40000), Request(2, Sockets, 40000)) == TwoApps(40000, 40000, 14464)
  {
    assert Find(TwoApps(0, 0, 0).apps, 1) == 0;
    assert Find(TwoApps(40000, 0, 40000).apps, 2) == 1;
    hide Find;
    assert Step(TwoApps(0, 0, 0), Request(1, Sockets, 40000)).apps == TwoApps(40000, 0, 40000).apps;
    assert Step(TwoApps(40000, 0, 40000), Request(2, Sockets, 40000)).apps == TwoApps(40000, 40000, 14464).apps;
  }

  lemma TwoSum()
    ensures Sum(TwoApps(40000, 40000, 14464).apps, Sockets) == 80000
  {
    var quota := DEFAULT.(sockets := 65535);
    var apps := Initial().apps;
    var first := App(true, 1, quota, NOTHING.(sockets := 40000));
    SumOfNothing(apps, Sockets);
    SumUpdates(apps, 0, first, Sockets);
    SumUpdates(apps[0 := first], 1, App(true, 2, quota, NOTHING.(sockets := 40000)), Sockets);
    hide Sum;
  }

  /** A run from power-up: two apps are granted 40000 sockets each, within their quotas, and the
      total says 14464. */
  lemma SocketTotalWraps()
    ensures var quota := Some(DEFAULT.(sockets := 65535));
      var requests := [Request(1, Sockets, 40000), Request(2, Sockets, 40000)];
      var m := Run(Initial(), [Register(1, quota), Register(2, quota)] + requests);
      Get(m.system, Sockets) == 14464 && Sum(m.apps, Sockets) == 80000
  {
    var quota := Some(DEFAULT.(sockets := 65535));
    var a, b, c, d := Register(1, quota), Register(2, quota), Request(1, Sockets, 40000), Request(2, Sockets, 40000);
    assert [a, b] + [c, d] == [] + [a] + [b] + [c] + [d];
    TwoRegister();
    TwoRequest();
    TwoSum();
    assert Get(TwoApps(40000, 40000, 14464).system, Sockets) == 14464;
    hide Step, Sum, TwoApps, Get, Initial;
    RunThen([], a);
    RunThen([] + [a], b);
    RunThen([] + [a] + [b], c);
    RunThen([] + [a] + [b] + [c], d);
    assert Run(Initial(), []) == Initial();
    hide Run;
  }
}
