/** What a caller of the OTA worker is promised, message by message: a machine that knows of no
    buffer and no loop, and that the worker's answers and flash agree with in every run, whatever
    the hardware does. */
module OtaContract {
  import opened OtaModel
  import opened OtaTheorems

  // The status, the bytes accepted, how many of them are not in flash yet, and the slot.
  datatype Report = Report(
    state: State, error: Code, total: nat, image: seq<byte>, pending: nat, open: bool, cells: seq<byte>)

  function Written(image: seq<byte>, size: nat): seq<byte> {
    image + seq(if size > |image| then size - |image| else 0, _ => 0xFF)
  }

  // ---------- The promised answers ----------

  /** How many flash writes it takes to accept some bytes: one for each time the buffer fills. */
  function WritesFor(pending: nat, n: nat): nat {
    if n == 0 then 0 else (pending + n) / 4096
  }

  /** How many bytes of a chunk are accepted: all, or those up to the flush that fails. */
  function AcceptedOf(pending: nat, n: nat, okWrites: nat): int {
    if WritesFor(pending, n) <= okWrites then n else (okWrites + 1) * 4096 - pending
  }

  // How many bytes the buffer holds then.
  function PendingAfter(pending: nat, n: nat, okWrites: nat): nat {
    if n == 0 then pending else if WritesFor(pending, n) <= okWrites then (pending + n) % 4096 else 4096
  }

  function TakeChunk(u: Report, data: seq<byte>, okWrites: nat): (Report, Code) {
    var k := AcceptedOf(u.pending, |data|, okWrites);
    var image := u.image + if 0 <= k <= |data| then data[..k] else [];
    var pending := PendingAfter(u.pending, |data|, okWrites);
    var stored := if |image| >= pending then |image| - pending else 0;
    (u.(image := image, pending := pending, cells := Written(image[..stored], |u.cells|)),
     if WritesFor(u.pending, |data|) <= okWrites then Ok else FlashWriteFailed)
  }

  // The rest of the buffer is written if there is one, and a flash write to do it.
  predicate CanStore(u: Report, okWrites: nat) {
    u.open && (u.pending == 0 || okWrites > 0)
  }

  function StoredCells(u: Report, okWrites: nat): seq<byte> {
    if CanStore(u, okWrites) then Written(u.image, |u.cells|) else u.cells
  }

  function Failure(u: Report, code: Code): (Report, Code) {
    (u.(state := Error, error := code), code)
  }

  function Answer(u: Report, msg: Msg, env: Env): (Report, Code) {
    match msg
    case StartUpdate(size) =>
      var cells := StoredCells(u, env.okWrites);
      if !env.openOk then Failure(Report(Error, Ok, 0, [], 0, false, cells), FlashOpenFailed)
      else if !env.eraseOk then
        Failure(Report(Error, Ok, 0, [], 0, false, if |env.wreck| == |cells| then env.wreck else cells), FlashEraseFailed)
      else
        (Report(Receiving, Ok, if size > 0 then size else |cells|, [], 0, true, Written([], |cells|)), Ok)
    case WriteChunk(data) =>
      if !u.open || data == [] then (u, NotInitialized)
      else if u.state != Receiving then (u, InvalidParam)
      else if |u.image| + |data| > |u.cells| || |u.image| + |data| > u.total > 0 then (u, InsufficientSpace)
      else TakeChunk(u, data, env.okWrites)
    case FinalizeUpdate =>
      if !u.open then Failure(u, NotInitialized)
      else if u.state != Receiving then Failure(u, InvalidParam)
      else if !CanStore(u, env.okWrites) then Failure(u, FlashWriteFailed)
      else
        var stored := u.(pending := 0, cells := Written(u.image, |u.cells|));
        if |u.image| < 4 || u.image[..4] != [0x3d, 0xb8, 0xf3, 0x96] || !env.readOk then Failure(stored, InvalidImage)
        else if !env.bootOk then Failure(stored, BootRequestFailed)
        else (stored.(state := Complete, open := false), Ok)
    case AbortUpdate =>
      (Report(Idle, Ok, 0, [], 0, false, StoredCells(u, env.okWrites)), Ok)
    case ConfirmFirmware =>
      if env.confirmOk then (u, Ok) else Failure(u, BootRequestFailed)
    case Reboot =>
      (Report(Idle, Ok, 0, [], 0, false, u.cells), Ok)
  }

  // ---------- The worker keeps the promise ----------

  ghost function ReportOf(o: Ota): Report {
    Report(o.state, o.lastError, o.total, o.log, |o.log| - o.flushed, o.isOpen, o.slot.cells)
  }

  lemma MirrorIsWritten(cells: seq<byte>, log: seq<byte>, flushed: nat)
    requires Mirrors(cells, log, flushed)
    ensures cells == Written(log[..flushed], |cells|)
  {
  }

  lemma StoredIsWritten(cells: seq<byte>, log: seq<byte>)
    requires Mirrors(cells, log, |log|)
    ensures cells == Written(log, |cells|)
  {
    MirrorIsWritten(cells, log, |log|);
    assert log[..|log|] == log;
  }

  lemma FlushStores(g: Geometry, o: Ota, okWrites: nat)
    requires g.Valid() && Inv(g, o)
    ensures var r, u := Flush(g, o, okWrites), ReportOf(o);
      && (r.code == Ok || r.code == FlashWriteFailed)
      && (o.isOpen ==> (r.code == Ok <==> CanStore(u, okWrites)))
      && r.ota.slot.cells == StoredCells(u, okWrites)
      && r.ota == o.(slot := r.ota.slot, flushed := if o.isOpen && r.code == Ok then |o.log| else o.flushed)
      && (!o.isOpen ==> r.ota == o)
  {
    FlushKeepsInv(g, o, okWrites);
    var r := Flush(g, o, okWrites);
    if o.isOpen && r.code == Ok {
      StoredIsWritten(r.ota.slot.cells, o.log);
    }
    hide Mirrors, Padded, Programmed, Written, OnPage;
  }

  lemma FlushIfFullExactly(g: Geometry, o: Ota, okWrites: nat)
    requires g.Valid() && Inv(g, o) && o.state == Receiving
    ensures var r := FlushIfFull(g, o, okWrites);
      && r.code == (if o.Full() && okWrites == 0 then FlashWriteFailed else Ok)
      && r.ota.log == o.log && r.ota == o.(slot := r.ota.slot, flushed := r.ota.flushed)
      && r.ota.flushed == (if o.Full() && okWrites > 0 then |o.log| else o.flushed)
      && r.okWrites == (if o.Full() && okWrites > 0 then okWrites - 1 else okWrites)
  {
    if o.Full() {
      FlushWrites(g, o, okWrites);
    }
    hide Flush, Mirrors, OnPage;
  }

  // One byte, with a failed flush before it or after it.
  lemma FeedByteExactly(g: Geometry, o: Ota, b: byte, okWrites: nat)
    requires g.Valid() && Inv(g, o) && o.state == Receiving
    requires |o.log| < g.slotSize && (o.total > 0 ==> |o.log| < o.total)
    ensures var r, p := FeedByte(g, o, b, okWrites), |o.log| - o.flushed;
      && p <= 4096
      && (r.code == Ok <==> okWrites >= (p + 1) / 4096)
      && (r.code == Ok ==> |r.ota.log| - r.ota.flushed == (p + 1) % 4096 && r.okWrites == okWrites - (p + 1) / 4096)
      && (r.code == Ok ==> r.ota.log == o.log + [b])
      && (r.code != Ok ==> r.code == FlashWriteFailed && okWrites == 0)
      && (r.code != Ok ==> |r.ota.log| - r.ota.flushed == 4096)
      && (r.code != Ok ==> r.ota.log == if p == 4096 then o.log else o.log + [b])
  {
    FlushIfFullExactly(g, o, okWrites);
    FlushIfFullKeepsInv(g, o, okWrites);
    var retried := FlushIfFull(g, o, okWrites);
    if retried.code == Ok {
      TakeKeepsInv(g, retried.ota, [b]);
      FlushIfFullExactly(g, Take(retried.ota, [b]), retried.okWrites);
    }
    hide FlushIfFull, OnPage, Mirrors;
  }

  lemma OneByteLess(p: nat, n: nat, okWrites: nat)
    requires n > 0 && p <= 4096
    ensures var w, q := (p + 1) / 4096, (p + 1) % 4096;
      if w <= okWrites then
        && (WritesFor(p, n) <= okWrites <==> WritesFor(q, n - 1) <= okWrites - w)
        && AcceptedOf(p, n, okWrites) == 1 + AcceptedOf(q, n - 1, okWrites - w)
        && PendingAfter(p, n, okWrites) == PendingAfter(q, n - 1, okWrites - w)
      else
        && okWrites == 0 && WritesFor(p, n) > okWrites
        && AcceptedOf(p, n, okWrites) == 4096 - p && PendingAfter(p, n, okWrites) == 4096
  {
  }

  // What is left of a chunk, and of the flash writes, after its feeding.
  ghost predicate Fed(o: Ota, data: seq<byte>, okWrites: nat, r: Outcome) {
    var p := |o.log| - o.flushed;
    var k := AcceptedOf(p, |data|, okWrites);
    && 0 <= k <= |data|
    && r.ota.log == o.log + data[..k]
    && r.code == (if WritesFor(p, |data|) <= okWrites then Ok else FlashWriteFailed)
    && |r.ota.log| - r.ota.flushed == PendingAfter(p, |data|, okWrites)
  }

  lemma FedOneMore(o: Ota, data: seq<byte>, okWrites: nat, taken: Outcome, r: Outcome)
    requires data != [] && |o.log| - o.flushed <= 4096
    requires (|o.log| - o.flushed + 1) / 4096 <= okWrites
    requires taken.ota.log == o.log + [data[0]]
    requires |taken.ota.log| - taken.ota.flushed == (|o.log| - o.flushed + 1) % 4096
    requires taken.okWrites == okWrites - (|o.log| - o.flushed + 1) / 4096
    requires Fed(taken.ota, data[1..], taken.okWrites, r)
    ensures Fed(o, data, okWrites, r)
  {
    OneByteLess(|o.log| - o.flushed, |data|, okWrites);
    hide AcceptedOf, WritesFor, PendingAfter;
    JoinFirst(o.log, data, AcceptedOf(|taken.ota.log| - taken.ota.flushed, |data| - 1, taken.okWrites));
  }

  lemma JoinFirst(log: seq<byte>, data: seq<byte>, k: nat)
    requires k < |data|
    ensures log + [data[0]] + data[1..][..k] == log + data[..k + 1]
  {
    assert [data[0]] + data[1..][..k] == data[..k + 1];
    assert log + [data[0]] + data[1..][..k] == log + ([data[0]] + data[1..][..k]);
  }

  lemma FedNoFurther(o: Ota, data: seq<byte>, okWrites: nat, r: Outcome)
    requires data != [] && |o.log| - o.flushed <= 4096
    requires (|o.log| - o.flushed + 1) / 4096 > okWrites
    requires r.code == FlashWriteFailed && |r.ota.log| - r.ota.flushed == 4096
    requires r.ota.log == if |o.log| - o.flushed == 4096 then o.log else o.log + [data[0]]
    ensures Fed(o, data, okWrites, r)
  {
    OneByteLess(|o.log| - o.flushed, |data|, okWrites);
    hide AcceptedOf, WritesFor, PendingAfter;
    assert [data[0]] == data[..1];
    assert o.log + data[..0] == o.log;
  }

  /** The chunk loop in closed form, for any state of the buffer and any number of flash writes
      that succeed. */
  lemma {:induction false} FeedExactly(g: Geometry, o: Ota, data: seq<byte>, okWrites: nat)
    requires g.Valid() && Inv(g, o) && o.state == Receiving
    requires |o.log| + |data| <= g.slotSize && (o.total > 0 ==> |o.log| + |data| <= o.total)
    ensures Fed(o, data, okWrites, Feed(g, o, data, okWrites))
    decreases |data|
  {
    if data != [] {
      hide Fed, FeedByte;
      FeedFirst(g, o, data, okWrites);
      FeedByteExactly(g, o, data[0], okWrites);
      FeedByteKeepsInv(g, o, data[0], okWrites);
      hide Inv, Feed;
      var taken := FeedByte(g, o, data[0], okWrites);
      if taken.code == Ok {
        FeedExactly(g, taken.ota, data[1..], taken.okWrites);
        FedOneMore(o, data, okWrites, taken, Feed(g, o, data, okWrites));
      } else {
        FedNoFurther(o, data, okWrites, taken);
      }
    }
  }

  // ---------- Message by message ----------

  lemma FedIsTaken(g: Geometry, o: Ota, data: seq<byte>, okWrites: nat, r: Outcome)
    requires o.isOpen && Inv(g, r.ota) && Fed(o, data, okWrites, r)
    requires r.ota == o.(slot := r.ota.slot, flushed := r.ota.flushed, log := r.ota.log)
    requires |r.ota.slot.cells| == |o.slot.cells|
    ensures (ReportOf(r.ota), r.code) == TakeChunk(ReportOf(o), data, okWrites)
  {
    MirrorIsWritten(r.ota.slot.cells, r.ota.log, r.ota.flushed);
    hide AcceptedOf, WritesFor, PendingAfter, Written, OnPage, Mirrors;
  }

  lemma WriteAnswers(g: Geometry, o: Ota, data: seq<byte>, env: Env)
    requires g.Valid() && Inv(g, o) && |data| <= MAX_CHUNK
    ensures var (next, code) := Step(g, o, WriteChunk(data), env);
      (ReportOf(next), code) == Answer(ReportOf(o), WriteChunk(data), env)
  {
    assert |o.slot.cells| == g.slotSize;
    hide Feed, Fed, TakeChunk, OnPage, Mirrors;
    WriteCases(g, o, data, env.okWrites);
    hide Write;
    if o.isOpen && data != [] && o.state == Receiving && Fits(g, o.total, |o.log| + |data|) {
      FeedExactly(g, o, data, env.okWrites);
      FeedKeepsInv(g, o, data, env.okWrites);
      var r := Feed(g, o, data, env.okWrites);
      assert |r.ota.slot.cells| == g.slotSize;
      hide Inv;
      FedIsTaken(g, o, data, env.okWrites, r);
    }
    hide Inv;
  }

  lemma FinalizeAnswers(g: Geometry, o: Ota, env: Env)
    requires g.Valid() && Inv(g, o)
    ensures var (next, code) := Step(g, o, FinalizeUpdate, env);
      (ReportOf(next), code) == Answer(ReportOf(o), FinalizeUpdate, env)
  {
    assert |o.slot.cells| == g.slotSize;
    hide Flush, Written, Inv, Mirrors, MagicAt;
    FlushStores(g, o, env.okWrites);
    var r := Flush(g, o, env.okWrites);
    if o.isOpen && r.code == Ok {
      FlushKeepsInv(g, o, env.okWrites);
      MagicShowsIff(r.ota.slot.cells, o.log);
    }
  }

  lemma MagicShowsIff(cells: seq<byte>, log: seq<byte>)
    requires Mirrors(cells, log, |log|)
    ensures MagicAt(cells) <==> |log| >= 4 && log[..4] == [0x3d, 0xb8, 0xf3, 0x96]
  {
    if MagicAt(cells) {
      MagicIsInLog(cells, log);
    }
    if |log| >= 4 {
      assert cells[..4] == log[..4];
    }
  }

  lemma StartAnswers(g: Geometry, o: Ota, size: nat, env: Env)
    requires g.Valid() && Inv(g, o)
    ensures var (next, code) := Step(g, o, StartUpdate(size), env);
      (ReportOf(next), code) == Answer(ReportOf(o), StartUpdate(size), env)
  {
    FlushStores(g, o, env.okWrites);
    assert Written([], |o.slot.cells|) == Blank(|o.slot.cells|);
    hide Flush, Written, Mirrors, OnPage;
  }

  /** Every message is answered as promised, and leaves the state and the cells promised. */
  lemma StepAnswers(g: Geometry, o: Ota, msg: Msg, env: Env)
    requires g.Valid() && Inv(g, o) && AcceptedMsg(msg)
    ensures var (next, code) := Step(g, o, msg, env);
      (ReportOf(next), code) == Answer(ReportOf(o), msg, env)
  {
    match msg
    case StartUpdate(size) => StartAnswers(g, o, size, env);
    case WriteChunk(data) => WriteAnswers(g, o, data, env);
    case FinalizeUpdate => FinalizeAnswers(g, o, env);
    case AbortUpdate => FlushStores(g, o, env.okWrites);
    case ConfirmFirmware =>
    case Reboot =>
    hide Flush, Start, Write, Finalize, Inv, StoredCells;
  }

  /** An abort answers Ok and leaves the worker idle with the slot closed; and what was accepted
      is in the slot, if a flash write was to be had or none was needed. */
  lemma AbortAnswers(g: Geometry, o: Ota, env: Env)
    requires g.Valid() && Inv(g, o)
    ensures var (next, code) := Step(g, o, AbortUpdate, env);
      && code == Ok && next.state == Idle && next.lastError == Ok
      && !next.isOpen && next.total == 0 && next.log == []
      && (o.isOpen && (env.okWrites > 0 || o.flushed == |o.log|) ==>
            o.log <= next.slot.cells && |next.slot.cells| == g.slotSize
            && forall i :: |o.log| <= i < g.slotSize ==> next.slot.cells[i] == ERASED)
      && (!o.isOpen || (env.okWrites == 0 && o.flushed < |o.log|) ==> next.slot == o.slot)
  {
    FlushKeepsInv(g, o, env.okWrites);
    hide OnPage, Padded, Programmed;
  }

  // ---------- Runs ----------

  function AnswerRun(u: Report, run: seq<Event>): (Report, seq<Code>)
    decreases |run|
  {
    if run == [] then (u, []) else
    var (before, codes) := AnswerRun(u, run[..|run| - 1]);
    var (after, code) := Answer(before, run[|run| - 1].msg, run[|run| - 1].env);
    (after, codes + [code])
  }

  function Codes(g: Geometry, o: Ota, run: seq<Event>): seq<Code>
    requires g.Valid()
    decreases |run|
  {
    if run == [] then [] else
    var before, last := run[..|run| - 1], run[|run| - 1];
    Codes(g, o, before) + [Step(g, Run(g, o, before), last.msg, last.env).1]
  }

  /** From power-up, over every run of messages and whatever the hardware does meanwhile: every
      message is answered as promised, and status, accepted bytes and flash are as promised. */
  lemma {:induction false} WorkerKeepsPromise(g: Geometry, cells: seq<byte>, run: seq<Event>)
    requires g.Valid() && |cells| == g.slotSize && AcceptedRun(run)
    ensures var o := PowerUp(Slot(cells, []));
      (ReportOf(Run(g, o, run)), Codes(g, o, run)) == AnswerRun(Report(Idle, Ok, 0, [], 0, false, cells), run)
    decreases |run|
  {
    if run != [] {
      var o, before, last := PowerUp(Slot(cells, [])), run[..|run| - 1], run[|run| - 1];
      assert Inv(g, o);
      WorkerKeepsPromise(g, cells, before);
      RunKeepsInv(g, o, before);
      hide Step, Answer, Inv;
      StepAnswers(g, Run(g, o, before), last.msg, last.env);
    }
  }
}
