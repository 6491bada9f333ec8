/** The OTA update worker as a state machine on values: one message is one step.
    The status record keeps the bytes accepted since the last start (`log`) and how many
    of them have been flushed, so the write buffer is always `log[flushed..]`. */
module OtaModel {

  type byte = bv8

  const BUFFER_SIZE: nat := 4096
  const MAX_CHUNK: nat := 65535
  const U32: nat := 0x1_0000_0000
  const ERASED: byte := 0xFF
  // The image magic 0x96f3b83d as it lies in flash, least significant byte first.
  const MAGIC: seq<byte> := [0x3d, 0xb8, 0xf3, 0x96]

  datatype State = Idle | InProgress | Receiving | Validating | Installing | Complete | Error

  datatype Code =
    | Ok | InvalidParam | NotInitialized | FlashOpenFailed | FlashEraseFailed
    | FlashWriteFailed | InvalidImage | InsufficientSpace | BootRequestFailed

  // Slot size and write alignment of the secondary flash area.
  datatype Geometry = Geometry(slotSize: nat, align: nat) {
    predicate Valid() {
      && 0 < align
      && BUFFER_SIZE % align == 0
      && slotSize % align == 0
      && slotSize + MAX_CHUNK < U32
    }
  }

  // One programming operation on the slot.
  datatype Extent = Extent(offset: nat, length: nat) {
    function End(): nat { offset + length }
  }

  // The cells of the slot, and the programming operations since the last successful erase.
  datatype Slot = Slot(cells: seq<byte>, programs: seq<Extent>)

  datatype OtaRecord = Ota(
    state: State, lastError: Code, total: nat,
    log: seq<byte>, flushed: nat, isOpen: bool, slot: Slot)
  {
    function Buffer(): seq<byte>
      requires flushed <= |log|
    {
      log[flushed..]
    }

    predicate Full()
      requires flushed <= |log|
    {
      |log| - flushed >= BUFFER_SIZE
    }
  }

  type Ota = o: OtaRecord | o.flushed <= |o.log|
    witness Ota(Idle, Ok, 0, [], 0, false, Slot([], []))

  datatype Msg =
    | StartUpdate(expectedSize: nat)
    | WriteChunk(data: seq<byte>)
    | FinalizeUpdate
    | AbortUpdate
    | ConfirmFirmware
    | Reboot

  /** What the hardware does during one message. `okWrites` flash writes succeed before one
      fails; a failed erase leaves `wreck` in the slot. */
  datatype Env = Env(
    okWrites: nat, openOk: bool, eraseOk: bool, wreck: seq<byte>,
    readOk: bool, bootOk: bool, confirmOk: bool)

  datatype Outcome = Outcome(ota: Ota, code: Code, okWrites: nat)

  function Blank(n: nat): (s: seq<byte>)
    ensures |s| == n
  {
    seq(n, _ => ERASED)
  }

  function RoundUp(n: nat, align: nat): nat
    requires 0 < align
  {
    (n + align - 1) / align * align
  }

  /** Programming can only clear bits: a cell keeps the bits that both values have. */
  function Programmed(cells: seq<byte>, offset: nat, data: seq<byte>): (r: seq<byte>)
    ensures |r| == |cells|
  {
    seq(|cells|, i requires 0 <= i < |cells| =>
      if offset <= i < offset + |data| then cells[i] & data[i - offset] else cells[i])
  }

  function Padded(buffer: seq<byte>, align: nat): seq<byte>
    requires 0 < align
  {
    if RoundUp(|buffer|, align) >= |buffer|
    then buffer + Blank(RoundUp(|buffer|, align) - |buffer|)
    else buffer
  }

  function Flush(g: Geometry, o: Ota, okWrites: nat): Outcome
    requires g.Valid()
  {
    if |o.Buffer()| == 0 || !o.isOpen then
      Outcome(o, Ok, okWrites)
    else
      var image := Padded(o.Buffer(), g.align);
      if |image| > BUFFER_SIZE || o.flushed + |image| > |o.slot.cells| || okWrites == 0 then
        Outcome(o, FlashWriteFailed, okWrites)
      else
        var slot := Slot(Programmed(o.slot.cells, o.flushed, image),
                         o.slot.programs + [Extent(o.flushed, |image|)]);
        Outcome(o.(slot := slot, flushed := |o.log|), Ok, okWrites - 1)
  }

  function FlushIfFull(g: Geometry, o: Ota, okWrites: nat): Outcome
    requires g.Valid()
  {
    if o.Full() then Flush(g, o, okWrites) else Outcome(o, Ok, okWrites)
  }

  function Take(o: Ota, data: seq<byte>): Ota {
    o.(log := o.log + data)
  }

  /** Takes one byte: a buffer left full by an earlier failed flush is flushed first, and a
      byte that fills the buffer is followed by a flush. */
  function FeedByte(g: Geometry, o: Ota, b: byte, okWrites: nat): Outcome
    requires g.Valid()
  {
    var retried := FlushIfFull(g, o, okWrites);
    if retried.code != Ok then retried
    else FlushIfFull(g, Take(retried.ota, [b]), retried.okWrites)
  }

  /** Accepts a chunk byte by byte, up to the first failed flush. */
  function Feed(g: Geometry, o: Ota, data: seq<byte>, okWrites: nat): Outcome
    requires g.Valid()
    decreases |data|
  {
    if data == [] then Outcome(o, Ok, okWrites) else
    var taken := FeedByte(g, o, data[0], okWrites);
    if taken.code != Ok then taken else
    Feed(g, taken.ota, data[1..], taken.okWrites)
  }

  function Abort(g: Geometry, o: Ota, okWrites: nat): Ota
    requires g.Valid()
  {
    Ota(Idle, Ok, 0, [], 0, false, Flush(g, o, okWrites).ota.slot)
  }

  function Start(g: Geometry, o: Ota, expectedSize: nat, env: Env): (Ota, Code)
    requires g.Valid()
  {
    var idle := if o.state != Idle then Abort(g, o, env.okWrites) else o;
    var closed := idle.(isOpen := false, flushed := |idle.log|);
    if !env.openOk then
      (closed.(state := Error), FlashOpenFailed)
    else if !env.eraseOk then
      var cells := if |env.wreck| == |closed.slot.cells| then env.wreck else closed.slot.cells;
      (closed.(state := Error, slot := closed.slot.(cells := cells)), FlashEraseFailed)
    else
      var size := |closed.slot.cells|;
      var total := if expectedSize > 0 then expectedSize else size;
      (Ota(Receiving, Ok, total, [], 0, true, Slot(Blank(size), [])), Ok)
  }

  // Addition in the 32-bit counters of the firmware.
  function Add32(a: nat, b: nat): nat { (a + b) % U32 }

  function Write(g: Geometry, o: Ota, data: seq<byte>, okWrites: nat): (Ota, Code)
    requires g.Valid()
  {
    if !o.isOpen || data == [] then (o, NotInitialized)
    else if o.state != Receiving then (o, InvalidParam)
    else if Add32(|o.log|, |data|) > |o.slot.cells| then (o, InsufficientSpace)
    else if o.total > 0 && Add32(|o.log|, |data|) > o.total then (o, InsufficientSpace)
    else
      var fed := Feed(g, o, data, okWrites);
      (fed.ota, fed.code)
  }

  predicate MagicAt(cells: seq<byte>) {
    |cells| >= 4 && cells[..4] == MAGIC
  }

  function Finalize(g: Geometry, o: Ota, env: Env): (Ota, Code)
    requires g.Valid()
  {
    if !o.isOpen then (o, NotInitialized)
    else if o.state != Receiving then (o, InvalidParam)
    else
      var flushed := Flush(g, o, env.okWrites);
      if flushed.code != Ok then (flushed.ota, flushed.code)
      else if |o.log| == 0 || !env.readOk || !MagicAt(flushed.ota.slot.cells) then
        (flushed.ota.(state := Error, lastError := InvalidImage), InvalidImage)
      else if !env.bootOk then
        (flushed.ota.(state := Error, lastError := BootRequestFailed), BootRequestFailed)
      else
        (flushed.ota.(state := Complete, isOpen := false), Ok)
  }

  // The worker's variables after power-up; only the flash survives.
  function PowerUp(slot: Slot): Ota {
    Ota(Idle, Ok, 0, [], 0, false, slot)
  }

  function Handle(g: Geometry, o: Ota, msg: Msg, env: Env): (Ota, Code)
    requires g.Valid()
  {
    match msg
    case StartUpdate(size) => Start(g, o, size, env)
    case WriteChunk(data) => Write(g, o, data, env.okWrites)
    case FinalizeUpdate => Finalize(g, o, env)
    case AbortUpdate => (Abort(g, o, env.okWrites), Ok)
    case ConfirmFirmware => (o, if env.confirmOk then Ok else BootRequestFailed)
    case Reboot => (PowerUp(o.slot), Ok)
  }

  /** One turn of the worker thread: every failure except a failed chunk is latched. */
  function Step(g: Geometry, o: Ota, msg: Msg, env: Env): (Ota, Code)
    requires g.Valid()
  {
    var (next, code) := Handle(g, o, msg, env);
    if code != Ok && !msg.WriteChunk?
    then (next.(state := Error, lastError := code), code)
    else (next, code)
  }

  predicate AcceptedMsg(msg: Msg) {
    msg.WriteChunk? ==> |msg.data| <= MAX_CHUNK
  }

  datatype Event = Event(msg: Msg, env: Env)

  ghost predicate AcceptedRun(run: seq<Event>) {
    forall i :: 0 <= i < |run| ==> AcceptedMsg(run[i].msg)
  }

  function Run(g: Geometry, o: Ota, run: seq<Event>): Ota
    requires g.Valid()
    decreases |run|
  {
    if run == [] then o
    else Step(g, Run(g, o, run[..|run| - 1]), run[|run| - 1].msg, run[|run| - 1].env).0
  }
}
