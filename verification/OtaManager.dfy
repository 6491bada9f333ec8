/** The OTA worker in the form the firmware has it: a status record, a 4096-byte write buffer
    and a flash area updated in place. Every method is proved against OtaModel. */
module OtaManager {
  import opened OtaModel
  import opened OtaTheorems

  const PROGRESS_REPORT_INTERVAL: nat := 8192

  class FlashArea {
    const cells: array<byte>
    ghost var programs: seq<Extent>

    constructor (cells: array<byte>)
      ensures this.cells == cells && programs == []
    {
      this.cells := cells;
      programs := [];
    }

    ghost function Contents(): Slot
      reads this, cells
    {
      Slot(cells[..], programs)
    }

    /** Programs a range of cells, or fails and leaves them alone. */
    method Write(offset: nat, data: seq<byte>, ok: bool) returns (written: bool)
      modifies this, cells
      ensures written <==> ok && offset + |data| <= cells.Length
      ensures Contents() ==
        if written
        then Slot(Programmed(old(cells[..]), offset, data), old(programs) + [Extent(offset, |data|)])
        else old(Contents())
    {
      if !ok || offset + |data| > cells.Length {
        return false;
      }
      forall i | offset <= i < offset + |data| { cells[i] := cells[i] & data[i - offset]; }
      programs := programs + [Extent(offset, |data|)];
      assert cells[..] == Programmed(old(cells[..]), offset, data);
      return true;
    }

    /** Erases the whole area, or fails and leaves something else in it. */
    method Erase(ok: bool, wreck: seq<byte>) returns (erased: bool)
      modifies this, cells
      ensures erased == ok
      ensures ok ==> Contents() == Slot(Blank(cells.Length), [])
      ensures !ok ==>
        Contents() == Slot(if |wreck| == cells.Length then wreck else old(cells[..]), old(programs))
    {
      if ok {
        forall i | 0 <= i < cells.Length { cells[i] := ERASED; }
        programs := [];
        assert cells[..] == Blank(cells.Length);
      } else if |wreck| == cells.Length {
        forall i | 0 <= i < cells.Length { cells[i] := wreck[i]; }
        assert cells[..] == wreck;
      }
      return ok;
    }
  }

  // The percentage as the 8-bit status field holds it.
  function Percent(done: nat, total: nat): nat
    requires 0 < total
  {
    done * 100 / total % 256
  }

  lemma QuotientAtMost(a: nat, d: nat, k: nat)
    requires 0 < d && a <= k * d
    ensures a / d <= k
  {
    var q := a / d;
    assert q * d + a % d == a;
    if q > k {
      Monotone(k + 1, q, d);
      assert false;
    }
  }

  /** The percentage neither exceeds 100 nor wraps in its 8-bit field. */
  lemma PercentInRange(done: nat, total: nat)
    requires 0 < total && done <= total
    ensures Percent(done, total) == done * 100 / total
    ensures Percent(done, total) <= 100
  {
    QuotientAtMost(done * 100, total, 100);
  }

  lemma PercentOfNothing(total: nat)
    requires 0 < total
    ensures Percent(0, total) == 0
  {
    QuotientAtMost(0, total, 0);
  }

  // How much of a chunk the buffer can take.
  function Room(remaining: nat, bufferPos: nat): nat
    requires bufferPos <= BUFFER_SIZE
  {
    if remaining < BUFFER_SIZE - bufferPos then remaining else BUFFER_SIZE - bufferPos
  }

  lemma FeedNothing(g: Geometry, o: Ota, okWrites: nat)
    requires g.Valid()
    ensures Feed(g, o, [], okWrites) == Outcome(o, Ok, okWrites)
  {
  }

  lemma FlushOfClosed(g: Geometry, o: Ota, okWrites: nat)
    requires g.Valid() && !o.isOpen
    ensures Flush(g, o, okWrites).ota == o
  {
  }

  lemma FlushEmpties(g: Geometry, o: Ota, okWrites: nat)
    requires g.Valid() && o.isOpen
    ensures var r := FlushIfFull(g, o, okWrites); r.code == Ok ==> r.ota.isOpen && !r.ota.Full()
    ensures !o.Full() ==> FlushIfFull(g, o, okWrites) == Outcome(o, Ok, okWrites)
  {
    hide Padded, Programmed;
  }

  /** One turn of the copy loop on the byte-by-byte specification. */
  lemma FeedTurn(g: Geometry, o: Ota, rest: seq<byte>, okWrites: nat)
    requires g.Valid() && o.isOpen && rest != [] && |o.Buffer()| <= BUFFER_SIZE
    ensures var n := Room(|rest|, |o.Buffer()|);
      var turn := FlushIfFull(g, Take(o, rest[..n]), okWrites);
      && (turn.code == Ok ==> turn.ota.isOpen && !turn.ota.Full())
      && Feed(g, o, rest, okWrites)
           == if turn.code == Ok then Feed(g, turn.ota, rest[n..], turn.okWrites) else turn
  {
    var n := Room(|rest|, |o.Buffer()|);
    FlushEmpties(g, Take(o, rest[..n]), okWrites);
    hide Flush, FlushIfFull;
    if n == 0 {
      assert Take(o, rest[..0]) == o && rest[0..] == rest;
      FeedOwingFlush(g, o, rest, okWrites);
    } else {
      hide Feed;
      FeedBlock(g, o, rest[..n], okWrites);
      FeedSplits(g, o, rest[..n], rest[n..], okWrites);
      assert rest[..n] + rest[n..] == rest;
    }
  }

  class Manager {
    const g: Geometry
    const flash: FlashArea
    const writeBuffer: array<byte>

    var state: State
    var lastError: Code
    var totalSize: nat
    var bytesWritten: nat
    var lastProgressReport: nat
    var percentage: nat
    var isOpen: bool
    var bufferPos: nat
    ghost var log: seq<byte>

    /** The buffer holds the unflushed tail of the accepted bytes. */
    ghost predicate Consistent()
      reads this, flash, flash.cells, writeBuffer
    {
      && g.Valid()
      && flash.cells.Length == g.slotSize
      && writeBuffer.Length == BUFFER_SIZE
      && writeBuffer != flash.cells
      && bufferPos <= BUFFER_SIZE
      && bufferPos <= bytesWritten == |log|
      && (forall i :: 0 <= i < bufferPos ==> writeBuffer[i] == log[bytesWritten - bufferPos + i])
    }

    ghost function View(): Ota
      requires Consistent()
      reads this, flash, flash.cells, writeBuffer
    {
      Ota(state, lastError, totalSize, log, bytesWritten - bufferPos, isOpen, flash.Contents())
    }

    /** The percentage shown is the one of the last report: while receiving that report is less
        than one interval old, at the end it is of all bytes, and when idle there is none. */
    ghost predicate ProgressFresh()
      reads this
    {
      && percentage <= 100
      && (state == Receiving ==>
            && lastProgressReport <= bytesWritten < lastProgressReport + PROGRESS_REPORT_INTERVAL
            && (totalSize > 0 ==> percentage == Percent(lastProgressReport, totalSize)))
      && (state == Complete && totalSize > 0 ==> percentage == Percent(bytesWritten, totalSize))
      && (state == Idle ==> percentage == 0)
    }

    ghost predicate Valid()
      reads this, flash, flash.cells, writeBuffer
    {
      Consistent() && Inv(g, View()) && ProgressFresh()
    }

    constructor (g: Geometry, flash: FlashArea)
      requires g.Valid() && flash.cells.Length == g.slotSize && flash.programs == []
      ensures Valid() && this.g == g && this.flash == flash
      ensures View() == PowerUp(Slot(flash.cells[..], []))
      ensures fresh(writeBuffer)
    {
      this.g := g;
      this.flash := flash;
      writeBuffer := new byte[BUFFER_SIZE];
      state, lastError := Idle, Ok;
      totalSize, bytesWritten, lastProgressReport, percentage := 0, 0, 0, 0;
      isOpen, bufferPos := false, 0;
      log := [];
    }

    method UpdateProgress(newState: State)
      requires Consistent()
      modifies this`state, this`percentage
      ensures Consistent() && View() == old(View()).(state := newState)
      ensures percentage ==
        if totalSize > 0 then Percent(bytesWritten, totalSize) else old(percentage)
    {
      state := newState;
      if totalSize > 0 {
        percentage := Percent(bytesWritten, totalSize);
      }
    }

    method SetError(code: Code)
      requires Consistent()
      modifies this`state, this`lastError
      ensures Consistent() && View() == old(View()).(state := Error, lastError := code)
    {
      state, lastError := Error, code;
    }

    method CloseSlot()
      requires Consistent()
      modifies this`isOpen, this`bufferPos
      ensures Consistent()
      ensures View() == old(View()).(isOpen := false, flushed := |log|)
    {
      isOpen, bufferPos := false, 0;
    }

    /** The last part of a start: fresh counters over the erased slot. */
    method BeginReceiving(expectedSize: nat)
      requires Consistent() && bufferPos == 0 && isOpen
      modifies this
      ensures Consistent() && ProgressFresh()
      ensures View() == Ota(Receiving, Ok, if expectedSize > 0 then expectedSize else flash.cells.Length,
                            [], 0, true, old(flash.Contents()))
    {
      hide Percent, Geometry.Valid;
      totalSize := if expectedSize > 0 then expectedSize else flash.cells.Length;
      bytesWritten, percentage, lastError, lastProgressReport, log := 0, 0, Ok, 0, [];
      if totalSize > 0 {
        PercentOfNothing(totalSize);
      }
      UpdateProgress(Receiving);
    }

    /** Fills the buffer up to the aligned size with the erased value. */
    method PadBuffer(alignedSize: nat)
      requires Consistent() && alignedSize == RoundUp(bufferPos, g.align) <= BUFFER_SIZE
      modifies writeBuffer
      ensures Consistent() && View() == old(View())
      ensures writeBuffer[..alignedSize] == Padded(View().Buffer(), g.align)
    {
      RoundUpAtLeast(bufferPos, g.align);
      forall i | bufferPos <= i < alignedSize { writeBuffer[i] := ERASED; }
      assert writeBuffer[..alignedSize] == View().Buffer() + Blank(alignedSize - bufferPos);
    }

    method FlushWriteBuffer(okWrites: nat) returns (code: Code, left: nat)
      requires Consistent()
      modifies this`bufferPos, flash, flash.cells, writeBuffer
      ensures Consistent()
      ensures Outcome(View(), code, left) == Flush(g, old(View()), okWrites)
    {
      if bufferPos == 0 || !isOpen {
        return Ok, okWrites;
      }
      RoundUpAtLeast(bufferPos, g.align);
      hide RoundUp, Programmed;
      var alignedSize := RoundUp(bufferPos, g.align);
      if alignedSize > BUFFER_SIZE {
        return FlashWriteFailed, okWrites;
      }
      PadBuffer(alignedSize);
      hide Padded;
      var written := flash.Write(bytesWritten - bufferPos, writeBuffer[..alignedSize], okWrites > 0);
      if !written {
        return FlashWriteFailed, okWrites;
      }
      bufferPos := 0;
      return Ok, okWrites - 1;
    }

    /** Copies a block that fits into the buffer and counts it. */
    method AppendBlock(block: seq<byte>)
      requires Consistent() && bufferPos + |block| <= BUFFER_SIZE
      modifies this`bufferPos, this`bytesWritten, this`log, writeBuffer
      ensures Consistent() && View() == Take(old(View()), block)
      ensures bufferPos == old(bufferPos) + |block|
    {
      forall i | 0 <= i < |block| { writeBuffer[bufferPos + i] := block[i]; }
      log := log + block;
      bufferPos := bufferPos + |block|;
      bytesWritten := bytesWritten + |block|;
    }

    method ReportProgress()
      requires totalSize > 0 ==> bytesWritten <= totalSize
      requires Consistent() && percentage <= 100 && state == Receiving && lastProgressReport <= bytesWritten
      requires totalSize > 0 && bytesWritten < lastProgressReport + PROGRESS_REPORT_INTERVAL ==>
        percentage == Percent(lastProgressReport, totalSize)
      modifies this`state, this`percentage, this`lastProgressReport
      ensures Consistent() && ProgressFresh() && View() == old(View())
    {
      if bytesWritten >= lastProgressReport + PROGRESS_REPORT_INTERVAL {
        if totalSize > 0 {
          PercentInRange(bytesWritten, totalSize);
        }
        hide Percent;
        UpdateProgress(Receiving);
        lastProgressReport := bytesWritten;
      }
    }

    /** One turn of the copy loop: copy what fits, flush if that filled the buffer. */
    method CopyTurn(data: seq<byte>, src: nat, okWrites: nat) returns (next: nat, code: Code, left: nat)
      requires src < |data| && Consistent() && ProgressFresh() && state == Receiving && isOpen
      requires totalSize > 0 ==> bytesWritten + (|data| - src) <= totalSize
      modifies this`state, this`percentage, this`lastProgressReport
      modifies this`bufferPos, this`bytesWritten, this`log, flash, flash.cells, writeBuffer
      ensures Consistent() && ProgressFresh() && state == Receiving
      ensures next == src + Room(|data| - src, old(bufferPos))
      ensures bytesWritten == old(bytesWritten) + (next - src)
      ensures Outcome(View(), code, left)
        == FlushIfFull(g, Take(old(View()), data[src..next]), okWrites)
    {
      hide Flush;
      var copySize := Room(|data| - src, bufferPos);
      AppendBlock(data[src..src + copySize]);
      next, code, left := src + copySize, Ok, okWrites;
      if bufferPos >= BUFFER_SIZE {
        code, left := FlushWriteBuffer(okWrites);
      }
      ReportProgress();
    }

    /** The copy loop. A buffer left full by an earlier failure makes the first turn copy
        nothing and repeat the flush, so the bytes left alone do not measure progress. */
    method CopyChunk(data: seq<byte>, okWrites: nat) returns (code: Code, left: nat)
      requires Consistent() && ProgressFresh() && state == Receiving && isOpen
      requires totalSize > 0 ==> bytesWritten + |data| <= totalSize
      modifies this`state, this`percentage, this`lastProgressReport
      modifies this`bufferPos, this`bytesWritten, this`log, flash, flash.cells, writeBuffer
      ensures Consistent() && ProgressFresh()
      ensures Outcome(View(), code, left) == Feed(g, old(View()), data, okWrites)
    {
      hide Feed, FlushIfFull;
      code, left := Ok, okWrites;
      var src := 0;
      assert data[0..] == data;
      while src < |data| && code == Ok
        invariant src <= |data| && Consistent() && ProgressFresh() && state == Receiving && isOpen
        invariant totalSize > 0 ==> bytesWritten + (|data| - src) <= totalSize
        invariant Feed(g, old(View()), data, okWrites)
          == if code == Ok then Feed(g, View(), data[src..], left) else Outcome(View(), code, left)
        decreases |data| - src, if code == Ok then 1 else 0, bufferPos
      {
        ghost var v, rest, at := View(), data[src..], left;
        var next;
        next, code, left := CopyTurn(data, src, left);
        FeedTurn(g, v, rest, at);
        assert rest[..next - src] == data[src..next] && rest[next - src..] == data[next..];
        src := next;
      }
      FeedNothing(g, View(), left);
    }

    method DoWriteChunk(data: seq<byte>, okWrites: nat) returns (code: Code)
      requires Valid() && |data| <= MAX_CHUNK
      modifies this, flash, flash.cells, writeBuffer
      ensures Valid()
      ensures (View(), code) == Write(g, old(View()), data, okWrites)
    {
      hide Feed, Add32, OnPage, Mirrors;
      WriteKeepsInv(g, View(), data, okWrites);
      if !isOpen || data == [] {
        return NotInitialized;
      }
      if state != Receiving {
        return InvalidParam;
      }
      if Add32(bytesWritten, |data|) > flash.cells.Length {
        return InsufficientSpace;
      }
      if totalSize > 0 && Add32(bytesWritten, |data|) > totalSize {
        return InsufficientSpace;
      }
      WriteCases(g, View(), data, okWrites);
      AddsExactly(g, bytesWritten, |data|);
      hide Write, Inv;
      var left;
      code, left := CopyChunk(data, okWrites);
    }

    method ResetStatus()
      requires Consistent()
      modifies this
      ensures Consistent() && percentage == 0
      ensures View() == PowerUp(old(flash.Contents()))
    {
      state, lastError := Idle, Ok;
      totalSize, bytesWritten, percentage, bufferPos := 0, 0, 0, 0;
      isOpen := false;
      log := [];
    }

    method DoAbortUpdate(okWrites: nat)
      requires Valid()
      modifies this, flash, flash.cells, writeBuffer
      ensures Valid() && state == Idle && totalSize == 0 && log == []
      ensures View() == Abort(g, old(View()), okWrites)
    {
      AbortKeepsInv(g, View(), okWrites);
      hide Flush, Inv;
      if isOpen {
        var _, _ := FlushWriteBuffer(okWrites);
      } else {
        FlushOfClosed(g, View(), okWrites);
      }
      ResetStatus();
    }

    method DoStartUpdate(expectedSize: nat, env: Env) returns (code: Code)
      requires Valid()
      modifies this, flash, flash.cells, writeBuffer
      ensures Valid()
      ensures (View(), code) == Start(g, old(View()), expectedSize, env)
    {
      hide Abort, Mirrors, OnPage, Percent;
      ghost var before := View();
      if state != Idle {
        DoAbortUpdate(env.okWrites);
      }
      code := PrepareSlot(expectedSize, env);
      StartKeepsInv(g, before, expectedSize, env);
    }

    /** The part of a start that follows the abort of an earlier update. */
    method PrepareSlot(expectedSize: nat, env: Env) returns (code: Code)
      requires Consistent() && state == Idle && totalSize == 0 && log == [] && percentage <= 100
      modifies this, flash, flash.cells
      ensures Consistent() && ProgressFresh()
      ensures (View(), code) == Start(g, old(View()), expectedSize, env)
    {
      hide Abort, Percent, Geometry.Valid;
      CloseSlot();
      if !env.openOk {
        UpdateProgress(Error);
        return FlashOpenFailed;
      }
      isOpen := true;
      UpdateProgress(Receiving);
      var erased := flash.Erase(env.eraseOk, env.wreck);
      if !erased {
        CloseSlot();
        UpdateProgress(Error);
        return FlashEraseFailed;
      }
      BeginReceiving(expectedSize);
      return Ok;
    }

    method ReadMagic(readOk: bool) returns (valid: bool)
      requires Consistent()
      ensures valid <==> readOk && MagicAt(flash.cells[..])
    {
      if !readOk || flash.cells.Length < 4 {
        return false;
      }
      var header := flash.cells[..4];
      assert header == flash.cells[..][..4];
      return header == MAGIC;
    }

    /** The tail of a finalize, once the buffer is flushed. */
    method Validate(env: Env) returns (code: Code)
      requires Consistent() && state == Receiving && isOpen && bufferPos == 0
      requires totalSize > 0 ==> bytesWritten <= totalSize
      requires percentage <= 100
      modifies this
      ensures Consistent() && percentage <= 100 && state != Receiving
      ensures code == Ok ==> ProgressFresh()
      ensures (View(), code) ==
        if old(bytesWritten) == 0 || !env.readOk || !MagicAt(old(flash.cells[..])) then
          (old(View()).(state := Error, lastError := InvalidImage), InvalidImage)
        else if !env.bootOk then
          (old(View()).(state := Error, lastError := BootRequestFailed), BootRequestFailed)
        else
          (old(View()).(state := Complete, isOpen := false), Ok)
    {
      hide MagicAt, Geometry.Valid;
      if totalSize > 0 {
        PercentInRange(bytesWritten, totalSize);
      }
      hide Percent;
      UpdateProgress(Validating);
      if bytesWritten == 0 {
        SetError(InvalidImage);
        return InvalidImage;
      }
      var valid := ReadMagic(env.readOk);
      if !valid {
        SetError(InvalidImage);
        return InvalidImage;
      }
      UpdateProgress(Installing);
      if !env.bootOk {
        SetError(BootRequestFailed);
        return BootRequestFailed;
      }
      CloseSlot();
      UpdateProgress(Complete);
      return Ok;
    }

    method DoFinalizeUpdate(env: Env) returns (code: Code)
      requires Valid()
      modifies this, flash, flash.cells, writeBuffer
      ensures Consistent() && percentage <= 100
      ensures (View(), code) == Finalize(g, old(View()), env)
      ensures code == Ok ==> ProgressFresh()
    {
      if !isOpen {
        return NotInitialized;
      }
      if state != Receiving {
        return InvalidParam;
      }
      FlushKeepsInv(g, View(), env.okWrites);
      hide Flush, MagicAt, Mirrors, OnPage, Percent;
      var left;
      code, left := FlushWriteBuffer(env.okWrites);
      if code != Ok {
        return;
      }
      code := Validate(env);
    }

    method HandleMessage(msg: Msg, env: Env) returns (code: Code)
      requires Valid() && AcceptedMsg(msg)
      modifies this, flash, flash.cells, writeBuffer
      ensures Consistent() && percentage <= 100
      ensures code == Ok || msg.WriteChunk? ==> ProgressFresh()
      ensures (View(), code) == Handle(g, old(View()), msg, env)
    {
      hide Start, Write, Finalize, Abort, Inv, Percent;
      match msg {
        case StartUpdate(size) => code := DoStartUpdate(size, env);
        case WriteChunk(data) => code := DoWriteChunk(data, env.okWrites);
        case FinalizeUpdate => code := DoFinalizeUpdate(env);
        case AbortUpdate => DoAbortUpdate(env.okWrites); code := Ok;
        case ConfirmFirmware => code := if env.confirmOk then Ok else BootRequestFailed;
        case Reboot => ResetStatus(); code := Ok;
      }
    }

    /** One turn of the worker thread. */
    method Serve(msg: Msg, env: Env) returns (code: Code)
      requires Valid() && AcceptedMsg(msg)
      modifies this, flash, flash.cells, writeBuffer
      ensures Valid()
      ensures (View(), code) == Step(g, old(View()), msg, env)
    {
      StepKeepsInv(g, View(), msg, env);
      hide Handle, Inv, Percent, Geometry.Valid;
      code := HandleMessage(msg, env);
      if code != Ok && !msg.WriteChunk? {
        SetError(code);
      }
    }
  }
}
