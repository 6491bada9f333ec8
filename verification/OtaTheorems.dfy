/** What every run of the OTA worker keeps, and what a finished update leaves in flash. */
module OtaTheorems {
  import opened OtaModel

  // ---------- The invariant ----------

  predicate OnPage(n: nat) { n % BUFFER_SIZE == 0 }

  lemma NextPage(n: nat)
    requires OnPage(n)
    ensures OnPage(n + BUFFER_SIZE)
  {
  }

  /** The programming operations climb through the slot without ever touching a cell twice. */
  ghost predicate Ascending(programs: seq<Extent>) {
    forall i, j :: 0 <= i < j < |programs| ==> programs[i].End() <= programs[j].offset
  }

  ghost predicate PageStarts(programs: seq<Extent>, size: nat) {
    forall i :: 0 <= i < |programs| ==>
      OnPage(programs[i].offset) && 0 < programs[i].length && programs[i].End() <= size
  }

  ghost predicate EndBy(programs: seq<Extent>, limit: nat) {
    forall i :: 0 <= i < |programs| ==> programs[i].End() <= limit
  }

  /** The flushed part of the log is in flash, and every later cell is still erased. */
  ghost predicate Mirrors(cells: seq<byte>, log: seq<byte>, flushed: nat) {
    && flushed <= |log| <= |cells|
    && (forall i :: 0 <= i < flushed ==> cells[i] == log[i])
    && (forall i :: flushed <= i < |cells| ==> cells[i] == ERASED)
  }

  ghost predicate MoreToWrite(o: Ota) {
    o.isOpen && (o.state == Receiving || o.flushed < |o.log|)
  }

  ghost predicate Inv(g: Geometry, o: Ota) {
    && |o.slot.cells| == g.slotSize
    && |o.log| <= g.slotSize
    && (o.total > 0 ==> |o.log| <= o.total)
    && |o.log| - o.flushed <= BUFFER_SIZE
    && (!o.isOpen ==> o.flushed == |o.log|)
    && (o.state == Receiving ==> o.isOpen)
    && (o.state == Idle ==> !o.isOpen && o.log == [] && o.total == 0)
    && (o.state == Complete ==> !o.isOpen && 4 <= |o.log| && o.log[..4] == MAGIC)
    && !o.state.InProgress? && !o.state.Validating? && !o.state.Installing?
    && (o.isOpen || o.state == Complete ==> Mirrors(o.slot.cells, o.log, o.flushed))
    && Ascending(o.slot.programs)
    && PageStarts(o.slot.programs, g.slotSize)
    && (MoreToWrite(o) ==> OnPage(o.flushed) && EndBy(o.slot.programs, o.flushed))
  }

  // ---------- Flushing ----------

  lemma RoundUpFits(n: nat, align: nat, m: nat)
    requires 0 < align && n <= m * align
    ensures n <= RoundUp(n, align) <= m * align
  {
    var q := (n + align - 1) / align;
    assert q * align + (n + align - 1) % align == n + align - 1;
    if q > m {
      Monotone(m + 1, q, align);
      assert false;
    }
    Monotone(q, m, align);
  }

  lemma Monotone(a: nat, b: nat, k: nat)
    requires a <= b
    ensures a * k <= b * k
    ensures (a + 1) * k == a * k + k
  {
  }

  lemma RoundUpAtLeast(n: nat, align: nat)
    requires 0 < align
    ensures n <= RoundUp(n, align)
  {
    assert RoundUp(n, align) + (n + align - 1) % align == n + align - 1;
  }

  lemma Distributes(a: nat, b: nat, k: nat)
    requires b <= a
    ensures (a - b) * k == a * k - b * k
  {
  }

  lemma Regroup(a: nat, b: nat, k: nat)
    ensures a * (b * k) == (a * b) * k
  {
  }

  /** A non-empty buffer that starts on a page boundary always fits the rest of the slot. */
  lemma ImageFits(g: Geometry, flushed: nat, buffer: seq<byte>)
    requires g.Valid()
    requires 0 < |buffer| <= BUFFER_SIZE
    requires OnPage(flushed) && flushed + |buffer| <= g.slotSize
    ensures |buffer| <= |Padded(buffer, g.align)| <= BUFFER_SIZE
    ensures flushed + |Padded(buffer, g.align)| <= g.slotSize
  {
    var perPage, inSlot, page := BUFFER_SIZE / g.align, g.slotSize / g.align, flushed / BUFFER_SIZE;
    assert BUFFER_SIZE == perPage * g.align;
    assert g.slotSize == inSlot * g.align;
    RoundUpFits(|buffer|, g.align, perPage);
    Regroup(page, perPage, g.align);
    assert flushed == (page * perPage) * g.align;
    if page * perPage > inSlot {
      Monotone(inSlot, page * perPage, g.align);
      assert false;
    }
    Distributes(inSlot, page * perPage, g.align);
    RoundUpFits(|buffer|, g.align, inSlot - page * perPage);
  }

  lemma ErasedTakesAnyValue(b: byte)
    ensures ERASED & b == b
  {
  }

  lemma ProgramTakesImage(cells: seq<byte>, log: seq<byte>, flushed: nat, image: seq<byte>)
    requires Mirrors(cells, log, flushed) && flushed + |image| <= |cells|
    ensures var after := Programmed(cells, flushed, image);
      && |after| == |cells|
      && (forall i :: 0 <= i < flushed ==> after[i] == log[i])
      && (forall i :: flushed <= i < flushed + |image| ==> after[i] == image[i - flushed])
      && (forall i :: flushed + |image| <= i < |cells| ==> after[i] == ERASED)
  {
    var after := Programmed(cells, flushed, image);
    forall i | flushed <= i < flushed + |image|
      ensures after[i] == image[i - flushed]
    {
      ErasedTakesAnyValue(image[i - flushed]);
    }
  }

  lemma ProgramKeepsMirror(cells: seq<byte>, log: seq<byte>, flushed: nat, align: nat)
    requires 0 < align && Mirrors(cells, log, flushed)
    requires flushed + |Padded(log[flushed..], align)| <= |cells|
    requires |Padded(log[flushed..], align)| >= |log| - flushed
    ensures Mirrors(Programmed(cells, flushed, Padded(log[flushed..], align)), log, |log|)
  {
    ProgramTakesImage(cells, log, flushed, Padded(log[flushed..], align));
    hide Programmed, RoundUp;
  }

  /** Appending an operation that starts where the earlier ones end. */
  lemma AppendKeepsAscending(programs: seq<Extent>, e: Extent, size: nat)
    requires Ascending(programs) && PageStarts(programs, size) && EndBy(programs, e.offset)
    requires OnPage(e.offset) && 0 < e.length && e.End() <= size
    ensures Ascending(programs + [e]) && PageStarts(programs + [e], size) && EndBy(programs + [e], e.End())
  {
  }

  lemma FlushWrites(g: Geometry, o: Ota, okWrites: nat)
    requires g.Valid() && Inv(g, o) && o.isOpen && o.flushed < |o.log|
    ensures var r := Flush(g, o, okWrites);
      if okWrites == 0 then r == Outcome(o, FlashWriteFailed, okWrites) else
      && r.code == Ok
      && r.ota == o.(slot := r.ota.slot, flushed := |o.log|)
      && r.okWrites == okWrites - 1
      && |r.ota.slot.cells| == g.slotSize
      && Mirrors(r.ota.slot.cells, o.log, |o.log|)
      && Ascending(r.ota.slot.programs)
      && PageStarts(r.ota.slot.programs, g.slotSize)
      && (o.Full() ==> EndBy(r.ota.slot.programs, |o.log|))
  {
    hide RoundUp, Padded, Programmed;
    ImageFits(g, o.flushed, o.Buffer());
    ProgramKeepsMirror(o.slot.cells, o.log, o.flushed, g.align);
    AppendKeepsAscending(o.slot.programs, Extent(o.flushed, |Padded(o.Buffer(), g.align)|), g.slotSize);
  }

  /** A flush either reports the failure and changes nothing, or moves the whole buffer into
      flash; within the invariant only the hardware can make it fail. */
  lemma FlushKeepsInv(g: Geometry, o: Ota, okWrites: nat)
    requires g.Valid() && Inv(g, o)
    ensures var r := Flush(g, o, okWrites);
      && (o.Full() || o.state != Receiving ==> Inv(g, r.ota))
      && Inv(g, r.ota.(state := Error))
      && r.ota == o.(slot := r.ota.slot, flushed := r.ota.flushed)
      && (r.code == Ok || r.code == FlashWriteFailed)
      && (r.code == Ok ==> r.ota.flushed == |o.log|)
      && (r.code == Ok && o.isOpen ==> Mirrors(r.ota.slot.cells, o.log, |o.log|))
      && (r.code != Ok <==> okWrites == 0 && o.isOpen && o.flushed < |o.log|)
      && (r.code != Ok ==> r.ota == o)
      && okWrites <= r.okWrites + 1
  {
    if o.isOpen && o.flushed < |o.log| {
      hide Flush, OnPage;
      FlushWrites(g, o, okWrites);
      if o.Full() {
        NextPage(o.flushed);
      }
    } else {
      hide OnPage, Padded, Programmed;
    }

  }

  // ---------- Feeding a chunk ----------

  lemma FlushIfFullKeepsInv(g: Geometry, o: Ota, okWrites: nat)
    requires g.Valid() && Inv(g, o) && o.state == Receiving
    ensures var r := FlushIfFull(g, o, okWrites);
      && Inv(g, r.ota)
      && r.ota.(slot := o.slot, flushed := o.flushed) == o
      && (r.code == Ok || r.code == FlashWriteFailed)
      && (r.code == Ok ==> !r.ota.Full())
      && (if o.Full() then okWrites <= r.okWrites + 1 else r == Outcome(o, Ok, okWrites))
      && (r.code != Ok <==> o.Full() && okWrites == 0)
      && (r.code != Ok ==> r.ota == o && OnPage(|o.log|))
  {
    FlushKeepsInv(g, o, okWrites);
  }

  lemma TakeKeepsInv(g: Geometry, o: Ota, data: seq<byte>)
    requires Inv(g, o) && o.state == Receiving
    requires |o.log| - o.flushed + |data| <= BUFFER_SIZE
    requires |o.log| + |data| <= g.slotSize
    requires o.total > 0 ==> |o.log| + |data| <= o.total
    ensures Inv(g, Take(o, data))
  {
  }

  /** One byte: accepted exactly when the buffer had room or could be emptied first. */
  lemma FeedByteKeepsInv(g: Geometry, o: Ota, b: byte, okWrites: nat)
    requires g.Valid() && Inv(g, o) && o.state == Receiving
    requires |o.log| < g.slotSize
    requires o.total > 0 ==> |o.log| < o.total
    ensures var r := FeedByte(g, o, b, okWrites);
      && Inv(g, r.ota)
      && r.ota.(slot := o.slot, flushed := o.flushed, log := o.log) == o
      && r.ota.log == (if o.Full() && okWrites == 0 then o.log else o.log + [b])
      && (r.code == Ok || r.code == FlashWriteFailed)
      && (r.code == Ok ==> !r.ota.Full() && !(o.Full() && okWrites == 0))
      && (r.code != Ok ==> r.ota.Full() && OnPage(|r.ota.log|))
      && (!o.Full() && okWrites > 0 ==> r.code == Ok && okWrites <= r.okWrites + 1)
  {
    hide FlushIfFull, OnPage;
    FlushIfFullKeepsInv(g, o, okWrites);
    var retried := FlushIfFull(g, o, okWrites);
    if retried.code == Ok {
      TakeKeepsInv(g, retried.ota, [b]);
      FlushIfFullKeepsInv(g, Take(retried.ota, [b]), retried.okWrites);
    }
  }

  /** Accepting a chunk appends to the log and flushes; it changes no other variable. On
      success the whole chunk is in the log and the buffer has room. On failure exactly a
      prefix is, and the buffer is left full. */
  lemma {:induction false} FeedKeepsInv(g: Geometry, o: Ota, data: seq<byte>, okWrites: nat)
    requires g.Valid() && Inv(g, o) && o.state == Receiving
    requires |o.log| + |data| <= g.slotSize
    requires o.total > 0 ==> |o.log| + |data| <= o.total
    ensures var r := Feed(g, o, data, okWrites);
      && Inv(g, r.ota)
      && r.ota.(slot := o.slot, flushed := o.flushed, log := o.log) == o
      && o.log <= r.ota.log <= o.log + data
      && (r.code == Ok || r.code == FlashWriteFailed)
      && (r.code == Ok ==> r.ota.log == o.log + data && (data != [] ==> !r.ota.Full()))
      && (r.code != Ok ==> r.ota.Full() && OnPage(|r.ota.log|) && data != [])
    decreases |data|
  {
    hide FeedByte, Inv;
    if data != [] {
      FeedByteKeepsInv(g, o, data[0], okWrites);
      var taken := FeedByte(g, o, data[0], okWrites);
      if taken.code == Ok {
        FeedKeepsInv(g, taken.ota, data[1..], taken.okWrites);
        assert o.log + data == taken.ota.log + data[1..];
      }
    }
  }

  /** Splitting a chunk changes nothing, as long as the first half is accepted. */
  lemma {:induction false} FeedSplits(g: Geometry, o: Ota, a: seq<byte>, b: seq<byte>, okWrites: nat)
    requires g.Valid()
    ensures var first := Feed(g, o, a, okWrites);
      Feed(g, o, a + b, okWrites)
        == if first.code == Ok then Feed(g, first.ota, b, first.okWrites) else first
    decreases |a|
  {
    if a == [] {
      assert a + b == b;
    } else {
      assert (a + b)[1..] == a[1..] + b;
      var taken := FeedByte(g, o, a[0], okWrites);
      if taken.code == Ok {
        FeedSplits(g, taken.ota, a[1..], b, taken.okWrites);
      }
    }
  }

  /** Copying a block that at most fills the buffer, then flushing if it did, is the same as
      taking its bytes one at a time. */
  lemma {:induction false} FeedBlock(g: Geometry, o: Ota, block: seq<byte>, okWrites: nat)
    requires g.Valid() && block != []
    requires |o.log| - o.flushed + |block| <= BUFFER_SIZE
    ensures Feed(g, o, block, okWrites) == FlushIfFull(g, Take(o, block), okWrites)
    decreases |block|
  {
    hide Flush;
    assert [block[0]] + block[1..] == block;
    var grown := Take(o, [block[0]]);
    var taken := FeedByte(g, o, block[0], okWrites);
    assert taken == FlushIfFull(g, grown, okWrites);
    if |block| == 1 {
      assert block == [block[0]] && block[1..] == [];
    } else {
      FeedBlock(g, grown, block[1..], okWrites);
      assert (o.log + [block[0]]) + block[1..] == o.log + block;
    }
  }

  /** A byte after which the flush fails again only waits for that flush. */
  lemma FeedByteRetried(g: Geometry, o: Ota, b: byte, okWrites: nat, later: nat)
    requires g.Valid() && Inv(g, o) && o.state == Receiving
    requires |o.log| < g.slotSize && (o.total > 0 ==> |o.log| < o.total)
    ensures var r := FeedByte(g, o, b, okWrites);
      && (r.code == Ok ==> FeedByte(g, o, b, okWrites + later)
                             == r.(okWrites := r.okWrites + later))
      && (r.code != Ok && r.ota.log == o.log ==> r.ota == o && okWrites == 0)
      && (r.code != Ok && r.ota.log != o.log ==>
            FeedByte(g, o, b, okWrites + later) == FlushIfFull(g, r.ota, later))
  {
    FlushIfFullKeepsInv(g, o, okWrites);
    var retried := FlushIfFull(g, o, okWrites);
    if retried.code == Ok {
      FlushIfFullKeepsInv(g, Take(retried.ota, [b]), retried.okWrites);
    }
  }

  /** Feeding into a full buffer starts with the flush it still owes. */
  lemma FeedOwingFlush(g: Geometry, o: Ota, data: seq<byte>, okWrites: nat)
    requires g.Valid() && data != []
    requires FlushIfFull(g, o, okWrites).code == Ok ==> !FlushIfFull(g, o, okWrites).ota.Full()
    ensures var owed := FlushIfFull(g, o, okWrites);
      Feed(g, o, data, okWrites)
        == if owed.code == Ok then Feed(g, owed.ota, data, owed.okWrites) else owed
  {
  }

  lemma FeedFirst(g: Geometry, o: Ota, data: seq<byte>, okWrites: nat)
    requires g.Valid() && data != []
    ensures var taken := FeedByte(g, o, data[0], okWrites);
      Feed(g, o, data, okWrites) == if taken.code == Ok then Feed(g, taken.ota, data[1..], taken.okWrites) else taken
  {
    hide FeedByte;
  }

  // Feeding what a failed feed has not accepted ends where one untroubled feed would have.
  ghost predicate Resumes(g: Geometry, o: Ota, data: seq<byte>, okWrites: nat, later: nat)
    requires g.Valid()
  {
    var failed := Feed(g, o, data, okWrites).ota;
    && |o.log| <= |failed.log| <= |o.log| + |data|
    && var rest := data[|failed.log| - |o.log|..];
       rest != [] ==> Feed(g, failed, rest, later) == Feed(g, o, data, okWrites + later)
  }

  lemma ResumesGives(g: Geometry, o: Ota, data: seq<byte>, okWrites: nat, later: nat) returns (k: nat, rest: seq<byte>)
    requires g.Valid() && Resumes(g, o, data, okWrites, later)
    ensures k <= |data| && rest == data[k..]
    ensures var failed := Feed(g, o, data, okWrites).ota;
      && |failed.log| == |o.log| + k
      && (rest != [] ==> Feed(g, failed, rest, later) == Feed(g, o, data, okWrites + later))
  {
    hide Feed, Geometry.Valid;
    k := |Feed(g, o, data, okWrites).ota.log| - |o.log|;
    rest := data[k..];
  }

  lemma ResumesIs(g: Geometry, o: Ota, data: seq<byte>, okWrites: nat, later: nat, k: nat, rest: seq<byte>)
    requires g.Valid() && k <= |data| && rest == data[k..]
    requires var failed := Feed(g, o, data, okWrites).ota;
      && |failed.log| == |o.log| + k
      && (rest != [] ==> Feed(g, failed, rest, later) == Feed(g, o, data, okWrites + later))
    ensures Resumes(g, o, data, okWrites, later)
  {
    hide Feed, Geometry.Valid;
  }

  lemma SuffixOfRest(data: seq<byte>, k: nat, rest: seq<byte>)
    requires 1 <= |data| && k <= |data| - 1 && rest == data[1..][k..]
    ensures rest == data[k + 1..]
  {
  }

  // The first byte was accepted, and the failure came later.
  lemma ResumeLater(g: Geometry, o: Ota, data: seq<byte>, okWrites: nat, later: nat)
    requires g.Valid() && data != []
    requires var taken := FeedByte(g, o, data[0], okWrites);
      && taken.code == Ok && |taken.ota.log| == |o.log| + 1
      && FeedByte(g, o, data[0], okWrites + later) == taken.(okWrites := taken.okWrites + later)
      && Resumes(g, taken.ota, data[1..], taken.okWrites, later)
    ensures Resumes(g, o, data, okWrites, later)
  {
    hide Geometry.Valid, FeedByte, Resumes;
    FeedFirst(g, o, data, okWrites);
    FeedFirst(g, o, data, okWrites + later);
    hide Feed;
    var taken := FeedByte(g, o, data[0], okWrites);
    var k, rest := ResumesGives(g, taken.ota, data[1..], taken.okWrites, later);
    SuffixOfRest(data, k, rest);
    ResumesIs(g, o, data, okWrites, later, k + 1, rest);
  }

  // The first byte was accepted, but the flush after it failed.
  lemma ResumeAfterFirst(g: Geometry, o: Ota, data: seq<byte>, okWrites: nat, later: nat)
    requires g.Valid() && data != []
    requires var taken := FeedByte(g, o, data[0], okWrites);
      && taken.code != Ok && |taken.ota.log| == |o.log| + 1
      && FeedByte(g, o, data[0], okWrites + later) == FlushIfFull(g, taken.ota, later)
      && (FlushIfFull(g, taken.ota, later).code == Ok ==> !FlushIfFull(g, taken.ota, later).ota.Full())
    ensures Resumes(g, o, data, okWrites, later)
  {
    hide Geometry.Valid, FeedByte, FlushIfFull;
    var taken := FeedByte(g, o, data[0], okWrites);
    FeedFirst(g, o, data, okWrites);
    FeedFirst(g, o, data, okWrites + later);
    hide Feed;
    if data[1..] != [] {
      FeedOwingFlush(g, taken.ota, data[1..], later);
    }
  }

  // Nothing was accepted.
  lemma ResumeAll(g: Geometry, o: Ota, data: seq<byte>, okWrites: nat, later: nat)
    requires g.Valid() && data != [] && okWrites == 0
    requires FeedByte(g, o, data[0], okWrites).code != Ok && FeedByte(g, o, data[0], okWrites).ota == o
    ensures Resumes(g, o, data, okWrites, later)
  {
    hide Geometry.Valid, FeedByte;
    FeedFirst(g, o, data, okWrites);
    hide Feed;
    assert data[0..] == data;
  }

  /** After a failed chunk, sending just the bytes that were not accepted ends exactly where
      one untroubled call would have ended. */
  lemma FeedResumes(g: Geometry, o: Ota, data: seq<byte>, okWrites: nat, later: nat)
    requires g.Valid() && Inv(g, o) && o.state == Receiving
    requires |o.log| + |data| <= g.slotSize
    requires o.total > 0 ==> |o.log| + |data| <= o.total
    requires Feed(g, o, data, okWrites).code != Ok
    ensures |o.log| <= |Feed(g, o, data, okWrites).ota.log| <= |o.log| + |data|
    ensures var failed := Feed(g, o, data, okWrites).ota;
      var rest := data[|failed.log| - |o.log|..];
      rest != [] ==> Feed(g, failed, rest, later) == Feed(g, o, data, okWrites + later)
  {
    FeedResumesWhole(g, o, data, okWrites, later);
    hide Feed, Inv, Geometry.Valid;
  }

  lemma {:induction false} FeedResumesWhole(g: Geometry, o: Ota, data: seq<byte>, okWrites: nat, later: nat)
    requires g.Valid() && Inv(g, o) && o.state == Receiving
    requires |o.log| + |data| <= g.slotSize
    requires o.total > 0 ==> |o.log| + |data| <= o.total
    requires Feed(g, o, data, okWrites).code != Ok
    ensures Resumes(g, o, data, okWrites, later)
    decreases |data|
  {
    hide FeedByte, FlushIfFull, Inv, OnPage, Geometry.Valid, Resumes;
    assert data != [];
    FeedFirst(g, o, data, okWrites);
    FeedByteKeepsInv(g, o, data[0], okWrites);
    FeedByteRetried(g, o, data[0], okWrites, later);
    hide Feed;
    var taken := FeedByte(g, o, data[0], okWrites);
    if taken.code == Ok {
      FeedResumesWhole(g, taken.ota, data[1..], taken.okWrites, later);
      ResumeLater(g, o, data, okWrites, later);
    } else if taken.ota.log == o.log {
      ResumeAll(g, o, data, okWrites, later);
    } else {
      FlushIfFullKeepsInv(g, taken.ota, later);
      ResumeAfterFirst(g, o, data, okWrites, later);
    }
  }

  // ---------- Messages ----------

  lemma AbortKeepsInv(g: Geometry, o: Ota, okWrites: nat)
    requires g.Valid() && Inv(g, o)
    ensures Inv(g, Abort(g, o, okWrites))
  {
    hide Flush, OnPage, Mirrors;
    FlushKeepsInv(g, o, okWrites);
  }

  lemma StartKeepsInv(g: Geometry, o: Ota, size: nat, env: Env)
    requires g.Valid() && Inv(g, o)
    ensures var (next, code) := Start(g, o, size, env);
      && Inv(g, next)
      && (code == Ok ==> next.state == Receiving && next.log == [] && next.total == if size > 0 then size else g.slotSize)
      && (code == Ok <==> env.openOk && env.eraseOk)
  {
    hide Abort;
    AbortKeepsInv(g, o, env.okWrites);
  }

  predicate Fits(g: Geometry, total: nat, n: nat) {
    n <= g.slotSize && (total > 0 ==> n <= total)
  }

  lemma AddsExactly(g: Geometry, a: nat, b: nat)
    requires g.Valid() && a <= g.slotSize && b <= MAX_CHUNK
    ensures Add32(a, b) == a + b
  {
  }

  /** Within the invariant the 32-bit bounds checks never wrap. */
  lemma WriteCases(g: Geometry, o: Ota, data: seq<byte>, okWrites: nat)
    requires g.Valid() && Inv(g, o) && |data| <= MAX_CHUNK
    ensures Write(g, o, data, okWrites) ==
      if !o.isOpen || data == [] then (o, NotInitialized)
      else if o.state != Receiving then (o, InvalidParam)
      else if !Fits(g, o.total, |o.log| + |data|) then (o, InsufficientSpace)
      else (Feed(g, o, data, okWrites).ota, Feed(g, o, data, okWrites).code)
  {
    hide Feed, OnPage, Mirrors, Add32;
    AddsExactly(g, |o.log|, |data|);
  }

  lemma WriteKeepsInv(g: Geometry, o: Ota, data: seq<byte>, okWrites: nat)
    requires g.Valid() && Inv(g, o) && |data| <= MAX_CHUNK
    ensures var (next, code) := Write(g, o, data, okWrites);
      && Inv(g, next)
      && next == o.(slot := next.slot, flushed := next.flushed, log := next.log)
      && o.log <= next.log <= o.log + data
      && (code == Ok ==> next.log == o.log + data && data != [])
  {
    hide Feed, Write, Inv;
    WriteCases(g, o, data, okWrites);
    if o.state == Receiving && Fits(g, o.total, |o.log| + |data|) {
      FeedKeepsInv(g, o, data, okWrites);
    }
  }

  /** Erased cells cannot stand in for image bytes: no byte of the magic is 0xFF. */
  lemma MagicIsInLog(cells: seq<byte>, log: seq<byte>)
    requires Mirrors(cells, log, |log|) && MagicAt(cells)
    ensures 4 <= |log| && log[..4] == MAGIC
  {
    assert MAGIC[0] == cells[0] && MAGIC[1] == cells[1] && MAGIC[2] == cells[2] && MAGIC[3] == cells[3];
    if |log| < 4 {
      assert false;
    }
  }

  lemma FinalizeKeepsInv(g: Geometry, o: Ota, env: Env)
    requires g.Valid() && Inv(g, o)
    ensures var (next, code) := Finalize(g, o, env);
      && (code == Ok || o.state != Receiving ==> Inv(g, next))
      && Inv(g, next.(state := if code == Ok then next.state else Error))
      && next.log == o.log
      && (code == Ok ==> next.state == Complete && Mirrors(next.slot.cells, next.log, |next.log|))
  {
    hide Flush, OnPage;
    FlushKeepsInv(g, o, env.okWrites);
    var r := Flush(g, o, env.okWrites);
    if o.isOpen && r.code == Ok && MagicAt(r.ota.slot.cells) {
      MagicIsInLog(r.ota.slot.cells, o.log);
    }
  }

  lemma LatchKeepsInv(g: Geometry, o: Ota, code: Code)
    requires Inv(g, o) || Inv(g, o.(state := Error))
    ensures Inv(g, o.(state := Error, lastError := code))
  {
    hide OnPage, Mirrors;
  }

  /** No message, whatever the hardware does while it is handled, breaks the invariant. */
  lemma StepKeepsInv(g: Geometry, o: Ota, msg: Msg, env: Env)
    requires g.Valid() && Inv(g, o) && AcceptedMsg(msg)
    ensures Inv(g, Step(g, o, msg, env).0)
  {
    hide Start, Write, Finalize, Abort, OnPage, Mirrors;
    match msg
    case StartUpdate(size) =>
      StartKeepsInv(g, o, size, env);
      LatchKeepsInv(g, Start(g, o, size, env).0, Start(g, o, size, env).1);
    case WriteChunk(data) =>
      WriteKeepsInv(g, o, data, env.okWrites);
    case FinalizeUpdate =>
      FinalizeKeepsInv(g, o, env);
      LatchKeepsInv(g, Finalize(g, o, env).0, Finalize(g, o, env).1);
    case AbortUpdate =>
      AbortKeepsInv(g, o, env.okWrites);
    case ConfirmFirmware =>
      LatchKeepsInv(g, o, BootRequestFailed);
    case Reboot =>
  }

  // ---------- Every run ----------

  lemma {:induction false} RunKeepsInv(g: Geometry, o: Ota, run: seq<Event>)
    requires g.Valid() && Inv(g, o) && AcceptedRun(run)
    ensures Inv(g, Run(g, o, run))
    decreases |run|
  {
    hide Inv, Step;
    if run != [] {
      var last := run[|run| - 1];
      RunKeepsInv(g, o, run[..|run| - 1]);
      StepKeepsInv(g, Run(g, o, run[..|run| - 1]), last.msg, last.env);
    }
  }

  ghost predicate Disjoint(a: Extent, b: Extent) {
    a.End() <= b.offset || b.End() <= a.offset
  }

  /** In every run from power-up, over any slot contents, whatever fails: between two erases
      no cell is programmed twice, and each programming operation starts on a page boundary
      inside the slot. */
  lemma NoCellProgrammedTwice(g: Geometry, cells: seq<byte>, run: seq<Event>)
    requires g.Valid() && |cells| == g.slotSize && AcceptedRun(run)
    ensures var programs := Run(g, PowerUp(Slot(cells, [])), run).slot.programs;
      && (forall i, j :: 0 <= i < |programs| && 0 <= j < |programs| && i != j ==>
            Disjoint(programs[i], programs[j]))
      && (forall i :: 0 <= i < |programs| ==>
            programs[i].offset % 4096 == 0 && programs[i].End() <= g.slotSize)
  {
    RunKeepsInv(g, PowerUp(Slot(cells, [])), run);
  }

  /** At every message boundary: receiving means the slot is open, idle and complete mean it
      is closed, the transient states are gone, the accepted bytes stay within both limits,
      and an update only completes over at least four accepted bytes that start with the
      magic and are all in flash. */
  lemma BoundaryStates(g: Geometry, cells: seq<byte>, run: seq<Event>)
    requires g.Valid() && |cells| == g.slotSize && AcceptedRun(run)
    ensures var o := Run(g, PowerUp(Slot(cells, [])), run);
      && (o.state == Receiving ==> o.isOpen)
      && (o.state == Idle || o.state == Complete ==> !o.isOpen)
      && (o.state == Idle || o.state == Receiving || o.state == Complete || o.state == Error)
      && |o.log| <= g.slotSize && (o.total > 0 ==> |o.log| <= o.total)
      && (o.state == Complete ==>
            4 <= |o.log| && o.log[..4] == MAGIC
            && o.slot.cells == o.log + Blank(g.slotSize - |o.log|))
  {
    hide OnPage;
    RunKeepsInv(g, PowerUp(Slot(cells, [])), run);
  }

  // ---------- What a finished update leaves in flash ----------

  /** The bytes carried by the chunk messages of a run, in order. */
  function Image(run: seq<Event>): seq<byte>
    decreases |run|
  {
    if run == [] then [] else
    var last := run[|run| - 1].msg;
    Image(run[..|run| - 1]) + (if last.WriteChunk? then last.data else [])
  }

  predicate AllOk(g: Geometry, o: Ota, run: seq<Event>)
    requires g.Valid()
    decreases |run|
  {
    run == [] ||
    (AllOk(g, o, run[..|run| - 1]) &&
     Step(g, Run(g, o, run[..|run| - 1]), run[|run| - 1].msg, run[|run| - 1].env).1 == Ok)
  }

  ghost predicate OnlyChunks(run: seq<Event>) {
    forall i :: 0 <= i < |run| ==> run[i].msg.WriteChunk? && |run[i].msg.data| <= MAX_CHUNK
  }

  lemma {:induction false} ChunksAppend(g: Geometry, o: Ota, run: seq<Event>)
    requires g.Valid() && Inv(g, o) && o.state == Receiving
    requires OnlyChunks(run) && AllOk(g, o, run)
    ensures var r := Run(g, o, run);
      Inv(g, r) && r.state == Receiving && r.log == o.log + Image(run)
    decreases |run|
  {
    hide Inv, Start, Write, Finalize, Abort;
    if run != [] {
      var before, last := run[..|run| - 1], run[|run| - 1];
      ChunksAppend(g, o, before);
      WriteKeepsInv(g, Run(g, o, before), last.msg.data, last.env.okWrites);
    }
  }

  /** Start, any successful chunks and a successful finalize: the slot holds exactly the
      concatenation of the chunks, then erased cells. */
  lemma ImageInFlash(g: Geometry, o: Ota, size: nat, start: Env, run: seq<Event>, end: Env)
    requires g.Valid() && Inv(g, o) && OnlyChunks(run)
    requires Step(g, o, StartUpdate(size), start).1 == Ok
    requires AllOk(g, Step(g, o, StartUpdate(size), start).0, run)
    requires var received := Run(g, Step(g, o, StartUpdate(size), start).0, run);
      Step(g, received, FinalizeUpdate, end).1 == Ok
    ensures var received := Run(g, Step(g, o, StartUpdate(size), start).0, run);
      && |Image(run)| <= g.slotSize
      && Step(g, received, FinalizeUpdate, end).0.slot.cells
           == Image(run) + Blank(g.slotSize - |Image(run)|)
  {
    hide Start, Write, Finalize, Abort, OnPage;
    StartKeepsInv(g, o, size, start);
    var started := Step(g, o, StartUpdate(size), start).0;
    ChunksAppend(g, started, run);
    FinalizeKeepsInv(g, Run(g, started, run), end);
  }

  /** How an image is cut into chunks, the state the update starts from and the expected
      size leave no trace in flash. */
  lemma ChunkingIsInvisible(
      g: Geometry, o: Ota, size: nat, start: Env, run: seq<Event>, end: Env,
      o': Ota, size': nat, start': Env, run': seq<Event>, end': Env)
    requires g.Valid() && Inv(g, o) && Inv(g, o') && OnlyChunks(run) && OnlyChunks(run')
    requires Image(run) == Image(run')
    requires Step(g, o, StartUpdate(size), start).1 == Ok
    requires Step(g, o', StartUpdate(size'), start').1 == Ok
    requires AllOk(g, Step(g, o, StartUpdate(size), start).0, run)
    requires AllOk(g, Step(g, o', StartUpdate(size'), start').0, run')
    requires Step(g, Run(g, Step(g, o, StartUpdate(size), start).0, run), FinalizeUpdate, end).1 == Ok
    requires Step(g, Run(g, Step(g, o', StartUpdate(size'), start').0, run'), FinalizeUpdate, end').1 == Ok
    ensures
      Step(g, Run(g, Step(g, o, StartUpdate(size), start).0, run), FinalizeUpdate, end).0.slot.cells
      == Step(g, Run(g, Step(g, o', StartUpdate(size'), start').0, run'), FinalizeUpdate, end').0.slot.cells
  {
    hide Step, Run, AllOk, Inv;
    ImageInFlash(g, o, size, start, run, end);
    ImageInFlash(g, o', size', start', run', end');
  }

  // ---------- When an update succeeds ----------

  predicate Healthy(env: Env) {
    && env.openOk && env.eraseOk && env.readOk && env.bootOk && env.confirmOk
    && env.okWrites >= MAX_CHUNK
  }

  lemma {:induction false} FeedSucceeds(g: Geometry, o: Ota, data: seq<byte>, okWrites: nat)
    requires g.Valid() && Inv(g, o) && o.state == Receiving && !o.Full()
    requires |o.log| + |data| <= g.slotSize
    requires o.total > 0 ==> |o.log| + |data| <= o.total
    requires |data| <= okWrites
    ensures Feed(g, o, data, okWrites).code == Ok
    decreases |data|
  {
    hide FeedByte, Inv;
    if data != [] {
      FeedByteKeepsInv(g, o, data[0], okWrites);
      var taken := FeedByte(g, o, data[0], okWrites);
      FeedSucceeds(g, taken.ota, data[1..], taken.okWrites);
    }
  }

  ghost predicate AllHealthy(run: seq<Event>) {
    forall i :: 0 <= i < |run| ==> Healthy(run[i].env)
  }

  ghost predicate NoEmptyChunk(run: seq<Event>) {
    forall i :: 0 <= i < |run| && run[i].msg.WriteChunk? ==> run[i].msg.data != []
  }

  lemma HealthyWrite(g: Geometry, o: Ota, data: seq<byte>, okWrites: nat)
    requires g.Valid() && Inv(g, o) && o.state == Receiving && !o.Full()
    requires |data| <= MAX_CHUNK <= okWrites
    ensures var (next, code) := Write(g, o, data, okWrites);
      && (code == Ok <==> data != [] && Fits(g, o.total, |o.log| + |data|))
      && (code == Ok ==> !next.Full())
  {
    hide Feed, Write, OnPage, Mirrors;
    WriteCases(g, o, data, okWrites);
    if Fits(g, o.total, |o.log| + |data|) {
      FeedSucceeds(g, o, data, okWrites);
      FeedKeepsInv(g, o, data, okWrites);
    }
  }

  lemma {:induction false} HealthyChunks(g: Geometry, o: Ota, run: seq<Event>)
    requires g.Valid() && Inv(g, o) && o.state == Receiving && !o.Full()
    requires OnlyChunks(run) && AllHealthy(run) && Fits(g, o.total, |o.log|)
    ensures AllOk(g, o, run) <==> NoEmptyChunk(run) && Fits(g, o.total, |o.log| + |Image(run)|)
    ensures AllOk(g, o, run) ==> Run(g, o, run).total == o.total && !Run(g, o, run).Full()
    decreases |run|
  {
    hide Inv, Start, Write, Finalize, Abort;
    if run != [] {
      var before, last := run[..|run| - 1], run[|run| - 1];
      HealthyChunks(g, o, before);
      assert NoEmptyChunk(run) <==> NoEmptyChunk(before) && last.msg.data != [];
      if AllOk(g, o, before) {
        ChunksAppend(g, o, before);
        var r := Run(g, o, before);
        WriteKeepsInv(g, r, last.msg.data, last.env.okWrites);
        HealthyWrite(g, r, last.msg.data, last.env.okWrites);
      }
    }
  }

  lemma HealthyFinalize(g: Geometry, o: Ota, env: Env)
    requires g.Valid() && Inv(g, o) && o.state == Receiving && Healthy(env)
    ensures Finalize(g, o, env).1 == Ok <==> MAGIC <= o.log
  {
    hide Flush, OnPage;
    FlushKeepsInv(g, o, env.okWrites);
    var r := Flush(g, o, env.okWrites);
    if MagicAt(r.ota.slot.cells) {
      MagicIsInLog(r.ota.slot.cells, o.log);
    }
    if MAGIC <= o.log {
      assert r.ota.slot.cells[..4] == o.log[..4];
    }
  }

  /** On working hardware an update succeeds exactly when no chunk is empty, the image fits
      the slot and the announced size, and it starts with the magic. */
  lemma UpdateSucceedsIff(g: Geometry, o: Ota, size: nat, start: Env, run: seq<Event>, end: Env)
    requires g.Valid() && Inv(g, o) && OnlyChunks(run)
    requires Healthy(start) && AllHealthy(run) && Healthy(end)
    ensures var (started, code) := Step(g, o, StartUpdate(size), start);
      (code == Ok && AllOk(g, started, run)
        && Step(g, Run(g, started, run), FinalizeUpdate, end).1 == Ok)
      <==>
      (NoEmptyChunk(run) && Fits(g, size, |Image(run)|) && MAGIC <= Image(run))
  {
    hide Start, Finalize, Inv;
    StartKeepsInv(g, o, size, start);
    var started := Step(g, o, StartUpdate(size), start).0;
    assert Inv(g, started) && Fits(g, started.total, 0) && !started.Full() && started.log == [];
    HealthyChunks(g, started, run);
    if AllOk(g, started, run) {
      ChunksAppend(g, started, run);
      HealthyFinalize(g, Run(g, started, run), end);
    }
  }

  // ---------- Retrying a failed chunk ----------

  /** A chunk whose flush fails may already be partly in the log. Sending the same chunk again
      yields the intended bytes exactly when none was: the buffer was still full from an
      earlier failure and the repeated flush failed first. */
  lemma RetryKeepsImageIff(g: Geometry, o: Ota, data: seq<byte>, okWrites: nat, later: nat)
    requires g.Valid() && Inv(g, o) && |data| <= MAX_CHUNK
    requires Write(g, o, data, okWrites).1 == FlashWriteFailed
    requires Write(g, Write(g, o, data, okWrites).0, data, later).1 == Ok
    ensures Write(g, Write(g, o, data, okWrites).0, data, later).0.log == o.log + data
      <==> o.Full() && okWrites == 0
  {
    hide FeedByte, Write, OnPage, Mirrors;
    WriteCases(g, o, data, okWrites);
    var failed := Write(g, o, data, okWrites).0;
    WriteKeepsInv(g, o, data, okWrites);
    WriteKeepsInv(g, failed, data, later);
    FeedByteKeepsInv(g, o, data[0], okWrites);
    var taken := FeedByte(g, o, data[0], okWrites);
    if taken.code == Ok {
      FeedKeepsInv(g, taken.ota, data[1..], taken.okWrites);
    }
    assert |Write(g, failed, data, later).0.log| == |failed.log| + |data|;
  }

  // A chunk that fills the empty buffer, whose flush fails, is in the log.
  lemma FullChunkFails(g: Geometry, o: Ota, data: seq<byte>)
    requires g.Valid() && Inv(g, o) && o.state == Receiving && o.log == [] && o.isOpen
    requires |data| == BUFFER_SIZE && Fits(g, o.total, BUFFER_SIZE)
    ensures Write(g, o, data, 0) == (o.(log := data), FlashWriteFailed)
  {
    WriteCases(g, o, data, 0);
    FeedBlock(g, o, data, 0);
    assert Take(o, data) == o.(log := data);
    hide Write, Feed, Inv;
  }

  lemma FullChunkRepeats(g: Geometry, o: Ota, data: seq<byte>, okWrites: nat)
    requires g.Valid() && Inv(g, o) && o.state == Receiving && o.Full() && o.isOpen
    requires |data| == BUFFER_SIZE < okWrites && Fits(g, o.total, |o.log| + BUFFER_SIZE)
    ensures Write(g, o, data, okWrites).1 == Ok && Write(g, o, data, okWrites).0.log == o.log + data
  {
    hide Feed, FlushIfFull;
    WriteCases(g, o, data, okWrites);
    FlushIfFullKeepsInv(g, o, okWrites);
    var owed := FlushIfFull(g, o, okWrites);
    hide Inv, Write;
    FeedOwingFlush(g, o, data, okWrites);
    FeedSucceeds(g, owed.ota, data, owed.okWrites);
    FeedKeepsInv(g, o, data, okWrites);
  }

  /** A run from power-up in which repeating a failed chunk puts its bytes into the image twice. */
  lemma RetriedChunkIsTwiceInImage(g: Geometry, cells: seq<byte>, data: seq<byte>, start: Env, failing: Env, again: Env)
    requires g.Valid() && |cells| == g.slotSize && 2 * BUFFER_SIZE <= g.slotSize && |data| == BUFFER_SIZE
    requires start.openOk && start.eraseOk && failing.okWrites == 0 && again.okWrites > BUFFER_SIZE
    ensures var o := Run(g, PowerUp(Slot(cells, [])),
        [Event(StartUpdate(0), start), Event(WriteChunk(data), failing), Event(WriteChunk(data), again)]);
      o.state == Receiving && o.log == data + data
  {
    var o := PowerUp(Slot(cells, []));
    assert Inv(g, o);
    StartKeepsInv(g, o, 0, start);
    var o1 := Step(g, o, StartUpdate(0), start).0;
    assert o1.isOpen && o1.log == [] && o1.total == g.slotSize && o1.state == Receiving && Inv(g, o1);
    hide Start, Inv, Write;
    FullChunkFails(g, o1, data);
    var o2 := o1.(log := data);
    assert Step(g, o1, WriteChunk(data), failing).0 == o2;
    WriteKeepsInv(g, o1, data, 0);
    FullChunkRepeats(g, o2, data, again.okWrites);
    WriteKeepsInv(g, o2, data, again.okWrites);
    ThreeEvents(g, o, Event(StartUpdate(0), start), Event(WriteChunk(data), failing), Event(WriteChunk(data), again));
  }

  lemma RunOneMore(g: Geometry, o: Ota, run: seq<Event>, e: Event)
    requires g.Valid()
    ensures Run(g, o, run + [e]) == Step(g, Run(g, o, run), e.msg, e.env).0
  {
    hide Step;
    assert (run + [e])[..|run|] == run;
  }

  lemma ThreeEvents(g: Geometry, o: Ota, a: Event, b: Event, c: Event)
    requires g.Valid()
    ensures Run(g, o, [a, b, c]) == Step(g, Step(g, Step(g, o, a.msg, a.env).0, b.msg, b.env).0, c.msg, c.env).0
  {
    assert [a, b, c] == [] + [a] + [b] + [c];
    hide Step;
    RunOneMore(g, o, [], a);
    RunOneMore(g, o, [] + [a], b);
    RunOneMore(g, o, [] + [a] + [b], c);
  }
}
