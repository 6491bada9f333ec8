/** The RAM file store's table, updated in place. */
module RamStore {
  import opened Basics
  import opened RamFiles

  class Table {
    var files: array<File>

    constructor ()
      ensures fresh(files) && files[..] == Initial()
    {
      files := new File[MAX_FILES](_ => File(false, "", NoBuffer, 0));
      new;
      assert files[..] == Initial();
    }

    method FindFile(path: string) returns (n: nat)
      ensures n == Find(files[..], path)
    {
      n := 0;
      while n < files.Length && !(files[n].inUse && files[n].name == path)
        invariant n <= files.Length
        invariant forall i :: 0 <= i < n ==> !(files[i].inUse && files[i].name == path)
      {
        n := n + 1;
      }
    }

    // The file of that path, made in the first free slot if there is none.
    method CreateFile(path: string) returns (n: nat)
      modifies files
      ensures n == SlotFor(old(files[..]), path)
      ensures files[..] == if n < files.Length then old(files[..])[n := Opened(old(files[..]), path)] else old(files[..])
    {
      n := FindFile(path);
      if n < files.Length {
        return;
      }
      n := 0;
      while n < files.Length && files[n].inUse
        invariant n <= files.Length
        invariant forall i :: 0 <= i < n ==> files[i].inUse
      {
        n := n + 1;
      }
      assert n == FreeSlot(files[..]);
      if n < files.Length {
        files[n] := File(true, path, NoBuffer, 0);
      }
    }

    method WriteFile(path: string, data: seq<Byte>, memory: bool) returns (rc: int)
      modifies files
      ensures (files[..], rc) == Write(old(files[..]), path, data, memory)
    {
      hide Find, FreeSlot, SlotFor, Opened;
      var n := CreateFile(path);
      if n == files.Length {
        return -ENOMEM;
      }
      var file := files[n];
      ghost var started := file;
      var cells := if file.buffer.Buffer? then file.buffer.cells else [];
      if Capacity(file) < |data| {
        if !memory {
          files[n] := file.(inUse := false, buffer := NoBuffer);
          assert files[..] == old(files[..])[n := Written(started, data, memory)];
          return -ENOMEM;
        }
        cells := data;
        file := file.(buffer := Buffer(cells));
      }
      if file.buffer.Buffer? {
        Overlay(data, cells);
        file := file.(buffer := Buffer(data + cells[|data|..]));
      }
      files[n] := file.(size := |data|);
      assert files[..] == old(files[..])[n := Written(started, data, memory)];
      return |data|;
    }

    lemma Overlay(data: seq<Byte>, cells: seq<Byte>)
      requires |data| <= |cells|
      ensures data == cells ==> data + cells[|data|..] == data
    {
    }

    method ReadFile(path: string, max: nat) returns (rc: int, data: seq<Byte>)
      ensures (rc, data) == Read(files[..], path, max)
    {
      var n := FindFile(path);
      if n == files.Length || files[n].buffer.NoBuffer? {
        return -ENOENT, [];
      }
      var bytes := ContentOf(files[n]).bytes;
      data := if |bytes| < max then bytes else bytes[..max];
      rc := |data|;
    }

    method DeleteFile(path: string) returns (rc: int)
      modifies files
      ensures (files[..], rc) == Delete(old(files[..]), path)
    {
      var n := FindFile(path);
      if n == files.Length {
        return -ENOENT;
      }
      files[n] := File(false, "", NoBuffer, 0);
      return 0;
    }

    // What a read for an append finds: the old contents and how many of them are copied.
    method Lookup(path: string, bound: nat) returns (bytes: seq<Byte>, toRead: nat)
      ensures toRead <= |bytes| && bytes[..toRead] == Read(files[..], path, bound).1
    {
      var n := FindFile(path);
      if n == files.Length || files[n].buffer.NoBuffer? {
        return [], 0;
      }
      bytes := ContentOf(files[n]).bytes;
      toRead := if |bytes| < bound then |bytes| else bound;
      assert bytes[..|bytes|] == bytes;
    }

    /** The scratch buffer holds MAX_SIZE bytes; where a copy would leave it, that is
        reported instead. */
    method AppendFile(path: string, data: Data, scratch: bool, memory: bool) returns (result: Appended)
      modifies files
      ensures (files[..], result) == Append(old(files[..]), path, data, scratch, memory)
    {
      hide Read, Write, ReadBound;
      if !scratch {
        return Appended(-ENOMEM);
      }
      var temp := new Byte[MAX_SIZE];
      var bytes, existing := Lookup(path, ReadBound(|data|));
      assert |bytes[..existing]| == existing;
      if existing > temp.Length {
        return Overrun;
      }
      CopyInto(temp, 0, bytes[..existing]);
      if SizeSum(existing, |data|) > MAX_SIZE {
        return Appended(-ENOSPC);
      }
      if existing + |data| > temp.Length {
        return Overrun;
      }
      CopyInto(temp, existing, data);
      assert temp[..existing + |data|] == bytes[..existing] + data;
      var written := WriteFile(path, temp[..existing + |data|], memory);
      return Appended(if written < 0 then written else |data|);
    }

    method CopyInto(buffer: array<Byte>, at: nat, data: seq<Byte>)
      requires at + |data| <= buffer.Length
      modifies buffer
      ensures forall i :: 0 <= i < at ==> buffer[i] == old(buffer[i])
      ensures forall i :: at <= i < at + |data| ==> buffer[i] == data[i - at]
    {
      for i := 0 to |data|
        invariant forall k :: 0 <= k < at ==> buffer[k] == old(buffer[k])
        invariant forall k :: at <= k < at + i ==> buffer[k] == data[k - at]
      {
        buffer[at + i] := data[i];
      }
    }
  }
}
