/** main/iap.c in its own form: the static state record, mutated in place by every call. Each method is
    proved against the transition of module Iap that it implements, so that every theorem about those
    transitions, the invariant `Inv` among them, is one about the views of this object. */
module IapModule {
  import opened Platform
  import opened Iap

  class InAppProgrammer {
    const env: Env
    var initialized: bool
    var open: bool
    var partitionToProgram: Option<Partition>
    var otaHandle: Option<Partition>
    var curFlashAddress: nat
    var pageBuffer: Pointer
    var page: array<char>      // the heap block that pageBuffer refers to while it is live
    var pageBufferIx: nat
    var dev: Device

    ghost function View(): State
      reads this, page
      requires pageBufferIx <= page.Length
    {
      State(initialized, open, partitionToProgram, otaHandle, curFlashAddress, pageBuffer, page[..pageBufferIx], dev)
    }

    ghost predicate Valid()
      reads this, page
    {
      page.Length == PAGE && pageBufferIx <= PAGE
    }

    constructor (env: Env, boot: Partition)
      ensures Valid() && fresh(page) && this.env == env && View() == Reset(Device(0, {}, false, boot, []))
    {
      this.env := env;
      initialized, open, partitionToProgram, otaHandle := false, false, None, None;
      curFlashAddress, pageBuffer, pageBufferIx := 0, Null, 0;
      page := new char[PAGE];
      dev := Device(0, {}, false, boot, []);
    }

    method Init() returns (err: Err)
      requires Valid()
      modifies this
      ensures Valid() && page == old(page)
      ensures (View(), err) == Iap.Init(old(View()))
    {
      if initialized {
        return AlreadyInitialized;
      }
      initialized, open := true, false;
      err := Ok;
    }

    method Begin() returns (err: Err)
      requires Valid()
      modifies this
      ensures Valid() && (page == old(page) || fresh(page))
      ensures (View(), err) == Iap.Begin(env, old(View()))
    {
      if !initialized {
        return NotInitialized;
      }
      if open {
        return SessionAlreadyOpen;
      }
      pageBufferIx := 0;
      var (d, block) := Malloc(env, dev);
      dev, pageBuffer := d, block;
      if pageBuffer.Null? {
        return OutOfMemory;
      }
      page := new char[PAGE];
      var (d2, target) := FindNextBootPartition(env, dev);
      dev, partitionToProgram := d2, target;
      if partitionToProgram.None? {
        dev := Free(dev, pageBuffer);
        return PartitionNotFound;
      }
      curFlashAddress := env.address(partitionToProgram.value) % WORD;
      var (d3, began) := Call(env, dev, partitionToProgram, p => Begun(p));
      dev := d3;
      if !began {
        dev := Free(dev, pageBuffer);
        return Fail;
      }
      otaHandle := partitionToProgram;
      open := true;
      err := Ok;
    }

    /** `bytes` has uint16_t length; neither the copy count nor the remaining space underflows. */
    method Write(bytes: string) returns (err: Err)
      requires Valid() && |bytes| < 0x1_0000
      modifies this, page
      ensures Valid() && page == old(page)
      ensures (View(), err) == Iap.Write(env, old(View()), bytes)
    {
      if !initialized {
        return NotInitialized;
      }
      if !open {
        return NoSession;
      }
      var rest := bytes;
      while |rest| > 0
        invariant Valid() && page == old(page)
        invariant Fill(env, View(), rest) == Fill(env, old(View()), bytes)
        decreases |rest|, pageBufferIx
      {
        var n, result := CopyRound(rest);
        if result != Ok {
          return WriteFailed;
        }
        rest := rest[n..];
      }
      err := Ok;
    }

    /** The body of the copy loop. */
    method CopyRound(bytes: string) returns (n: nat, err: Err)
      requires Valid() && bytes != []
      modifies this, page
      ensures Valid() && page == old(page)
      ensures (View(), err, n) == CopyOnce(env, old(View()), bytes)
      ensures err == Ok ==> n <= |bytes| && (n > 0 || pageBufferIx < old(pageBufferIx))
      ensures err in {Ok, WriteFailed}
    {
      if !Allocated(dev, pageBuffer) {
        dev := dev.(fault := true);
        return 0, WriteFailed;
      }
      var spaceRemaining: nat := PAGE - pageBufferIx;
      n := if spaceRemaining < |bytes| then spaceRemaining else |bytes|;
      CopyIn(bytes[..n]);
      err := Ok;
      if pageBufferIx == PAGE {
        err := WritePage();
        if err != Ok {
          err := WriteFailed;
        }
      }
    }

    /** memcpy(&page_buffer[page_buffer_ix], piece) and the advance of the index. */
    method CopyIn(piece: string)
      requires page.Length == PAGE && pageBufferIx + |piece| <= PAGE
      modifies this`pageBufferIx, page
      ensures pageBufferIx == old(pageBufferIx) + |piece|
      ensures page[..pageBufferIx] == old(page[..pageBufferIx]) + piece
    {
      forall i | 0 <= i < |piece| {
        page[pageBufferIx + i] := piece[i];
      }
      pageBufferIx := pageBufferIx + |piece|;
    }

    method WritePage() returns (err: Err)
      requires page.Length == PAGE && pageBufferIx <= PAGE
      modifies this`dev, this`curFlashAddress, this`pageBufferIx
      ensures pageBufferIx <= old(pageBufferIx)
      ensures pageBufferIx == 0 || err != Ok
      ensures (View(), err) == WritePageBuffer(env, old(View()))
    {
      if pageBufferIx == 0 {
        return Ok;
      }
      if !Allocated(dev, pageBuffer) {
        dev := dev.(fault := true);
        return WriteFailed;
      }
      var block := page[..pageBufferIx];
      var (d, written) := Call(env, dev, otaHandle, p => Wrote(p, block));
      dev := d;
      if !written {
        return WriteFailed;
      }
      curFlashAddress := (curFlashAddress + pageBufferIx) % WORD;
      pageBufferIx := 0;
      err := Ok;
    }

    method Commit() returns (err: Err)
      requires Valid()
      modifies this
      ensures Valid() && page == old(page)
      ensures (View(), err) == Iap.Commit(env, old(View()))
    {
      err := WritePage();
      err := Finish(true);
    }

    method Abort() returns (err: Err)
      requires Valid()
      modifies this
      ensures Valid() && page == old(page)
      ensures (View(), err) == Iap.Abort(env, old(View()))
    {
      err := Finish(false);
    }

    method Finish(commit: bool) returns (err: Err)
      requires page.Length == PAGE && pageBufferIx <= PAGE
      modifies this
      ensures page == old(page) && pageBufferIx <= PAGE
      ensures (View(), err) == Iap.Finish(env, old(View()), commit)
    {
      if !initialized {
        return NotInitialized;
      }
      if !open {
        return NoSession;
      }
      dev := Free(dev, pageBuffer);
      pageBuffer, pageBufferIx, curFlashAddress := Null, 0, 0;
      var (d, ended) := Call(env, dev, otaHandle, p => Ended(p));
      dev := d;
      if commit {
        if !ended {
          return Fail;
        }
        var (d2, activated) := SetBoot(env, dev, partitionToProgram);
        dev := d2;
        if !activated {
          return Fail;
        }
      }
      otaHandle, partitionToProgram, open := None, None, false;
      err := Ok;
    }
  }
}
