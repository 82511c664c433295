/**
 * The caller's seekable file, as the encoder sees it through its callbacks (include/tdc/stream.h). Any
 * call may fail; a failed write leaves a torn file, and a crash during a write leaves a torn file. The
 * ghost field `crash` collects every file contents a crash could have left so far.
 */
module ContainerIo {
  import opened Base
  import opened ContainerFormat
  import opened ContainerGrowth

  ghost function CrashImages(old_: seq<byte>, off: nat, data: seq<byte>): iset<seq<byte>>
  {
    iset img: seq<byte> | Torn(old_, off, data, img)
  }

  /** The file up to end is as it was. */
  predicate SameFront(old_: seq<byte>, img: seq<byte>, end: nat)
  {
    end <= |old_| && end <= |img| && img[..end] == old_[..end]
  }

  ghost function FrontImages(old_: seq<byte>, end: nat): iset<seq<byte>>
  {
    iset img: seq<byte> | SameFront(old_, img, end)
  }

  /** One more fault for a call that gives up without any other reason. */
  function Blame(excused: bool): (n: nat)
    ensures n <= 1 && (n == 0 <==> excused)
  {
    if excused then 0 else 1
  }

  class Io {
    var bytes: seq<byte>
    var cursor: nat
    ghost var crash: iset<seq<byte>>
    /** How often this pass has written at the start of the file, where the header is. */
    ghost var headerWrites: nat
    /** How many calls failed with no offset past the limit and no read past the end to blame. */
    ghost var faults: nat

    constructor (bytes: seq<byte>)
      ensures this.bytes == bytes && cursor == 0 && crash == iset{bytes} && headerWrites == 0 && faults == 0
    {
      this.bytes := bytes;
      cursor, headerWrites, faults := 0, 0, 0;
      crash := iset{bytes};
    }

    /** A new pass begins: crash images and header writes are counted from here. */
    ghost method Mark()
      modifies this`crash, this`headerWrites
      ensures crash == iset{bytes} && headerWrites == 0
    {
      crash, headerWrites := iset{bytes}, 0;
    }

    /** The caller starts over with an empty file. */
    method Truncate()
      modifies this`bytes, this`cursor, this`crash
      ensures bytes == [] && cursor == 0 && crash == iset{[]}
    {
      bytes, cursor, crash := [], 0, iset{[]};
    }

    /** The machine may have died during the last pass: the file is as it was left, or one of the crash images. */
    method Restart()
      modifies this`bytes, this`cursor
      ensures bytes == old(bytes) || bytes in old(crash)
    {
      cursor := 0;
    }

    method Seek(off: nat) returns (ok: bool)
      modifies this`cursor, this`faults
      ensures ok ==> cursor == off <= MAX_OFFSET
      ensures faults == old(faults) + Blame(ok || off > MAX_OFFSET)
    {
      ok := *;
      ok := ok && off <= MAX_OFFSET;
      faults := faults + Blame(ok || off > MAX_OFFSET);
      if ok { cursor := off; } else { cursor := *; }
    }

    /** Exactly n bytes from the cursor. */
    method Read(n: nat) returns (r: Result<seq<byte>>)
      modifies this`cursor, this`faults
      ensures r.Ok? ==> old(cursor) + n <= |bytes| && r.value == bytes[old(cursor)..old(cursor) + n]
      ensures old(cursor) + n > |bytes| ==> r.Err?
      ensures r.Err? ==> r.error == IO || (r.error == Corrupt && old(cursor) + n > |bytes|)
      ensures faults == old(faults) + Blame(r != Err(IO))
    {
      var failed: bool := *;
      if failed {
        faults := faults + 1;
        return Err(IO);
      }
      if cursor + n > |bytes| {
        return Err(Corrupt);
      }
      r := Ok(bytes[cursor..cursor + n]);
      cursor := cursor + n;
    }

    method Write(data: seq<byte>) returns (ok: bool)
      modifies this
      ensures Torn(old(bytes), old(cursor), data, bytes)
      ensures crash == old(crash) + CrashImages(old(bytes), old(cursor), data)
      ensures ok ==> bytes == Written(old(bytes), old(cursor), data)
      ensures ok ==> cursor == old(cursor) + |data| <= MAX_OFFSET
      ensures headerWrites == old(headerWrites) + if old(cursor) == 0 then 1 else 0
      ensures faults == old(faults) + Blame(ok || old(cursor) + |data| > MAX_OFFSET)
    {
      if cursor == 0 { headerWrites := headerWrites + 1; }
      crash := crash + CrashImages(bytes, cursor, data);
      WholeIsTorn(bytes, cursor, data);
      ok := *;
      ok := ok && cursor + |data| <= MAX_OFFSET;
      faults := faults + Blame(ok || cursor + |data| > MAX_OFFSET);
      if ok {
        bytes := Written(bytes, cursor, data);
        cursor := cursor + |data|;
      } else {
        var img: seq<byte> := *;
        if Torn(bytes, cursor, data, img) {
          bytes := img;
        }
        cursor := *;
      }
    }

    /** The caller's relocation hook: it writes only at or past the end it is given. */
    method Relocated(end: nat) returns (ok: bool)
      requires end <= |bytes|
      modifies this
      ensures SameFront(old(bytes), bytes, end)
      ensures crash == old(crash) + FrontImages(old(bytes), end) && headerWrites == old(headerWrites)
      ensures faults == old(faults) + Blame(ok)
    {
      crash := crash + FrontImages(bytes, end);
      var img: seq<byte> := *;
      if SameFront(bytes, img, end) {
        bytes := img;
      }
      cursor := *;
      ok := *;
      faults := faults + Blame(ok);
    }
  }
}
