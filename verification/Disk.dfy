/**
 The in-memory disk file and the open-file handle that writes to it either
 directly or through a backlog.  Each method is proved against a function on
 values (`Apply`), about which the properties of whole runs are proved in
 `DiskRuns`.
 */
module Disk {
  import opened Words

  const MAX_FILE_SIZE: int := TWO_63 - 1
  const EINVAL: int := 22

  const SEEK_SET: int := 0
  const SEEK_CUR: int := 1
  const SEEK_END: int := 2

  function Max(x: int, y: int): int { if x < y then y else x }

  function Min(x: int, y: int): int { if x < y then x else y }

  /** A queued write. */
  datatype Req = Req(bytes: Bytes, pos: uint64)

  predicate Valid(r: Req) { r.pos < MAX_FILE_SIZE }

  /** One past the last byte the request touches. */
  function End(r: Req): nat { r.pos + |r.bytes| }

  predicate Covers(r: Req, i: int) {
    Valid(r) && r.pos <= i < End(r)
  }

  /** The file after a write, byte by byte: a gap before `pos` reads as zero. */
  function Written(f: seq<byte>, r: Req): seq<byte> {
    if Valid(r) then
      seq(Max(|f|, End(r)), i requires 0 <= i < Max(|f|, End(r)) =>
        if Covers(r, i) then r.bytes[i - r.pos] else if i < |f| then f[i] else 0)
    else
      f
  }

  /** The file after a list of writes, in order. */
  function Replay(f: seq<byte>, reqs: seq<Req>): seq<byte>
    decreases |reqs|
  {
    if reqs == [] then f else Replay(Written(f, reqs[0]), reqs[1..])
  }

  class DiskFile {
    var buffer: seq<byte>

    constructor ()
      ensures buffer == []
    {
      buffer := [];
    }

    method Write(pos: uint64, buf: Bytes) returns (n: int)
      modifies this
      ensures buffer == Written(old(buffer), Req(buf, pos))
      ensures n == if pos < MAX_FILE_SIZE then |buf| else -EINVAL
    {
      if MAX_FILE_SIZE <= pos {
        return -EINVAL;
      }
      if pos + |buf| > |buffer| {
        // resize: the new bytes are zero
        buffer := buffer + seq(pos + |buf| - |buffer|, _ => 0);
      }
      buffer := buffer[..pos] + buf + buffer[pos + |buf|..];
      return |buf|;
    }

    method Read(pos: uint64, buf: array<byte>) returns (n: int)
      modifies buf
      ensures pos >= |buffer| ==> n == -EINVAL && buf[..] == old(buf[..])
      ensures pos < |buffer| ==>
                && n == Min(buf.Length, |buffer| - pos)
                && buf[..] == buffer[pos..pos + n] + old(buf[n..])
    {
      if pos >= |buffer| {
        return -EINVAL;
      }
      n := Min(buf.Length, |buffer| - pos);
      for i := 0 to n
        invariant forall k | 0 <= k < buf.Length :: buf[k] == if k < i then buffer[pos + k] else old(buf[k])
      {
        buf[i] := buffer[pos + i];
      }
    }

    function GetSize(): nat
      reads this
    {
      |buffer|
    }
  }

  // Handles as values

  datatype Handle = Handle(disk: seq<byte>, backlog: seq<Req>, pos: uint64, direct: bool)

  datatype Op =
    | Write(bytes: Bytes)
    | Read(count: nat)
    | PWrite(bytes: Bytes, offset: uint64)
    | PRead(count: nat, offset: uint64)
    | Seek(offset: uint64, whence: int)
    | Fsync

  /** What the caller sees: the returned code, and the bytes placed in its buffer. */
  datatype Outcome = Outcome(code: int, data: seq<byte>)

  function Flush(h: Handle): Handle {
    if h.direct then h else h.(disk := Replay(h.disk, h.backlog), backlog := [])
  }

  /** The file as the handle's own reads see it. */
  function Contents(h: Handle): seq<byte> {
    if h.direct then h.disk else Replay(h.disk, h.backlog)
  }

  function WriteAt(h: Handle, r: Req): (Handle, Outcome) {
    if h.direct then
      (h.(disk := Written(h.disk, r)), Outcome(if Valid(r) then |r.bytes| else -EINVAL, []))
    else
      (h.(backlog := h.backlog + [r]), Outcome(|r.bytes|, []))
  }

  function ReadAt(h: Handle, count: nat, pos: uint64): (Handle, Outcome) {
    var g := Flush(h);
    if pos < |g.disk| then
      var n := Min(count, |g.disk| - pos);
      (g, Outcome(n, g.disk[pos..pos + n]))
    else
      (g, Outcome(-EINVAL, []))
  }

  /** Advances the position by the code of an operation that succeeded. */
  function Advance(r: (Handle, Outcome)): (Handle, Outcome) {
    if r.1.code < 0 then r else (r.0.(pos := Wrap64(r.0.pos + r.1.code)), r.1)
  }

  function SeekTo(h: Handle, target: int): (Handle, Outcome) {
    (h.(pos := Wrap64(target)), Outcome(AsInt64(Wrap64(target)), []))
  }

  function Apply(h: Handle, op: Op): (Handle, Outcome) {
    match op
    case Write(bytes) => Advance(WriteAt(h, Req(bytes, h.pos)))
    case Read(count) => Advance(ReadAt(h, count, h.pos))
    case PWrite(bytes, offset) => WriteAt(h, Req(bytes, offset))
    case PRead(count, offset) => ReadAt(h, count, offset)
    case Seek(offset, whence) =>
      if whence == SEEK_SET then SeekTo(h, offset)
      else if whence == SEEK_CUR then SeekTo(h, h.pos + offset)
      else if whence == SEEK_END then SeekTo(h, |h.disk| + offset)
      else (h, Outcome(-EINVAL, []))
    case Fsync => (Flush(h), Outcome(0, []))
  }

  // Handles as objects

  class OpenFile {
    var writeBacklog: seq<Req>
    const disk: DiskFile
    var pos: uint64
    const direct: bool

    /** The repository declares no constructor: a handle starts at any position with nothing queued. */
    constructor (disk: DiskFile, pos: uint64, direct: bool)
      ensures this.disk == disk && View() == Handle(disk.buffer, [], pos, direct)
    {
      this.writeBacklog, this.disk, this.pos, this.direct := [], disk, pos, direct;
    }

    function View(): Handle
      reads this, disk
    {
      Handle(disk.buffer, writeBacklog, pos, direct)
    }

    method FsyncUnlocked() returns (rc: int)
      modifies this`writeBacklog, disk
      ensures View() == Flush(old(View())) && rc == 0
    {
      if direct {
        return 0;
      }
      ghost var file := disk.buffer;
      for i := 0 to |writeBacklog|
        invariant writeBacklog == old(writeBacklog)
        invariant Replay(disk.buffer, writeBacklog[i..]) == Replay(file, writeBacklog)
      {
        var req := writeBacklog[i];
        assert writeBacklog[i..][1..] == writeBacklog[i + 1..];
        var _ := disk.Write(req.pos, req.bytes);
      }
      writeBacklog := [];
      return 0;
    }

    method PWriteUnlocked(buf: Bytes, offset: uint64) returns (n: int)
      modifies this`writeBacklog, disk
      ensures (View(), Outcome(n, [])) == WriteAt(old(View()), Req(buf, offset))
    {
      if direct {
        n := disk.Write(offset, buf);
      } else {
        writeBacklog := writeBacklog + [Req(buf, offset)];
        n := |buf|;
      }
    }

    method PReadUnlocked(buf: array<byte>, offset: uint64) returns (n: int)
      modifies this`writeBacklog, disk, buf
      ensures Received(old(buf[..]), buf[..], n, ReadAt(old(View()), buf.Length, offset).1)
      ensures View() == ReadAt(old(View()), buf.Length, offset).0
    {
      var _ := FsyncUnlocked();
      n := disk.Read(offset, buf);
    }

    method WriteBytes(buf: Bytes) returns (n: int)
      modifies this, disk
      ensures (View(), Outcome(n, [])) == Apply(old(View()), Write(buf))
      ensures n == if direct && old(pos) >= MAX_FILE_SIZE then -EINVAL else |buf|
      ensures direct ==> disk.buffer == Written(old(disk.buffer), Req(buf, old(pos)))
      ensures !direct ==> disk.buffer == old(disk.buffer) && writeBacklog == old(writeBacklog) + [Req(buf, old(pos))]
      ensures pos == if n < 0 then old(pos) else (old(pos) + n) % TWO_64
    {
      n := PWriteUnlocked(buf, pos);
      if n < 0 {
        return;
      }
      pos := Wrap64(pos + n);
    }

    method ReadBytes(buf: array<byte>) returns (n: int)
      modifies this, disk, buf
      ensures Received(old(buf[..]), buf[..], n, Apply(old(View()), Read(buf.Length)).1)
      ensures View() == Apply(old(View()), Read(buf.Length)).0
      ensures disk.buffer == old(Contents(View()))
      ensures old(pos) >= |disk.buffer| ==> n == -EINVAL && buf[..] == old(buf[..]) && pos == old(pos)
      ensures old(pos) < |disk.buffer| ==>
                && n == Min(buf.Length, |disk.buffer| - old(pos))
                && buf[..] == disk.buffer[old(pos)..old(pos) + n] + old(buf[n..])
                && pos == (old(pos) + n) % TWO_64
    {
      n := PReadUnlocked(buf, pos);
      if n < 0 {
        return;
      }
      pos := Wrap64(pos + n);
    }

    method PWriteBytes(buf: Bytes, offset: uint64) returns (n: int)
      modifies this`writeBacklog, disk
      ensures (View(), Outcome(n, [])) == Apply(old(View()), PWrite(buf, offset))
      ensures n == if direct && offset >= MAX_FILE_SIZE then -EINVAL else |buf|
      ensures direct ==> disk.buffer == Written(old(disk.buffer), Req(buf, offset))
      ensures !direct ==> disk.buffer == old(disk.buffer) && writeBacklog == old(writeBacklog) + [Req(buf, offset)]
    {
      n := PWriteUnlocked(buf, offset);
    }

    method PReadBytes(buf: array<byte>, offset: uint64) returns (n: int)
      modifies this`writeBacklog, disk, buf
      ensures Received(old(buf[..]), buf[..], n, Apply(old(View()), PRead(buf.Length, offset)).1)
      ensures View() == Apply(old(View()), PRead(buf.Length, offset)).0
      ensures disk.buffer == old(Contents(View()))
      ensures offset >= |disk.buffer| ==> n == -EINVAL && buf[..] == old(buf[..])
      ensures offset < |disk.buffer| ==>
                && n == Min(buf.Length, |disk.buffer| - offset)
                && buf[..] == disk.buffer[offset..offset + n] + old(buf[n..])
    {
      n := PReadUnlocked(buf, offset);
    }

    method LSeek(offset: uint64, whence: int) returns (n: int)
      modifies this`pos
      ensures (View(), Outcome(n, [])) == Apply(old(View()), Seek(offset, whence))
      ensures whence == SEEK_SET ==> pos == offset
      ensures whence == SEEK_CUR ==> (pos - old(pos) - offset) % TWO_64 == 0
      ensures whence == SEEK_END ==> (pos - |disk.buffer| - offset) % TWO_64 == 0
      ensures whence in {SEEK_SET, SEEK_CUR, SEEK_END} ==> -TWO_63 <= n < TWO_63 && (n - pos) % TWO_64 == 0
      ensures whence !in {SEEK_SET, SEEK_CUR, SEEK_END} ==> n == -EINVAL && pos == old(pos)
    {
      if whence == SEEK_SET {
        pos := offset;
      } else if whence == SEEK_CUR {
        pos := Wrap64(pos + offset);
      } else if whence == SEEK_END {
        pos := Wrap64(disk.GetSize() + offset);
      } else {
        return -EINVAL;
      }
      return AsInt64(pos);
    }

    method FsyncFile() returns (rc: int)
      modifies this`writeBacklog, disk
      ensures (View(), Outcome(rc, [])) == Apply(old(View()), Fsync)
    {
      rc := FsyncUnlocked();
    }
  }

  /** A caller's buffer received exactly the bytes of the outcome, at its start. */
  ghost predicate Received(before: seq<byte>, after: seq<byte>, n: int, o: Outcome) {
    && n == o.code
    && |o.data| <= |before|
    && after == o.data + before[|o.data|..]
  }
}
