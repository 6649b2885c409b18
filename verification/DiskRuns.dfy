/** Properties of whole runs of file operations. */
module DiskRuns {
  import opened Words
  import opened Disk

  // Replaying a list of writes

  lemma {:induction false} ReplayAppend(f: seq<byte>, a: seq<Req>, b: seq<Req>)
    ensures Replay(f, a + b) == Replay(Replay(f, a), b)
    decreases |a|
  {
    if a == [] {
      assert a + b == b;
    } else {
      ReplayAppend(Written(f, a[0]), a[1..], b);
      assert (a + b)[1..] == a[1..] + b;
    }
  }

  lemma ReplayNil(f: seq<byte>)
    ensures Replay(f, []) == f
  {}

  lemma ReplayOne(f: seq<byte>, r: Req)
    ensures Replay(f, [r]) == Written(f, r)
  {
    assert Replay(Written(f, r), [r][1..]) == Written(f, r);
  }

  lemma ReplaySnoc(f: seq<byte>, a: seq<Req>, r: Req)
    ensures Replay(f, a + [r]) == Written(Replay(f, a), r)
  {
    ReplayAppend(f, a, [r]);
    ReplayOne(Replay(f, a), r);
  }

  /** `size` is the largest of the old size and the ends of the valid requests. */
  ghost predicate IsExtent(size: nat, old_: nat, reqs: seq<Req>) {
    && old_ <= size
    && (forall k | 0 <= k < |reqs| && Valid(reqs[k]) :: End(reqs[k]) <= size)
    && (size == old_ || exists k :: 0 <= k < |reqs| && Valid(reqs[k]) && End(reqs[k]) == size)
  }

  /** Request `k` is the last of the list to cover byte `i`. */
  ghost predicate LastToCover(reqs: seq<Req>, k: nat, i: nat) {
    && k < |reqs|
    && Covers(reqs[k], i)
    && (forall m | k < m < |reqs| :: !Covers(reqs[m], i))
  }

  /** A byte no request covers keeps its old value, or is zero if the file had none. */
  lemma {:induction false} Untouched(f: seq<byte>, reqs: seq<Req>, i: nat)
    requires forall k | 0 <= k < |reqs| :: !Covers(reqs[k], i)
    ensures |f| <= |Replay(f, reqs)|
    ensures i < |Replay(f, reqs)| ==> Replay(f, reqs)[i] == if i < |f| then f[i] else 0
    decreases |reqs|
  {
    if reqs != [] {
      assert !Covers(reqs[0], i);
      Untouched(Written(f, reqs[0]), reqs[1..], i);
    }
  }

  /** A covered byte is that of the last request covering it. */
  lemma {:induction false} LastCoverWins(f: seq<byte>, reqs: seq<Req>, k: nat, i: nat)
    requires LastToCover(reqs, k, i)
    ensures i < |Replay(f, reqs)| && Replay(f, reqs)[i] == reqs[k].bytes[i - reqs[k].pos]
    decreases |reqs|
  {
    var g, rest := Written(f, reqs[0]), reqs[1..];
    if k == 0 {
      forall m | 0 <= m < |rest| ensures !Covers(rest[m], i) { assert rest[m] == reqs[m + 1]; }
      Untouched(g, rest, i);
    } else {
      forall m | k - 1 < m < |rest| ensures !Covers(rest[m], i) { assert rest[m] == reqs[m + 1]; }
      assert LastToCover(rest, k - 1, i);
      LastCoverWins(g, rest, k - 1, i);
    }
  }

  /** The size of the file is the largest extent. */
  lemma {:induction false} ExtentOfReplay(f: seq<byte>, reqs: seq<Req>)
    ensures IsExtent(|Replay(f, reqs)|, |f|, reqs)
    decreases |reqs|
  {
    if reqs != [] {
      var init, last := reqs[..|reqs| - 1], reqs[|reqs| - 1];
      assert reqs == init + [last];
      ExtentOfReplay(f, init);
      ReplaySnoc(f, init, last);
      ExtentSnoc(f, init, last);
    }
  }

  lemma ExtentSnoc(f: seq<byte>, init: seq<Req>, last: Req)
    requires IsExtent(|Replay(f, init)|, |f|, init)
    ensures IsExtent(|Written(Replay(f, init), last)|, |f|, init + [last])
  {
    var before, after, reqs := Replay(f, init), Written(Replay(f, init), last), init + [last];
    forall k | 0 <= k < |reqs| && Valid(reqs[k]) ensures End(reqs[k]) <= |after| {
      assert k < |init| ==> reqs[k] == init[k];
    }
    if |after| != |f| {
      if |after| == |before| {
        var k :| 0 <= k < |init| && Valid(init[k]) && End(init[k]) == |before|;
        assert reqs[k] == init[k];
      } else {
        assert reqs[|init|] == last;
      }
    }
  }

  /**
   The last writer wins: after any flush the size is the largest extent, and a
   byte of the file is that of the last request covering it, else the old byte,
   else zero.
   */
  lemma LastWriterWins(f: seq<byte>, reqs: seq<Req>)
    ensures IsExtent(|Replay(f, reqs)|, |f|, reqs)
    ensures forall i: nat, k: nat | i < |Replay(f, reqs)| && LastToCover(reqs, k, i) ::
              Replay(f, reqs)[i] == reqs[k].bytes[i - reqs[k].pos]
    ensures forall i: nat | i < |Replay(f, reqs)| && (forall k | 0 <= k < |reqs| :: !Covers(reqs[k], i)) ::
              Replay(f, reqs)[i] == if i < |f| then f[i] else 0
  {
    ExtentOfReplay(f, reqs);
    forall i: nat, k: nat | i < |Replay(f, reqs)| && LastToCover(reqs, k, i)
      ensures Replay(f, reqs)[i] == reqs[k].bytes[i - reqs[k].pos]
    {
      LastCoverWins(f, reqs, k, i);
    }
    forall i: nat | i < |Replay(f, reqs)| && (forall k | 0 <= k < |reqs| :: !Covers(reqs[k], i))
      ensures Replay(f, reqs)[i] == if i < |f| then f[i] else 0
    {
      Untouched(f, reqs, i);
    }
  }

  // Order of writes

  /** Two requests agree on every byte that both cover. */
  ghost predicate Compatible(x: Req, y: Req) {
    forall i | Covers(x, i) && Covers(y, i) :: x.bytes[i - x.pos] == y.bytes[i - y.pos]
  }

  /** Two writes can be exchanged, on every file, exactly when they agree where they overlap. */
  lemma WritesCommute(x: Req, y: Req)
    ensures (forall f :: Written(Written(f, x), y) == Written(Written(f, y), x)) <==> Compatible(x, y)
  {
    if Compatible(x, y) {
      forall f ensures Written(Written(f, x), y) == Written(Written(f, y), x) {
        CompatibleCommute(f, x, y);
      }
    }
    if forall f :: Written(Written(f, x), y) == Written(Written(f, y), x) {
      forall i | Covers(x, i) && Covers(y, i)
        ensures x.bytes[i - x.pos] == y.bytes[i - y.pos]
      {
        var xy, yx := Written(Written([], x), y), Written(Written([], y), x);
        assert xy[i] == y.bytes[i - y.pos];
        assert yx[i] == x.bytes[i - x.pos];
      }
    }
  }

  /** A byte after two writes: the later one wins. */
  lemma WrittenTwice(f: seq<byte>, x: Req, y: Req)
    ensures var g := Written(Written(f, x), y);
            && (forall i | 0 <= i < |g| ::
                  g[i] == if Covers(y, i) then y.bytes[i - y.pos] else if Covers(x, i) then x.bytes[i - x.pos]
                          else if i < |f| then f[i] else 0)
            && |g| == Max(Max(|f|, if Valid(x) then End(x) else 0), if Valid(y) then End(y) else 0)
  {}

  lemma CompatibleCommute(f: seq<byte>, x: Req, y: Req)
    requires Compatible(x, y)
    ensures Written(Written(f, x), y) == Written(Written(f, y), x)
  {
    WrittenTwice(f, x, y);
    WrittenTwice(f, y, x);
    hide Written, Covers;
  }

  /** `c` is some interleaving of `a` and `b`. */
  ghost predicate Interleaves(a: seq<Req>, b: seq<Req>, c: seq<Req>)
    decreases |c|
  {
    if c == [] then
      a == [] && b == []
    else
      || (a != [] && a[0] == c[0] && Interleaves(a[1..], b, c[1..]))
      || (b != [] && b[0] == c[0] && Interleaves(a, b[1..], c[1..]))
  }

  ghost predicate AllCompatible(a: seq<Req>, b: seq<Req>) {
    forall i, j | 0 <= i < |a| && 0 <= j < |b| :: Compatible(a[i], b[j])
  }

  lemma {:induction false} MovePast(f: seq<byte>, r: Req, a: seq<Req>)
    requires forall i | 0 <= i < |a| :: Compatible(a[i], r)
    ensures Replay(Written(f, r), a) == Written(Replay(f, a), r)
    decreases |a|
  {
    if a != [] {
      CompatibleCommute(f, a[0], r);
      MovePast(Written(f, a[0]), r, a[1..]);
    }
  }

  /**
   Two handles flush one file: the disk is locked for each write, not for each
   flush, so the two backlogs may interleave in any way.  If they agree where
   they overlap, in particular if they are disjoint, every interleaving leaves
   the file that flushing one after the other leaves.
   */
  lemma {:induction false} InterleavedFlushes(f: seq<byte>, a: seq<Req>, b: seq<Req>, c: seq<Req>)
    requires AllCompatible(a, b) && Interleaves(a, b, c)
    ensures Replay(f, c) == Replay(Replay(f, a), b)
    decreases |c|
  {
    if c != [] {
      if a != [] && a[0] == c[0] && Interleaves(a[1..], b, c[1..]) {
        assert AllCompatible(a[1..], b);
        InterleavedFlushes(Written(f, a[0]), a[1..], b, c[1..]);
      } else {
        assert AllCompatible(a, b[1..]) by {
          forall i, j | 0 <= i < |a| && 0 <= j < |b[1..]| ensures Compatible(a[i], b[1..][j]) {
            assert b[1..][j] == b[j + 1];
          }
        }
        InterleavedFlushes(Written(f, b[0]), a, b[1..], c[1..]);
        MovePast(f, b[0], a);
      }
    }
  }

  lemma {:induction false} InterleavesSymmetric(a: seq<Req>, b: seq<Req>, c: seq<Req>)
    requires Interleaves(a, b, c)
    ensures Interleaves(b, a, c)
    decreases |c|
  {
    if c != [] {
      if a != [] && a[0] == c[0] && Interleaves(a[1..], b, c[1..]) {
        InterleavesSymmetric(a[1..], b, c[1..]);
      } else {
        InterleavesSymmetric(a, b[1..], c[1..]);
      }
    }
  }

  /** Flushes of compatible backlogs commute, and so does anything in between. */
  lemma FlushesCommute(f: seq<byte>, a: seq<Req>, b: seq<Req>, c: seq<Req>)
    requires AllCompatible(a, b) && Interleaves(a, b, c)
    ensures Replay(f, c) == Replay(Replay(f, a), b) == Replay(Replay(f, b), a)
  {
    InterleavedFlushes(f, a, b, c);
    InterleavesSymmetric(a, b, c);
    assert AllCompatible(b, a);
    InterleavedFlushes(f, b, a, c);
  }

  // Runs of operations on one handle

  function Run(h: Handle, ops: seq<Op>): Handle
    decreases |ops|
  {
    if ops == [] then h else Run(Apply(h, ops[0]).0, ops[1..])
  }

  function Outcomes(h: Handle, ops: seq<Op>): seq<Outcome>
    decreases |ops|
  {
    if ops == [] then [] else [Apply(h, ops[0]).1] + Outcomes(Apply(h, ops[0]).0, ops[1..])
  }

  lemma {:induction false} RunAppend(h: Handle, a: seq<Op>, b: seq<Op>)
    ensures Run(h, a + b) == Run(Run(h, a), b)
    ensures Outcomes(h, a + b) == Outcomes(h, a) + Outcomes(Run(h, a), b)
    decreases |a|
  {
    hide Apply;
    if a == [] {
      assert a + b == b;
    } else {
      RunAppend(Apply(h, a[0]).0, a[1..], b);
      assert (a + b)[1..] == a[1..] + b;
    }
  }

  // A buffered handle refines a direct one

  /** The direct handle sees the file that flushing the buffered one would give. */
  ghost predicate Related(b: Handle, d: Handle) {
    && !b.direct && d.direct
    && d.disk == Replay(b.disk, b.backlog)
    && b.pos == d.pos
  }

  /** No file outgrows the addresses a write can reach. */
  predicate Sized(h: Handle) { |h.disk| < TWO_64 }

  lemma {:induction false} ReplaySized(f: seq<byte>, reqs: seq<Req>)
    requires |f| < TWO_64
    ensures |Replay(f, reqs)| < TWO_64
    decreases |reqs|
  {
    if reqs != [] {
      ReplaySized(Written(f, reqs[0]), reqs[1..]);
    }
  }

  lemma SizedStep(h: Handle, op: Op)
    requires Sized(h)
    ensures Sized(Apply(h, op).0)
  {
    ReplaySized(h.disk, h.backlog);
  }

  // What one operation does to the file the handle sees, and what it returns

  /** A read of up to `count` bytes at `at`. */
  ghost predicate Reading(f: seq<byte>, at: int, count: nat, o: Outcome) {
    if at >= |f| then o == Outcome(-EINVAL, [])
    else at >= 0 && var n := Min(count, |f| - at); o == Outcome(n, f[at..at + n])
  }

  /** A write at `at`: data, old bytes, and zeros in a gap. */
  ghost predicate Writing(f: seq<byte>, at: int, bytes: Bytes, f': seq<byte>) {
    && |f'| == Max(|f|, at + |bytes|)
    && forall i | 0 <= i < |f'| ::
         f'[i] == if at <= i < at + |bytes| then bytes[i - at] else if i < |f| then f[i] else 0
  }

  /** A write at `at` by the handle: a buffered one accepts any position, and no file changes at the largest one or beyond. */
  ghost predicate Wrote(h: Handle, at: int, bytes: Bytes, f': seq<byte>, o: Outcome) {
    && o == Outcome(if h.direct && at >= MAX_FILE_SIZE then -EINVAL else |bytes|, [])
    && if at >= MAX_FILE_SIZE then f' == Contents(h) else Writing(Contents(h), at, bytes, f')
  }

  /** The position becomes `base + offset` modulo 2^64, and is returned as a signed word. */
  ghost predicate Moved(h: Handle, base: int, offset: int, h': Handle, o: Outcome) {
    && h' == h.(pos := h'.pos) && (h'.pos - base - offset) % TWO_64 == 0
    && -TWO_63 <= o.code < TWO_63 && (o.code - h'.pos) % TWO_64 == 0 && o.data == []
  }

  /** What the caller of an operation is promised, in terms of the file the handle sees and the position. */
  ghost predicate Promised(h: Handle, op: Op, h': Handle, o: Outcome) {
    && h'.direct == h.direct
    && match op
       case Write(bytes) =>
         && Wrote(h, h.pos, bytes, Contents(h'), o)
         && (if o.code < 0 then h'.pos == h.pos else (h'.pos - h.pos - |bytes|) % TWO_64 == 0)
       case PWrite(bytes, offset) =>
         Wrote(h, offset, bytes, Contents(h'), o) && h'.pos == h.pos
       case Read(count) =>
         && Reading(Contents(h), h.pos, count, o) && Contents(h') == Contents(h)
         && h'.pos == h.pos + |o.data|
       case PRead(count, offset) =>
         && Reading(Contents(h), offset, count, o) && Contents(h') == Contents(h)
         && h'.pos == h.pos
       case Seek(offset, whence) =>
         if whence == SEEK_SET then Moved(h, 0, offset, h', o)
         else if whence == SEEK_CUR then Moved(h, h.pos, offset, h', o)
         else if whence == SEEK_END then Moved(h, |h.disk|, offset, h', o)
         else h' == h && o == Outcome(-EINVAL, [])
       case Fsync =>
         h'.disk == Contents(h') == Contents(h) && h'.pos == h.pos && o == Outcome(0, [])
  }

  lemma WriteAtPromised(h: Handle, r: Req)
    ensures var (h', o) := WriteAt(h, r);
            Wrote(h, r.pos, r.bytes, Contents(h'), o) && (o.code < 0 || o.code == |r.bytes|) && h'.direct == h.direct && h'.pos == h.pos
  {
    hide Replay;
    ReplaySnoc(h.disk, h.backlog, r);
  }

  lemma ReadAtPromised(h: Handle, count: nat, at: uint64)
    ensures var (h', o) := ReadAt(h, count, at);
            && Reading(Contents(h), at, count, o) && Contents(h') == Contents(h) && |o.data| <= |Contents(h)|
            && (o.code < 0 ==> o.data == []) && (o.code >= 0 ==> at + |o.data| <= |Contents(h)| && o.code == |o.data|)
            && h'.direct == h.direct && h'.pos == h.pos
  {
    hide Replay;
    ReplayNil(Contents(h));
  }

  lemma SeekPromised(h: Handle, base: int, offset: int)
    ensures var (h', o) := SeekTo(h, base + offset); Moved(h, base, offset, h', o)
  {}

  /** Every operation, on every handle, does what its caller is promised. */
  lemma StepPromised(h: Handle, op: Op)
    requires |Contents(h)| < TWO_64
    ensures var (h', o) := Apply(h, op); Promised(h, op, h', o)
  {
    hide Replay, WriteAt, ReadAt, SeekTo, Wrote, Reading, Moved;
    match op {
      case Write(bytes) =>
        WriteAtPromised(h, Req(bytes, h.pos));
      case PWrite(bytes, offset) =>
        WriteAtPromised(h, Req(bytes, offset));
      case Read(count) =>
        ReadAtPromised(h, count, h.pos);
      case PRead(count, offset) =>
        ReadAtPromised(h, count, offset);
      case Seek(offset, whence) =>
        SeekPromised(h, 0, offset);
        SeekPromised(h, h.pos, offset);
        SeekPromised(h, |h.disk|, offset);
      case Fsync =>
        ReplayNil(Contents(h));
    }
  }

  ghost predicate KeepsPromises(h: Handle, ops: seq<Op>)
    decreases |ops|
  {
    ops == [] ||
    var (h', o) := Apply(h, ops[0]);
    Promised(h, ops[0], h', o) && KeepsPromises(h', ops[1..])
  }

  /** And so does every operation of every run. */
  lemma {:induction false} EveryRunKeepsPromises(h: Handle, ops: seq<Op>)
    requires Sized(h)
    ensures KeepsPromises(h, ops)
    decreases |ops|
  {
    hide Apply, Promised, Contents;
    if ops != [] {
      ContentsSized(h);
      StepPromised(h, ops[0]);
      SizedStep(h, ops[0]);
      EveryRunKeepsPromises(Apply(h, ops[0]).0, ops[1..]);
    }
  }

  lemma ContentsSized(h: Handle)
    requires Sized(h)
    ensures |Contents(h)| < TWO_64
  {
    ReplaySized(h.disk, h.backlog);
  }

  /** After any run `Seek(0, SEEK_CUR)` returns the position and changes nothing. */
  lemma TellAfterRun(h: Handle, ops: seq<Op>)
    ensures var m := Run(h, ops); Apply(m, Seek(0, SEEK_CUR)) == (m, Outcome(AsInt64(m.pos), []))
  {}

  /** Seeking anywhere and then by `y` from there is seeking once, `y` further. */
  lemma SeeksAdd(h: Handle, x: uint64, whence: int, y: uint64)
    requires whence in {SEEK_SET, SEEK_CUR, SEEK_END}
    ensures Apply(Apply(h, Seek(x, whence)).0, Seek(y, SEEK_CUR)) == Apply(h, Seek(Wrap64(x + y), whence))
  {
    var base := if whence == SEEK_SET then 0 else if whence == SEEK_CUR then h.pos else |h.disk|;
    WrapWithin(base + x, y);
    WrapWithin(x + y, base);
    hide Wrap64, AsInt64;
    WrapWord(x);
    WrapWord(Wrap64(x + y));
  }

  lemma WrapWithin(a: int, b: int)
    ensures Wrap64(Wrap64(a) + b) == Wrap64(a + b)
  {}

  lemma WrapWord(x: uint64)
    ensures Wrap64(x) == x
  {}

  /** Some queued write reaches beyond the end of the file on disk. */
  ghost predicate PendingExtends(h: Handle) {
    exists k :: 0 <= k < |h.backlog| && Valid(h.backlog[k]) && End(h.backlog[k]) > |h.disk|
  }

  /** What a caller of the buffered handle must respect for the two to be indistinguishable. */
  ghost predicate Guard(b: Handle, op: Op) {
    match op
    case Write(_) => b.pos < MAX_FILE_SIZE
    case PWrite(_, offset) => offset < MAX_FILE_SIZE
    case Seek(_, whence) => whence == SEEK_END ==> !PendingExtends(b)
    case _ => true
  }

  lemma PendingExtendsSize(h: Handle)
    ensures PendingExtends(h) <==> |Replay(h.disk, h.backlog)| > |h.disk|
    ensures |Replay(h.disk, h.backlog)| >= |h.disk|
  {
    ExtentOfReplay(h.disk, h.backlog);
  }

  lemma SeekDistinguishes(x: uint64, y: uint64, offset: uint64)
    requires x != y
    ensures AsInt64(Wrap64(x + offset)) != AsInt64(Wrap64(y + offset))
  {}

  lemma SeekRefines(b: Handle, d: Handle, offset: uint64, whence: int)
    requires Related(b, d) && Sized(b)
    ensures var op := Seek(offset, whence);
            && (Apply(b, op).1 == Apply(d, op).1 <==> Guard(b, op))
            && (Guard(b, op) ==> Related(Apply(b, op).0, Apply(d, op).0))
  {
    hide Replay;
    PendingExtendsSize(b);
    ReplaySized(b.disk, b.backlog);
    if whence == SEEK_END && PendingExtends(b) {
      SeekDistinguishes(|b.disk|, |d.disk|, offset);
    }
  }

  lemma WriteRefines(b: Handle, d: Handle, r: Req)
    requires Related(b, d)
    ensures WriteAt(b, r).1 == WriteAt(d, r).1 <==> Valid(r)
    ensures Related(WriteAt(b, r).0, WriteAt(d, r).0)
  {
    hide Replay, Written;
    ReplaySnoc(b.disk, b.backlog, r);
  }

  /** One operation returns the same to both callers exactly when it is guarded, and then keeps the relation. */
  lemma StepRefines(b: Handle, d: Handle, op: Op)
    requires Related(b, d) && Sized(b)
    ensures Apply(b, op).1 == Apply(d, op).1 <==> Guard(b, op)
    ensures Guard(b, op) ==> Related(Apply(b, op).0, Apply(d, op).0)
  {
    hide Written, Replay, WriteAt, SeekTo;
    match op {
      case Write(bytes) => WriteRefines(b, d, Req(bytes, b.pos));
      case PWrite(bytes, offset) => WriteRefines(b, d, Req(bytes, offset));
      case Seek(offset, whence) => SeekRefines(b, d, offset, whence);
      case _ => ReplayNil(d.disk);
    }
  }

  /** Every operation of the run meets its guard. */
  ghost predicate Guarded(b: Handle, ops: seq<Op>)
    decreases |ops|
  {
    ops == [] || (Guard(b, ops[0]) && Guarded(Apply(b, ops[0]).0, ops[1..]))
  }

  /**
   Over any run, a buffered handle is indistinguishable from a direct one
   exactly when every operation meets its guard; the relation then still holds
   at the end, so one `fsync` makes the files equal.
   */
  lemma {:induction false} BufferedRefinesDirect(b: Handle, d: Handle, ops: seq<Op>)
    requires Related(b, d) && Sized(b)
    ensures Outcomes(b, ops) == Outcomes(d, ops) <==> Guarded(b, ops)
    ensures Guarded(b, ops) ==>
              && Related(Run(b, ops), Run(d, ops))
              && Flush(Run(b, ops)).disk == Run(d, ops).disk
    decreases |ops|
  {
    if ops != [] {
      StepRefines(b, d, ops[0]);
      SizedStep(b, ops[0]);
      var b', d' := Apply(b, ops[0]).0, Apply(d, ops[0]).0;
      assert Outcomes(b, ops)[0] == Apply(b, ops[0]).1 && Outcomes(d, ops)[0] == Apply(d, ops[0]).1;
      assert Outcomes(b, ops)[1..] == Outcomes(b', ops[1..]) && Outcomes(d, ops)[1..] == Outcomes(d', ops[1..]);
      if Guard(b, ops[0]) {
        BufferedRefinesDirect(b', d', ops[1..]);
      }
    }
  }

  // The two ways in which a fresh buffered handle on an empty file gives itself away

  lemma RunTwo(h: Handle, x: Op, y: Op)
    ensures Outcomes(h, [x, y]) == [Apply(h, x).1, Apply(Apply(h, x).0, y).1]
    ensures Run(h, [x, y]) == Apply(Apply(h, x).0, y).0
    ensures Guarded(h, [x, y]) <==> Guard(h, x) && Guard(Apply(h, x).0, y)
  {
    hide Apply, Guard;
    var h1 := Apply(h, x).0;
    assert [x, y][1..] == [y] && [y][1..] == [];
    assert Outcomes(h1, [y]) == [Apply(h1, y).1] + Outcomes(Apply(h1, y).0, []);
    assert Run(h1, [y]) == Run(Apply(h1, y).0, []);
    assert Guarded(h1, [y]) <==> Guard(h1, y) && Guarded(Apply(h1, y).0, []);
  }

  /** Seeking to the end after a queued write: 0 where a direct handle gives 1. */
  lemma SeekEndDiffers(x: byte)
    ensures var b := Handle([], [], 0, false); var d := Handle([], [], 0, true);
            var ops := [Write([x]), Seek(0, SEEK_END)];
            && Related(b, d) && Sized(b) && !Guarded(b, ops)
            && Outcomes(b, ops) == [Outcome(1, []), Outcome(0, [])]
            && Outcomes(d, ops) == [Outcome(1, []), Outcome(1, [])]
  {
    var b, d := Handle([], [], 0, false), Handle([], [], 0, true);
    RunTwo(b, Write([x]), Seek(0, SEEK_END));
    RunTwo(d, Write([x]), Seek(0, SEEK_END));
    var b1 := Apply(b, Write([x])).0;
    assert b1.backlog == [Req([x], 0)] && PendingExtends(b1) by {
      assert Valid(b1.backlog[0]) && End(b1.backlog[0]) > |b1.disk|;
    }
  }

  /** A write at the largest position: accepted and then lost, where a direct handle refuses it. */
  lemma WriteAtLimitIsLost(x: byte)
    ensures var b := Handle([], [], 0, false); var d := Handle([], [], 0, true);
            var ops := [PWrite([x], MAX_FILE_SIZE), Fsync];
            && Related(b, d) && Sized(b) && !Guarded(b, ops)
            && Outcomes(b, ops) == [Outcome(1, []), Outcome(0, [])]
            && Outcomes(d, ops) == [Outcome(-EINVAL, []), Outcome(0, [])]
            && Run(b, ops).disk == Run(d, ops).disk == [] && Run(b, ops).backlog == []
  {
    var b, d := Handle([], [], 0, false), Handle([], [], 0, true);
    var r := Req([x], MAX_FILE_SIZE);
    RunTwo(b, PWrite([x], MAX_FILE_SIZE), Fsync);
    RunTwo(d, PWrite([x], MAX_FILE_SIZE), Fsync);
    assert Apply(b, PWrite([x], MAX_FILE_SIZE)).0.backlog == [r];
    ReplayOne([], r);
  }

  // What is on disk, and what is still queued

  predicate IsSync(op: Op) { op.Read? || op.PRead? || op.Fsync? }

  /** The write requests an operation issues: at the offset given, or at the position. */
  function Issued(h: Handle, op: Op): seq<Req> {
    match op
    case Write(bytes) => [Req(bytes, h.pos)]
    case PWrite(bytes, offset) => [Req(bytes, offset)]
    case _ => []
  }

  /** The requests issued over a run, in order. */
  function IssuedBy(h: Handle, ops: seq<Op>): seq<Req>
    decreases |ops|
  {
    if ops == [] then [] else Issued(h, ops[0]) + IssuedBy(Apply(h, ops[0]).0, ops[1..])
  }

  /** The number of operations up to and including the last read, pread or fsync. */
  function SyncPoint(ops: seq<Op>): (k: nat)
    ensures k <= |ops|
    decreases |ops|
  {
    if ops == [] then 0
    else if IsSync(ops[|ops| - 1]) then |ops|
    else SyncPoint(ops[..|ops| - 1])
  }

  lemma {:induction false} IssuedAppend(h: Handle, a: seq<Op>, b: seq<Op>)
    ensures IssuedBy(h, a + b) == IssuedBy(h, a) + IssuedBy(Run(h, a), b)
    decreases |a|
  {
    hide Apply;
    if a == [] {
      assert a + b == b;
    } else {
      IssuedAppend(Apply(h, a[0]).0, a[1..], b);
      assert (a + b)[1..] == a[1..] + b;
    }
  }

  lemma RunOne(h: Handle, op: Op)
    ensures Run(h, [op]) == Apply(h, op).0
    ensures IssuedBy(h, [op]) == Issued(h, op)
  {
    hide Apply;
    assert [op][1..] == [];
  }

  /** One operation of a buffered handle either flushes, or only queues what it issues. */
  lemma StepQueues(h: Handle, op: Op)
    requires !h.direct
    ensures !Apply(h, op).0.direct
    ensures IsSync(op) ==> Apply(h, op).0.disk == Replay(h.disk, h.backlog) && Apply(h, op).0.backlog == []
    ensures !IsSync(op) ==> Apply(h, op).0.disk == h.disk && Apply(h, op).0.backlog == h.backlog + Issued(h, op)
  {
    hide Replay;
  }

  /** The split of a run's writes into those on disk and those queued. */
  ghost predicate Durable(h: Handle, ops: seq<Op>, k: nat)
    requires k <= |ops|
  {
    var r := Run(h, ops);
    && !r.direct
    && r.disk == Replay(h.disk, IssuedBy(h, ops[..k]))
    && r.backlog == IssuedBy(Run(h, ops[..k]), ops[k..])
    && IssuedBy(h, ops) == IssuedBy(h, ops[..k]) + r.backlog
  }

  lemma DurableSync(h: Handle, init: seq<Op>, last: Op, j: nat)
    requires j <= |init| && Durable(h, init, j) && IsSync(last)
    ensures Durable(h, init + [last], |init| + 1)
  {
    hide Apply, Issued, Replay;
    var r, ops := Run(h, init), init + [last];
    RunAppend(h, init, [last]);
    RunOne(r, last);
    StepQueues(r, last);
    IssuedAppend(h, init, [last]);
    SyncIssuesNothing(r, last);
    ReplayAppend(h.disk, IssuedBy(h, init[..j]), r.backlog);
    assert ops[..|ops|] == ops && ops[|ops|..] == [];
    var all := IssuedBy(h, init);
    assert all + [] == all;
  }

  lemma DurableQueue(h: Handle, init: seq<Op>, last: Op, k: nat)
    requires k <= |init| && Durable(h, init, k) && !IsSync(last)
    ensures Durable(h, init + [last], k)
  {
    hide Apply, Issued, Replay;
    var r, ops := Run(h, init), init + [last];
    RunAppend(h, init, [last]);
    RunOne(r, last);
    StepQueues(r, last);
    IssuedAppend(h, init, [last]);
    assert init == init[..k] + init[k..];
    RunAppend(h, init[..k], init[k..]);
    IssuedAppend(Run(h, init[..k]), init[k..], [last]);
    assert ops[..k] == init[..k] && ops[k..] == init[k..] + [last];
  }

  /**
   Prefix durability.  In every state a buffered handle reaches, the file on
   disk is the initial file with exactly the writes issued before the last
   read, pread or fsync applied in order, and the backlog is exactly the
   writes issued since, in order: none is lost, repeated or exchanged.
   */
  lemma {:induction false} PrefixDurability(h: Handle, ops: seq<Op>)
    requires !h.direct && h.backlog == []
    ensures Durable(h, ops, SyncPoint(ops))
    decreases |ops|
  {
    if ops == [] {
      ReplayNil(h.disk);
    } else {
      var init, last := ops[..|ops| - 1], ops[|ops| - 1];
      assert ops == init + [last];
      PrefixDurability(h, init);
      if IsSync(last) {
        DurableSync(h, init, last, SyncPoint(init));
      } else {
        DurableQueue(h, init, last, SyncPoint(init));
      }
    }
  }

  lemma SyncIssuesNothing(h: Handle, op: Op)
    requires IsSync(op)
    ensures Issued(h, op) == []
  {}

  /** So the disk always holds a state the direct handle went through: the one at the last sync. */
  lemma DiskIsAnEarlierDirectFile(b: Handle, d: Handle, ops: seq<Op>)
    requires Related(b, d) && Sized(b) && b.backlog == []
    requires Guarded(b, ops[..SyncPoint(ops)])
    ensures Run(b, ops).disk == Run(d, ops[..SyncPoint(ops)]).disk
  {
    hide Apply, Issued, Replay, Guard;
    var synced := ops[..SyncPoint(ops)];
    BufferedRefinesDirect(b, d, synced);
    PrefixDurability(b, ops);
    PrefixDurability(b, synced);
    SyncPointIdempotent(ops);
    assert synced[..|synced|] == synced && synced[|synced|..] == [];
    ReplayNil(Run(b, synced).disk);
  }

  lemma {:induction false} SyncPointIdempotent(ops: seq<Op>)
    ensures SyncPoint(ops[..SyncPoint(ops)]) == SyncPoint(ops)
    decreases |ops|
  {
    if ops != [] {
      if IsSync(ops[|ops| - 1]) {
        assert ops[..|ops|] == ops;
      } else {
        SyncPointIdempotent(ops[..|ops| - 1]);
        assert ops[..|ops| - 1][..SyncPoint(ops)] == ops[..SyncPoint(ops)];
      }
    }
  }

  // Writing a file in chunks and reading it back

  function Concat(chunks: seq<seq<byte>>): seq<byte>
    decreases |chunks|
  {
    if chunks == [] then [] else chunks[0] + Concat(chunks[1..])
  }

  function Sum(sizes: seq<nat>): nat
    decreases |sizes|
  {
    if sizes == [] then 0 else sizes[0] + Sum(sizes[1..])
  }

  function Writes(chunks: seq<Bytes>): (ops: seq<Op>)
    ensures |ops| == |chunks|
    decreases |chunks|
  {
    if chunks == [] then [] else [Write(chunks[0])] + Writes(chunks[1..])
  }

  function Reads(sizes: seq<nat>): (ops: seq<Op>)
    ensures |ops| == |sizes|
    decreases |sizes|
  {
    if sizes == [] then [] else [Read(sizes[0])] + Reads(sizes[1..])
  }

  /** The bytes the caller received over a run. */
  function DataOf(os: seq<Outcome>): seq<byte>
    decreases |os|
  {
    if os == [] then [] else os[0].data + DataOf(os[1..])
  }

  /** Every chunk starts below the largest position a write may have. */
  predicate Fits(start: nat, chunks: seq<seq<byte>>)
    decreases |chunks|
  {
    chunks == [] || (start < MAX_FILE_SIZE && Fits(start + |chunks[0]|, chunks[1..]))
  }

  lemma AppendWrite(h: Handle, bytes: Bytes)
    requires h.pos == |Contents(h)| < MAX_FILE_SIZE
    ensures var r := Apply(h, Write(bytes));
            && Contents(r.0) == Contents(h) + bytes
            && r.0.pos == |Contents(r.0)|
            && r.0.direct == h.direct
            && r.1 == Outcome(|bytes|, [])
  {
    hide Replay;
    var req := Req(bytes, h.pos);
    ReplaySnoc(h.disk, h.backlog, req);
    assert Written(Contents(h), req) == Contents(h) + bytes;
  }

  lemma {:induction false} WriteChunks(h: Handle, chunks: seq<Bytes>)
    requires h.pos == |Contents(h)| && Fits(h.pos, chunks)
    ensures var r := Run(h, Writes(chunks));
            && Contents(r) == Contents(h) + Concat(chunks)
            && r.pos == |Contents(r)|
            && r.direct == h.direct
    decreases |chunks|
  {
    hide Apply, Contents;
    if chunks != [] {
      AppendWrite(h, chunks[0]);
      WriteChunks(Apply(h, Write(chunks[0])).0, chunks[1..]);
      assert Writes(chunks)[1..] == Writes(chunks[1..]);
    }
  }

  /** A read returns the bytes at the position and moves it past them, or -EINVAL at or past the end, wherever it is. */
  lemma ReadStep(h: Handle, count: nat)
    requires |Contents(h)| < TWO_64
    ensures var r := Apply(h, Read(count)); var n := Min(count, |Contents(h)| - h.pos);
            && Contents(r.0) == Contents(h)
            && if h.pos < |Contents(h)| then r.0.pos == h.pos + n && r.1 == Outcome(n, Contents(h)[h.pos..h.pos + n])
               else r.0.pos == h.pos && r.1 == Outcome(-EINVAL, [])
  {
    StepPromised(h, Read(count));
  }

  lemma {:induction false} ReadChunks(h: Handle, sizes: seq<nat>)
    requires h.pos <= |Contents(h)| < TWO_64
    ensures var r := Run(h, Reads(sizes)); var n := Min(Sum(sizes), |Contents(h)| - h.pos);
            && Contents(r) == Contents(h)
            && r.pos == h.pos + n
            && DataOf(Outcomes(h, Reads(sizes))) == Contents(h)[h.pos..h.pos + n]
    decreases |sizes|
  {
    hide Apply, Contents;
    if sizes != [] {
      ReadStep(h, sizes[0]);
      var r := Apply(h, Read(sizes[0]));
      assert Contents(h)[h.pos..h.pos] == [];
      ReadChunks(r.0, sizes[1..]);
      assert Reads(sizes)[1..] == Reads(sizes[1..]);
      assert Outcomes(h, Reads(sizes))[1..] == Outcomes(r.0, Reads(sizes[1..]));
    }
  }

  /**
   Chunks written to an empty file, buffered or direct, and read back from the
   start in pieces of any sizes give exactly a prefix of what was written; the
   position is the number of bytes read.
   */
  lemma ChunkRoundTrip(h: Handle, chunks: seq<Bytes>, sizes: seq<nat>)
    requires Contents(h) == [] && h.pos == 0 && Fits(0, chunks)
    ensures var w := Run(h, Writes(chunks)); var s := Apply(w, Seek(0, SEEK_SET)).0;
            var n := Min(Sum(sizes), |Concat(chunks)|);
            && DataOf(Outcomes(s, Reads(sizes))) == Concat(chunks)[..n]
            && Run(s, Reads(sizes)).pos == n
  {
    hide Replay;
    WriteChunks(h, chunks);
    var w := Run(h, Writes(chunks));
    assert Contents(w) == Concat(chunks);
    var s := Apply(w, Seek(0, SEEK_SET)).0;
    assert Contents(s) == Contents(w) && s.pos == 0;
    ReadChunks(s, sizes);
  }
}
