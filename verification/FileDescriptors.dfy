/**
 The table of simulated file descriptors.  Fresh descriptors are numbered by
 the size of the table and closed ones wait in a free list; looking up a
 descriptor inserts a null entry when there was none.
 */
module FileDescriptors {
  import opened Optional

  type int32 = x: int | -0x8000_0000 <= x < 0x8000_0000

  const SIMULATED: int32 := 0x4000_0000
  const CAPACITY: int32 := 0x3fff_ffff
  const EBADFD: int32 := 77

  /** Bit 30 of a 32-bit integer in two's complement. */
  predicate IsSimulated(fd: int32) { (fd / SIMULATED) % 2 == 1 }

  /** `None` is a null pointer. */
  datatype Table<T> = Table(entries: map<int32, Option<T>>, unused: seq<int32>)

  /** `AssertFails`: one of the function's assertions does not hold. */
  datatype Outcome = Done(code: int32) | AssertFails

  predicate Live<T>(t: Table<T>, fd: int32) { fd in t.entries && t.entries[fd].Some? }

  function Get<T>(t: Table<T>, fd: int32): (Table<T>, Option<T>) {
    if fd in t.entries then (t, t.entries[fd]) else (t.(entries := t.entries[fd := None]), None)
  }

  function Close<T>(t: Table<T>, fd: int32): (Table<T>, Outcome) {
    if !Live(t, fd) then (t, Done(-EBADFD))
    else if !IsSimulated(fd) || fd < 0 then (t, AssertFails)
    else (Table(t.entries - {fd}, t.unused + [fd]), Done(0))
  }

  /** A descriptor is taken into use if the assertions about it hold. */
  function Use<T>(t: Table<T>, fd: int32, fildes: T): (Table<T>, Outcome) {
    if fd < 0 || !IsSimulated(fd) || Live(t, fd) then (t, AssertFails)
    else (t.(entries := t.entries[fd := Some(fildes)]), Done(fd))
  }

  function Insert<T>(t: Table<T>, fildes: T): (Table<T>, Outcome) {
    if t.unused != [] then
      var n := |t.unused| - 1;
      Use(t.(unused := t.unused[..n]), t.unused[n], fildes)
    else if CAPACITY <= |t.entries| then
      (t, Done(-1))
    else
      Use(t, |t.entries| + SIMULATED, fildes)
  }

  class FileDescriptorTable<T> {
    var entries: map<int32, Option<T>>
    var unused: seq<int32>

    function View(): Table<T>
      reads this
    {
      Table(entries, unused)
    }

    constructor ()
      ensures View() == Table(map[], [])
    {
      entries, unused := map[], [];
    }

    method GetDescriptor(fd: int32) returns (fildes: Option<T>)
      modifies this
      ensures (View(), fildes) == Get(old(View()), fd)
    {
      if fd !in entries {
        entries := entries[fd := None];
      }
      return entries[fd];
    }

    method CloseDescriptor(fd: int32) returns (o: Outcome)
      modifies this
      ensures (View(), o) == Close(old(View()), fd)
    {
      if fd !in entries || entries[fd].None? {
        return Done(-EBADFD);
      }
      if !IsSimulated(fd) || !(0 <= fd) {
        return AssertFails;
      }
      entries := entries - {fd};
      unused := unused + [fd];
      return Done(0);
    }

    method InsertDescriptor(fildes: T) returns (o: Outcome)
      modifies this
      ensures o != AssertFails ==> (View(), o) == Insert(old(View()), fildes)
      ensures o == AssertFails <==> Insert(old(View()), fildes).1 == AssertFails
    {
      var fd: int32 := -1;
      if |unused| > 0 {
        fd := unused[|unused| - 1];
        unused := unused[..|unused| - 1];
      } else {
        if CAPACITY <= |entries| {
          return Done(-1);
        }
        fd := |entries|;
        // the size is below bit 30, so setting that bit adds it
        assert !IsSimulated(fd);
        fd := fd + SIMULATED;
      }
      if !(0 <= fd) || !IsSimulated(fd) {
        return AssertFails;
      }
      if fd in entries && entries[fd].Some? {
        return AssertFails;
      }
      entries := entries[fd := Some(fildes)];
      return Done(fd);
    }
  }

  // The descriptors handed out

  /** The `k`-th fresh descriptor. */
  function Id(k: int): int32
    requires 0 <= k < CAPACITY
  {
    SIMULATED + k
  }

  predicate HandedOut(n: nat, fd: int32) { SIMULATED <= fd < SIMULATED + n }

  predicate NoDuplicates(s: seq<int32>) {
    forall i, j | 0 <= i < j < |s| :: s[i] != s[j]
  }

  /** Of the `n` descriptors handed out, each is either live or in the free list; nothing else is known. */
  ghost predicate Partition<T>(t: Table<T>, n: nat) {
    && n <= CAPACITY
    && NoDuplicates(t.unused)
    && (forall fd | fd in t.unused :: HandedOut(n, fd))
    && (forall fd | fd in t.entries :: HandedOut(n, fd))
    && (forall fd | HandedOut(n, fd) :: fd in t.unused <==> !Live(t, fd))
  }

  /** The live descriptors and what they stand for. */
  function LiveMap<T>(t: Table<T>): map<int32, T> {
    map fd | fd in t.entries && t.entries[fd].Some? :: t.entries[fd].value
  }

  function Ids(n: nat): (ids: set<int32>)
    requires n <= CAPACITY
    ensures forall fd: int32 :: fd in ids <==> HandedOut(n, fd)
    ensures |ids| == n
  {
    if n == 0 then {} else Ids(n - 1) + {Id(n - 1)}
  }

  function Elements(s: seq<int32>): set<int32> { set fd | fd in s }

  lemma {:induction false} ElementsSize(s: seq<int32>)
    requires NoDuplicates(s)
    ensures |Elements(s)| == |s|
  {
    if s != [] {
      var init, last := s[..|s| - 1], s[|s| - 1];
      ElementsSize(init);
      assert last !in Elements(init);
      assert Elements(s) == Elements(init) + {last};
    }
  }

  lemma LiveCount<T>(t: Table<T>, n: nat)
    requires Partition(t, n)
    ensures |LiveMap(t)| + |t.unused| == n
    ensures t.unused == [] ==> |t.entries| == n
  {
    ElementsSize(t.unused);
    var live := LiveMap(t).Keys;
    assert live !! Elements(t.unused);
    assert live + Elements(t.unused) == Ids(n);
    assert |LiveMap(t)| == |live|;
    if t.unused == [] {
      assert t.entries.Keys == Ids(n);
      assert |t.entries| == |t.entries.Keys|;
    }
  }

  /** Looking up a descriptor that was handed out: the object if it is live, else null. */
  lemma GetPartition<T>(t: Table<T>, n: nat, fd: int32)
    requires Partition(t, n) && HandedOut(n, fd)
    ensures Partition(Get(t, fd).0, n)
    ensures LiveMap(Get(t, fd).0) == LiveMap(t)
    ensures Get(t, fd).1 == if fd in LiveMap(t) then Some(LiveMap(t)[fd]) else None
  {}

  /** Closing any descriptor: it is no longer live, or it was not and the call fails. */
  lemma ClosePartition<T>(t: Table<T>, n: nat, fd: int32)
    requires Partition(t, n)
    ensures Partition(Close(t, fd).0, n)
    ensures LiveMap(Close(t, fd).0) == LiveMap(t) - {fd}
    ensures Close(t, fd).1 == if fd in LiveMap(t) then Done(0) else Done(-EBADFD)
  {}

  /** A successful insertion: a descriptor that was not live now stands for the object. */
  ghost predicate Taken<T>(t: Table<T>, fildes: T, t': Table<T>, o: Outcome) {
    o.Done? && 0 <= o.code && o.code !in LiveMap(t) && LiveMap(t') == LiveMap(t)[o.code := fildes]
  }

  lemma ReusePartition<T>(t: Table<T>, n: nat, fildes: T)
    requires Partition(t, n) && t.unused != []
    ensures var (t', o) := Insert(t, fildes);
            Taken(t, fildes, t', o) && Partition(t', n) && HandedOut(n, o.code)
  {
    var m := |t.unused| - 1;
    assert t.unused == t.unused[..m] + [t.unused[m]];
    assert t.unused[m] in t.unused;
  }

  lemma FreshPartition<T>(t: Table<T>, n: nat, fildes: T)
    requires Partition(t, n) && t.unused == [] && n < CAPACITY
    ensures var (t', o) := Insert(t, fildes);
            Taken(t, fildes, t', o) && Partition(t', n + 1) && o.code == Id(n)
  {
    LiveCount(t, n);
  }

  /** Inserting right after closing a descriptor takes it again: only what it stands for has changed. */
  lemma ClosedIsReused<T>(t: Table<T>, n: nat, fd: int32, fildes: T)
    requires Partition(t, n) && fd in LiveMap(t)
    ensures Insert(Close(t, fd).0, fildes) == (Table(t.entries[fd := Some(fildes)], t.unused), Done(fd))
  {
    var c := Close(t, fd).0;
    assert c.unused[..|c.unused| - 1] == t.unused;
    assert c.entries[fd := Some(fildes)] == t.entries[fd := Some(fildes)];
  }

  // Whole runs

  datatype Op<T> = InsertOp(fildes: T) | CloseOp(fd: int32) | GetOp(fd: int32)

  datatype Reply<T> = Code(outcome: Outcome) | Object(fildes: Option<T>)

  function Exec<T>(t: Table<T>, op: Op<T>): (Table<T>, Reply<T>) {
    match op
    case InsertOp(f) => var (t', o) := Insert(t, f); (t', Code(o))
    case CloseOp(fd) => var (t', o) := Close(t, fd); (t', Code(o))
    case GetOp(fd) => var (t', f) := Get(t, fd); (t', Object(f))
  }

  /** What a caller is promised, in terms of the live descriptors alone. */
  ghost predicate Promised<T>(live: map<int32, T>, op: Op<T>, reply: Reply<T>, live': map<int32, T>) {
    match op
    case InsertOp(f) =>
      && reply.Code? && reply.outcome.Done?
      && var fd := reply.outcome.code;
         if |live| == CAPACITY then fd == -1 && live' == live
         else 0 <= fd && fd !in live && live' == live[fd := f]
    case CloseOp(fd) =>
      && reply == Code(Done(if fd in live then 0 else -EBADFD))
      && live' == live - {fd}
    case GetOp(fd) =>
      && reply == Object(if fd in live then Some(live[fd]) else None)
      && live' == live
  }

  /** The descriptors that insertions have returned so far. */
  function Known<T>(known: set<int32>, reply: Reply<T>, op: Op<T>): set<int32> {
    if op.InsertOp? && reply.Code? && reply.outcome.Done? && 0 <= reply.outcome.code
    then known + {reply.outcome.code} else known
  }

  /** Look-ups ask only for descriptors that were handed out, open or closed. */
  ghost predicate AsksKnown<T>(t: Table<T>, known: set<int32>, ops: seq<Op<T>>)
    decreases |ops|
  {
    if ops == [] then true
    else
      var (t', reply) := Exec(t, ops[0]);
      (ops[0].GetOp? ==> ops[0].fd in known) && AsksKnown(t', Known(known, reply, ops[0]), ops[1..])
  }

  ghost predicate KeepsPromises<T>(t: Table<T>, ops: seq<Op<T>>)
    decreases |ops|
  {
    if ops == [] then true
    else
      var (t', reply) := Exec(t, ops[0]);
      Promised(LiveMap(t), ops[0], reply, LiveMap(t')) && KeepsPromises(t', ops[1..])
  }

  /** Insertion hands out a fresh descriptor only when the free list is empty. */
  function HandedAfter<T>(t: Table<T>, n: nat, op: Op<T>): nat {
    if op.InsertOp? && t.unused == [] && n < CAPACITY then n + 1 else n
  }

  lemma InsertKept<T>(t: Table<T>, n: nat, fildes: T)
    requires Partition(t, n)
    ensures var (t', o) := Insert(t, fildes); var n' := HandedAfter(t, n, InsertOp(fildes));
            && Partition(t', n')
            && if |LiveMap(t)| == CAPACITY then o == Done(-1) && t' == t
               else Taken(t, fildes, t', o) && HandedOut(n', o.code) && (n' > n ==> o.code == Id(n))
  {
    hide Insert, LiveMap, Taken;
    LiveCount(t, n);
    if t.unused != [] {
      ReusePartition(t, n, fildes);
    } else if n < CAPACITY {
      FreshPartition(t, n, fildes);
    } else {
      InsertFull(t, fildes);
    }
  }

  lemma InsertPromised<T>(t: Table<T>, n: nat, fildes: T)
    requires Partition(t, n)
    ensures var op := InsertOp(fildes); var (t', reply) := Exec(t, op); Promised(LiveMap(t), op, reply, LiveMap(t'))
  {
    InsertKept(t, n, fildes);
    hide Partition, Insert, LiveMap;
  }

  lemma IdsWith(n: nat, fd: int32)
    requires n <= CAPACITY
    ensures HandedOut(n, fd) ==> Ids(n) + {fd} == Ids(n)
    ensures n < CAPACITY && fd == Id(n) ==> Ids(n) + {fd} == Ids(n + 1)
  {}

  /** How `Known` grows with the descriptors handed out, given the code of an insertion. */
  lemma KnownAfter<T>(n: nat, n': nat, op: Op<T>, o: Outcome)
    requires op.InsertOp? && o.Done? && n <= n' <= CAPACITY
    requires if n' == n then o.code < 0 || HandedOut(n, o.code) else n' == n + 1 && o.code == Id(n)
    ensures Known(Ids(n), Code(o), op) == Ids(n')
  {
    hide Ids;
    IdsWith(n, o.code);
  }

  lemma InsertKnown<T>(t: Table<T>, n: nat, fildes: T)
    requires Partition(t, n)
    ensures var op := InsertOp(fildes); var n' := HandedAfter(t, n, op);
            n' <= CAPACITY && Known(Ids(n), Code(Insert(t, fildes).1), op) == Ids(n')
  {
    PartitionBound(t, n);
    LiveCount(t, n);
    InsertKept(t, n, fildes);
    hide Partition, Insert, LiveMap, Ids, Known;
    KnownAfter(n, HandedAfter(t, n, InsertOp(fildes)), InsertOp(fildes), Insert(t, fildes).1);
  }

  lemma ExecPartition<T>(t: Table<T>, n: nat, known: set<int32>, op: Op<T>)
    requires Partition(t, n) && known == Ids(n)
    requires op.GetOp? ==> op.fd in known
    ensures var (t', reply) := Exec(t, op); var n' := HandedAfter(t, n, op);
            && Promised(LiveMap(t), op, reply, LiveMap(t'))
            && Partition(t', n')
            && n' <= CAPACITY && Known(known, reply, op) == Ids(n')
  {
    PartitionBound(t, n);
    match op {
      case InsertOp(f) =>
        hide Partition, Insert, LiveMap, Promised, Known;
        InsertKept(t, n, f);
        InsertPromised(t, n, f);
        InsertKnown(t, n, f);
      case CloseOp(fd) =>
        hide Partition, LiveMap, Close;
        ClosePartition(t, n, fd);
      case GetOp(fd) =>
        hide Partition, LiveMap, Get;
        GetPartition(t, n, fd);
    }
  }

  lemma PartitionBound<T>(t: Table<T>, n: nat)
    requires Partition(t, n)
    ensures n <= CAPACITY
  {}

  lemma InsertFull<T>(t: Table<T>, fildes: T)
    requires t.unused == [] && |t.entries| == CAPACITY
    ensures Insert(t, fildes) == (t, Done(-1))
  {}

  /**
   Over every run whose look-ups ask only for descriptors handed out: an
   insertion never returns a live descriptor and fails exactly when `CAPACITY`
   are live, a look-up gives the object inserted until it is closed, a second
   close is refused, and no assertion ever fails.
   */
  lemma {:induction false} AllocatorKeepsPromises<T>(t: Table<T>, n: nat, known: set<int32>, ops: seq<Op<T>>)
    requires Partition(t, n) && known == Ids(n) && AsksKnown(t, known, ops)
    ensures KeepsPromises(t, ops)
    decreases |ops|
  {
    hide Partition, Exec, Promised, Known;
    if ops != [] {
      ExecPartition(t, n, known, ops[0]);
      var (t', reply) := Exec(t, ops[0]);
      AllocatorKeepsPromises(t', HandedAfter(t, n, ops[0]), Known(known, reply, ops[0]), ops[1..]);
    }
  }

  /** The table after a run. */
  function Final<T>(t: Table<T>, ops: seq<Op<T>>): Table<T>
    decreases |ops|
  {
    if ops == [] then t else Final(Exec(t, ops[0]).0, ops[1..])
  }

  /** How many descriptors were handed out by the end of a run. */
  function HandedBy<T>(t: Table<T>, n: nat, ops: seq<Op<T>>): nat
    decreases |ops|
  {
    if ops == [] then n else HandedBy(Exec(t, ops[0]).0, HandedAfter(t, n, ops[0]), ops[1..])
  }

  /**
   After every such run the descriptors handed out are partitioned into live
   and free ones, and the free list has no duplicates.
   */
  lemma {:induction false} RunKeepsPartition<T>(t: Table<T>, n: nat, known: set<int32>, ops: seq<Op<T>>)
    requires Partition(t, n) && known == Ids(n) && AsksKnown(t, known, ops)
    ensures Partition(Final(t, ops), HandedBy(t, n, ops))
    decreases |ops|
  {
    hide Partition, Exec, Promised, Known, HandedAfter;
    if ops != [] {
      ExecPartition(t, n, known, ops[0]);
      var (t', reply) := Exec(t, ops[0]);
      RunKeepsPartition(t', HandedAfter(t, n, ops[0]), Known(known, reply, ops[0]), ops[1..]);
    }
  }

  lemma FromEmpty<T>(ops: seq<Op<T>>)
    requires AsksKnown(Table(map[], []), {}, ops)
    ensures KeepsPromises(Table(map[], []), ops)
    ensures Partition(Final(Table(map[], []), ops), HandedBy(Table(map[], []), 0, ops))
  {
    var t: Table<T> := Table(map[], []);
    assert Partition(t, 0);
    AllocatorKeepsPromises(t, 0, {}, ops);
    RunKeepsPartition(t, 0, {}, ops);
  }

  // Look-ups of descriptors that were never handed out

  /** Every descriptor the table or the free list mentions. */
  function Mentioned<T>(t: Table<T>): set<int32> { t.entries.Keys + Elements(t.unused) }

  /** A descriptor of the fresh range: its number. */
  predicate InRange(fd: int32) { SIMULATED <= fd < SIMULATED + CAPACITY }

  /** Weaker than `Partition`: no descriptor mentioned is ahead of the next fresh one, and the free list is sound. */
  ghost predicate Sound<T>(t: Table<T>) {
    && NoDuplicates(t.unused)
    && (forall fd | fd in t.unused :: InRange(fd) && !Live(t, fd))
    && (forall fd | fd in t.entries && t.entries[fd].Some? :: InRange(fd))
    && (forall fd | fd in Mentioned(t) && InRange(fd) :: fd < SIMULATED + |Mentioned(t)|)
  }

  lemma PartitionIsSound<T>(t: Table<T>, n: nat)
    requires Partition(t, n)
    ensures Sound(t) && |Mentioned(t)| == n
  {
    AllMentioned(t, n);
    hide Mentioned;
  }

  /** A partitioned table mentions all descriptors handed out. */
  lemma AllMentioned<T>(t: Table<T>, n: nat)
    requires Partition(t, n)
    ensures Mentioned(t) == Ids(n)
  {}

  /** A look-up is harmful if it mentions a fresh descriptor ahead of the next one. */
  predicate Harmful<T>(t: Table<T>, fd: int32) {
    SIMULATED + |Mentioned(t)| < fd < SIMULATED + CAPACITY
  }

  function InsertMany<T>(t: Table<T>, fildes: T, n: nat): (Table<T>, Outcome)
    decreases n
  {
    var (t', o) := Insert(t, fildes);
    if n == 0 || o.AssertFails? then (t', o) else InsertMany(t', fildes, n - 1)
  }

  lemma MentionedSize<T>(t: Table<T>)
    requires t.unused == []
    ensures Mentioned(t) == t.entries.Keys && |Mentioned(t)| == |t.entries|
  {
    assert Elements(t.unused) == {};
    assert |t.entries| == |t.entries.Keys|;
  }

  /** Taking a descriptor back from the free list: nothing new is mentioned. */
  lemma ReuseMentioned<T>(t: Table<T>, fildes: T)
    requires t.unused != [] && NoDuplicates(t.unused)
    requires forall x | x in t.unused :: InRange(x) && !Live(t, x)
    ensures var (t', o) := Insert(t, fildes); var last := t.unused[|t.unused| - 1];
            && o == Done(last)
            && t' == Table(t.entries[last := Some(fildes)], t.unused[..|t.unused| - 1])
            && Mentioned(t') == Mentioned(t)
            && last !in t'.unused && NoDuplicates(t'.unused)
            && (forall x | x in t'.unused :: x in t.unused)
  {
    var t' := Insert(t, fildes).0;
    var m := |t.unused| - 1;
    assert t.unused == t.unused[..m] + [t.unused[m]] && t.unused[m] in t.unused;
    assert Mentioned(t') == Mentioned(t);
  }

  /** Handing out a fresh descriptor: only that one is new. */
  lemma FreshMentioned<T>(t: Table<T>, fildes: T)
    requires t.unused == [] && |t.entries| < CAPACITY && !Live(t, Id(|t.entries|))
    ensures var (t', o) := Insert(t, fildes); var fd := Id(|t.entries|);
            && o == Done(fd)
            && t' == Table(t.entries[fd := Some(fildes)], [])
            && Mentioned(t') == Mentioned(t) + {fd}
  {
    var t' := Insert(t, fildes).0;
    assert Mentioned(t') == Mentioned(t) + {Id(|t.entries|)};
  }

  lemma ReuseSound<T>(t: Table<T>, fildes: T)
    requires Sound(t) && t.unused != []
    ensures Insert(t, fildes).1.Done? && Sound(Insert(t, fildes).0)
  {
    hide Insert, Mentioned;
    ReuseMentioned(t, fildes);
  }

  lemma FreshSound<T>(t: Table<T>, fildes: T)
    requires Sound(t) && t.unused == [] && |t.entries| < CAPACITY
    ensures Insert(t, fildes).1.Done? && Sound(Insert(t, fildes).0)
  {
    MentionedSize(t);
    hide Insert, Mentioned;
    FreshMentioned(t, fildes);
  }

  /** Insertion into a sound table meets its assertions and leaves the table sound. */
  lemma InsertSound<T>(t: Table<T>, fildes: T)
    requires Sound(t)
    ensures Insert(t, fildes).1.Done? && Sound(Insert(t, fildes).0)
  {
    if t.unused != [] {
      ReuseSound(t, fildes);
    } else if |t.entries| < CAPACITY {
      FreshSound(t, fildes);
    } else {
      hide Sound;
    }
  }

  lemma {:induction false} InsertManySound<T>(t: Table<T>, fildes: T, n: nat)
    requires Sound(t)
    ensures InsertMany(t, fildes, n).1.Done?
    decreases n
  {
    hide Sound, Insert;
    InsertSound(t, fildes);
    if n > 0 {
      InsertManySound(Insert(t, fildes).0, fildes, n - 1);
    }
  }

  /** A look-up mentions the descriptor and makes nothing live. */
  lemma GetMentioned<T>(t: Table<T>, fd: int32)
    ensures var t' := Get(t, fd).0;
            && t'.unused == t.unused
            && Mentioned(t') == Mentioned(t) + {fd}
            && fd in t'.entries
            && (forall x: int32 :: Live(t', x) <==> Live(t, x))
  {
    assert Mentioned(Get(t, fd).0) == Mentioned(t) + {fd};
  }

  lemma GetSound<T>(t: Table<T>, fd: int32)
    requires Sound(t) && !Harmful(t, fd)
    ensures Sound(Get(t, fd).0)
  {
    hide Get, Mentioned;
    GetMentioned(t, fd);
    var t' := Get(t, fd).0;
    forall x | x in t'.entries && t'.entries[x].Some? ensures InRange(x) {
      assert Live(t', x) && Live(t, x);
    }
    if fd in Mentioned(t) {
      assert Mentioned(t) + {fd} == Mentioned(t);
    }
  }

  /** A descriptor ahead of the fresh ones is in the table: insertion will run into it. */
  ghost predicate Doomed<T>(t: Table<T>, fd: int32) {
    && InRange(fd) && fd in t.entries && fd !in t.unused
    && SIMULATED + |Mentioned(t)| <= fd
    && NoDuplicates(t.unused)
    && (forall x | x in t.unused :: InRange(x) && !Live(t, x))
    && (forall x | x in Mentioned(t) && InRange(x) && x != fd :: x < SIMULATED + |Mentioned(t)|)
  }

  lemma GetDoomed<T>(t: Table<T>, fd: int32)
    requires Sound(t) && Harmful(t, fd)
    ensures Doomed(Get(t, fd).0, fd)
  {
    assert fd !in Mentioned(t) && fd !in t.unused;
    GetMentioned(t, fd);
    hide Get, Mentioned;
  }

  /** The insertions left before the collision. */
  function Fuse<T>(t: Table<T>, fd: int32): nat
    requires SIMULATED + |Mentioned(t)| <= fd
  {
    |t.unused| + (fd - SIMULATED - |Mentioned(t)|) + if Live(t, fd) then 0 else 1
  }

  lemma DoomedStep<T>(t: Table<T>, fd: int32, fildes: T)
    requires Doomed(t, fd) && Insert(t, fildes).1.Done?
    ensures var t' := Insert(t, fildes).0; Doomed(t', fd) && Fuse(t', fd) < Fuse(t, fd)
  {
    if t.unused != [] {
      hide Insert, Mentioned;
      ReuseMentioned(t, fildes);
    } else {
      MentionedSize(t);
      assert !Live(t, Id(|t.entries|));
      hide Insert, Mentioned;
      FreshMentioned(t, fildes);
      if Id(|t.entries|) == fd {
        assert Mentioned(t) + {fd} == Mentioned(t);
      } else {
        assert Id(|t.entries|) !in Mentioned(t);
      }
    }
  }

  lemma {:induction false} DoomedCollides<T>(t: Table<T>, fd: int32, fildes: T)
    requires Doomed(t, fd)
    ensures exists n :: InsertMany(t, fildes, n).1.AssertFails?
    decreases Fuse(t, fd)
  {
    hide Insert;
    if Insert(t, fildes).1.AssertFails? {
      assert InsertMany(t, fildes, 0).1.AssertFails?;
    } else {
      DoomedStep(t, fd, fildes);
      var t' := Insert(t, fildes).0;
      DoomedCollides(t', fd, fildes);
      var n: nat :| InsertMany(t', fildes, n).1.AssertFails?;
      assert InsertMany(t, fildes, n + 1) == InsertMany(t', fildes, n);
    }
  }

  /** After a look-up, no number of insertions hits a live descriptor. */
  ghost predicate SafeAfterLookUp<T>(t: Table<T>, fd: int32, fildes: T) {
    forall n :: InsertMany(Get(t, fd).0, fildes, n).1.Done?
  }

  /**
   A look-up leaves a table on which no number of insertions can hit a live
   descriptor exactly when it does not name a fresh descriptor ahead of the
   next one to be handed out.
   */
  lemma GetSafeIffHarmless<T>(t: Table<T>, fd: int32, fildes: T)
    requires Sound(t)
    ensures SafeAfterLookUp(t, fd, fildes) <==> !Harmful(t, fd)
  {
    hide Sound, Doomed, Get, InsertMany;
    if Harmful(t, fd) {
      GetDoomed(t, fd);
      DoomedCollides(Get(t, fd).0, fd, fildes);
    } else {
      GetSound(t, fd);
      forall n ensures InsertMany(Get(t, fd).0, fildes, n).1.Done? {
        InsertManySound(Get(t, fd).0, fildes, n);
      }
    }
  }

  lemma CloseMentioned<T>(t: Table<T>, fd: int32)
    requires Live(t, fd) && InRange(fd)
    ensures Close(t, fd) == (Table(t.entries - {fd}, t.unused + [fd]), Done(0))
    ensures Mentioned(Close(t, fd).0) == Mentioned(t)
  {
    assert forall x | x in t.unused + [fd] :: x in t.unused || x == fd;
    assert fd in t.unused + [fd];
  }

  lemma CloseSound<T>(t: Table<T>, fd: int32)
    requires Sound(t)
    ensures Close(t, fd).1.Done? && Sound(Close(t, fd).0)
  {
    if Live(t, fd) {
      CloseMentioned(t, fd);
      hide Close, Mentioned;
      assert forall x | x in t.unused + [fd] :: x in t.unused || x == fd;
    } else {
      hide Sound;
    }
  }

  /** No look-up of the run is harmful. */
  ghost predicate AsksHarmless<T>(t: Table<T>, ops: seq<Op<T>>)
    decreases |ops|
  {
    ops == [] || ((ops[0].GetOp? ==> !Harmful(t, ops[0].fd)) && AsksHarmless(Exec(t, ops[0]).0, ops[1..]))
  }

  ghost predicate AssertionsHold<T>(t: Table<T>, ops: seq<Op<T>>)
    decreases |ops|
  {
    ops == [] || (Exec(t, ops[0]).1 != Code(AssertFails) && AssertionsHold(Exec(t, ops[0]).0, ops[1..]))
  }

  /** Over any run, harmless look-ups of whatever descriptors never make an assertion fail, and the table stays sound. */
  lemma {:induction false} HarmlessRun<T>(t: Table<T>, ops: seq<Op<T>>)
    requires Sound(t) && AsksHarmless(t, ops)
    ensures AssertionsHold(t, ops)
    ensures Sound(Final(t, ops))
    decreases |ops|
  {
    hide Sound, Insert, Close, Get;
    if ops != [] {
      match ops[0] {
        case InsertOp(f) => InsertSound(t, f);
        case CloseOp(fd) => CloseSound(t, fd);
        case GetOp(fd) => GetSound(t, fd);
      }
      HarmlessRun(Exec(t, ops[0]).0, ops[1..]);
    }
  }

  lemma EmptyIsSound<T>()
    ensures var t: Table<T> := Table(map[], []); Sound(t) && Mentioned(t) == {}
  {}

  /** Inserting into a table of one entry, the one after the first fresh descriptor. */
  lemma InsertAhead<T>(t: Table<T>, fildes: T)
    requires t.unused == [] && t.entries.Keys == {SIMULATED + 1}
    ensures Insert(t, fildes) == if Live(t, SIMULATED + 1) then (t, AssertFails)
                                 else (Table(map[SIMULATED + 1 := Some(fildes)], []), Done(SIMULATED + 1))
  {
    assert |t.entries| == |t.entries.Keys| == 1;
    assert t.entries[SIMULATED + 1 := Some(fildes)] == map[SIMULATED + 1 := Some(fildes)];
  }

  /**
   The failing case at its smallest: on an empty table one look-up of the
   descriptor after the next fresh one makes the second insertion fail.
   */
  lemma LookUpBreaksEmptyTable<T>(fildes: T)
    ensures var t: Table<T> := Table(map[], []); var fd := SIMULATED + 1;
            && Sound(t) && Harmful(t, fd)
            && InsertMany(Get(t, fd).0, fildes, 0).1 == Done(fd)
            && InsertMany(Get(t, fd).0, fildes, 1).1.AssertFails?
  {
    var t: Table<T> := Table(map[], []);
    var fd := SIMULATED + 1;
    EmptyIsSound<T>();
    var t1, t2 := Table(map[fd := None], []), Table(map[fd := Some(fildes)], []);
    InsertAhead(t1, fildes);
    InsertAhead(t2, fildes);
    hide Insert, Sound, Mentioned;
    assert Get(t, fd).0 == t1;
    assert InsertMany(t1, fildes, 1) == InsertMany(t2, fildes, 0);
  }

  /** The harmful look-ups of a partitioned table, by the number of descriptors handed out. */
  lemma GetSafeWhenPartitioned<T>(t: Table<T>, n: nat, fd: int32, fildes: T)
    requires Partition(t, n)
    ensures SafeAfterLookUp(t, fd, fildes) <==> !(SIMULATED + n < fd < SIMULATED + CAPACITY)
  {
    hide Partition, Sound, SafeAfterLookUp, Mentioned;
    PartitionIsSound(t, n);
    GetSafeIffHarmless(t, fd, fildes);
  }

  /**
   After any run on a new table whose look-ups ask only for descriptors handed
   out, `n` of them in all: a look-up of `fd` leaves later insertions safe
   exactly when `fd` is not a fresh descriptor ahead of the next one.
   */
  lemma LookUpAfterRun<T>(ops: seq<Op<T>>, fd: int32, fildes: T)
    requires AsksKnown(Table(map[], []), {}, ops)
    ensures var t0: Table<T> := Table(map[], []); var t := Final(t0, ops); var n := HandedBy(t0, 0, ops);
            SafeAfterLookUp(t, fd, fildes) <==> !(SIMULATED + n < fd < SIMULATED + CAPACITY)
  {
    hide *;
    FromEmpty(ops);
    var t0: Table<T> := Table(map[], []);
    GetSafeWhenPartitioned(Final(t0, ops), HandedBy(t0, 0, ops), fd, fildes);
  }
}
