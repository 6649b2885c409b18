/**
 Reading and writing the memory of the traced process a word at a time with
 PTRACE_PEEKDATA and PTRACE_POKEDATA.  A word is modelled by its eight bytes:
 every conversion in the code is a `memcpy`, so byte order does not matter.
 The code ignores requests that fail; they are part of the model.
 */
module TraceeMemory {
  import opened Words

  /** The bytes at the mapped addresses. */
  type Memory = map<nat, byte>

  /**
   How many bytes a failing PTRACE_POKEDATA at an address transfers before it
   meets an unmapped one: any function.
   */
  type Faulty = nat -> nat

  const WORD: nat := 8

  /** What a failing PTRACE_PEEKDATA leaves in the word: -1. */
  const FAILED: seq<byte> := [0xff, 0xff, 0xff, 0xff, 0xff, 0xff, 0xff, 0xff]

  predicate Mapped(m: Memory, from: nat, len: nat) {
    forall a | from <= a < from + len :: a in m
  }

  /** The bytes a transfer of `len` bytes touches: whole words. */
  function WholeWords(len: nat): (r: nat)
    ensures len <= r < len + WORD && r % WORD == 0
  {
    (len + WORD - 1) / WORD * WORD
  }

  /** The word of a transfer from `ptr` that byte `i` of the range lies in is mapped. */
  predicate WordMapped(m: Memory, ptr: nat, i: nat) {
    Mapped(m, ptr + i / WORD * WORD, WORD)
  }

  function Slice(m: Memory, from: nat, len: nat): (s: seq<byte>)
    requires Mapped(m, from, len)
    ensures |s| == len
  {
    seq(len, i requires 0 <= i < len => m[from + i])
  }

  /** The memory with `data` in place of the bytes from `from` on. */
  function Spliced(m: Memory, from: nat, data: seq<byte>): (r: Memory)
    ensures r.Keys == m.Keys
  {
    map a | a in m :: if from <= a < from + |data| then data[a - from] else m[a]
  }

  /** The word a PTRACE_PEEKDATA gives. */
  function Peeked(m: Memory, ptr: nat): (word: seq<byte>)
    ensures |word| == WORD
  {
    if Mapped(m, ptr, WORD) then Slice(m, ptr, WORD) else FAILED
  }

  function Min(x: nat, y: nat): nat { if x < y then x else y }

  /** The memory after a PTRACE_POKEDATA: the whole word, or some first bytes of it if the request fails. */
  function Poked(m: Memory, ptr: nat, word: seq<byte>, faulty: Faulty): Memory
    requires |word| == WORD
  {
    Spliced(m, ptr, if Mapped(m, ptr, WORD) then word else word[..Min(WORD, faulty(ptr))])
  }

  /** The memory after `write_memory`. */
  function Written(m: Memory, ptr: nat, data: seq<byte>, faulty: Faulty): Memory
    decreases |data|
  {
    if |data| >= WORD then Written(Poked(m, ptr, data[..WORD], faulty), ptr + WORD, data[WORD..], faulty)
    else if |data| > 0 then Poked(m, ptr, data + Peeked(m, ptr)[|data|..], faulty)
    else m
  }

  class Tracee {
    var mem: Memory
    const faulty: Faulty

    constructor (mem: Memory, faulty: Faulty)
      ensures this.mem == mem && this.faulty == faulty
    {
      this.mem, this.faulty := mem, faulty;
    }

    /** PTRACE_PEEKDATA */
    method Peek(ptr: nat) returns (word: seq<byte>)
      ensures word == Peeked(mem, ptr)
    {
      word := Peeked(mem, ptr);
    }

    /** PTRACE_POKEDATA */
    method Poke(ptr: nat, word: seq<byte>)
      requires |word| == WORD
      modifies this
      ensures mem == Poked(old(mem), ptr, word, faulty)
    {
      mem := Poked(mem, ptr, word, faulty);
    }

    /** Reports success whatever happened. */
    method WriteMemory(ptr: nat, data: seq<byte>) returns (rc: int)
      modifies this
      ensures mem == Written(old(mem), ptr, data, faulty) && rc == 0
      ensures Mapped(old(mem), ptr, WholeWords(|data|)) ==> mem == Spliced(old(mem), ptr, data)
    {
      var rest: seq<byte>, at: nat := data, ptr;
      while |rest| >= WORD
        invariant Written(mem, at, rest, faulty) == Written(old(mem), ptr, data, faulty)
        decreases |rest|
      {
        Poke(at, rest[..WORD]);
        rest, at := rest[WORD..], at + WORD;
      }
      if |rest| > 0 {
        var word := Peek(at);
        Poke(at, rest + word[|rest|..]);
      }
      if Mapped(old(mem), ptr, WholeWords(|data|)) {
        WrittenIsSpliced(old(mem), ptr, data, faulty);
      }
      return 0;
    }

    /** Each byte is that of the memory if its word is mapped and 0xff if not; reports success either way. */
    method ReadMemory(ptr: nat, buf: array<byte>) returns (rc: int)
      modifies buf
      ensures forall i | 0 <= i < buf.Length ::
                if WordMapped(mem, ptr, i) then ptr + i in mem && buf[i] == mem[ptr + i] else buf[i] == 0xff
      ensures Mapped(mem, ptr, WholeWords(buf.Length)) ==> buf[..] == Slice(mem, ptr, buf.Length)
      ensures rc == 0
    {
      hide ByteRead, WordMapped, Peeked;
      var done := 0;
      while buf.Length - done >= WORD
        invariant 0 <= done <= buf.Length && done % WORD == 0
        invariant forall i | 0 <= i < done :: buf[i] == ByteRead(mem, ptr, i)
      {
        var word := Peek(ptr + done);
        PeekedBytes(mem, ptr, done);
        forall k | 0 <= k < WORD {
          buf[done + k] := word[k];
        }
        done := done + WORD;
      }
      if done < buf.Length {
        var word := Peek(ptr + done);
        PeekedBytes(mem, ptr, done);
        forall k | 0 <= k < buf.Length - done {
          buf[done + k] := word[k];
        }
      }
      BytesRead(mem, ptr, buf.Length);
      return 0;
    }
  }

  /** Byte `i` of a range read word by word. */
  function ByteRead(m: Memory, ptr: nat, i: nat): byte {
    if WordMapped(m, ptr, i) && ptr + i in m then m[ptr + i] else 0xff
  }

  lemma WordHolds(m: Memory, ptr: nat, i: nat)
    requires WordMapped(m, ptr, i)
    ensures ptr + i in m
  {
    assert ptr + i / WORD * WORD <= ptr + i < ptr + i / WORD * WORD + WORD;
  }

  lemma BytesRead(m: Memory, ptr: nat, len: nat)
    ensures forall i | 0 <= i < len ::
              if WordMapped(m, ptr, i) then ptr + i in m && ByteRead(m, ptr, i) == m[ptr + i] else ByteRead(m, ptr, i) == 0xff
    ensures Mapped(m, ptr, WholeWords(len)) ==> forall i | 0 <= i < len :: ByteRead(m, ptr, i) == m[ptr + i]
  {
    forall i | 0 <= i < len && WordMapped(m, ptr, i) ensures ptr + i in m {
      WordHolds(m, ptr, i);
    }
    if Mapped(m, ptr, WholeWords(len)) {
      forall i | 0 <= i < len ensures WordMapped(m, ptr, i) {
        WordsInRange(m, ptr, len, i);
      }
    }
  }

  lemma PeekedBytes(m: Memory, ptr: nat, done: nat)
    requires done % WORD == 0
    ensures var word := Peeked(m, ptr + done); forall k | 0 <= k < WORD :: word[k] == ByteRead(m, ptr, done + k)
  {
    var word := Peeked(m, ptr + done);
    forall k | 0 <= k < WORD ensures word[k] == ByteRead(m, ptr, done + k) {
      assert (done + k) / WORD * WORD == done;
      assert WordMapped(m, ptr, done + k) <==> Mapped(m, ptr + done, WORD);
    }
  }

  /** The words touched by a range are mapped as soon as all the bytes they span are. */
  lemma WordsInRange(m: Memory, ptr: nat, len: nat, i: nat)
    requires Mapped(m, ptr, WholeWords(len)) && i < len
    ensures WordMapped(m, ptr, i)
  {
    assert i / WORD * WORD + WORD <= WholeWords(len);
  }

  /** Splicing data piece by piece is splicing it whole. */
  lemma SplicedAppend(m: Memory, from: nat, a: seq<byte>, b: seq<byte>)
    ensures Spliced(Spliced(m, from, a), from + |a|, b) == Spliced(m, from, a + b)
  {}

  /** Writing back a word with its first bytes replaced changes only those bytes. */
  lemma PartialWord(m: Memory, from: nat, data: seq<byte>)
    requires |data| <= WORD && Mapped(m, from, WORD)
    ensures Spliced(m, from, data + Slice(m, from, WORD)[|data|..]) == Spliced(m, from, data)
  {}

  /**
   With every word touched mapped, the bytes in `[ptr, ptr + |data|)` become
   the data and every other byte stays, those that share the last word included.
   */
  lemma {:induction false} WrittenIsSpliced(m: Memory, ptr: nat, data: seq<byte>, faulty: Faulty)
    requires Mapped(m, ptr, WholeWords(|data|))
    ensures Written(m, ptr, data, faulty) == Spliced(m, ptr, data)
    decreases |data|
  {
    if |data| >= WORD {
      var head, rest := data[..WORD], data[WORD..];
      assert Mapped(m, ptr, WORD) && data == head + rest;
      WrittenIsSpliced(Spliced(m, ptr, head), ptr + WORD, rest, faulty);
      SplicedAppend(m, ptr, head, rest);
    } else if |data| > 0 {
      assert Mapped(m, ptr, WORD);
      PartialWord(m, ptr, data);
    } else {
      assert Spliced(m, ptr, data) == m;
    }
  }

  /** A POKEDATA keeps to its word, and fills it if it is mapped. */
  lemma PokedBytes(m: Memory, ptr: nat, word: seq<byte>, faulty: Faulty)
    requires |word| == WORD
    ensures var m' := Poked(m, ptr, word, faulty);
            && m'.Keys == m.Keys
            && (forall a | a in m && !(ptr <= a < ptr + WORD) :: m'[a] == m[a])
            && (forall a | a in m && ptr <= a < ptr + WORD :: m'[a] == m[a] || m'[a] == word[a - ptr])
            && (Mapped(m, ptr, WORD) ==> forall a | ptr <= a < ptr + WORD :: m'[a] == word[a - ptr])
            && (!Mapped(m, ptr, WORD) && faulty(ptr) == 0 ==> m' == m)
  {}

  /** The words of the rest of a transfer, in the memory after its first word. */
  lemma WordShift(m: Memory, m1: Memory, ptr: nat, i: nat)
    requires m1.Keys == m.Keys && WORD <= i
    ensures WordMapped(m, ptr, i) <==> WordMapped(m1, ptr + WORD, i - WORD)
  {
    assert i / WORD == (i - WORD) / WORD + 1;
  }

  lemma FirstWord(m: Memory, ptr: nat, i: nat)
    requires i < WORD
    ensures WordMapped(m, ptr, i) <==> Mapped(m, ptr, WORD)
  {}

  lemma WholeWordsShift(len: nat)
    ensures WORD <= len ==> WholeWords(len) == WORD + WholeWords(len - WORD)
    ensures 0 < len < WORD ==> WholeWords(len) == WORD
  {}

  /** What may have become of one byte, whatever fails: nothing, its data, or 0xff beyond the range in an unmapped last word. */
  ghost predicate Accounted(m: Memory, ptr: nat, data: seq<byte>, m': Memory, a: nat)
    requires a in m && m'.Keys == m.Keys
  {
    || m'[a] == m[a]
    || (ptr <= a < ptr + |data| && m'[a] == data[a - ptr])
    || (ptr + |data| <= a < ptr + WholeWords(|data|) && !WordMapped(m, ptr, |data|) && m'[a] == 0xff)
  }

  /** A byte accounted for in the rest of a transfer is accounted for in the whole of it. */
  lemma AccountedAfterWord(m: Memory, m1: Memory, ptr: nat, data: seq<byte>, m': Memory, a: nat)
    requires |data| >= WORD && m1.Keys == m.Keys == m'.Keys && a in m
    requires m1[a] == m[a] || (ptr <= a < ptr + WORD && m1[a] == data[a - ptr])
    requires Accounted(m1, ptr + WORD, data[WORD..], m', a)
    ensures Accounted(m, ptr, data, m', a)
  {
    hide WordMapped, WholeWords;
    WordShift(m, m1, ptr, |data|);
    WholeWordsShift(|data|);
  }

  /** The last word, if it is partial: data, and beyond it what was peeked. */
  lemma LastWordAccounted(m: Memory, ptr: nat, data: seq<byte>, faulty: Faulty, a: nat)
    requires 0 < |data| < WORD
    ensures Written(m, ptr, data, faulty).Keys == m.Keys
    ensures a in m ==> Accounted(m, ptr, data, Written(m, ptr, data, faulty), a)
  {
    hide Poked, Peeked, WordMapped, WholeWords;
    WholeWordsShift(|data|);
    FirstWord(m, ptr, |data|);
    PokedBytes(m, ptr, data + Peeked(m, ptr)[|data|..], faulty);
    PeekedTail(m, ptr);
  }

  lemma WrittenAfterWord(m: Memory, ptr: nat, data: seq<byte>, faulty: Faulty)
    requires |data| >= WORD
    ensures Written(m, ptr, data, faulty) == Written(Poked(m, ptr, data[..WORD], faulty), ptr + WORD, data[WORD..], faulty)
  {}

  lemma {:induction false} ByteAccounted(m: Memory, ptr: nat, data: seq<byte>, faulty: Faulty, a: nat)
    ensures Written(m, ptr, data, faulty).Keys == m.Keys
    ensures a in m ==> Accounted(m, ptr, data, Written(m, ptr, data, faulty), a)
    decreases |data|
  {
    hide Poked, Accounted, Written;
    if |data| >= WORD {
      var head, rest := data[..WORD], data[WORD..];
      var m1 := Poked(m, ptr, head, faulty);
      WrittenAfterWord(m, ptr, data, faulty);
      PokedBytes(m, ptr, head, faulty);
      ByteAccounted(m1, ptr + WORD, rest, faulty, a);
      if a in m {
        AccountedAfterWord(m, m1, ptr, data, Written(m1, ptr + WORD, rest, faulty), a);
      }
    } else if |data| > 0 {
      LastWordAccounted(m, ptr, data, faulty, a);
    } else {
      NothingWritten(m, ptr, faulty, a);
    }
  }

  lemma NothingWritten(m: Memory, ptr: nat, faulty: Faulty, a: nat)
    ensures Written(m, ptr, [], faulty) == m
    ensures a in m ==> Accounted(m, ptr, [], m, a)
  {}

  lemma PeekedTail(m: Memory, ptr: nat)
    ensures forall k | 0 <= k < WORD :: Peeked(m, ptr)[k] == if Mapped(m, ptr, WORD) then m[ptr + k] else 0xff
  {}

  /** Whatever fails, no byte outside the words touched changes, and none becomes anything unaccounted for. */
  lemma WrittenAccounted(m: Memory, ptr: nat, data: seq<byte>, faulty: Faulty)
    ensures Written(m, ptr, data, faulty).Keys == m.Keys
    ensures forall a | a in m :: Accounted(m, ptr, data, Written(m, ptr, data, faulty), a)
  {
    hide Written, Accounted;
    forall a: nat ensures Written(m, ptr, data, faulty).Keys == m.Keys
                  ensures a in m ==> Accounted(m, ptr, data, Written(m, ptr, data, faulty), a) {
      ByteAccounted(m, ptr, data, faulty, a);
    }
    ByteAccounted(m, ptr, data, faulty, 0);
  }

  /** The whole range holds the data, and nothing else changed. */
  ghost predicate Exact(m: Memory, ptr: nat, data: seq<byte>, faulty: Faulty) {
    Mapped(m, ptr, |data|) && Written(m, ptr, data, faulty) == Spliced(m, ptr, data)
  }

  /** If the last word is partial and unmapped, and the failing request transfers nothing, the last byte stays. */
  lemma {:induction false} LastByteStays(m: Memory, ptr: nat, data: seq<byte>, faulty: Faulty)
    requires |data| % WORD != 0 && ptr + |data| - 1 in m
    requires !WordMapped(m, ptr, |data|) && forall a :: faulty(a) == 0
    ensures ptr + |data| - 1 in Written(m, ptr, data, faulty)
    ensures Written(m, ptr, data, faulty)[ptr + |data| - 1] == m[ptr + |data| - 1]
    decreases |data|
  {
    hide Poked, WordMapped;
    if |data| >= WORD {
      var m1 := Poked(m, ptr, data[..WORD], faulty);
      PokedBytes(m, ptr, data[..WORD], faulty);
      WordShift(m, m1, ptr, |data|);
      LastByteStays(m1, ptr + WORD, data[WORD..], faulty);
    } else {
      FirstWord(m, ptr, |data|);
      PokedBytes(m, ptr, data + Peeked(m, ptr)[|data|..], faulty);
    }
  }

  /**
   `write_memory` does what it reports, for all data of a length and however
   failing requests behave, exactly when every word it touches is mapped.
   */
  lemma WriteExactIffMapped(m: Memory, ptr: nat, len: nat)
    ensures (forall data: seq<byte>, faulty: Faulty | |data| == len :: Exact(m, ptr, data, faulty))
       <==> Mapped(m, ptr, WholeWords(len))
  {
    hide Exact, WholeWords;
    if Mapped(m, ptr, WholeWords(len)) {
      forall data: seq<byte>, faulty: Faulty | |data| == len ensures Exact(m, ptr, data, faulty) {
        MappedIsExact(m, ptr, data, faulty);
      }
    } else {
      var data, none := UnmappedIsNotExact(m, ptr, len);
      assert !Exact(m, ptr, data, none);
    }
  }

  lemma MappedIsExact(m: Memory, ptr: nat, data: seq<byte>, faulty: Faulty)
    requires Mapped(m, ptr, WholeWords(|data|))
    ensures Exact(m, ptr, data, faulty)
  {
    hide Written;
    WrittenIsSpliced(m, ptr, data, faulty);
  }

  lemma UnmappedIsNotExact(m: Memory, ptr: nat, len: nat) returns (data: seq<byte>, none: Faulty)
    requires !Mapped(m, ptr, WholeWords(len))
    ensures |data| == len && !Exact(m, ptr, data, none)
  {
    none := (_: nat) => 0;
    var b: byte := if len > 0 && ptr + len - 1 in m && m[ptr + len - 1] == 0 then 1 else 0;
    data := seq(len, _ => b);
    hide Exact, WholeWords;
    if Mapped(m, ptr, len) {
      LastByteLost(m, ptr, data, none);
    } else {
      UnmappedRange(m, ptr, data, none);
    }
  }

  lemma UnmappedRange(m: Memory, ptr: nat, data: seq<byte>, faulty: Faulty)
    requires !Mapped(m, ptr, |data|)
    ensures !Exact(m, ptr, data, faulty)
  {}

  /** A failing request that transfers nothing loses a last byte that is not there already. */
  lemma LastByteLost(m: Memory, ptr: nat, data: seq<byte>, faulty: Faulty)
    requires Mapped(m, ptr, |data|) && !Mapped(m, ptr, WholeWords(|data|))
    requires |data| > 0 ==> m[ptr + |data| - 1] != data[|data| - 1]
    requires forall a :: faulty(a) == 0
    ensures !Exact(m, ptr, data, faulty)
  {
    hide Written, WordMapped, WholeWords;
    LastWordUnmapped(m, ptr, |data|);
    LastByteStays(m, ptr, data, faulty);
    assert Spliced(m, ptr, data)[ptr + |data| - 1] == data[|data| - 1];
  }

  /**
   A failing case: five bytes are left before the end of what is mapped, three
   of them are written, and the failing request transfers what it can.  The
   data arrive, and so do bytes of the failed read beyond them.
   */
  lemma PartlyMappedWordOverruns(m: Memory, base: nat)
    requires Mapped(m, base, 5) && base + 5 !in m
    ensures var data: seq<byte> := [1, 2, 3];
            && Mapped(m, base, |data|)
            && Written(m, base, data, _ => 5) == Spliced(m, base, data + [0xff, 0xff])
  {
    assert Peeked(m, base) == FAILED;
    assert ([1, 2, 3] + FAILED[3..])[..5] == [1, 2, 3] + [0xff, 0xff];
  }

  /** If the range is mapped but not all words it touches, the last word is partial and unmapped. */
  lemma LastWordUnmapped(m: Memory, ptr: nat, len: nat)
    requires Mapped(m, ptr, len) && !Mapped(m, ptr, WholeWords(len))
    ensures len % WORD != 0 && !WordMapped(m, ptr, len)
  {
    var a :| ptr <= a < ptr + WholeWords(len) && a !in m;
    assert len % WORD != 0;
    assert len / WORD * WORD <= len && WholeWords(len) == len / WORD * WORD + WORD;
  }

  /** A write then a read of the same range. */
  method WriteThenRead(t: Tracee, ptr: nat, data: seq<byte>) returns (r: array<byte>)
    modifies t
    ensures fresh(r) && r.Length == |data|
    ensures forall i | 0 <= i < |data| :: r[i] == if WordMapped(old(t.mem), ptr, i) then data[i] else 0xff
    ensures Mapped(old(t.mem), ptr, WholeWords(|data|)) ==> r[..] == data
  {
    ghost var m := t.mem;
    var _ := t.WriteMemory(ptr, data);
    r := new byte[|data|];
    var _ := t.ReadMemory(ptr, r);
    WrittenAccounted(m, ptr, data, t.faulty);
    forall i | 0 <= i < |data| ensures r[i] == if WordMapped(m, ptr, i) then data[i] else 0xff {
      assert WordMapped(t.mem, ptr, i) <==> WordMapped(m, ptr, i);
      if WordMapped(m, ptr, i) {
        WrittenAt(m, ptr, data, t.faulty, i);
      }
    }
    if Mapped(m, ptr, WholeWords(|data|)) {
      forall i | 0 <= i < |data| ensures r[i] == data[i] {
        WordsInRange(m, ptr, |data|, i);
      }
    }
  }

  /** A byte of the range whose word is mapped becomes its data, whatever fails elsewhere. */
  lemma {:induction false} WrittenAt(m: Memory, ptr: nat, data: seq<byte>, faulty: Faulty, i: nat)
    requires i < |data| && WordMapped(m, ptr, i)
    ensures ptr + i in Written(m, ptr, data, faulty) && Written(m, ptr, data, faulty)[ptr + i] == data[i]
    decreases |data|
  {
    WordHolds(m, ptr, i);
    hide Poked, WordMapped, Peeked, WholeWords, Written;
    if i < WORD {
      FirstWord(m, ptr, i);
      FirstWordWritten(m, ptr, data, faulty, i);
    } else {
      var m1 := Poked(m, ptr, data[..WORD], faulty);
      PokedBytes(m, ptr, data[..WORD], faulty);
      WordShift(m, m1, ptr, i);
      WrittenAt(m1, ptr + WORD, data[WORD..], faulty, i - WORD);
      WrittenAfterWord(m, ptr, data, faulty);
    }
  }

  lemma FirstWordWritten(m: Memory, ptr: nat, data: seq<byte>, faulty: Faulty, i: nat)
    requires i < |data| && i < WORD && Mapped(m, ptr, WORD)
    ensures ptr + i in Written(m, ptr, data, faulty) && Written(m, ptr, data, faulty)[ptr + i] == data[i]
  {
    hide Poked, Peeked, WordMapped, WholeWords;
    if |data| >= WORD {
      var m1 := Poked(m, ptr, data[..WORD], faulty);
      PokedBytes(m, ptr, data[..WORD], faulty);
      ByteAccounted(m1, ptr + WORD, data[WORD..], faulty, ptr + i);
    } else {
      var word := data + Peeked(m, ptr)[|data|..];
      PokedBytes(m, ptr, word, faulty);
      assert word[i] == data[i];
    }
  }
}
