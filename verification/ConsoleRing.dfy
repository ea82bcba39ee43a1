/**
 The console log that persists across stages: a ring of bytes with a cursor whose high bits are
 flags, and the handover of one stage's log to the next.
 */
module ConsoleRing {
  import opened Bytes

  const MAX_SIZE := 0x1000_0000
  const OVERFLOW := 0x8000_0000
  const HEADER_SIZE := 8

  /** The last n bytes of a log. */
  function Last(log: seq<byte>, n: nat): (s: seq<byte>)
    ensures |s| == if |log| <= n then |log| else n
  {
    if |log| <= n then log else log[|log| - n..]
  }

  lemma LastAgain(log: seq<byte>, more: seq<byte>, n: nat)
    ensures Last(Last(log, n) + more, n) == Last(log + more, n)
  {
  }

  /** What a ring holds, oldest byte first, when its cursor is at `at`. */
  function Ring(body: seq<byte>, at: nat, overflowed: bool): seq<byte>
    requires at <= |body|
  {
    if overflowed then body[at..] + body[..at] else body[..at]
  }

  lemma StoreFirst(body: seq<byte>, at: nat, data: byte)
    requires at < |body|
    ensures Last(body[..at] + [data], |body|) == body[at := data][..at + 1]
  {
  }

  lemma StoreAgain(body: seq<byte>, at: nat, data: byte)
    requires at < |body|
    ensures Last(body[at..] + body[..at] + [data], |body|) == body[at := data][at + 1..] + body[at := data][..at + 1]
  {
    var s, b := body[at..] + body[..at] + [data], body[at := data];
    assert s == [body[at]] + (body[at + 1..] + (body[..at] + [data]));
    assert b[at + 1..] == body[at + 1..] && b[..at + 1] == body[..at] + [data];
  }

  lemma RingFull(b: seq<byte>)
    ensures Ring(b, 0, true) == b == b[|b|..] + b[..|b|] == b[..|b|]
  {
  }

  /** A byte stored at the cursor drives out the oldest one when there is no more room. */
  lemma RingStep(body: seq<byte>, at: nat, overflowed: bool, data: byte)
    requires at < |body|
    ensures var more := Last(Ring(body, at, overflowed) + [data], |body|);
            more == if at + 1 < |body| then Ring(body[at := data], at + 1, overflowed)
              else Ring(body[at := data], 0, true)
  {
    hide Last;
    StoreFirst(body, at, data);
    StoreAgain(body, at, data);
    RingFull(body[at := data]);
  }

  /** The flags of a cursor and its position, k being the flags. */
  lemma CursorParts(k: nat, at: nat)
    requires k < 16 && at < MAX_SIZE
    ensures var c := k * MAX_SIZE + at;
            c < TWO32 && c % MAX_SIZE == at && c - c % MAX_SIZE == k * MAX_SIZE && (c / OVERFLOW % 2 == 1 <==> k >= 8)
  {
  }

  class Console {
    var size: nat
    var cursor: nat
    const body: array<byte>

    constructor (body: array<byte>, size: nat, cursor: nat)
      ensures this.body == body && this.size == size && this.cursor == cursor
    {
      this.body, this.size, this.cursor := body, size, cursor;
    }

    /** `buffer_valid` */
    predicate BufferValid(totalSpace: nat)
      reads this
    {
      cursor % MAX_SIZE < size && size <= MAX_SIZE && size == totalSpace - HEADER_SIZE
    }

    predicate Valid()
      reads this
    {
      cursor < TWO32 && BufferValid(body.Length + HEADER_SIZE)
    }

    predicate Overflowed()
      reads this
    {
      cursor / OVERFLOW % 2 == 1
    }

    /** What the ring holds, oldest byte first. */
    function Contents(): (s: seq<byte>)
      reads this, body
      requires Valid()
      ensures |s| == if Overflowed() then size else cursor % MAX_SIZE
    {
      Ring(body[..], cursor % MAX_SIZE, Overflowed())
    }

    /** `cbmem_dump_console`: what is sent to the serial port. */
    method Dump() returns (out: seq<byte>)
      requires Valid()
      ensures out == Contents()
    {
      out := [];
      if Overflowed() {
        for c := cursor % MAX_SIZE to size
          invariant out == body[cursor % MAX_SIZE..c]
        {
          out := out + [body[c]];
        }
      }
      ghost var first := out;
      for c := 0 to cursor % MAX_SIZE
        invariant out == first + body[..c]
      {
        out := out + [body[c]];
      }
    }

    /** One byte, as `cbmemc_tx_byte` stores it. */
    method Store(data: byte)
      requires Valid()
      modifies this, body
      ensures Valid() && size == old(size)
      ensures Contents() == Last(old(Contents()) + [data], size)
    {
      var flags, at := cursor - cursor % MAX_SIZE, cursor % MAX_SIZE;
      ghost var k, b := cursor / MAX_SIZE, body[..];
      CursorParts(k, at);
      RingStep(b, at, Overflowed(), data);
      hide Ring, Last;
      body[at] := data;
      at := at + 1;
      if at >= size {
        at := 0;
        flags := if flags / OVERFLOW % 2 == 1 then flags else flags + OVERFLOW;
      }
      CursorParts(k, at);
      CursorParts(if k >= 8 then k else k + 8, at);
      cursor := flags + at;
    }
  }

  /** The cursor word: 28 bits of position, and the highest bit for a ring that has been full. */
  lemma CursorByNumbers(c: Console)
    requires c.cursor < TWO32
    ensures c.Overflowed() <==> c.cursor >= 0x8000_0000
    ensures c.Valid() <==>
            c.cursor % 0x1000_0000 < c.size && c.size <= 0x1000_0000 && c.size == c.body.Length
    ensures forall space: nat :: c.BufferValid(space) <==>
              c.cursor % 0x1000_0000 < c.size && c.size <= 0x1000_0000 && c.size + 8 == space
  {
  }

  // ----- The current console and the handover between stages -----

  class Log {
    var current: Console?

    ghost predicate Valid()
      reads this, current
    {
      current != null ==> current.Valid()
    }

    constructor ()
      ensures current == null
    {
      current := null;
    }

    /** `init_console_ptr`: a console that makes sense is kept with what it holds, any other is emptied. */
    method Init(storage: Console?, totalSpace: nat)
      requires storage != null ==> totalSpace < TWO32 && storage.cursor < TWO32
      requires storage != null && totalSpace > HEADER_SIZE ==>
                 storage.body.Length == totalSpace - HEADER_SIZE && storage.body.Length <= MAX_SIZE
      modifies this, storage
      ensures Valid() && current == (if totalSpace <= HEADER_SIZE then null else storage)
      ensures current != null ==>
                current.Contents() == if old(storage.Valid()) then old(storage.Contents()) else []
    {
      if storage == null || totalSpace <= HEADER_SIZE {
        current := null;
        return;
      }
      if !storage.BufferValid(totalSpace) {
        storage.size := totalSpace - HEADER_SIZE;
        storage.cursor := 0;
      }
      current := storage;
    }

    /** The bytes that the current console may hold, if there is one. */
    ghost function Room(): nat
      reads this, current
    {
      if current == null then 0 else current.size
    }

    /** The bytes that it does hold. */
    ghost function Held(): (s: seq<byte>)
      reads this, current, if current == null then {} else {current.body}
      requires Valid()
      ensures |s| <= Room()
    {
      if current == null then [] else current.Contents()
    }

    /** `cbmemc_tx_byte` */
    method TxByte(data: byte)
      requires Valid()
      modifies current, if current == null then {} else {current.body}
      ensures Valid() && Room() == old(Room()) && Held() == Last(old(Held()) + [data], Room())
    {
      if current == null || current.size == 0 {
        return;
      }
      current.Store(data);
    }

    method TxBytes(log: seq<byte>)
      requires Valid()
      modifies current, if current == null then {} else {current.body}
      ensures Valid() && Room() == old(Room()) && Held() == Last(old(Held()) + log, Room())
    {
      hide *;
      ghost var start := Held();
      LastOfShort(start, Room());
      assert start + log[..0] == start;
      for i := 0 to |log|
        invariant Valid() && Room() == old(Room()) && Held() == Last(start + log[..i], Room())
      {
        TxByte(log[i]);
        LastAgain(start + log[..i], [log[i]], Room());
        assert start + log[..i] + [log[i]] == start + log[..i + 1];
      }
      assert log[..|log|] == log;
    }

    /** The loops of `copy_console_buffer` */
    method CopyBytes(src: Console, warning: seq<byte>)
      requires Valid() && src.Valid() && src != current && (current != null ==> src.body != current.body)
      modifies current, if current == null then {} else {current.body}
      ensures Valid() && Room() == old(Room())
      ensures Held() == Last(old(Held()) + ((if src.Overflowed() then warning else []) + src.Contents()), Room())
    {
      hide *;
      ghost var start, held := Held(), src.Contents();
      var pieces := Pieces(src);
      if src.Overflowed() {
        TxBytes(warning);
        TxBytes(pieces.0);
        LastAgain(start + warning, pieces.0, Room());
        LastAgain(start + warning + pieces.0, pieces.1, Room());
        assert start + warning + pieces.0 + pieces.1 == start + (warning + held);
      } else {
        assert start + pieces.1 == start + ([] + held);
      }
      TxBytes(pieces.1);
    }

    /** `copy_console_buffer` from the console of the previous stage, which is given up */
    method CopyConsole(src: Console?, warning: seq<byte>)
      requires Valid() && (src != null ==> src.Valid())
      requires src != null ==> src != current && (current != null ==> src.body != current.body)
      modifies src, current, if current == null then {} else {current.body}
      ensures Valid() && Room() == old(Room())
      ensures src == null ==> Held() == old(Held())
      ensures src != null ==>
                && !src.BufferValid(src.body.Length + HEADER_SIZE)
                && Held() == Last(old(Held()) + old((if src.Overflowed() then warning else []) + src.Contents()),
                   Room())
    {
      if src == null {
        return;
      }
      CopyBytes(src, warning);
      src.size := 0;
    }

    /** `cbmemc_init`, and what is logged before there is a persistent console. */
    method FirstStage(first: Console, early: seq<byte>)
      requires first.cursor < TWO32 && 0 < first.body.Length <= MAX_SIZE
      modifies this, first, first.body
      ensures current == first && first.Valid() && first.size == first.body.Length
      ensures first.Contents() ==
              Last(old(if first.Valid() then first.Contents() else []) + early, first.body.Length)
    {
      Init(first, first.body.Length + HEADER_SIZE);
      TxBytes(early);
    }

    /** `cbmemc_reinit`, and what is logged then. */
    method SecondStage(second: Console, warning: seq<byte>, late: seq<byte>)
      requires current != null && current.Valid() && second != current && second.body != current.body
      requires second.cursor < TWO32 && 0 < second.body.Length <= MAX_SIZE
      modifies this, current, second, second.body
      ensures current == second && second.Valid() && second.size == second.body.Length
      ensures !old(current).BufferValid(old(current).body.Length + HEADER_SIZE)
      ensures second.Contents() ==
              Last(old((if second.Valid() then second.Contents() else []) +
                       ((if current.Overflowed() then warning else []) + current.Contents())) + late,
                         second.body.Length)
    {
      var previous := current;
      Init(second, second.body.Length + HEADER_SIZE);
      hide Last, Ring;
      ghost var before := second.Contents();
      ghost var handed := (if previous.Overflowed() then warning else []) + previous.Contents();
      CopyConsole(previous, warning);
      TxBytes(late);
      LastAgain(before + handed, late, second.body.Length);
    }

    /**
     The log of two stages, the first with a console of its own and the second with one that
     persists: what is kept is the end of all that was there and all that was written, as far
     as the first console has not lost it. The warning is logged as soon as that one was full.
     */
    method Stages(first: Console, second: Console, early: seq<byte>, warning: seq<byte>, late: seq<byte>)
      requires first != second && first.body != second.body
      requires first.cursor < TWO32 && 0 < first.body.Length <= MAX_SIZE
      requires second.cursor < TWO32 && 0 < second.body.Length <= MAX_SIZE
      modifies this, first, second, first.body, second.body
      ensures current == second && second.Valid()
      ensures var log, n := old(if first.Valid() then first.Contents() else []) + early, first.body.Length;
              second.Contents() ==
                Last(old(if second.Valid() then second.Contents() else []) +
                     ((if |log| >= n then warning else []) + Last(log, n)) + late, second.body.Length)
    {
      FirstStage(first, early);
      hide Last, Ring;
      SecondStage(second, warning, late);
    }
  }

  /** What the two loops of `copy_console_buffer` go over. */
  function Pieces(src: Console): (p: (seq<byte>, seq<byte>))
    requires src.Valid()
    reads src, src.body
    ensures src.Contents() == if src.Overflowed() then p.0 + p.1 else p.1
  {
    (src.body[src.cursor % MAX_SIZE..src.size], src.body[..src.cursor % MAX_SIZE])
  }

  lemma LastOfShort(log: seq<byte>, n: nat)
    requires |log| <= n
    ensures Last(log, n) == log
  {
  }
}
