/** The byte queue as it is implemented: one double-length array, wrapping 64-bit positions, and a cached copy of
    the other side's position on each side. Used sequentially it is a FIFO of messages. */
module Ring {
  import opened Words
  import Spsc

  type Msg = Spsc.Msg

  datatype WriteReservation = NoSpace | Writable(offset: nat, newWritePos: u64)
  datatype ReadReservation = NothingToRead | Readable(offset: nat, currentReadPos: u64)

  /** The messages lie one behind the other from logical position base on. */
  ghost predicate StoredAll(buf: seq<byte>, cap: nat, base: nat, ms: seq<Msg>) {
    forall j :: 0 <= j < |ms| ==> Spsc.StoredAt(buf, cap, base, ms, j)
  }

  ghost predicate NonEmpty(ms: seq<Msg>) {
    forall j :: 0 <= j < |ms| ==> ms[j] != []
  }

  function Total(ms: seq<Msg>): nat {
    Spsc.Pos(ms, |ms|)
  }

  // ---------------------------------------------------------------- lemmas about stored messages

  /** Bytes written to the free range behind the messages do not touch them. */
  lemma FreeRangeIsDisjoint(before: seq<byte>, after: seq<byte>, cap: nat, base: nat, ms: seq<Msg>, size: nat)
    requires cap > 0 && |before| == |after| && NonEmpty(ms) && StoredAll(before, cap, base, ms)
    requires Total(ms) + size <= cap
    requires forall i :: 0 <= i < |before| && !(Slot(base + Total(ms), cap) <= i < Slot(base + Total(ms), cap) + size) ==>
               after[i] == before[i]
    ensures StoredAll(after, cap, base, ms)
  {
    forall j | 0 <= j < |ms| ensures Spsc.StoredAt(after, cap, base, ms, j) {
      assert Spsc.StoredAt(before, cap, base, ms, j);
      MessageUntouched(before, after, cap, base, ms, size, j);
    }
  }

  lemma MessageUntouched(before: seq<byte>, after: seq<byte>, cap: nat, base: nat, ms: seq<Msg>, size: nat, j: nat)
    requires cap > 0 && |before| == |after| && NonEmpty(ms) && j < |ms|
    requires Spsc.StoredAt(before, cap, base, ms, j)
    requires Total(ms) + size <= cap
    requires forall i :: 0 <= i < |before| && !(Slot(base + Total(ms), cap) <= i < Slot(base + Total(ms), cap) + size) ==>
               after[i] == before[i]
    ensures Spsc.StoredAt(after, cap, base, ms, j)
  {
    var at := base + Spsc.Pos(ms, j);
    var slot, start := Slot(at, cap), Slot(base + Total(ms), cap);
    Spsc.PosMonotone(ms, j + 1, |ms|);
    var n := |ms[j]|;
    if slot < start + size && start < slot + n {
      // the two ranges would share an index
      var i := if slot < start then start else slot;
      BytesDisjoint(cap, base + Total(ms), i - start, at, i - slot);
    }
    assert after[slot..slot + n] == before[slot..slot + n];
  }

  lemma {:induction false} PosDrop(ms: seq<Msg>, j: nat)
    requires 0 < |ms| && j < |ms|
    ensures Spsc.Pos(ms, j + 1) == |ms[0]| + Spsc.Pos(ms[1..], j)
    decreases j
  {
    if j == 0 {
      assert Spsc.Pos(ms, 1) == Spsc.Pos(ms, 0) + |ms[0]|;
    } else {
      PosDrop(ms, j - 1);
    }
  }

  lemma StoredAppend(buf: seq<byte>, cap: nat, base: nat, ms: seq<Msg>, m: Msg)
    requires StoredAll(buf, cap, base, ms) && Spsc.Stored(buf, cap, base + Total(ms), m)
    ensures StoredAll(buf, cap, base, ms + [m]) && Total(ms + [m]) == Total(ms) + |m|
  {
    forall j | 0 <= j <= |ms| ensures Spsc.Pos(ms + [m], j) == Spsc.Pos(ms, j) {
      Spsc.PosAppend(ms, m, j);
    }
    forall j | 0 <= j < |ms + [m]| ensures Spsc.StoredAt(buf, cap, base, ms + [m], j) {
      if j < |ms| {
        assert Spsc.StoredAt(buf, cap, base, ms, j);
      }
    }
  }

  lemma StoredDrop(buf: seq<byte>, cap: nat, base: nat, ms: seq<Msg>, base': nat)
    requires StoredAll(buf, cap, base, ms) && ms != [] && base' == base + |ms[0]|
    ensures StoredAll(buf, cap, base', ms[1..]) && Total(ms) == |ms[0]| + Total(ms[1..])
  {
    var rest := ms[1..];
    PosDrop(ms, |ms| - 1);
    forall j | 0 <= j < |rest| ensures Spsc.StoredAt(buf, cap, base', rest, j) {
      PosDrop(ms, j);
      assert Spsc.StoredAt(buf, cap, base, ms, j + 1);
    }
  }

  lemma SeenBounds(ms: seq<Msg>, n: nat)
    requires NonEmpty(ms) && n <= |ms|
    ensures Spsc.Pos(ms, n) <= Total(ms)
    ensures n > 0 ==> 0 < |ms[0]| <= Spsc.Pos(ms, n)
    ensures n < |ms| ==> Spsc.Pos(ms, n) < Total(ms)
  {
    Spsc.PosMonotone(ms, n, |ms|);
    if n > 0 {
      assert Spsc.Pos(ms, 1) == Spsc.Pos(ms, 0) + |ms[0]|;
      Spsc.PosMonotone(ms, 1, n);
    }
  }

  // ---------------------------------------------------------------- the queue

  class Queue {
    const capacity: nat
    const wrapMask: nat
    const buffer: array<byte>

    // Shared
    var atomicR: u64
    var atomicW: u64
    // Producer local
    var w: u64
    var cachedR: u64
    // Consumer local
    var r: u64
    var cachedW: u64

    // The messages committed and not yet read, the unbounded read position in front of them, the unbounded read
    // position the producer has cached, and how many of the messages the consumer knows about.
    ghost var unread: seq<Msg>
    ghost var readPos: nat
    ghost var cachedReadPos: nat
    ghost var known: nat

    ghost predicate Valid()
      reads this, buffer
    {
      ValidFor(buffer[..])
    }

    /** The fields are consistent for a buffer with these bytes. */
    ghost predicate ValidFor(bytes: seq<byte>)
      reads this
    {
      && IsPow2(capacity) && 0 < 2 * capacity < TWO_64 && wrapMask == capacity - 1 && buffer.Length == 2 * capacity
      && NonEmpty(unread) && known <= |unread|
      && r == atomicR == Wrap(readPos) && w == atomicW == Wrap(readPos + Total(unread))
      && cachedR == Wrap(cachedReadPos) && cachedW == Wrap(readPos + Spsc.Pos(unread, known))
      && cachedReadPos <= readPos && readPos + Total(unread) <= cachedReadPos + capacity
      && StoredAll(bytes, capacity, readPos, unread)
    }

    ghost function Used(): nat
      reads this
    {
      Total(unread)
    }

    /** Where the next message starts. */
    ghost function Start(): nat
      reads this
      requires capacity > 0
    {
      Slot(readPos + Used(), capacity)
    }

    constructor (minCapacity: nat)
      requires 2 * BitCeil(minCapacity) < TWO_64
      ensures Valid() && fresh(buffer) && capacity == BitCeil(minCapacity)
      ensures unread == []
    {
      var c := BitCeil(minCapacity);
      capacity := c;
      wrapMask := c - 1;
      buffer := new byte[2 * c](_ => 0);
      atomicR, atomicW, w, cachedR, r, cachedW := 0, 0, 0, 0, 0, 0;
      unread, readPos, cachedReadPos, known := [], 0, 0, 0;
    }

    /** Granted if and only if the used bytes and the new ones fit the capacity, however stale the cache was. The
        granted range lies in the buffer right behind the last message. */
    method ReserveWrite(size: nat) returns (res: WriteReservation)
      requires Valid()
      modifies this`cachedR, this`cachedReadPos
      ensures Valid()
      ensures res.Writable? <==> Used() + size <= capacity
      ensures res.Writable? ==> res.offset == Start() && res.offset + size <= buffer.Length
      ensures res.Writable? ==> res.newWritePos == Add64(w, size)
      ensures res.Writable? ==> readPos + Used() + size <= cachedReadPos + capacity
    {
      var free := FreeSpace(cachedReadPos);
      if free < size {
        ReloadReadPosition();
        free := FreeSpace(cachedReadPos);
        if free < size {
          return NoSpace;
        }
      }
      MaskOfWrapped(readPos + Used(), capacity);
      return Writable(And(w, wrapMask), Add64(w, size));
    }

    method ReloadReadPosition()
      requires Valid()
      modifies this`cachedR, this`cachedReadPos
      ensures Valid() && cachedR == atomicR && cachedReadPos == readPos
    {
      cachedR := atomicR;
      cachedReadPos := readPos;
    }

    /** cached read position + capacity - write position, in wrapping arithmetic. */
    method FreeSpace(ghost read: nat) returns (free: nat)
      requires Valid() && cachedR == Wrap(read) && read <= readPos && readPos + Used() <= read + capacity
      ensures free == read + capacity - (readPos + Used())
    {
      FreeSpaceWord(read, capacity, readPos + Used());
      free := Sub64(Add64(cachedR, capacity), w);
    }

    /** Writing into a granted reservation keeps the queue as it is. */
    lemma ReservationIsFree(before: seq<byte>, size: nat)
      requires ValidFor(before) && |before| == buffer.Length && Used() + size <= capacity
      requires forall i :: 0 <= i < |before| && !(Start() <= i < Start() + size) ==> buffer[..][i] == before[i]
      ensures Valid()
    {
      FreeRangeIsDisjoint(before, buffer[..], capacity, readPos, unread, size);
    }

    /** Publishes the bytes at the reservation as the next message. */
    method CommitWrite(newWritePos: u64, ghost msg: Msg)
      requires Valid() && msg != [] && Used() + |msg| <= capacity && newWritePos == Add64(w, |msg|)
      requires Start() + |msg| <= buffer.Length && buffer[Start()..Start() + |msg|] == msg
      requires readPos + Used() + |msg| <= cachedReadPos + capacity
      modifies this`w, this`atomicW, this`unread
      ensures Valid() && unread == old(unread) + [msg]
    {
      AppendedMessages(msg);
      w := newWritePos;
      atomicW := w;
      unread := unread + [msg];
    }

    lemma AppendedMessages(msg: Msg)
      requires Valid() && msg != []
      requires Start() + |msg| <= buffer.Length && buffer[Start()..Start() + |msg|] == msg
      ensures var ms := unread + [msg];
        && StoredAll(buffer[..], capacity, readPos, ms) && NonEmpty(ms) && known <= |ms|
        && Spsc.Pos(ms, known) == Spsc.Pos(unread, known)
        && Total(ms) == Total(unread) + |msg| && Add64(w, |msg|) == Wrap(readPos + Total(ms))
    {
      WrapAdd(readPos + Used(), |msg|);
      BufferStores(msg);
      StoredAppend(buffer[..], capacity, readPos, unread, msg);
      Spsc.PosAppend(unread, msg, known);
    }

    lemma BufferStores(msg: Msg)
      requires capacity > 0 && Start() + |msg| <= buffer.Length && buffer[Start()..Start() + |msg|] == msg
      ensures Spsc.Stored(buffer[..], capacity, readPos + Used(), msg)
    {
      assert buffer[..][Start()..Start() + |msg|] == buffer[Start()..Start() + |msg|];
    }

    /** The test compares wrapped words with <=, yet it is exact. */
    method IsEmpty() returns (empty: bool)
      requires Valid()
      modifies this`cachedW, this`known
      ensures Valid()
      ensures empty <==> unread == []
      ensures !empty ==> known > 0
    {
      SeenBounds(unread, known);
      SeenBounds(unread, |unread|);
      if cachedW <= r {
        cachedW := atomicW;
        known := |unread|;
        if unread != [] {
          WrapDistinct(readPos + Total(unread), readPos);
        }
        return cachedW == r;
      } else {
        return false;
      }
    }

    /** Hands out the oldest message as one contiguous block. */
    method ReserveRead() returns (res: ReadReservation)
      requires Valid()
      modifies this`cachedW, this`known
      ensures Valid()
      ensures res.NothingToRead? <==> unread == []
      ensures res.Readable? ==>
        && known > 0 && res.currentReadPos == r
        && res.offset + |unread[0]| <= buffer.Length
        && buffer[res.offset..res.offset + |unread[0]|] == unread[0]
    {
      var empty := IsEmpty();
      if empty {
        return NothingToRead;
      }
      MaskOfWrapped(readPos, capacity);
      OldestIsStored();
      return Readable(And(r, wrapMask), r);
    }

    lemma OldestIsStored()
      requires Valid() && unread != []
      ensures var at := Slot(readPos, capacity);
        at + |unread[0]| <= buffer.Length && buffer[at..at + |unread[0]|] == unread[0]
    {
      assert Spsc.StoredAt(buffer[..], capacity, readPos, unread, 0);
      var at := Slot(readPos, capacity);
      assert buffer[..][at..at + |unread[0]|] == buffer[at..at + |unread[0]|];
    }

    /** Frees the oldest message; the caller passes the position behind it. */
    method CommitRead(newReadPos: u64)
      requires Valid() && known > 0 && newReadPos == Add64(r, |unread[0]|)
      modifies this`r, this`atomicR, this`unread, this`readPos, this`known
      ensures Valid() && unread == old(unread)[1..]
    {
      RemainingMessages();
      r := newReadPos;
      atomicR := r;
      readPos := readPos + |unread[0]|;
      unread := unread[1..];
      known := known - 1;
    }

    lemma RemainingMessages()
      requires Valid() && known > 0
      ensures var ms, at := unread[1..], readPos + |unread[0]|;
        && StoredAll(buffer[..], capacity, at, ms) && NonEmpty(ms) && known - 1 <= |ms|
        && readPos + Spsc.Pos(unread, known) == at + Spsc.Pos(ms, known - 1)
        && readPos + Total(unread) == at + Total(ms) && Add64(r, |unread[0]|) == Wrap(at)
    {
      WrapAdd(readPos, |unread[0]|);
      StoredDrop(buffer[..], capacity, readPos, unread, readPos + |unread[0]|);
      PosDrop(unread, known - 1);
    }
  }
}
