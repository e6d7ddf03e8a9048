/** The single-producer single-consumer byte queue as a transition system.

    Every shared access is its own step: the producer's admission check, its reload of the read
    position, each copied byte and the commit; the consumer's emptiness check, its reload of the
    write position, each copied byte and the commit. Positions are 64-bit words that wrap. Each atomic
    is its whole modification order, and an acquire load may return any entry that is not older than
    the one this thread saw last. */
module Spsc {
  import opened Words

  type Msg = seq<byte>

  /** How the consumer finds the end of a message: a prefix of fixed size determines its length. */
  datatype Frame = Frame(header: nat, size: Msg -> nat)

  ghost predicate GoodFrame(f: Frame) {
    && f.header > 0
    && forall m: Msg, n: nat :: f.header <= n <= |m| ==> f.size(m[..n]) == f.size(m)
  }

  /** A message whose header announces exactly its own length. */
  ghost predicate Framed(f: Frame, m: Msg) {
    f.header <= |m| < TWO_64 && f.size(m) == |m|
  }

  datatype Producer =
    | PIdle
    | PReload(msg: Msg)            // not enough space against the cached read position
    | PCopy(msg: Msg, done: nat)   // reservation granted, done bytes copied

  datatype Consumer =
    | CIdle
    | CReload                      // looked empty against the cached write position
    | CCopy(got: Msg)              // reservation granted, got is what was copied so far

  datatype State = State(
    frame: Frame,
    cap: nat,
    buf: seq<byte>,
    pubR: seq<u64>,                // modification order of the atomic read position
    pubW: seq<u64>,                // modification order of the atomic write position
    w: u64, cachedR: u64, seenR: nat, p: Producer,
    r: u64, cachedW: u64, seenW: nat, c: Consumer,
    committed: seq<Msg>,           // history: messages whose write was committed
    consumed: seq<Msg>)            // history: messages whose read was committed

  function Init(frame: Frame, capacity: nat): State {
    var cap := BitCeil(capacity);
    State(frame, cap, seq(2 * cap, _ => 0), [0], [0], 0, 0, 0, PIdle, 0, 0, 0, CIdle, [], [])
  }

  // ---------------------------------------------------------------- steps

  /** Free space as the producer computes it, in wrapping arithmetic. */
  function Free(s: State, cachedR: u64): u64 {
    Sub64(Add64(cachedR, s.cap), s.w)
  }

  function Offset(s: State, position: u64): nat
    requires s.cap > 0
  {
    And(position, s.cap - 1)
  }

  ghost predicate Begin(s: State, s': State, msg: Msg) {
    && s.p.PIdle?
    && Framed(s.frame, msg)
    && s' == s.(p := if Free(s, s.cachedR) < |msg| then PReload(msg) else PCopy(msg, 0))
  }

  ghost predicate ReloadR(s: State, s': State, i: nat) {
    && s.p.PReload?
    && s.seenR <= i < |s.pubR|
    && s' == s.(cachedR := s.pubR[i], seenR := i,
                p := if Free(s, s.pubR[i]) < |s.p.msg| then PIdle else PCopy(s.p.msg, 0))
  }

  ghost predicate CopyIn(s: State, s': State) {
    && s.p.PCopy? && s.p.done < |s.p.msg| && s.cap > 0
    && var at := Offset(s, s.w) + s.p.done;
    && at < |s.buf|
    && s' == s.(buf := s.buf[at := s.p.msg[s.p.done]], p := PCopy(s.p.msg, s.p.done + 1))
  }

  ghost predicate CommitWrite(s: State, s': State) {
    && s.p.PCopy? && s.p.done == |s.p.msg|
    && var w := Add64(s.w, |s.p.msg|);
    && s' == s.(w := w, pubW := s.pubW + [w], p := PIdle, committed := s.committed + [s.p.msg])
  }

  ghost predicate ProducerNext(s: State, s': State) {
    || (exists msg :: Begin(s, s', msg))
    || (exists i :: ReloadR(s, s', i))
    || CopyIn(s, s')
    || CommitWrite(s, s')
  }

  ghost predicate CheckEmpty(s: State, s': State) {
    && s.c.CIdle?
    && s' == s.(c := if s.cachedW <= s.r then CReload else CCopy([]))
  }

  ghost predicate ReloadW(s: State, s': State, i: nat) {
    && s.c.CReload?
    && s.seenW <= i < |s.pubW|
    && s' == s.(cachedW := s.pubW[i], seenW := i, c := if s.pubW[i] == s.r then CIdle else CCopy([]))
  }

  /** The consumer still needs bytes: the header, or the payload the header announced. */
  ghost predicate Wants(f: Frame, got: Msg) {
    |got| < f.header || |got| < f.size(got)
  }

  ghost predicate CopyOut(s: State, s': State) {
    && s.c.CCopy? && Wants(s.frame, s.c.got) && s.cap > 0
    && var at := Offset(s, s.r) + |s.c.got|;
    && at < |s.buf|
    && s' == s.(c := CCopy(s.c.got + [s.buf[at]]))
  }

  ghost predicate CommitRead(s: State, s': State) {
    && s.c.CCopy? && !Wants(s.frame, s.c.got)
    && var r := Add64(s.r, s.frame.size(s.c.got));
    && s' == s.(r := r, pubR := s.pubR + [r], c := CIdle, consumed := s.consumed + [s.c.got])
  }

  ghost predicate ConsumerNext(s: State, s': State) {
    || CheckEmpty(s, s')
    || (exists i :: ReloadW(s, s', i))
    || CopyOut(s, s')
    || CommitRead(s, s')
  }

  ghost predicate Next(s: State, s': State) {
    ProducerNext(s, s') || ConsumerNext(s, s')
  }

  /** The framing is usable and the double-length buffer can be allocated. */
  ghost predicate CanStart(frame: Frame, capacity: nat) {
    GoodFrame(frame) && 2 * BitCeil(capacity) < TWO_64
  }

  ghost predicate IsRun(run: seq<State>) {
    && |run| > 0
    && (exists frame, capacity: nat :: CanStart(frame, capacity) && run[0] == Init(frame, capacity))
    && forall i :: 0 < i < |run| ==> Next(run[i - 1], run[i])
  }

  // ---------------------------------------------------------------- logical positions

  /** Unbounded position of the i-th message boundary. */
  function Pos(ms: seq<Msg>, i: nat): nat
    requires i <= |ms|
  {
    if i == 0 then 0 else Pos(ms, i - 1) + |ms[i - 1]|
  }

  lemma {:induction false} PosAppend(ms: seq<Msg>, m: Msg, i: nat)
    requires i <= |ms|
    ensures Pos(ms + [m], i) == Pos(ms, i)
    decreases i
  {
    if i > 0 {
      PosAppend(ms, m, i - 1);
    }
  }

  lemma {:induction false} PosMonotone(ms: seq<Msg>, i: nat, j: nat)
    requires i <= j <= |ms|
    requires forall k :: 0 <= k < |ms| ==> ms[k] != []
    ensures Pos(ms, i) + (j - i) <= Pos(ms, j)
    decreases j
  {
    if i < j {
      PosMonotone(ms, i, j - 1);
    }
  }

  function Tail(s: State): nat { Pos(s.committed, |s.committed|) }

  // ---------------------------------------------------------------- invariant

  /** Message m lies contiguously in the buffer at the slot of logical position at. */
  ghost predicate Stored(buf: seq<byte>, cap: nat, at: nat, m: Msg) {
    && cap > 0
    && Slot(at, cap) + |m| <= |buf|
    && buf[Slot(at, cap)..Slot(at, cap) + |m|] == m
  }

  /** Message j of a sequence that starts at logical position base. */
  ghost predicate StoredAt(buf: seq<byte>, cap: nat, base: nat, ms: seq<Msg>, j: nat) {
    j < |ms| && Stored(buf, cap, base + Pos(ms, j), ms[j])
  }

  ghost predicate Shape(s: State) {
    && IsPow2(s.cap) && 0 < 2 * s.cap < TWO_64 && |s.buf| == 2 * s.cap
    && (forall k :: 0 <= k < |s.committed| ==> 0 < |s.committed[k]| < TWO_64)
    && |s.consumed| <= |s.committed|
    && (forall k :: 0 <= k < |s.consumed| ==> s.consumed[k] == s.committed[k])
  }

  /** The 64-bit words are the wrapped logical positions, and in logical terms
      seenR <= read <= seenW <= written <= seenR + capacity. */
  ghost predicate Positions(s: State)
    requires |s.consumed| <= |s.committed|
  {
    && |s.pubW| == |s.committed| + 1 && |s.pubR| == |s.consumed| + 1
    && (forall i {:trigger s.pubW[i]} :: 0 <= i < |s.pubW| ==> s.pubW[i] == Wrap(Pos(s.committed, i)))
    && (forall i {:trigger s.pubR[i]} :: 0 <= i < |s.pubR| ==> s.pubR[i] == Wrap(Pos(s.committed, i)))
    && s.w == s.pubW[|s.committed|] && s.r == s.pubR[|s.consumed|]
    && s.seenR <= |s.consumed| <= s.seenW <= |s.committed|
    && s.cachedR == s.pubR[s.seenR] && s.cachedW == s.pubW[s.seenW]
    && Tail(s) <= Pos(s.committed, s.seenR) + s.cap
  }

  ghost predicate Contents(s: State) {
    forall j :: |s.consumed| <= j < |s.committed| ==> StoredAt(s.buf, s.cap, 0, s.committed, j)
  }

  ghost predicate ProducerOk(s: State)
    requires s.seenR <= |s.committed|
  {
    match s.p
    case PIdle => true
    case PReload(msg) => 0 < |msg| < TWO_64
    case PCopy(msg, done) =>
      && 0 < |msg| < TWO_64 && done <= |msg|
      && Tail(s) + |msg| <= Pos(s.committed, s.seenR) + s.cap
      && Stored(s.buf, s.cap, Tail(s), msg[..done])
  }

  ghost predicate ConsumerOk(s: State) {
    s.c.CCopy? ==>
      && |s.consumed| < s.seenW && |s.consumed| < |s.committed|
      && s.c.got <= s.committed[|s.consumed|]
  }

  ghost predicate Core(s: State) {
    Shape(s) && Positions(s) && Contents(s) && ProducerOk(s) && ConsumerOk(s)
  }

  /** Every message that was or is being written announces its own length. */
  ghost predicate Frames(s: State) {
    && GoodFrame(s.frame)
    && (forall k :: 0 <= k < |s.committed| ==> Framed(s.frame, s.committed[k]))
    && (s.p.PReload? || s.p.PCopy? ==> Framed(s.frame, s.p.msg))
  }

  ghost predicate Inv(s: State) {
    Core(s) && Frames(s)
  }

  lemma InitInv(frame: Frame, capacity: nat)
    requires CanStart(frame, capacity)
    ensures Inv(Init(frame, capacity))
  {
    var s := Init(frame, capacity);
    var k: nat :| s.cap == Pow2(k);
    assert Pos(s.committed, 0) == 0;
  }

  // ---------------------------------------------------------------- what the arithmetic means

  lemma Boundaries(s: State, i: nat, j: nat)
    requires Shape(s) && i <= j <= |s.committed|
    ensures Pos(s.committed, i) + (j - i) <= Pos(s.committed, j)
  {
    PosMonotone(s.committed, i, j);
  }

  /** The wrapping expression of the producer is the exact free space. */
  lemma FreeIsExact(s: State, i: nat)
    requires Shape(s) && Positions(s) && s.seenR <= i < |s.pubR|
    ensures Free(s, s.pubR[i]) == Pos(s.committed, i) + s.cap - Tail(s)
  {
    var base := Pos(s.committed, i);
    Boundaries(s, s.seenR, i);
    Boundaries(s, i, |s.committed|);
    FreeSpaceWord(base, s.cap, Tail(s));
  }

  /** The mask selects the slot of the logical position, and the slot leaves room for any message. */
  lemma OffsetIsSlot(s: State, position: nat)
    requires Shape(s)
    ensures Offset(s, Wrap(position)) == Slot(position, s.cap) < s.cap
  {
    MaskOfWrapped(position, s.cap);
  }

  /** Two published boundaries wrap to the same word only when they are the same boundary, as long as
      they are at most a capacity apart. */
  lemma BoundariesDiffer(s: State, i: nat, j: nat)
    requires Shape(s) && Positions(s)
    requires |s.consumed| <= i < j <= |s.committed|
    ensures Wrap(Pos(s.committed, i)) != Wrap(Pos(s.committed, j))
  {
    Boundaries(s, s.seenR, i);
    Boundaries(s, i, j);
    Boundaries(s, j, |s.committed|);
    WrapDistinct(Pos(s.committed, j), Pos(s.committed, i));
  }

  /** The emptiness test is right although it compares wrapped words: the cached comparison never
      claims a message that is not there, and after a reload "empty" means that the observed
      publication is the consumer's own position. */
  lemma EmptyTestIsExact(s: State, i: nat)
    requires Shape(s) && Positions(s)
    requires s.seenW <= i < |s.pubW|
    ensures s.cachedW > s.r ==> |s.consumed| < s.seenW
    ensures s.pubW[i] == s.r <==> i == |s.consumed|
  {
    if |s.consumed| < i {
      BoundariesDiffer(s, |s.consumed|, i);
    }
  }

  // ---------------------------------------------------------------- disjointness

  lemma UnreadBounds(s: State, j: nat)
    requires Shape(s) && s.seenR <= |s.consumed|
    requires |s.consumed| <= j < |s.committed|
    ensures Pos(s.committed, s.seenR) <= Pos(s.committed, j)
    ensures Pos(s.committed, j) + |s.committed[j]| <= Tail(s)
  {
    Boundaries(s, s.seenR, j);
    Boundaries(s, j + 1, |s.committed|);
  }

  /** A byte of the reservation and a byte of an unread message never coincide. */
  lemma ReservedVersusUnread(s: State, k: nat, j: nat, i: nat)
    requires Shape(s) && Positions(s) && ProducerOk(s) && s.p.PCopy?
    requires k < |s.p.msg|
    requires |s.consumed| <= j < |s.committed| && i < |s.committed[j]|
    ensures Slot(Tail(s), s.cap) + k != Slot(Pos(s.committed, j), s.cap) + i
  {
    UnreadBounds(s, j);
    BytesDisjoint(s.cap, Tail(s), k, Pos(s.committed, j), i);
  }

  // ---------------------------------------------------------------- preservation

  lemma StoredNothing(buf: seq<byte>, cap: nat, at: nat, m: Msg)
    requires 0 < cap <= |buf|
    ensures Stored(buf, cap, at, m[..0])
  {
  }

  lemma GrantedReservation(s: State, msg: Msg)
    requires Shape(s) && Positions(s) && 0 < |msg| < TWO_64
    requires Tail(s) + |msg| <= Pos(s.committed, s.seenR) + s.cap
    ensures ProducerOk(s.(p := PCopy(msg, 0)))
  {
    StoredNothing(s.buf, s.cap, Tail(s), msg);
  }

  lemma BeginCore(s: State, s': State, msg: Msg)
    requires Core(s) && s.p.PIdle? && 0 < |msg| < TWO_64
    requires s' == s.(p := if Free(s, s.cachedR) < |msg| then PReload(msg) else PCopy(msg, 0))
    ensures Core(s')
  {
    FreeIsExact(s, s.seenR);
    if s'.p.PCopy? {
      GrantedReservation(s, msg);
    }
  }

  lemma ReloadRCore(s: State, s': State, i: nat)
    requires Core(s) && ReloadR(s, s', i)
    ensures Core(s')
  {
    FreeIsExact(s, i);
    Boundaries(s, s.seenR, i);
    StoredNothing(s.buf, s.cap, Tail(s), s.p.msg);
    assert Positions(s') && ProducerOk(s');
  }

  lemma StoredElsewhere(buf: seq<byte>, cap: nat, at: nat, m: Msg, index: nat, b: byte)
    requires Stored(buf, cap, at, m) && index < |buf|
    requires index < Slot(at, cap) || Slot(at, cap) + |m| <= index
    ensures Stored(buf[index := b], cap, at, m)
  {
  }

  lemma StoredGrows(buf: seq<byte>, cap: nat, at: nat, m: Msg, done: nat)
    requires done < |m| && Stored(buf, cap, at, m[..done]) && Slot(at, cap) + done < |buf|
    ensures Stored(buf[Slot(at, cap) + done := m[done]], cap, at, m[..done + 1])
  {
    assert m[..done + 1] == m[..done] + [m[done]];
  }

  /** Writing one byte of the reservation leaves every unread message as it was. */
  lemma UnreadUntouched(s: State, index: nat, b: byte, buf: seq<byte>)
    requires Shape(s) && Positions(s) && Contents(s) && ProducerOk(s) && s.p.PCopy? && s.p.done < |s.p.msg|
    requires index == Slot(Tail(s), s.cap) + s.p.done < |s.buf| && buf == s.buf[index := b]
    ensures forall j :: |s.consumed| <= j < |s.committed| ==> StoredAt(buf, s.cap, 0, s.committed, j)
  {
    forall j | |s.consumed| <= j < |s.committed| ensures StoredAt(buf, s.cap, 0, s.committed, j) {
      assert StoredAt(s.buf, s.cap, 0, s.committed, j);
      var base := Slot(Pos(s.committed, j), s.cap);
      if base <= index < base + |s.committed[j]| {
        ReservedVersusUnread(s, s.p.done, j, index - base);
      }
      StoredElsewhere(s.buf, s.cap, Pos(s.committed, j), s.committed[j], index, b);
    }
  }

  lemma CopyInCore(s: State, s': State)
    requires Core(s) && CopyIn(s, s')
    ensures Core(s')
  {
    OffsetIsSlot(s, Tail(s));
    var msg, done := s.p.msg, s.p.done;
    StoredGrows(s.buf, s.cap, Tail(s), msg, done);
    UnreadUntouched(s, Slot(Tail(s), s.cap) + done, msg[done], s'.buf);
    assert Positions(s');
    assert Contents(s');
    assert ProducerOk(s');
  }

  lemma PositionsAfterWrite(s: State, msg: Msg)
    requires |s.consumed| <= |s.committed| && Positions(s)
    ensures var ms := s.committed + [msg];
      && (forall i :: 0 <= i <= |s.committed| ==> Pos(ms, i) == Pos(s.committed, i))
      && Pos(ms, |ms|) == Tail(s) + |msg|
      && Add64(s.w, |msg|) == Wrap(Pos(ms, |ms|))
  {
    forall i | 0 <= i <= |s.committed| ensures Pos(s.committed + [msg], i) == Pos(s.committed, i) {
      PosAppend(s.committed, msg, i);
    }
    WrapAdd(Tail(s), |msg|);
  }

  lemma CommitWritePositions(s: State, s': State)
    requires Core(s) && CommitWrite(s, s')
    ensures |s'.consumed| <= |s'.committed| && Positions(s')
  {
    PositionsAfterWrite(s, s.p.msg);
  }

  lemma CommitWriteContents(s: State, s': State)
    requires Core(s) && CommitWrite(s, s')
    ensures Contents(s')
  {
    PositionsAfterWrite(s, s.p.msg);
    var n := |s.committed|;
    assert s.p.msg[..|s.p.msg|] == s.p.msg;
    assert StoredAt(s'.buf, s'.cap, 0, s'.committed, n);
    forall j | |s'.consumed| <= j < n ensures StoredAt(s'.buf, s'.cap, 0, s'.committed, j) {
      assert StoredAt(s.buf, s.cap, 0, s.committed, j);
    }
  }

  lemma CommitWriteCore(s: State, s': State)
    requires Core(s) && CommitWrite(s, s')
    ensures Core(s')
  {
    CommitWritePositions(s, s');
    CommitWriteContents(s, s');
    assert Shape(s');
  }

  lemma CheckEmptyCore(s: State, s': State)
    requires Core(s) && CheckEmpty(s, s')
    ensures Core(s')
  {
    EmptyTestIsExact(s, s.seenW);
    assert ConsumerOk(s');
  }

  lemma ReloadWCore(s: State, s': State, i: nat)
    requires Core(s) && ReloadW(s, s', i)
    ensures Core(s')
  {
    EmptyTestIsExact(s, i);
    assert Positions(s') && ConsumerOk(s');
  }

  /** The next byte the consumer copies is the next byte of the message it is reading. */
  lemma NextByte(s: State)
    requires Core(s) && s.c.CCopy? && |s.c.got| < |s.committed[|s.consumed|]|
    ensures var m, at := s.committed[|s.consumed|], Offset(s, s.r) + |s.c.got|;
            at < |s.buf| && s.buf[at] == m[|s.c.got|]
  {
    var n := |s.consumed|;
    var m, got := s.committed[n], s.c.got;
    OffsetIsSlot(s, Pos(s.committed, n));
    assert StoredAt(s.buf, s.cap, 0, s.committed, n);
    var base := Slot(Pos(s.committed, n), s.cap);
    assert s.buf[base..base + |m|][|got|] == s.buf[base + |got|];
  }

  /** The length announced by the copied prefix is the length of the message being read. */
  lemma PrefixFindsLength(s: State)
    requires Inv(s) && s.c.CCopy?
    ensures s.frame.header <= |s.c.got| ==> s.frame.size(s.c.got) == |s.committed[|s.consumed|]|
    ensures Wants(s.frame, s.c.got) <==> |s.c.got| < |s.committed[|s.consumed|]|
  {
    var m := s.committed[|s.consumed|];
    assert Framed(s.frame, m);
    assert s.c.got == m[..|s.c.got|];
  }

  lemma CopyOutCore(s: State, s': State)
    requires Core(s) && s.c.CCopy? && |s.c.got| < |s.committed[|s.consumed|]|
    requires CopyOut(s, s')
    ensures Core(s')
  {
    NextByte(s);
    assert ConsumerOk(s');
  }

  /** When the consumer stops copying it holds the whole message, nothing less and nothing more. */
  lemma WholeMessage(s: State)
    requires Inv(s) && s.c.CCopy? && !Wants(s.frame, s.c.got)
    ensures s.c.got == s.committed[|s.consumed|] && s.frame.size(s.c.got) == |s.c.got|
  {
    PrefixFindsLength(s);
  }

  lemma PositionsAfterRead(s: State, r: u64, got: Msg)
    requires |s.consumed| < |s.committed| && Positions(s) && |s.consumed| < s.seenW
    requires r == Wrap(Pos(s.committed, |s.consumed| + 1))
    ensures Positions(s.(r := r, pubR := s.pubR + [r], c := CIdle, consumed := s.consumed + [got]))
  {
    var pubR := s.pubR + [r];
    forall i | 0 <= i < |pubR| ensures pubR[i] == Wrap(Pos(s.committed, i)) {
      if i < |s.pubR| {
        assert pubR[i] == s.pubR[i];
      }
    }
  }

  lemma ReadExtendsPrefix(s: State)
    requires Shape(s) && |s.consumed| < |s.committed|
    ensures var consumed := s.consumed + [s.committed[|s.consumed|]];
            forall k :: 0 <= k < |consumed| ==> consumed[k] == s.committed[k]
  {
  }

  lemma RestUnchanged(s: State, r: u64)
    requires Core(s) && |s.consumed| < |s.committed|
    ensures var s' := s.(r := r, pubR := s.pubR + [r], c := CIdle, consumed := s.consumed + [s.committed[|s.consumed|]]);
            Shape(s') && Contents(s') && ProducerOk(s')
  {
    ReadExtendsPrefix(s);
  }

  lemma CommitReadCore(s: State, s': State, r: u64)
    requires Core(s) && s.c.CCopy? && s.c.got == s.committed[|s.consumed|]
    requires r == Add64(s.r, |s.c.got|)
    requires s' == s.(r := r, pubR := s.pubR + [r], c := CIdle, consumed := s.consumed + [s.c.got])
    ensures Core(s')
  {
    assert Positions(s') by {
      WrapAdd(Pos(s.committed, |s.consumed|), |s.c.got|);
      PositionsAfterRead(s, r, s.c.got);
    }
    RestUnchanged(s, r);
  }

  lemma ProducerFrames(s: State, s': State)
    requires Frames(s) && ProducerNext(s, s')
    ensures Frames(s')
  {
  }

  lemma ProducerInv(s: State, s': State)
    requires Inv(s) && ProducerNext(s, s')
    ensures Inv(s')
  {
    ProducerFrames(s, s');
    if msg :| Begin(s, s', msg) {
      BeginCore(s, s', msg);
    } else if i :| ReloadR(s, s', i) {
      ReloadRCore(s, s', i);
    } else if CopyIn(s, s') {
      CopyInCore(s, s');
    } else {
      CommitWriteCore(s, s');
    }
  }

  lemma ConsumerInv(s: State, s': State)
    requires Inv(s) && ConsumerNext(s, s')
    ensures Inv(s')
  {
    if CheckEmpty(s, s') {
      CheckEmptyCore(s, s');
    } else if i :| ReloadW(s, s', i) {
      ReloadWCore(s, s', i);
    } else {
      PrefixFindsLength(s);
      if CopyOut(s, s') {
        CopyOutCore(s, s');
      } else {
        WholeMessage(s);
        CommitReadCore(s, s', s'.r);
      }
    }
    assert Frames(s');
  }

  lemma NextInv(s: State, s': State)
    requires Inv(s) && Next(s, s')
    ensures Inv(s')
  {
    if ProducerNext(s, s') {
      ProducerInv(s, s');
    } else {
      ConsumerInv(s, s');
    }
  }

  lemma {:induction false} RunInv(run: seq<State>, i: nat)
    requires IsRun(run) && i < |run|
    ensures Inv(run[i])
    decreases i
  {
    if i == 0 {
      var frame, capacity: nat :| CanStart(frame, capacity) && run[0] == Init(frame, capacity);
      InitInv(frame, capacity);
    } else {
      RunInv(run, i - 1);
      NextInv(run[i - 1], run[i]);
    }
  }

  // ---------------------------------------------------------------- main results

  /** In every interleaving the messages read are, byte for byte, a prefix of the messages committed,
      and what is being copied out is a piece of the next committed message. */
  lemma ReadsArePrefixOfCommits(run: seq<State>, i: nat)
    requires IsRun(run) && i < |run|
    ensures var s := run[i];
      && s.consumed <= s.committed
      && (s.c.CCopy? ==> |s.consumed| < |s.committed| && s.c.got <= s.committed[|s.consumed|])
  {
    RunInv(run, i);
  }

  /** In every reachable state a granted reservation lies inside the buffer and is disjoint from every
      unread message, including the one the consumer is copying and messages that spill past the capacity. */
  lemma ReservationIsDisjoint(run: seq<State>, i: nat, k: nat, j: nat, b: nat)
    requires IsRun(run) && i < |run|
    requires run[i].p.PCopy? && k < |run[i].p.msg|
    requires |run[i].consumed| <= j < |run[i].committed| && b < |run[i].committed[j]|
    ensures var s := run[i];
      && s.cap > 0 && j < |s.pubW|
      && Offset(s, s.w) + k < |s.buf|
      && Offset(s, s.pubW[j]) + b < |s.buf|
      && Offset(s, s.w) + k != Offset(s, s.pubW[j]) + b
      && (j == |s.consumed| ==> s.pubW[j] == s.r)
  {
    RunInv(run, i);
    var s := run[i];
    OffsetIsSlot(s, Tail(s));
    OffsetIsSlot(s, Pos(s.committed, j));
    ReservedVersusUnread(s, k, j, b);
    Boundaries(s, s.seenR, |s.committed|);
    UnreadBounds(s, j);
  }

  /** No reachable state is stuck on an out-of-range index: a thread that still has bytes to copy can copy. */
  lemma CopiesStayInBounds(run: seq<State>, i: nat)
    requires IsRun(run) && i < |run|
    ensures var s := run[i];
      && s.cap > 0
      && (s.p.PCopy? && s.p.done < |s.p.msg| ==> Offset(s, s.w) + s.p.done < |s.buf|)
      && (s.c.CCopy? && Wants(s.frame, s.c.got) ==> Offset(s, s.r) + |s.c.got| < |s.buf|)
  {
    RunInv(run, i);
    var s := run[i];
    if s.p.PCopy? && s.p.done < |s.p.msg| {
      RoomToCopy(s);
    }
    if s.c.CCopy? && Wants(s.frame, s.c.got) {
      PrefixFindsLength(s);
      NextByte(s);
    }
  }

  /** Bytes between the observed read boundary and the end of the committed data. */
  function UsedSince(s: State, i: nat): nat
    requires i <= |s.committed|
    requires Pos(s.committed, i) <= Tail(s)
  {
    Tail(s) - Pos(s.committed, i)
  }

  /** Admission is exact: after a reload that observed boundary i, the reservation is refused if and only
      if used + size exceeds the capacity measured against that boundary; a refusal changes neither the
      published positions nor the data. */
  lemma AdmissionIsExact(s: State, s': State, i: nat)
    requires Inv(s) && ReloadR(s, s', i)
    ensures Pos(s.committed, i) <= Tail(s)
    ensures s'.p.PIdle? <==> UsedSince(s, i) + |s.p.msg| > s.cap
    ensures s'.buf == s.buf && s'.committed == s.committed && s'.consumed == s.consumed
    ensures s'.pubR == s.pubR && s'.pubW == s.pubW && s'.c == s.c
  {
    FreeIsExact(s, i);
    Boundaries(s, i, |s.committed|);
  }

  /** With the newest read position in view, whether through the cache or a reload, a write is granted if
      and only if used + size fits the capacity; so a grant without reload is never wrong either. */
  lemma WriteGrantedIffItFits(s: State, s1: State, s2: State, msg: Msg)
    requires Inv(s) && Begin(s, s1, msg)
    requires if s1.p.PCopy? then s2 == s1 else ReloadR(s1, s2, |s1.consumed|)
    ensures Pos(s.committed, |s.consumed|) <= Tail(s)
    ensures s2.p.PCopy? <==> UsedSince(s, |s.consumed|) + |msg| <= s.cap
  {
    FreeIsExact(s, s.seenR);
    FreeIsExact(s, |s.consumed|);
    Boundaries(s, s.seenR, |s.consumed|);
    Boundaries(s, |s.consumed|, |s.committed|);
  }

  /** A poll that observed publication i reports "nothing to read" exactly when every message up to that
      publication has been read; in particular a fresh load misses nothing. */
  lemma EmptyPollIsExact(s: State, s': State, i: nat)
    requires Inv(s) && ReloadW(s, s', i)
    ensures s'.c.CIdle? <==> s.consumed == s.committed[..i]
    ensures i == |s.committed| ==> (s'.c.CIdle? <==> s.consumed == s.committed)
  {
    EmptyTestIsExact(s, i);
    if i == |s.consumed| {
      assert s.consumed == s.committed[..i];
    }
  }

  lemma NothingBeyondPublication(s: State, i: nat)
    requires Inv(s) && i < |s.pubW|
    ensures i <= |s.committed|
  {
  }

  lemma RoomToCopy(s: State)
    requires Inv(s) && s.p.PCopy? && s.p.done < |s.p.msg|
    ensures s.cap > 0 && Offset(s, s.w) + s.p.done < |s.buf|
  {
    OffsetIsSlot(s, Tail(s));
    Boundaries(s, s.seenR, |s.committed|);
  }

  lemma CopyInInv(s: State, s': State)
    requires Inv(s) && CopyIn(s, s')
    ensures Inv(s')
  {
    CopyInCore(s, s');
  }

  /** A queue starts empty, with the least power of two that holds the requested capacity, and a buffer of twice that. */
  lemma InitIsEmpty(frame: Frame, capacity: nat, k: nat)
    ensures var s := Init(frame, capacity);
      && (exists j :: s.cap == Pow2(j)) && capacity <= s.cap && (capacity <= Pow2(k) ==> s.cap <= Pow2(k))
      && |s.buf| == 2 * s.cap && s.w == s.r == 0 && s.pubW == s.pubR == [0] && s.committed == s.consumed == []
  {
  }

  /** As long as positions have not wrapped, a poll reads without a reload exactly when it has already seen a message. */
  lemma CachedPositionSuffices(s: State, s': State)
    requires Inv(s) && CheckEmpty(s, s') && s.seenW <= |s.committed| && Pos(s.committed, s.seenW) < TWO_64
    ensures s'.c.CCopy? <==> |s.consumed| < s.seenW
  {
    if |s.consumed| < s.seenW {
      Boundaries(s, |s.consumed|, s.seenW);
    }
  }
}
