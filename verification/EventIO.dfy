/** Writing and reading log events in place: push_log_event encodes field after field behind an advancing buffer
    position, and the backend decodes them from the queue's own memory. */
module EventIO {
  import opened Words
  import opened Wrappers
  import opened Framing
  import opened Ring

  // ---------------------------------------------------------------- encoding

  /** Everything outside the range is as before. */
  ghost predicate OnlyChanged(before: seq<byte>, after: seq<byte>, from: nat, to: nat) {
    |after| == |before| && forall i :: 0 <= i < |before| && !(from <= i < to) ==> after[i] == before[i]
  }

  /** What was written before stays in front of what was written behind it. */
  lemma Behind(before: seq<byte>, after: seq<byte>, start: nat, mid: nat, end: nat)
    requires OnlyChanged(before, after, mid, end) && start <= mid <= end <= |before|
    ensures after[start..end] == before[start..mid] + after[mid..end]
  {
    assert after[start..mid] == before[start..mid];
  }

  /** memcpy to the buffer position, which advances. */
  method EncodeBytes(buf: array<byte>, pos: nat, bytes: seq<byte>) returns (next: nat)
    requires pos + |bytes| <= buf.Length
    modifies buf
    ensures next == pos + |bytes| && buf[pos..next] == bytes
    ensures OnlyChanged(old(buf[..]), buf[..], pos, next)
  {
    forall i | 0 <= i < |bytes| {
      buf[pos + i] := bytes[i];
    }
    next := pos + |bytes|;
  }

  method EncodeArg(buf: array<byte>, pos: nat, a: Arg) returns (next: nat)
    requires ValidArg(a) && pos + EncodedSize(a) <= buf.Length
    modifies buf
    ensures next == pos + EncodedSize(a) && buf[pos..next] == Encode(a)
    ensures OnlyChanged(old(buf[..]), buf[..], pos, next)
  {
    EncodeSize(a);
    match a
    case Scalar(bytes) =>
      next := EncodeBytes(buf, pos, bytes);
    case Text(_, chars) =>
      var body := EncodeBytes(buf, pos, WordBytes(|chars|));
      ghost var mid := buf[..];
      next := EncodeBytes(buf, body, Flatten(chars));
      Behind(mid, buf[..], pos, body, next);
  }

  /** The fold over the argument pack. */
  method EncodeArgs(buf: array<byte>, pos: nat, args: seq<Arg>) returns (next: nat)
    requires ValidArgs(args) && pos + TotalSize(args) <= buf.Length
    modifies buf
    ensures next == pos + TotalSize(args) && buf[pos..next] == EncodeAll(args)
    ensures OnlyChanged(old(buf[..]), buf[..], pos, next)
    decreases |args|
  {
    if args == [] {
      return pos;
    }
    var mid := EncodeArg(buf, pos, args[0]);
    ghost var before := buf[..];
    next := EncodeArgs(buf, mid, args[1..]);
    Behind(before, buf[..], pos, mid, next);
  }

  /** The header, written as four separate fields. */
  method EncodeHeader(buf: array<byte>, pos: nat, h: Header) returns (next: nat)
    requires pos + HEADER_SIZE <= buf.Length
    modifies buf
    ensures next == pos + HEADER_SIZE && buf[pos..next] == EncodeFields(h)
    ensures OnlyChanged(old(buf[..]), buf[..], pos, next)
  {
    var p1 := EncodeBytes(buf, pos, WordBytes(h.staticData));
    ghost var s1 := buf[..];
    var p2 := EncodeBytes(buf, p1, WordBytes(h.threadName));
    ghost var s2 := buf[..];
    Behind(s1, s2, pos, p1, p2);
    var p3 := EncodeBytes(buf, p2, WordBytes(h.timestamp));
    ghost var s3 := buf[..];
    Behind(s2, s3, pos, p2, p3);
    next := EncodeBytes(buf, p3, WordBytes(h.payloadSize));
    Behind(s3, buf[..], pos, p3, next);
  }

  method WriteEvent(buf: array<byte>, pos: nat, e: Event, argsSize: nat, ghost sites: Sites) returns (end: nat)
    requires ValidEvent(sites, e) && argsSize == TotalSize(e.args)
    requires pos + HEADER_SIZE + argsSize <= buf.Length
    modifies buf
    ensures end == pos + |EncodeEvent(e)| <= buf.Length && buf[pos..end] == EncodeEvent(e)
    ensures OnlyChanged(old(buf[..]), buf[..], pos, end)
  {
    EventIsFramed(sites, e);
    var body := EncodeHeader(buf, pos, Header(e.site, e.threadName, e.timestamp, Wrap(argsSize)));
    ghost var mid := buf[..];
    end := EncodeArgs(buf, body, e.args);
    Behind(mid, buf[..], pos, body, end);
  }

  /** Fills a granted reservation with the event and publishes it. */
  method FillReservation(q: Queue, offset: nat, newWritePos: u64, e: Event, argsSize: nat, ghost sites: Sites)
    requires q.Valid() && ValidEvent(sites, e) && argsSize == TotalSize(e.args)
    requires offset == q.Start() && offset + HEADER_SIZE + argsSize <= q.buffer.Length
    requires q.Used() + HEADER_SIZE + argsSize <= q.capacity && newWritePos == Add64(q.w, HEADER_SIZE + argsSize)
    requires q.readPos + q.Used() + HEADER_SIZE + argsSize <= q.cachedReadPos + q.capacity
    modifies q, q.buffer
    ensures q.Valid() && q.unread == old(q.unread) + [EncodeEvent(e)]
  {
    EventLength(sites, e);
    ghost var before := q.buffer[..];
    var end := WriteEvent(q.buffer, offset, e, argsSize, sites);
    q.ReservationIsFree(before, HEADER_SIZE + argsSize);
    q.CommitWrite(newWritePos, EncodeEvent(e));
  }

  lemma EventLength(sites: Sites, e: Event)
    requires ValidEvent(sites, e)
    ensures |EncodeEvent(e)| == HEADER_SIZE + TotalSize(e.args)
  {
    EventIsFramed(sites, e);
  }

  /** push_log_event: the event is appended as one message if and only if it fits; otherwise it is dropped and
      the queue keeps its messages. */
  method PushLogEvent(q: Queue, e: Event, ghost sites: Sites) returns (accepted: bool)
    requires q.Valid() && ValidEvent(sites, e)
    modifies q, q.buffer
    ensures q.Valid()
    ensures accepted <==> old(q.Used()) + |EncodeEvent(e)| <= q.capacity
    ensures q.unread == old(q.unread) + (if accepted then [EncodeEvent(e)] else [])
  {
    EventLength(sites, e);
    var argsSize := TotalSize(e.args);
    var write := q.ReserveWrite(argsSize + HEADER_SIZE);
    if write.NoSpace? {
      return false;
    }
    FillReservation(q, write.offset, write.newWritePos, e, argsSize, sites);
    return true;
  }

  // ---------------------------------------------------------------- decoding

  lemma WordInside(data: seq<byte>, pos: nat)
    requires pos + 8 <= |data|
    ensures WordAt(data[pos..], 0) == WordAt(data[pos..pos + 8], 0)
  {
    assert data[pos..][0..8] == data[pos..pos + 8][0..8];
  }

  /** A string in the middle of some data. */
  lemma DecodeTextAt(data: seq<byte>, pos: nat, charSize: nat, n: u64, size: nat)
    requires pos + 8 + size <= |data| && size == n * charSize && WordAt(data[pos..pos + 8], 0) == n
    ensures Decode(StringType(charSize), data[pos..])
            == Some((Text(charSize, Split(data[pos + 8..pos + 8 + size], charSize, n)), data[pos + 8 + size..]))
  {
    WordInside(data, pos);
    DecodeTextParts(charSize, data[pos..], n, size);
    assert data[pos..][8..8 + size] == data[pos + 8..pos + 8 + size];
    assert data[pos..][8 + size..] == data[pos + 8 + size..];
  }

  lemma TextFits(data: seq<byte>, pos: nat, charSize: nat)
    requires pos <= |data| && Decode(StringType(charSize), data[pos..]).Some?
    ensures pos + 8 <= |data| && pos + 8 + WordAt(data[pos..pos + 8], 0) * charSize <= |data|
  {
    WordInside(data, pos);
  }

  /** Decodes one argument at the position, which advances behind it. */
  method DecodeArg(buf: array<byte>, pos: nat, t: ArgType) returns (a: Arg, next: nat)
    requires pos <= buf.Length && Decode(t, buf[pos..]).Some?
    ensures pos <= next <= buf.Length && Decode(t, buf[pos..]) == Some((a, buf[next..]))
  {
    match t
    case ScalarType(size) =>
      next := pos + size;
      a := Scalar(buf[pos..next]);
      assert buf[pos..][..size] == buf[pos..next] && buf[pos..][size..] == buf[next..];
    case StringType(charSize) =>
      a, next := DecodeText(buf, pos, charSize);
  }

  method DecodeText(buf: array<byte>, pos: nat, charSize: nat) returns (a: Arg, next: nat)
    requires pos <= buf.Length && Decode(StringType(charSize), buf[pos..]).Some?
    ensures pos <= next <= buf.Length && Decode(StringType(charSize), buf[pos..]) == Some((a, buf[next..]))
  {
    ghost var data := buf[..];
    assert data[pos..] == buf[pos..];
    TextFits(data, pos, charSize);
    assert data[pos..pos + 8] == buf[pos..pos + 8];
    var n := WordAt(buf[pos..pos + 8], 0);
    var size := n * charSize;
    next := pos + 8 + size;
    a := Text(charSize, Split(buf[pos + 8..next], charSize, n));
    assert data[pos + 8..next] == buf[pos + 8..next] && data[next..] == buf[next..];
    DecodeTextAt(data, pos, charSize, n, size);
  }

  /** The fold over the argument types. */
  method DecodeArgs(buf: array<byte>, pos: nat, types: seq<ArgType>) returns (args: seq<Arg>, next: nat)
    requires pos <= buf.Length && DecodeAll(types, buf[pos..]).Some?
    ensures pos <= next <= buf.Length && DecodeAll(types, buf[pos..]) == Some((args, buf[next..]))
    decreases |types|
  {
    if types == [] {
      return [], pos;
    }
    var a, mid := DecodeArg(buf, pos, types[0]);
    var rest;
    rest, next := DecodeArgs(buf, mid, types[1..]);
    args := [a] + rest;
  }

  /** The message at the front of the data, decoded in its two parts. */
  lemma FrontEvent(sites: Sites, e: Event, s: seq<byte>)
    requires ValidEvent(sites, e) && |EncodeEvent(e)| <= |s| && s[..|EncodeEvent(e)|] == EncodeEvent(e)
    ensures |s| >= HEADER_SIZE && DecodeStruct(s) == HeaderOf(e)
    ensures |EncodeEvent(e)| == HEADER_SIZE + HeaderOf(e).payloadSize
    ensures DecodeAll(sites[e.site].types, s[HEADER_SIZE..]) == Some((e.args, s[|EncodeEvent(e)|..]))
  {
    EventIsFramed(sites, e);
    var m := EncodeEvent(e);
    var rest := s[|m|..];
    assert s == m + rest;
    SplitHeader(EncodeFields(HeaderOf(e)), EncodeAll(e.args), rest);
    StructMatchesFields(HeaderOf(e), EncodeAll(e.args) + rest);
    DecodeAllEncodeAll(e.args, rest);
  }

  lemma SameStruct(s: seq<byte>, prefix: seq<byte>)
    requires HEADER_SIZE <= |prefix| && prefix <= s
    ensures DecodeStruct(s) == DecodeStruct(prefix)
  {
    assert s[0..8] == prefix[0..8] && s[8..16] == prefix[8..16];
    assert s[16..24] == prefix[16..24] && s[24..32] == prefix[24..32];
  }

  /** read_and_process_single_event up to the decoded arguments: the event at the position and the number of
      bytes the header says it has, which is exactly the size of the message. */
  method DecodeInPlace(buf: array<byte>, at: nat, sites: Sites, ghost e: Event) returns (event: Event, total: nat)
    requires ValidEvent(sites, e) && at + |EncodeEvent(e)| <= buf.Length
    requires buf[at..at + |EncodeEvent(e)|] == EncodeEvent(e)
    ensures event == e && total == |EncodeEvent(e)|
  {
    ghost var s := buf[at..];
    assert s[..|EncodeEvent(e)|] == buf[at..at + |EncodeEvent(e)|];
    FrontEvent(sites, e, s);
    assert buf[at..at + HEADER_SIZE] <= s;
    SameStruct(s, buf[at..at + HEADER_SIZE]);
    var h := DecodeStruct(buf[at..at + HEADER_SIZE]);
    assert s[HEADER_SIZE..] == buf[at + HEADER_SIZE..];
    var args, end := DecodeArgs(buf, at + HEADER_SIZE, sites[h.staticData].types);
    return Event(h.staticData, h.threadName, h.timestamp, args), HEADER_SIZE + h.payloadSize;
  }

  /** One round of the backend on one queue: nothing if the queue is empty, else the oldest event, read in place. */
  method ReadEvent(q: Queue, sites: Sites) returns (r: Option<Event>)
    requires q.Valid() && forall i :: 0 <= i < |q.unread| ==> IsEvent(sites, q.unread[i])
    modifies q
    ensures q.Valid()
    ensures r.None? <==> old(q.unread) == []
    ensures r.None? ==> q.unread == old(q.unread)
    ensures r.Some? ==> r.value == EventOf(sites, old(q.unread)[0]) && q.unread == old(q.unread)[1..]
    ensures r.Some? ==> ValidEvent(sites, r.value) && old(q.unread)[0] == EncodeEvent(r.value)
  {
    var read := q.ReserveRead();
    if read.NothingToRead? {
      return None;
    }
    ghost var e := TheEvent(sites, q.unread[0]);
    var event, total := DecodeInPlace(q.buffer, read.offset, sites, e);
    q.CommitRead(Add64(read.currentReadPos, total));
    return Some(event);
  }

  lemma TheEvent(sites: Sites, m: seq<byte>) returns (e: Event)
    requires IsEvent(sites, m)
    ensures ValidEvent(sites, e) && m == EncodeEvent(e) && e == EventOf(sites, m)
  {
    e :| ValidEvent(sites, e) && m == EncodeEvent(e);
    EventSurvives(sites, e);
  }
}
