/** Log-event framing: the argument codec, the 32-byte event header, and the promise that a reader
    advancing by the header's payload size always lands on the next event. */
module Framing {
  import opened Words
  import opened Wrappers
  import Spsc

  /** The two families of encodable types: trivially copyable values of a fixed size, and
      basic_string with a character type of a fixed size. */
  datatype ArgType = ScalarType(size: nat) | StringType(charSize: nat)

  /** The characters of a string; its length is a size_t. */
  type Chars = c: seq<seq<byte>> | |c| < TWO_64

  /** A value, given by its object representation. */
  datatype Arg = Scalar(bytes: seq<byte>) | Text(charSize: nat, chars: Chars)

  function TypeOf(a: Arg): ArgType {
    match a
    case Scalar(bytes) => ScalarType(|bytes|)
    case Text(charSize, _) => StringType(charSize)
  }

  function TypesOf(args: seq<Arg>): (ts: seq<ArgType>)
    ensures |ts| == |args|
  {
    if args == [] then [] else [TypeOf(args[0])] + TypesOf(args[1..])
  }

  /** Every character has the size of its type. */
  ghost predicate ValidArg(a: Arg) {
    a.Text? ==> forall i :: 0 <= i < |a.chars| ==> |a.chars[i]| == a.charSize
  }

  ghost predicate ValidArgs(args: seq<Arg>) {
    forall i :: 0 <= i < |args| ==> ValidArg(args[i])
  }

  // ---------------------------------------------------------------- codec

  function EncodedSize(a: Arg): nat {
    match a
    case Scalar(bytes) => |bytes|
    case Text(charSize, chars) => 8 + |chars| * charSize
  }

  function TotalSize(args: seq<Arg>): nat {
    if args == [] then 0 else EncodedSize(args[0]) + TotalSize(args[1..])
  }

  function Flatten(chars: seq<seq<byte>>): seq<byte> {
    if chars == [] then [] else chars[0] + Flatten(chars[1..])
  }

  function Encode(a: Arg): seq<byte> {
    match a
    case Scalar(bytes) => bytes
    case Text(_, chars) => WordBytes(|chars|) + Flatten(chars)
  }

  function EncodeAll(args: seq<Arg>): seq<byte> {
    if args == [] then [] else Encode(args[0]) + EncodeAll(args[1..])
  }

  /** The first n characters of the given size. */
  function Split(bytes: seq<byte>, charSize: nat, n: nat): (chars: seq<seq<byte>>)
    requires |bytes| == n * charSize
    ensures |chars| == n
    ensures forall i :: 0 <= i < n ==> |chars[i]| == charSize
    decreases n
  {
    if n == 0 then []
    else
      assert n * charSize == charSize + (n - 1) * charSize;
      [bytes[..charSize]] + Split(bytes[charSize..], charSize, n - 1)
  }

  /** Decodes one value of a known type; None stands for reading past the end of the data. */
  function Decode(t: ArgType, bytes: seq<byte>): Option<(Arg, seq<byte>)> {
    match t
    case ScalarType(size) =>
      if |bytes| < size then None else Some((Scalar(bytes[..size]), bytes[size..]))
    case StringType(charSize) =>
      if |bytes| < 8 then None
      else
        var n := WordAt(bytes, 0);
        if |bytes| - 8 < n * charSize then None
        else Some((Text(charSize, Split(bytes[8..8 + n * charSize], charSize, n)), bytes[8 + n * charSize..]))
  }

  function DecodeAll(ts: seq<ArgType>, bytes: seq<byte>): Option<(seq<Arg>, seq<byte>)> {
    if ts == [] then Some(([], bytes))
    else
      match Decode(ts[0], bytes)
      case None => None
      case Some((a, rest)) =>
        match DecodeAll(ts[1..], rest)
        case None => None
        case Some((args, rest')) => Some(([a] + args, rest'))
  }

  // ---------------------------------------------------------------- codec properties

  lemma {:induction false} FlattenSize(chars: seq<seq<byte>>, charSize: nat)
    requires forall i :: 0 <= i < |chars| ==> |chars[i]| == charSize
    ensures |Flatten(chars)| == |chars| * charSize
  {
    if chars != [] {
      FlattenSize(chars[1..], charSize);
      assert |chars| * charSize == charSize + (|chars| - 1) * charSize;
    }
  }

  lemma {:induction false} SplitFlatten(chars: seq<seq<byte>>, charSize: nat)
    requires forall i :: 0 <= i < |chars| ==> |chars[i]| == charSize
    ensures |Flatten(chars)| == |chars| * charSize
    ensures Split(Flatten(chars), charSize, |chars|) == chars
  {
    FlattenSize(chars, charSize);
    if chars != [] {
      SplitFlatten(chars[1..], charSize);
      var bytes := Flatten(chars);
      assert bytes[..charSize] == chars[0] && bytes[charSize..] == Flatten(chars[1..]);
    }
  }

  lemma {:induction false} FlattenSplit(bytes: seq<byte>, charSize: nat, n: nat)
    requires |bytes| == n * charSize
    ensures Flatten(Split(bytes, charSize, n)) == bytes
    decreases n
  {
    if n > 0 {
      assert n * charSize == charSize + (n - 1) * charSize;
      var tail := bytes[charSize..];
      FlattenSplit(tail, charSize, n - 1);
      FlattenCons(bytes[..charSize], Split(tail, charSize, n - 1));
      assert bytes == bytes[..charSize] + tail;
    }
  }

  lemma FlattenCons(head: seq<byte>, tail: seq<seq<byte>>)
    ensures Flatten([head] + tail) == head + Flatten(tail)
  {
    assert ([head] + tail)[1..] == tail;
  }

  lemma EncodeSize(a: Arg)
    requires ValidArg(a)
    ensures |Encode(a)| == EncodedSize(a)
  {
    if a.Text? {
      FlattenSize(a.chars, a.charSize);
    }
  }

  /** encoded_size adds up to exactly what the encoders write. */
  lemma {:induction false} EncodeAllSize(args: seq<Arg>)
    requires ValidArgs(args)
    ensures |EncodeAll(args)| == TotalSize(args)
  {
    if args != [] {
      EncodeSize(args[0]);
      EncodeAllSize(args[1..]);
    }
  }

  lemma DecodeEncode(a: Arg, rest: seq<byte>)
    requires ValidArg(a)
    ensures Decode(TypeOf(a), Encode(a) + rest) == Some((a, rest))
  {
    match a
    case Scalar(b) =>
      assert (b + rest)[..|b|] == b && (b + rest)[|b|..] == rest;
    case Text(charSize, chars) =>
      DecodeEncodeText(charSize, chars, rest);
  }

  lemma DecodeEncodeText(charSize: nat, chars: Chars, rest: seq<byte>)
    requires ValidArg(Text(charSize, chars))
    ensures Decode(StringType(charSize), Encode(Text(charSize, chars)) + rest) == Some((Text(charSize, chars), rest))
  {
    var prefix, body := WordBytes(|chars|), Flatten(chars);
    SplitFlatten(chars, charSize);
    WordRoundTrip(|chars|);
    TakeThree(prefix, body, rest);
    DecodeTextParts(charSize, prefix + body + rest, |chars|, |body|);
  }

  lemma DecodeTextParts(charSize: nat, bytes: seq<byte>, n: u64, size: nat)
    requires size == n * charSize && 8 + size <= |bytes| && WordAt(bytes, 0) == n
    ensures Decode(StringType(charSize), bytes)
            == Some((Text(charSize, Split(bytes[8..8 + size], charSize, n)), bytes[8 + size..]))
  {
  }

  lemma TakeThree(a: seq<byte>, b: seq<byte>, c: seq<byte>)
    ensures (a + b + c)[0..|a|] == a
    ensures (a + b + c)[|a|..|a| + |b|] == b
    ensures (a + b + c)[|a| + |b|..] == c
  {
  }

  /** Decoding the encoded list gives back every argument and stops exactly behind it, whatever follows. */
  lemma {:induction false} DecodeAllEncodeAll(args: seq<Arg>, rest: seq<byte>)
    requires ValidArgs(args)
    ensures DecodeAll(TypesOf(args), EncodeAll(args) + rest) == Some((args, rest))
  {
    if args == [] {
      assert EncodeAll(args) + rest == rest;
    } else {
      var a, more := args[0], args[1..];
      var tail := EncodeAll(more) + rest;
      DecodeAllEncodeAll(more, rest);
      DecodeEncode(a, tail);
      DecodeAllCons(a, more, Encode(a) + tail, tail, rest);
      EncodeAllCons(a, more, rest);
      assert args == [a] + more;
    }
  }

  lemma DecodeAllCons(a: Arg, args: seq<Arg>, bytes: seq<byte>, tail: seq<byte>, rest: seq<byte>)
    requires Decode(TypeOf(a), bytes) == Some((a, tail)) && DecodeAll(TypesOf(args), tail) == Some((args, rest))
    ensures DecodeAll([TypeOf(a)] + TypesOf(args), bytes) == Some(([a] + args, rest))
  {
    assert ([TypeOf(a)] + TypesOf(args))[1..] == TypesOf(args);
  }

  lemma EncodeAllCons(a: Arg, args: seq<Arg>, rest: seq<byte>)
    ensures EncodeAll([a] + args) + rest == Encode(a) + (EncodeAll(args) + rest)
    ensures TypesOf([a] + args) == [TypeOf(a)] + TypesOf(args)
  {
    assert ([a] + args)[1..] == args;
  }

  lemma JoinThree(s: seq<byte>, i: nat, j: nat)
    requires i <= j <= |s|
    ensures s == s[0..i] + s[i..j] + s[j..]
  {
  }

  lemma EncodeDecodeText(charSize: nat, bytes: seq<byte>, n: u64, size: nat)
    requires size == n * charSize && 8 + size <= |bytes| && WordAt(bytes, 0) == n
    ensures bytes == Encode(Text(charSize, Split(bytes[8..8 + size], charSize, n))) + bytes[8 + size..]
  {
    var body := bytes[8..8 + size];
    FlattenSplit(body, charSize, n);
    EncodeTextIs(charSize, Split(body, charSize, n), body, n);
    WordInverse(bytes, 0);
    JoinThree(bytes, 8, 8 + size);
  }

  lemma EncodeTextIs(charSize: nat, chars: Chars, body: seq<byte>, n: u64)
    requires Flatten(chars) == body && |chars| == n
    ensures Encode(Text(charSize, chars)) == WordBytes(n) + body
  {
  }

  lemma EncodeDecode(t: ArgType, bytes: seq<byte>)
    requires Decode(t, bytes).Some?
    ensures var (a, rest) := Decode(t, bytes).value; ValidArg(a) && TypeOf(a) == t && bytes == Encode(a) + rest
  {
    match t
    case ScalarType(size) =>
    case StringType(charSize) =>
      var n := WordAt(bytes, 0);
      EncodeDecodeText(charSize, bytes, n, n * charSize);
  }

  /** The decoder accepts nothing but encodings: its input is the encoding of its result followed by the rest. */
  lemma {:induction false} EncodeAllDecodeAll(ts: seq<ArgType>, bytes: seq<byte>)
    requires DecodeAll(ts, bytes).Some?
    ensures var (args, rest) := DecodeAll(ts, bytes).value;
            ValidArgs(args) && TypesOf(args) == ts && bytes == EncodeAll(args) + rest
  {
    if ts != [] {
      EncodeDecode(ts[0], bytes);
      var (a, rest) := Decode(ts[0], bytes).value;
      EncodeAllDecodeAll(ts[1..], rest);
      var (args, rest') := DecodeAll(ts[1..], rest).value;
      EncodeAllCons(a, args, rest');
    }
  }

  // ---------------------------------------------------------------- header

  const HEADER_SIZE: nat := 32

  /** Four 8-byte fields, in declaration order, without padding. */
  datatype Header = Header(staticData: u64, threadName: u64, timestamp: u64, payloadSize: u64)

  /** The header as the producer writes it: four separate encodes. */
  function EncodeFields(h: Header): (s: seq<byte>)
    ensures |s| == HEADER_SIZE
  {
    WordBytes(h.staticData) + WordBytes(h.threadName) + WordBytes(h.timestamp) + WordBytes(h.payloadSize)
  }

  /** The header as the consumer reads it: one copy of the whole struct, fields at offsets 0, 8, 16 and 24. */
  function DecodeStruct(s: seq<byte>): Header
    requires |s| >= HEADER_SIZE
  {
    Header(WordAt(s, 0), WordAt(s, 8), WordAt(s, 16), WordAt(s, 24))
  }

  lemma StructMatchesFields(h: Header, rest: seq<byte>)
    ensures DecodeStruct(EncodeFields(h) + rest) == h
  {
    var s := EncodeFields(h) + rest;
    assert s[0..8] == WordBytes(h.staticData);
    assert s[8..16] == WordBytes(h.threadName);
    assert s[16..24] == WordBytes(h.timestamp);
    assert s[24..32] == WordBytes(h.payloadSize);
    WordRoundTrip(h.staticData);
    WordRoundTrip(h.threadName);
    WordRoundTrip(h.timestamp);
    WordRoundTrip(h.payloadSize);
  }

  // ---------------------------------------------------------------- frames

  /** Total event size as the consumer computes it from the header it copied. */
  function FrameSize(s: seq<byte>): nat
    requires |s| >= HEADER_SIZE
  {
    HEADER_SIZE + DecodeStruct(s).payloadSize
  }

  /** The header is a 32-byte prefix that determines the event size. */
  function EventSize(m: Spsc.Msg): nat {
    if |m| < HEADER_SIZE then 0 else FrameSize(m)
  }

  function EventFrame(): Spsc.Frame {
    Spsc.Frame(HEADER_SIZE, EventSize)
  }

  // ---------------------------------------------------------------- events

  /** What a call site fixes at compile time: the level and the types the decoder expects. */
  datatype Site = Site(level: nat, types: seq<ArgType>)

  type Sites = map<u64, Site>

  datatype Event = Event(site: u64, threadName: u64, timestamp: u64, args: seq<Arg>)

  ghost predicate ValidEvent(sites: Sites, e: Event) {
    && e.site in sites
    && TypesOf(e.args) == sites[e.site].types
    && ValidArgs(e.args)
    && HEADER_SIZE + TotalSize(e.args) < TWO_64
  }

  /** The payload size is computed in a size_t. */
  function HeaderOf(e: Event): Header {
    Header(e.site, e.threadName, e.timestamp, Wrap(TotalSize(e.args)))
  }

  function EncodeEvent(e: Event): seq<byte> {
    EncodeFields(HeaderOf(e)) + EncodeAll(e.args)
  }

  /** The event at the front of the data and the number of bytes the consumer then skips. */
  function DecodeEvent(sites: Sites, s: seq<byte>): Option<(Event, nat)> {
    if |s| < HEADER_SIZE then None
    else
      var h := DecodeStruct(s);
      if h.staticData !in sites then None
      else
        match DecodeAll(sites[h.staticData].types, s[HEADER_SIZE..])
        case None => None
        case Some((args, _)) =>
          Some((Event(h.staticData, h.threadName, h.timestamp, args), HEADER_SIZE + h.payloadSize))
  }

  lemma FieldsAreFramed(h: Header, payload: seq<byte>)
    requires h.payloadSize == |payload| && HEADER_SIZE + |payload| < TWO_64
    ensures Spsc.Framed(EventFrame(), EncodeFields(h) + payload)
  {
    StructMatchesFields(h, payload);
  }

  /** The payload size of a valid event does not wrap. */
  lemma HeaderSize(sites: Sites, e: Event)
    requires ValidEvent(sites, e)
    ensures HeaderOf(e) == Header(e.site, e.threadName, e.timestamp, TotalSize(e.args))
  {
  }

  /** What push_log_event writes has exactly the reserved size, and its header announces it. */
  lemma EventIsFramed(sites: Sites, e: Event)
    requires ValidEvent(sites, e)
    ensures Spsc.Framed(EventFrame(), EncodeEvent(e)) && |EncodeEvent(e)| == HEADER_SIZE + TotalSize(e.args)
  {
    EncodeAllSize(e.args);
    HeaderSize(sites, e);
    FieldsAreFramed(HeaderOf(e), EncodeAll(e.args));
  }

  lemma SplitHeader(header: seq<byte>, payload: seq<byte>, rest: seq<byte>)
    requires |header| == HEADER_SIZE
    ensures header + payload + rest == header + (payload + rest)
    ensures (header + payload + rest)[HEADER_SIZE..] == payload + rest
  {
  }

  lemma DecodeEventParts(sites: Sites, s: seq<byte>, h: Header, args: seq<Arg>, rest: seq<byte>)
    requires |s| >= HEADER_SIZE && DecodeStruct(s) == h && h.staticData in sites
    requires DecodeAll(sites[h.staticData].types, s[HEADER_SIZE..]) == Some((args, rest))
    ensures DecodeEvent(sites, s)
            == Some((Event(h.staticData, h.threadName, h.timestamp, args), HEADER_SIZE + h.payloadSize))
  {
  }

  /** Reading an event back yields it, and the skip announced by the header is its exact length,
      whatever bytes follow. */
  lemma DecodeEventEncodeEvent(sites: Sites, e: Event, rest: seq<byte>)
    requires ValidEvent(sites, e)
    ensures DecodeEvent(sites, EncodeEvent(e) + rest) == Some((e, |EncodeEvent(e)|))
  {
    EventIsFramed(sites, e);
    var h := HeaderOf(e);
    var tail := EncodeAll(e.args) + rest;
    var s := EncodeEvent(e) + rest;
    SplitHeader(EncodeFields(h), EncodeAll(e.args), rest);
    StructMatchesFields(h, tail);
    DecodeAllEncodeAll(e.args, rest);
    DecodeEventParts(sites, s, h, e.args, rest);
  }

  ghost predicate IsEvent(sites: Sites, m: seq<byte>) {
    exists e :: ValidEvent(sites, e) && m == EncodeEvent(e)
  }

  function EventOf(sites: Sites, m: seq<byte>): Event {
    match DecodeEvent(sites, m)
    case Some((e, _)) => e
    case None => Event(0, 0, 0, [])
  }

  /** The backend decodes exactly the event that was logged. */
  lemma EventSurvives(sites: Sites, e: Event)
    requires ValidEvent(sites, e)
    ensures DecodeEvent(sites, EncodeEvent(e)) == Some((e, |EncodeEvent(e)|))
    ensures EventOf(sites, EncodeEvent(e)) == e
  {
    DecodeEventEncodeEvent(sites, e, []);
    assert EncodeEvent(e) + [] == EncodeEvent(e);
  }

  // ---------------------------------------------------------------- streams

  function EncodeStream(es: seq<Event>): seq<byte>
  {
    if es == [] then [] else EncodeEvent(es[0]) + EncodeStream(es[1..])
  }

  /** A reader that repeatedly decodes one event and skips the announced size. */
  function ReadStream(sites: Sites, s: seq<byte>): Option<seq<Event>>
    decreases |s|
  {
    if s == [] then Some([])
    else
      match DecodeEvent(sites, s)
      case None => None
      case Some((e, size)) =>
        if size > |s| then None
        else
          match ReadStream(sites, s[size..])
          case None => None
          case Some(es) => Some([e] + es)
  }

  lemma ReadStreamCons(sites: Sites, e: Event, tail: seq<byte>)
    requires ValidEvent(sites, e)
    ensures ReadStream(sites, EncodeEvent(e) + tail)
            == match ReadStream(sites, tail) case None => None case Some(es) => Some([e] + es)
  {
    var head := EncodeEvent(e);
    EventIsFramed(sites, e);
    DecodeEventEncodeEvent(sites, e, tail);
    DropHead(head, tail);
    ReadStreamStep(sites, head + tail, e, |head|);
  }

  lemma ReadStreamStep(sites: Sites, s: seq<byte>, e: Event, size: nat)
    requires DecodeEvent(sites, s) == Some((e, size)) && 0 < size <= |s|
    ensures ReadStream(sites, s)
            == match ReadStream(sites, s[size..]) case None => None case Some(es) => Some([e] + es)
  {
  }

  lemma DropHead(head: seq<byte>, tail: seq<byte>)
    ensures (head + tail)[|head|..] == tail
  {
  }

  /** The reader never loses synchronisation: every position it visits is an event boundary. */
  lemma {:induction false} ReadStreamEncodeStream(sites: Sites, es: seq<Event>)
    requires forall i :: 0 <= i < |es| ==> ValidEvent(sites, es[i])
    ensures ReadStream(sites, EncodeStream(es)) == Some(es)
  {
    if es != [] {
      assert forall i :: 0 <= i < |es| - 1 ==> es[1..][i] == es[i + 1];
      ReadStreamEncodeStream(sites, es[1..]);
      ReadStreamCons(sites, es[0], EncodeStream(es[1..]));
      assert es == [es[0]] + es[1..];
    }
  }

  // ---------------------------------------------------------------- the bytes of an event

  /** The digits of n to the base 256, least significant first. */
  predicate LittleEndian(s: seq<byte>, n: nat) {
    if s == [] then n == 0 else s[0] as int == n % 256 && LittleEndian(s[1..], n / 256)
  }

  lemma {:induction false} DigitsLayout(n: nat, k: nat)
    requires n < Pow256(k)
    ensures LittleEndian(ToLE(n, k), n)
    decreases k
  {
    if k > 0 {
      DigitsLayout(n / 256, k - 1);
      assert ToLE(n, k)[1..] == ToLE(n / 256, k - 1);
    }
  }

  lemma WordLayout(n: u64)
    ensures LittleEndian(WordBytes(n), n)
  {
    Pow256Of8();
    DigitsLayout(n, WordSize());
  }

  /** An event as bytes: call site, thread name, timestamp and payload size as eight-byte words in this order, and then
      the encoded arguments. */
  lemma EventLayout(sites: Sites, e: Event)
    requires ValidEvent(sites, e)
    ensures var m := EncodeEvent(e);
      && |m| >= 32
      && LittleEndian(m[0..8], e.site) && LittleEndian(m[8..16], e.threadName)
      && LittleEndian(m[16..24], e.timestamp) && LittleEndian(m[24..32], |m| - 32)
      && m[32..] == EncodeAll(e.args)
  {
    EventParts(sites, e);
    WordLayout(e.site);
    WordLayout(e.threadName);
    WordLayout(e.timestamp);
    WordLayout(|EncodeEvent(e)| - 32);
  }

  lemma EventParts(sites: Sites, e: Event)
    requires ValidEvent(sites, e)
    ensures var m := EncodeEvent(e);
      && 32 <= |m| < TWO_64
      && m[0..8] == WordBytes(e.site) && m[8..16] == WordBytes(e.threadName)
      && m[16..24] == WordBytes(e.timestamp) && m[24..32] == WordBytes(|m| - 32)
      && m[32..] == EncodeAll(e.args)
  {
    EncodeAllSize(e.args);
    HeaderSize(sites, e);
    FieldsLayout(HeaderOf(e), EncodeAll(e.args));
  }

  lemma FieldsLayout(h: Header, payload: seq<byte>)
    ensures var m := EncodeFields(h) + payload;
      && m[0..8] == WordBytes(h.staticData) && m[8..16] == WordBytes(h.threadName)
      && m[16..24] == WordBytes(h.timestamp) && m[24..32] == WordBytes(h.payloadSize) && m[32..] == payload
  {
  }

  /** The arguments follow each other in order. */
  lemma {:induction false} ArgsLayout(xs: seq<Arg>, ys: seq<Arg>)
    ensures EncodeAll(xs + ys) == EncodeAll(xs) + EncodeAll(ys)
  {
    if xs == [] {
      assert xs + ys == ys;
    } else {
      assert (xs + ys)[1..] == xs[1..] + ys;
      ArgsLayout(xs[1..], ys);
    }
  }

  /** One argument as bytes: a scalar is its object representation; a string is its length as an eight-byte word and
      then the bytes of its characters, one character after the other. */
  lemma ArgLayout(a: Arg)
    requires ValidArg(a)
    ensures match a
            case Scalar(bytes) => EncodeAll([a]) == bytes
            case Text(charSize, chars) =>
              && |EncodeAll([a])| == 8 + |chars| * charSize && LittleEndian(EncodeAll([a])[..8], |chars|)
              && forall i :: 0 <= i < |chars| ==> IsCharAt(EncodeAll([a])[8..], charSize, i, chars[i])
  {
    EncodeSize(a);
    assert EncodeAll([a]) == Encode(a) + [] == Encode(a);
    if a.Text? {
      WordLayout(|a.chars|);
      FlattenSize(a.chars, a.charSize);
      forall i | 0 <= i < |a.chars| ensures IsCharAt(EncodeAll([a])[8..], a.charSize, i, a.chars[i]) {
        CharLayout(a.chars, a.charSize, i);
      }
    }
  }

  ghost predicate IsCharAt(s: seq<byte>, charSize: nat, i: nat, c: seq<byte>) {
    i * charSize + charSize <= |s| && s[i * charSize..i * charSize + charSize] == c
  }

  lemma {:induction false} CharLayout(chars: seq<seq<byte>>, charSize: nat, i: nat)
    requires (forall j :: 0 <= j < |chars| ==> |chars[j]| == charSize) && i < |chars|
    ensures IsCharAt(Flatten(chars), charSize, i, chars[i])
  {
    var s, rest := Flatten(chars), Flatten(chars[1..]);
    assert s == chars[0] + rest;
    if i > 0 {
      CharLayout(chars[1..], charSize, i - 1);
      var at := (i - 1) * charSize;
      assert i * charSize == charSize + at;
      assert s[charSize + at..charSize + at + charSize] == rest[at..at + charSize];
    } else {
      FlattenSize(chars, charSize);
    }
  }
}
