/** Rendering a log record through a compiled pattern. */
module Formatter {
  import opened Digits
  import opened Fmt
  import opened Pattern
  import opened PatternParser
  import opened Sequences
  import opened TimeText
  import opened Wrappers

  datatype LogLevel = Trace | Debug | Info | Warn | Error

  /** What a pattern can show of an event; the timestamp is in nanoseconds since the epoch. */
  datatype Record = Record(
    level: LogLevel,
    threadName: string,
    timestamp: int,
    filename: string,
    functionName: string,
    line: nat,
    message: string)

  function LevelName(level: LogLevel): string {
    match level
    case Trace => "TRACE"
    case Debug => "DEBUG"
    case Info => "INFO"
    case Warn => "WARN"
    case Error => "ERROR"
  }

  /** The position behind the last slash or backslash, or 0 if there is none. */
  function BehindLastSeparator(path: string): (n: nat)
    ensures n <= |path|
  {
    if path == "" || path[|path| - 1] == '/' || path[|path| - 1] == '\\' then |path|
    else BehindLastSeparator(path[..|path| - 1])
  }

  /** The part of a path behind its last separator. */
  function FileName(path: string): string {
    path[BehindLastSeparator(path)..]
  }

  /** It is the longest end of the path without a separator. */
  lemma {:induction false} FileNameIsLastPart(path: string)
    ensures var n := BehindLastSeparator(path);
      && FileName(path) == path[n..] && (n > 0 ==> path[n - 1] == '/' || path[n - 1] == '\\')
      && forall i :: n <= i < |path| ==> path[i] != '/' && path[i] != '\\'
  {
    if path != "" && path[|path| - 1] != '/' && path[|path| - 1] != '\\' {
      FileNameIsLastPart(path[..|path| - 1]);
    }
  }

  // ---------------------------------------------------------------- the direct reading of a pattern

  /** The HH:MM:SS texts for the three time specifications. */
  datatype Clocks = Clocks(hms: string, hmsf: string, hmsF: string)

  function ClockOf(c: Clocks, spec: Spec): string {
    match spec
    case HMSf => c.hmsf
    case HMSF => c.hmsF
    case _ => c.hms
  }

  function TrueClocks(t: int): Clocks {
    var text := ClockText(FloorSeconds(t));
    Clocks(text, text, text)
  }

  /** What an item of a pattern stands for, given the HH:MM:SS texts. */
  function RenderItem(item: Item, r: Record, c: Clocks, writer: TimeWriter): string {
    match item
    case Literal(c) => [c]
    case OpenBrace => "{"
    case CloseBrace => "}"
    case FieldItem(_, field, spec) =>
      match field
      case Level => LevelName(r.level)
      case ThreadName => r.threadName
      case Time =>
        if IsTimeSpec(spec) then TimeFieldWith(spec, ClockOf(c, spec), r.timestamp) else writer(r.timestamp)
      case File => if spec == NameOnly then FileName(r.filename) else r.filename
      case Function => r.functionName
      case Line => Decimal(r.line)
      case Message => r.message
  }

  function RenderWith(items: seq<Item>, r: Record, c: Clocks, writer: TimeWriter): string {
    if items == [] then "" else RenderItem(items[0], r, c, writer) + RenderWith(items[1..], r, c, writer)
  }

  /** What a pattern stands for. */
  function Render(items: seq<Item>, r: Record, writer: TimeWriter): string {
    RenderWith(items, r, TrueClocks(r.timestamp), writer)
  }

  // ---------------------------------------------------------------- the compiled way

  function GetField(field: Field, r: Record): Argument {
    match field
    case Level => Text(LevelName(r.level))
    case ThreadName => Text(r.threadName)
    case Time => TimePoint(r.timestamp)
    case File => Text(r.filename)
    case Function => Text(r.functionName)
    case Line => Number(r.line)
    case Message => Text(r.message)
  }

  /** expand_and_process_format_arg, given the HH:MM:SS texts. */
  function Expand(field: Field, spec: Spec, r: Record, c: Clocks): (args: seq<Argument>)
    requires Allowed(field, spec)
    ensures |args| == ArgCount(spec)
  {
    if IsTimeSpec(spec) then TimeArgs(spec, ClockOf(c, spec), r.timestamp)
    else if spec == NameOnly then [Text(FileName(r.filename))]
    else [GetField(field, r)]
  }

  predicate AllAllowed(fields: seq<Field>, specs: seq<Spec>) {
    |fields| == |specs| && forall i :: 0 <= i < |fields| ==> Allowed(fields[i], specs[i])
  }

  /** The concatenated arguments of all fields. */
  function ArgsOf(fields: seq<Field>, specs: seq<Spec>, r: Record, c: Clocks): seq<Argument>
    requires AllAllowed(fields, specs)
  {
    if fields == [] then [] else Expand(fields[0], specs[0], r, c) + ArgsOf(fields[1..], specs[1..], r, c)
  }

  lemma ItemAllowed(item: Item)
    requires ValidItem(item) && item.FieldItem?
    ensures Allowed(item.field, item.spec)
  {
  }

  lemma {:induction false} ItemsAllowed(items: seq<Item>)
    requires ValidItems(items)
    ensures AllAllowed(FieldsOf(items), SpecsOf(items))
  {
    if items != [] {
      var item := items[0];
      assert item in items && forall x :: x in items[1..] ==> x in items;
      ItemsAllowed(items[1..]);
      if item.FieldItem? {
        ItemAllowed(item);
      }
      assert AllAllowed(FieldsOf(items), SpecsOf(items));
    }
  }

  /** One field of a compiled pattern. */
  lemma FormatFieldItem(field: Field, spec: Spec, text: string, f: string, args: seq<Argument>, r: Record, c: Clocks,
                        w: TimeWriter)
    requires Allowed(field, spec)
    ensures Format(Expansion(spec) + f, Expand(field, spec, r, c) + args, w)
            == Prefixed(RenderItem(FieldItem(text, field, spec), r, c, w), Format(f, args, w))
  {
    var hms := Text(ClockOf(c, spec));
    match spec
    case HMSf =>
      FormatSubSecond("06", f, hms, SubMicros(r.timestamp), args, w);
      assert "{}.{:" + "06" + "}" == Expansion(spec);
    case HMSF =>
      FormatSubSecond("09", f, hms, SubNanos(r.timestamp), args, w);
      assert "{}.{:" + "09" + "}" == Expansion(spec);
    case _ =>
      var v := PlainField(field, spec, text, r, c, w);
      FormatOne(f, v, args, w);
  }

  /** A field with one argument. */
  lemma PlainField(field: Field, spec: Spec, text: string, r: Record, c: Clocks, w: TimeWriter) returns (v: Argument)
    requires Allowed(field, spec) && spec != HMSf && spec != HMSF
    ensures Expand(field, spec, r, c) == [v] && Expansion(spec) == "{}"
    ensures AsText(v, w) == RenderItem(FieldItem(text, field, spec), r, c, w)
  {
    if spec == Default {
      v := GetField(field, r);
      DefaultField(field, text, r, c, w);
    } else if spec == HMS {
      v := Text(c.hms);
      ClockField(text, r, c, w);
    } else {
      v := Text(FileName(r.filename));
      NameField(text, r, c, w);
    }
  }

  lemma ClockField(text: string, r: Record, c: Clocks, w: TimeWriter)
    ensures RenderItem(FieldItem(text, Time, HMS), r, c, w) == c.hms
  {
  }

  lemma NameField(text: string, r: Record, c: Clocks, w: TimeWriter)
    ensures RenderItem(FieldItem(text, File, NameOnly), r, c, w) == FileName(r.filename)
  {
  }

  /** An argument as it is. */
  function AsText(v: Argument, w: TimeWriter): string {
    match v
    case Text(s) => s
    case Number(n) => Decimal(n)
    case TimePoint(ns) => w(ns)
  }

  lemma PlainText(v: Argument, w: TimeWriter)
    ensures FormatValue(v, "", w) == Some(AsText(v, w))
  {
  }

  lemma DefaultField(field: Field, text: string, r: Record, c: Clocks, w: TimeWriter)
    ensures AsText(GetField(field, r), w) == RenderItem(FieldItem(text, field, Default), r, c, w)
  {
  }

  lemma FormatOne(f: string, v: Argument, args: seq<Argument>, w: TimeWriter)
    ensures Format("{}" + f, [v] + args, w) == Prefixed(AsText(v, w), Format(f, args, w))
  {
    FormatField("", f, v, args, w);
    PlainText(v, w);
    assert "{}" + f == "{" + "" + "}" + f;
  }

  /** The two placeholders of a time with a part below a second. */
  lemma FormatSubSecond(width: string, f: string, hms: Argument, n: nat, args: seq<Argument>, w: TimeWriter)
    requires hms.Text? && (width == "06" || width == "09")
    ensures Format("{}.{:" + width + "}" + f, [hms, Number(n)] + args, w)
            == Prefixed(hms.s + "." + Padded(n, if width == "06" then 6 else 9), Format(f, args, w))
  {
    var g := "{" + (":" + width) + "}" + f;
    var text := Padded(n, if width == "06" then 6 else 9);
    FormatPadded(width, n, w);
    var more := [Number(n)] + args;
    FormatField("", "." + g, hms, more, w);
    FormatChar('.', g, more, w);
    FormatField(":" + width, f, Number(n), args, w);
    SecondText(width, f);
    assert [hms, Number(n)] + args == [hms] + more;
    PrefixedThrice(hms.s, text, Format(f, args, w));
  }

  lemma FormatPadded(width: string, n: nat, w: TimeWriter)
    requires width == "06" || width == "09"
    ensures FormatValue(Number(n), ":" + width, w) == Some(Padded(n, if width == "06" then 6 else 9))
  {
    assert ":" + "06" == ":06" && ":" + "09" == ":09" && ":09"[2] != ":06"[2];
  }

  lemma PrefixedThrice(a: string, b: string, rest: Option<Output>)
    ensures Prefixed(a, Prefixed(".", Prefixed(b, rest))) == Prefixed(a + "." + b, rest)
  {
    if rest.Some? {
      assert a + ("." + (b + rest.value.text)) == a + "." + b + rest.value.text;
    }
  }

  /** The arguments of one item. */
  function ItemArgs(item: Item, r: Record, c: Clocks): seq<Argument>
    requires item.FieldItem? ==> Allowed(item.field, item.spec)
  {
    if item.FieldItem? then Expand(item.field, item.spec, r, c) else []
  }

  lemma FormatItem(item: Item, f: string, args: seq<Argument>, r: Record, c: Clocks, w: TimeWriter)
    requires ValidItem(item)
    ensures Format(ItemFmt(item) + f, ItemArgs(item, r, c) + args, w)
            == Prefixed(RenderItem(item, r, c, w), Format(f, args, w))
  {
    match item
    case FieldItem(text, field, spec) =>
      FormatFieldItem(field, spec, text, f, args, r, c, w);
    case Literal(ch) =>
      FormatChar(ch, f, args, w);
      assert ItemArgs(item, r, c) + args == args;
    case OpenBrace =>
      FormatDoubled('{', f, args, w);
      assert ['{', '{'] == "{{" && ItemArgs(item, r, c) + args == args;
    case CloseBrace =>
      FormatDoubled('}', f, args, w);
      assert ['}', '}'] == "}}" && ItemArgs(item, r, c) + args == args;
  }

  /** Compiling a pattern preserves its meaning: for every record, formatting with the generated format string and the
      expanded arguments neither fails nor runs out of arguments nor leaves any, and gives the pattern's direct
      rendering, whatever braces the field values contain. */
  lemma {:induction false} CompiledPatternMeansPattern(items: seq<Item>, r: Record, c: Clocks, w: TimeWriter)
    requires ValidItems(items)
    ensures AllAllowed(FieldsOf(items), SpecsOf(items))
    ensures Format(FmtOf(items), ArgsOf(FieldsOf(items), SpecsOf(items), r, c), w)
            == Some(Output(RenderWith(items, r, c, w), []))
  {
    ItemsAllowed(items);
    if items != [] {
      var item, rest := items[0], items[1..];
      assert ValidItem(item) && forall x :: x in rest ==> x in items;
      CompiledPatternMeansPattern(rest, r, c, w);
      ArgsOfItem(items, r, c);
      FormatItem(item, FmtOf(rest), ArgsOf(FieldsOf(rest), SpecsOf(rest), r, c), r, c, w);
    }
  }

  lemma ArgsOfItem(items: seq<Item>, r: Record, c: Clocks)
    requires items != [] && AllAllowed(FieldsOf(items), SpecsOf(items))
    requires AllAllowed(FieldsOf(items[1..]), SpecsOf(items[1..]))
    requires ValidItem(items[0])
    ensures ArgsOf(FieldsOf(items), SpecsOf(items), r, c)
            == ItemArgs(items[0], r, c) + ArgsOf(FieldsOf(items[1..]), SpecsOf(items[1..]), r, c)
  {
    var item, rest := items[0], items[1..];
    if item.FieldItem? {
      assert FieldsOf(items)[1..] == FieldsOf(rest) && SpecsOf(items)[1..] == SpecsOf(rest);
    } else {
      assert FieldsOf(items) == FieldsOf(rest) && SpecsOf(items) == SpecsOf(rest);
    }
  }

  /** From pattern text to output: whenever the pattern parses without error, the output is the direct rendering of
      the only sequence of items the pattern can be read as. */
  lemma PatternTextMeaning(p: string, max: nat, items: seq<Item>, r: Record, w: TimeWriter)
    requires ValidItems(items) && FieldCount(items) <= max && TextOf(items) == p
    ensures Parse(p, max) == Outcome(items, NoError)
    ensures AllAllowed(FieldsOf(items), SpecsOf(items))
    ensures Format(FmtOf(items), ArgsOf(FieldsOf(items), SpecsOf(items), r, TrueClocks(r.timestamp)), w)
            == Some(Output(Render(items, r, w), []))
  {
    assert p + "" == p;
    ParseFindsItems(p, max, items, "", NoError);
    CompiledPatternMeansPattern(items, r, TrueClocks(r.timestamp), w);
  }

  // ---------------------------------------------------------------- the formatter object

  /** The process-wide time caches, one for each time specification. */
  class TimeCaches {
    const hms: TimeCache
    const hmsf: TimeCache
    const hmsF: TimeCache

    constructor ()
      ensures Valid() && fresh(hms) && fresh(hmsf) && fresh(hmsF)
      ensures hms.State() == hmsf.State() == hmsF.State() == EMPTY_CACHE
    {
      hms := new TimeCache();
      hmsf := new TimeCache();
      hmsF := new TimeCache();
    }

    ghost predicate Valid()
      reads hms, hmsf, hmsF
    {
      && hms != hmsf && hms != hmsF && hmsf != hmsF
      && CacheValid(hms.State()) && CacheValid(hmsf.State()) && CacheValid(hmsF.State())
    }

    /** The texts the caches give for a time. */
    ghost function Texts(t: int): Clocks
      reads hms, hmsf, hmsF
    {
      Clocks(Refreshed(hms.State(), t).hms, Refreshed(hmsf.State(), t).hms, Refreshed(hmsF.State(), t).hms)
    }

    /** expand_and_process_format_arg. */
    method ExpandArg(field: Field, spec: Spec, r: Record) returns (args: seq<Argument>)
      requires Valid() && Allowed(field, spec)
      modifies hms, hmsf, hmsF
      ensures Valid() && Texts(r.timestamp) == old(Texts(r.timestamp))
      ensures args == Expand(field, spec, r, old(Texts(r.timestamp)))
    {
      match spec {
        case HMS => args := hms.ProcessTimeArg(spec, r.timestamp);
        case HMSf => args := hmsf.ProcessTimeArg(spec, r.timestamp);
        case HMSF => args := hmsF.ProcessTimeArg(spec, r.timestamp);
        case NameOnly => args := [Text(FileName(r.filename))];
        case Default => args := [GetField(field, r)];
      }
    }

    /** The arguments of all fields, one after the other. */
    method ExpandAll(fields: seq<Field>, specs: seq<Spec>, r: Record) returns (args: seq<Argument>)
      requires Valid() && AllAllowed(fields, specs)
      modifies hms, hmsf, hmsF
      ensures Valid() && args == ArgsOf(fields, specs, r, old(Texts(r.timestamp)))
    {
      ghost var clocks := Texts(r.timestamp);
      args := [];
      var i := 0;
      ExpandedStart(fields, specs, r, clocks);
      while i < |fields|
        invariant i <= |fields| == |specs| && Valid() && Texts(r.timestamp) == clocks
        invariant Expanded(args, i, fields, specs, r, clocks)
      {
        ExpandedStep(args, i, fields, specs, r, clocks);
        var more := ExpandArg(fields[i], specs[i], r);
        args := args + more;
        i := i + 1;
      }
      ExpandedEnd(args, fields, specs, r, clocks);
    }

    /** The caches give the right texts for every second but -1, and for that one if they are not empty. */
    lemma TextsAreTrue(t: int)
      requires Valid()
      ensures Texts(t) == TrueClocks(t)
         <==> (FloorSeconds(t) == -1 ==>
                 hms.State() != EMPTY_CACHE && hmsf.State() != EMPTY_CACHE && hmsF.State() != EMPTY_CACHE)
    {
      ClockTextLength(-1);
    }
  }

  class PatternFormatter {
    const parsed: ParsedPattern
    ghost const items: seq<Item>

    ghost predicate Valid()
      reads parsed, parsed.fmtStr, parsed.fields, parsed.specs
    {
      parsed.Valid() && ValidItems(items) && parsed.Holds(items)
    }

    /** Instantiation with a pattern that passes the static assertions and whose evaluation is accepted. */
    constructor (pattern: string, maxFields: nat, maxFmtStrLen: nat)
      requires Parse(pattern, maxFields).error == NoError
      requires |FmtOf(Parse(pattern, maxFields).items)| <= maxFmtStrLen
      ensures Valid() && items == Parse(pattern, maxFields).items
    {
      var result, ok := ParsePattern(pattern, maxFields, maxFmtStrLen);
      parsed := result;
      items := Parse(pattern, maxFields).items;
      var rest := ParseReads(pattern, maxFields);
    }

    /** format_impl: every record comes out as the pattern's rendering with the clock texts of the caches, hence as
        the pattern's direct rendering unless an empty cache meets second -1. */
    method FormatImpl(r: Record, caches: TimeCaches, writer: TimeWriter) returns (text: Option<string>)
      requires Valid() && caches.Valid()
      modifies caches.hms, caches.hmsf, caches.hmsF
      ensures caches.Valid()
      ensures text == Some(RenderWith(items, r, old(caches.Texts(r.timestamp)), writer))
      ensures FloorSeconds(r.timestamp) != -1 ==> text == Some(Render(items, r, writer))
    {
      ghost var clocks := caches.Texts(r.timestamp);
      caches.TextsAreTrue(r.timestamp);
      ItemsAllowed(items);
      var fields, specs := parsed.fields[..parsed.fieldCount], parsed.specs[..parsed.fieldCount];
      var args := caches.ExpandAll(fields, specs, r);
      var output := Format(parsed.FmtStr(), args, writer);
      OutputIsRendering(items, r, clocks, writer, args, output);
      match output
      case None => text := None;
      case Some(o) => text := Some(o.text);
    }
  }

  lemma OutputIsRendering(items: seq<Item>, r: Record, c: Clocks, w: TimeWriter, args: seq<Argument>,
                          output: Option<Output>)
    requires ValidItems(items) && AllAllowed(FieldsOf(items), SpecsOf(items))
    requires args == ArgsOf(FieldsOf(items), SpecsOf(items), r, c) && output == Format(FmtOf(items), args, w)
    ensures output == Some(Output(RenderWith(items, r, c, w), []))
  {
    CompiledPatternMeansPattern(items, r, c, w);
  }

  /** The arguments of the first i fields. */
  ghost predicate Expanded(args: seq<Argument>, i: nat, fields: seq<Field>, specs: seq<Spec>, r: Record, c: Clocks)
    requires AllAllowed(fields, specs) && i <= |fields|
  {
    && AllAllowed(fields[i..], specs[i..])
    && args + ArgsOf(fields[i..], specs[i..], r, c) == ArgsOf(fields, specs, r, c)
  }

  lemma ExpandedStart(fields: seq<Field>, specs: seq<Spec>, r: Record, c: Clocks)
    requires AllAllowed(fields, specs)
    ensures Expanded([], 0, fields, specs, r, c)
  {
    assert fields[0..] == fields && specs[0..] == specs;
    assert [] + ArgsOf(fields, specs, r, c) == ArgsOf(fields, specs, r, c);
  }

  lemma ExpandedStep(args: seq<Argument>, i: nat, fields: seq<Field>, specs: seq<Spec>, r: Record, c: Clocks)
    requires AllAllowed(fields, specs) && i < |fields| && Expanded(args, i, fields, specs, r, c)
    ensures Allowed(fields[i], specs[i])
    ensures Expanded(args + Expand(fields[i], specs[i], r, c), i + 1, fields, specs, r, c)
  {
    assert fields[i..][1..] == fields[i + 1..] && specs[i..][1..] == specs[i + 1..];
    assert fields[i..][0] == fields[i] && specs[i..][0] == specs[i];
    Assoc(args, Expand(fields[i], specs[i], r, c), ArgsOf(fields[i + 1..], specs[i + 1..], r, c));
  }

  lemma ExpandedEnd(args: seq<Argument>, fields: seq<Field>, specs: seq<Spec>, r: Record, c: Clocks)
    requires AllAllowed(fields, specs) && Expanded(args, |fields|, fields, specs, r, c)
    ensures args == ArgsOf(fields, specs, r, c)
  {
    assert args + [] == args;
  }
}
