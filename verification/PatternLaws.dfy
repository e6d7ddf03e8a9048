/** The pattern language in written-out names: which field and which format each name means, what is refused and why,
    and what every item prints for every record. */
module PatternLaws {
  import opened Digits
  import opened Fmt
  import opened Formatter
  import opened Pattern
  import opened Sequences
  import opened TimeText
  import opened TimeUnits
  import opened Wrappers

  // ---------------------------------------------------------------- looking up names

  lemma LookupFrom<T>(table: seq<(string, T)>, i: nat, name: string)
    requires i < |table|
    ensures Lookup(table[i..], name)
            == (if table[i].0 == name then Some(table[i].1) else Lookup(table[i + 1..], name))
  {
    assert table[i..][0] == table[i] && table[i..][1..] == table[i + 1..];
  }

  /** Which field a name means. */
  lemma FieldOfName(name: string)
    ensures var field := Lookup(FIELD_NAMES, name);
      && (field == Some(Time) <==> name == "time")
      && (field == Some(File) <==> name == "file")
      && (field == Some(Function) <==> name == "function")
      && (field == Some(Line) <==> name == "line")
      && (field == Some(Level) <==> name == "level")
      && (field == Some(Message) <==> name == "message" || name == "m")
      && (field == Some(ThreadName) <==> name == "thread")
      && (field == None <==> !KnownField(name))
  {
    assert FIELD_NAMES[0..] == FIELD_NAMES && FIELD_NAMES[8..] == [];
    LookupFrom(FIELD_NAMES, 0, name);
    LookupFrom(FIELD_NAMES, 1, name);
    LookupFrom(FIELD_NAMES, 2, name);
    LookupFrom(FIELD_NAMES, 3, name);
    LookupFrom(FIELD_NAMES, 4, name);
    LookupFrom(FIELD_NAMES, 5, name);
    LookupFrom(FIELD_NAMES, 6, name);
    LookupFrom(FIELD_NAMES, 7, name);
  }

  /** Which format a specification means. */
  lemma SpecOfName(name: string)
    ensures var spec := Lookup(SPEC_NAMES, name);
      && (spec == Some(Default) <==> name == "" || name == "path")
      && (spec == Some(HMS) <==> name == "HMS")
      && (spec == Some(HMSf) <==> name == "HMSf")
      && (spec == Some(HMSF) <==> name == "HMSF")
      && (spec == Some(NameOnly) <==> name == "nameonly")
      && (spec == None <==> !KnownSpec(name))
  {
    assert SPEC_NAMES[0..] == SPEC_NAMES && SPEC_NAMES[6..] == [];
    LookupFrom(SPEC_NAMES, 0, name);
    LookupFrom(SPEC_NAMES, 1, name);
    LookupFrom(SPEC_NAMES, 2, name);
    LookupFrom(SPEC_NAMES, 3, name);
    LookupFrom(SPEC_NAMES, 4, name);
    LookupFrom(SPEC_NAMES, 5, name);
  }

  // ---------------------------------------------------------------- one field alone

  /** A text that can stand between braces as the name of a field. */
  predicate NameLike(name: string) {
    name != "" && name[0] != '{' && '}' !in name && ':' !in name
  }

  predicate KnownField(name: string) {
    || name == "time" || name == "file" || name == "function" || name == "line" || name == "level"
    || name == "message" || name == "m" || name == "thread"
  }

  predicate KnownSpec(spec: string) {
    spec == "" || spec == "HMS" || spec == "HMSf" || spec == "HMSF" || spec == "path" || spec == "nameonly"
  }

  /** Times of day go with the time only, and file names with the file only. */
  predicate GoTogether(name: string, spec: string) {
    && (spec == "HMS" || spec == "HMSf" || spec == "HMSF" ==> name == "time")
    && (spec == "nameonly" ==> name == "file")
  }

  /** The item is of the field and the format that these names mean. */
  predicate Means(item: Item, name: string, spec: string) {
    && item.FieldItem?
    && (item.field == Time <==> name == "time")
    && (item.field == File <==> name == "file")
    && (item.field == Function <==> name == "function")
    && (item.field == Line <==> name == "line")
    && (item.field == Level <==> name == "level")
    && (item.field == Message <==> name == "message" || name == "m")
    && (item.field == ThreadName <==> name == "thread")
    && (item.spec == Default <==> spec == "" || spec == "path")
    && (item.spec == HMS <==> spec == "HMS")
    && (item.spec == HMSf <==> spec == "HMSf")
    && (item.spec == HMSF <==> spec == "HMSF")
    && (item.spec == NameOnly <==> spec == "nameonly")
  }

  /** The parser on a pattern that is one pair of braces. */
  lemma ParseBraces(text: string, room: nat)
    requires '}' !in text && (text != "" ==> text[0] != '{')
    ensures Parse("{" + text + "}", room)
            == (match ReadField(text, room, "")
                case Failed(e) => Outcome([], e)
                case Took(item, _) => Outcome([item], NoError))
  {
    var p := "{" + text + "}";
    assert p == "{" + text + "}" + "";
    BracedNext(p, text, "", room);
    if ReadField(text, room, "").Took? {
      ParseStep(p, room);
    }
  }

  lemma SplitText(name: string, spec: string)
    requires ':' !in name
    ensures NamePart(name) == name && SpecPart(name) == ""
    ensures NamePart(name + ":" + spec) == name && SpecPart(name + ":" + spec) == spec
  {
    IndexOfMissing(name, 0, ':');
    var text := name + ":" + spec;
    assert text[0..|name|] == name;
    IndexOfUnique(text, 0, ':', |name|);
    assert text[|name| + 1..] == spec;
  }

  /** What the parser makes of any one field, with or without a specification: the complaint that applies first, in
      this order, or the field that the names mean. */
  ghost predicate FieldLaw(o: Outcome, text: string, name: string, spec: string, room: nat) {
    if !KnownField(name) then o == Outcome([], UnknownFieldName)
    else if !KnownSpec(spec) then o == Outcome([], UnknownFormatSpec)
    else if !GoTogether(name, spec) then o == Outcome([], InvalidSpecUsage)
    else if room == 0 then o == Outcome([], TooManyFields)
    else o.error == NoError && |o.items| == 1 && Means(o.items[0], name, spec) && o.items[0].text == text
  }

  lemma ReadFieldLaw(text: string, name: string, spec: string, room: nat)
    requires text != "" && NamePart(text) == name && SpecPart(text) == spec
    ensures FieldLaw(match ReadField(text, room, "")
                     case Failed(e) => Outcome([], e)
                     case Took(item, _) => Outcome([item], NoError), text, name, spec, room)
  {
    FieldOfName(name);
    SpecOfName(spec);
    if KnownField(name) && KnownSpec(spec) {
      AllowedTogether(name, spec);
      MeansThat(text, name, spec);
    }
  }

  lemma AllowedTogether(name: string, spec: string)
    requires Lookup(FIELD_NAMES, name) != None && Lookup(SPEC_NAMES, spec) != None
    ensures Allowed(Lookup(FIELD_NAMES, name).value, Lookup(SPEC_NAMES, spec).value) <==> GoTogether(name, spec)
  {
    FieldOfName(name);
    SpecOfName(spec);
  }

  lemma MeansThat(text: string, name: string, spec: string)
    requires Lookup(FIELD_NAMES, name) != None && Lookup(SPEC_NAMES, spec) != None
    ensures Means(FieldItem(text, Lookup(FIELD_NAMES, name).value, Lookup(SPEC_NAMES, spec).value), name, spec)
  {
    FieldOfName(name);
    SpecOfName(spec);
  }

  lemma NamedField(name: string, room: nat)
    requires NameLike(name)
    ensures FieldLaw(Parse("{" + name + "}", room), name, name, "", room)
  {
    SplitText(name, "");
    ParseBraces(name, room);
    ReadFieldLaw(name, name, "", room);
  }

  lemma NamedFieldWithSpec(name: string, spec: string, room: nat)
    requires NameLike(name) && '}' !in spec
    ensures FieldLaw(Parse("{" + (name + ":" + spec) + "}", room), name + ":" + spec, name, spec, room)
  {
    SplitText(name, spec);
    ParseBraces(name + ":" + spec, room);
    ReadFieldLaw(name + ":" + spec, name, spec, room);
  }

  // ---------------------------------------------------------------- braces

  /** The errors that have to do with braces. */
  lemma OpenWithoutClose(text: string, room: nat)
    requires '}' !in text && (text != "" ==> text[0] != '{')
    ensures Parse("{" + text, room) == Outcome([], UnterminatedBrace)
  {
    var p := "{" + text;
    IndexOfMissing(p, 1, '}');
    assert Inside(p) == None;
    ParseFails(p, room, UnterminatedBrace);
  }

  lemma ParseFails(p: string, room: nat, e: ParsingError)
    requires p != "" && Next(p, room) == Failed(e)
    ensures Parse(p, room) == Outcome([], e)
  {
  }

  lemma NothingBetween(rest: string, room: nat)
    ensures Parse("{}" + rest, room) == Outcome([], EmptyFieldName)
  {
    assert "{}" + rest == "{" + "" + "}" + rest;
    BracedNext("{}" + rest, "", rest, room);
    ParseFails("{}" + rest, room, EmptyFieldName);
  }

  lemma CloseWithoutOpen(rest: string, room: nat)
    requires rest == "" || rest[0] != '}'
    ensures Parse("}" + rest, room) == Outcome([], UnmatchedClosingBrace)
  {
    var p := "}" + rest;
    assert |p| > 1 ==> p[1] == rest[0];
    ParseFails(p, room, UnmatchedClosingBrace);
  }

  /** Behind a pattern without an error, with room for its fields and n more, whatever follows is read as it is read
      alone with room for n; so the error of the whole is that of the first part that has one. */
  lemma ReadInTurn(p: string, q: string, m: nat, n: nat)
    requires Parse(p, m).error == NoError
    ensures FieldCount(Parse(p, m).items) <= m
    ensures Parse(p + q, FieldCount(Parse(p, m).items) + n)
            == Outcome(Parse(p, m).items + Parse(q, n).items, Parse(q, n).error)
  {
    ItemsOf(p, m);
    var xs, o := Parse(p, m).items, Parse(q, n);
    ParseThen(xs, q, FieldCount(xs) + n, n, o);
  }

  lemma ItemsOf(p: string, m: nat)
    requires Parse(p, m).error == NoError
    ensures var xs := Parse(p, m).items; ValidItems(xs) && FieldCount(xs) <= m && TextOf(xs) == p
  {
    var rest := ParseReads(p, m);
    assert TextOf(Parse(p, m).items) + "" == TextOf(Parse(p, m).items);
  }

  // ---------------------------------------------------------------- what is printed

  /** Parsing the pattern, and formatting the record with what it compiles to, succeeds and prints this text. */
  ghost predicate Prints(p: string, max: nat, r: Record, w: TimeWriter, text: string) {
    var o := Parse(p, max);
    && o.error == NoError && AllAllowed(FieldsOf(o.items), SpecsOf(o.items))
    && Format(FmtOf(o.items), ArgsOf(FieldsOf(o.items), SpecsOf(o.items), r, TrueClocks(r.timestamp)), w)
       == Some(Output(text, []))
  }

  lemma PrintsRendering(p: string, max: nat, r: Record, w: TimeWriter)
    requires Parse(p, max).error == NoError
    ensures ValidItems(Parse(p, max).items) && Prints(p, max, r, w, Render(Parse(p, max).items, r, w))
  {
    var rest := ParseReads(p, max);
    CompiledPatternMeansPattern(Parse(p, max).items, r, TrueClocks(r.timestamp), w);
  }

  lemma PrintsOne(p: string, max: nat, item: Item, r: Record, w: TimeWriter)
    requires Parse(p, max) == Outcome([item], NoError)
    ensures Prints(p, max, r, w, RenderItem(item, r, TrueClocks(r.timestamp), w))
  {
    PrintsRendering(p, max, r, w);
    RenderOne(item, r, w);
  }

  lemma RenderOne(item: Item, r: Record, w: TimeWriter)
    ensures Render([item], r, w) == RenderItem(item, r, TrueClocks(r.timestamp), w)
  {
    var c := TrueClocks(r.timestamp);
    var text := RenderItem(item, r, c, w);
    assert [item][1..] == [] && RenderWith([], r, c, w) == "";
    assert RenderWith([item], r, c, w) == text + "";
  }

  lemma PrintsIsRendering(p: string, max: nat, r: Record, w: TimeWriter, text: string)
    requires Prints(p, max, r, w, text)
    ensures Parse(p, max).error == NoError && text == Render(Parse(p, max).items, r, w)
  {
    PrintsRendering(p, max, r, w);
  }

  lemma ItemsInTurn(p: string, q: string, m: nat, n: nat)
    requires Parse(p, m).error == NoError && Parse(q, n).error == NoError
    ensures Parse(p + q, m + n) == Outcome(Parse(p, m).items + Parse(q, n).items, NoError)
  {
    ItemsOf(p, m);
    ItemsThen(Parse(p, m).items, q, m, n, Parse(q, n));
  }

  lemma ItemsThen(xs: seq<Item>, q: string, m: nat, n: nat, o: Outcome)
    requires ValidItems(xs) && FieldCount(xs) <= m && Parse(q, n) == o && o.error == NoError
    ensures Parse(TextOf(xs) + q, m + n) == Outcome(xs + o.items, NoError)
  {
    var room := m + n - FieldCount(xs);
    MoreRoom(q, n, room);
    ParseThen(xs, q, m + n, room, o);
  }

  /** Two patterns one behind the other print what they print alone, one behind the other. */
  lemma PrintsInTurn(p: string, q: string, m: nat, n: nat, r: Record, w: TimeWriter, x: string, y: string)
    requires Prints(p, m, r, w, x) && Prints(q, n, r, w, y)
    ensures Prints(p + q, m + n, r, w, x + y)
  {
    PrintsIsRendering(p, m, r, w, x);
    PrintsIsRendering(q, n, r, w, y);
    ItemsInTurn(p, q, m, n);
    PrintsRendering(p + q, m + n, r, w);
    RenderInTurn(Parse(p, m).items, Parse(q, n).items, r, w);
  }

  lemma MoreRoom(p: string, m: nat, n: nat)
    requires Parse(p, m).error == NoError && m <= n
    ensures Parse(p, n) == Parse(p, m)
  {
    var rest := ParseReads(p, m);
    ParseFindsItems(p, n, Parse(p, m).items, "", NoError);
  }

  lemma {:induction false} RenderInTurn(xs: seq<Item>, ys: seq<Item>, r: Record, w: TimeWriter)
    ensures Render(xs + ys, r, w) == Render(xs, r, w) + Render(ys, r, w)
  {
    if xs == [] {
      assert xs + ys == ys;
    } else {
      assert (xs + ys)[1..] == xs[1..] + ys;
      RenderInTurn(xs[1..], ys, r, w);
    }
  }

  /** Ordinary characters print themselves, and doubled braces print one. */
  lemma CharPrints(c: char, max: nat, r: Record, w: TimeWriter)
    requires c != '{' && c != '}'
    ensures Prints([c], max, r, w, [c])
  {
    LonelyItem([c], Literal(c), max);
    PrintsOne([c], max, Literal(c), r, w);
  }

  lemma DoubledBracePrints(p: string, max: nat, r: Record, w: TimeWriter)
    requires p == "{{" || p == "}}"
    ensures Prints(p, max, r, w, p[..1])
  {
    var item := if p == "{{" then OpenBrace else CloseBrace;
    LonelyItem(p, item, max);
    assert p[..1] == [p[0]] && (p == "{{" ==> p[..1] == "{") && (p == "}}" ==> p[..1] == "}");
    PrintsOne(p, max, item, r, w);
  }

  lemma NothingPrints(p: string, max: nat, r: Record, w: TimeWriter)
    requires p == ""
    ensures Prints(p, max, r, w, "")
  {
    PrintsRendering(p, max, r, w);
  }

  lemma LonelyItem(p: string, item: Item, max: nat)
    requires ValidItem(item) && !item.FieldItem? && ItemText(item) == p
    ensures Parse(p, max) == Outcome([item], NoError)
  {
    assert p + "" == p;
    NextOfItem(item, "", max);
    ParseStep(p, max);
  }

  lemma FieldPrints(name: string, max: nat, r: Record, w: TimeWriter) returns (item: Item)
    requires NameLike(name) && KnownField(name) && max > 0
    ensures Means(item, name, "")
    ensures Prints("{" + name + "}", max, r, w, RenderItem(item, r, TrueClocks(r.timestamp), w))
  {
    NamedField(name, max);
    item := Parse("{" + name + "}", max).items[0];
    assert Parse("{" + name + "}", max).items == [item];
    PrintsOne("{" + name + "}", max, item, r, w);
  }

  lemma SpecPrints(name: string, spec: string, max: nat, r: Record, w: TimeWriter) returns (item: Item)
    requires NameLike(name) && '}' !in spec && KnownField(name) && KnownSpec(spec) && GoTogether(name, spec) && max > 0
    ensures Means(item, name, spec)
    ensures Prints("{" + (name + ":" + spec) + "}", max, r, w, RenderItem(item, r, TrueClocks(r.timestamp), w))
  {
    NamedFieldWithSpec(name, spec, max);
    var p := "{" + (name + ":" + spec) + "}";
    item := Parse(p, max).items[0];
    assert Parse(p, max).items == [item];
    PrintsOne(p, max, item, r, w);
  }

  /** What each field prints, for every record. */
  lemma MessagePrints(name: string, max: nat, r: Record, w: TimeWriter)
    requires name == "message" && max > 0
    ensures Prints("{" + name + "}", max, r, w, r.message)
  {
    var item := FieldPrints(name, max, r, w);
  }

  lemma ShortMessagePrints(name: string, max: nat, r: Record, w: TimeWriter)
    requires name == "m" && max > 0
    ensures Prints("{" + name + "}", max, r, w, r.message)
  {
    var item := FieldPrints(name, max, r, w);
  }

  lemma ThreadPrints(name: string, max: nat, r: Record, w: TimeWriter)
    requires name == "thread" && max > 0
    ensures Prints("{" + name + "}", max, r, w, r.threadName)
  {
    var item := FieldPrints(name, max, r, w);
  }

  lemma FunctionPrints(name: string, max: nat, r: Record, w: TimeWriter)
    requires name == "function" && max > 0
    ensures Prints("{" + name + "}", max, r, w, r.functionName)
  {
    var item := FieldPrints(name, max, r, w);
  }

  lemma FilePrints(name: string, max: nat, r: Record, w: TimeWriter)
    requires name == "file" && max > 0
    ensures Prints("{" + name + "}", max, r, w, r.filename)
  {
    var item := FieldPrints(name, max, r, w);
  }

  lemma LinePrints(name: string, max: nat, r: Record, w: TimeWriter)
    requires name == "line" && max > 0
    ensures Prints("{" + name + "}", max, r, w, Decimal(r.line))
  {
    var item := FieldPrints(name, max, r, w);
  }

  lemma TimePrints(name: string, max: nat, r: Record, w: TimeWriter)
    requires name == "time" && max > 0
    ensures Prints("{" + name + "}", max, r, w, w(r.timestamp))
  {
    var item := FieldPrints(name, max, r, w);
  }

  lemma LevelPrints(name: string, max: nat, r: Record, w: TimeWriter)
    requires name == "level" && max > 0
    ensures r.level == Trace ==> Prints("{" + name + "}", max, r, w, "TRACE")
    ensures r.level == Debug ==> Prints("{" + name + "}", max, r, w, "DEBUG")
    ensures r.level == Info ==> Prints("{" + name + "}", max, r, w, "INFO")
    ensures r.level == Warn ==> Prints("{" + name + "}", max, r, w, "WARN")
    ensures r.level == Error ==> Prints("{" + name + "}", max, r, w, "ERROR")
  {
    var item := FieldPrints(name, max, r, w);
  }

  lemma FilePathPrints(name: string, spec: string, max: nat, r: Record, w: TimeWriter)
    requires name == "file" && spec == "path" && max > 0
    ensures Prints("{" + (name + ":" + spec) + "}", max, r, w, r.filename)
  {
    var item := SpecPrints(name, spec, max, r, w);
  }

  /** The name alone is the path behind its last slash or backslash. */
  lemma FileNamePrints(name: string, spec: string, max: nat, r: Record, w: TimeWriter) returns (n: nat)
    requires name == "file" && spec == "nameonly" && max > 0
    ensures n <= |r.filename| && Prints("{" + (name + ":" + spec) + "}", max, r, w, r.filename[n..])
    ensures n > 0 ==> r.filename[n - 1] == '/' || r.filename[n - 1] == '\\'
    ensures forall i :: n <= i < |r.filename| ==> r.filename[i] != '/' && r.filename[i] != '\\'
  {
    var item := SpecPrints(name, spec, max, r, w);
    FileNameIsLastPart(r.filename);
    n := BehindLastSeparator(r.filename);
  }

  lemma ClockPrints(name: string, spec: string, max: nat, r: Record, w: TimeWriter)
    requires name == "time" && spec == "HMS" && max > 0
    ensures Prints("{" + (name + ":" + spec) + "}", max, r, w, ClockText(FloorSeconds(r.timestamp)))
  {
    var item := SpecPrints(name, spec, max, r, w);
  }

  /** The part below a second stands behind a point, in six or nine digits for the times at which it is exact. */
  lemma MicrosecondsPrint(name: string, spec: string, max: nat, r: Record, w: TimeWriter) returns (below: string)
    requires name == "time" && spec == "HMSf" && max > 0
    ensures Prints("{" + (name + ":" + spec) + "}", max, r, w, ClockText(FloorSeconds(r.timestamp)) + "." + below)
    ensures AllDigits(below)
    ensures if r.timestamp >= 0 || r.timestamp % NS_PER_SECOND == 0
            then |below| == 6 && Value(below) == r.timestamp % NS_PER_SECOND / 1000
            else Value(below) >= 1_000_000
  {
    var item := SpecPrints(name, spec, max, r, w);
    below := Padded(SubMicros(r.timestamp), 6);
    DigitsBelow(r.timestamp, SubMicros(r.timestamp), 6);
  }

  lemma NanosecondsPrint(name: string, spec: string, max: nat, r: Record, w: TimeWriter) returns (below: string)
    requires name == "time" && spec == "HMSF" && max > 0
    ensures Prints("{" + (name + ":" + spec) + "}", max, r, w, ClockText(FloorSeconds(r.timestamp)) + "." + below)
    ensures AllDigits(below)
    ensures if r.timestamp >= 0 || r.timestamp % NS_PER_SECOND == 0
            then |below| == 9 && Value(below) == r.timestamp % NS_PER_SECOND
            else Value(below) >= 1_000_000_000
  {
    var item := SpecPrints(name, spec, max, r, w);
    below := Padded(SubNanos(r.timestamp), 9);
    DigitsBelow(r.timestamp, SubNanos(r.timestamp), 9);
  }

  lemma DigitsBelow(t: int, n: nat, width: nat)
    requires (width == 6 && n == SubMicros(t)) || (width == 9 && n == SubNanos(t))
    ensures AllDigits(Padded(n, width)) && Value(Padded(n, width)) == n
    ensures t >= 0 || t % NS_PER_SECOND == 0 ==> |Padded(n, width)| == width
    ensures if t >= 0 || t % NS_PER_SECOND == 0
            then n == (if width == 6 then t % NS_PER_SECOND / 1000 else t % NS_PER_SECOND)
            else n >= (if width == 6 then 1_000_000 else 1_000_000_000)
  {
    PaddedValue(n, width);
    SubSecondIsExact(t);
    TenToTheNine();
    if t >= 0 || t % NS_PER_SECOND == 0 {
      PaddedWidth(n, width);
    }
  }
}
