/** The pattern language: what a pattern means as a text, and the parser as a function. */
module Pattern {
  import opened Fmt
  import opened Sequences
  import opened Wrappers

  datatype Field = Level | ThreadName | Time | File | Function | Line | Message

  datatype Spec = Default | HMS | HMSf | HMSF | NameOnly

  datatype ParsingError =
    | NoError
    | UnterminatedBrace
    | EmptyFieldName
    | UnknownFieldName
    | UnknownFormatSpec
    | InvalidSpecUsage
    | TooManyFields
    | UnmatchedClosingBrace

  // ---------------------------------------------------------------- the name tables

  const FIELD_NAMES: seq<(string, Field)> :=
    [("time", Time), ("file", File), ("function", Function), ("line", Line),
     ("level", Level), ("message", Message), ("m", Message), ("thread", ThreadName)]

  const SPEC_NAMES: seq<(string, Spec)> :=
    [("", Default), ("HMS", HMS), ("HMSf", HMSf), ("HMSF", HMSF), ("path", Default), ("nameonly", NameOnly)]

  /** The first entry of the table with this name. */
  function Lookup<T>(table: seq<(string, T)>, name: string): Option<T> {
    if table == [] then None
    else if table[0].0 == name then Some(table[0].1)
    else Lookup(table[1..], name)
  }

  lemma {:induction false} LookupIsListed<T>(table: seq<(string, T)>, name: string) returns (i: nat)
    requires Lookup(table, name).Some?
    ensures i < |table| && table[i] == (name, Lookup(table, name).value)
  {
    i := 0;
    if table[0].0 != name {
      i := LookupIsListed(table[1..], name);
      i := i + 1;
    }
  }

  /** Which specifications a field may have. */
  predicate Allowed(field: Field, spec: Spec) {
    match spec
    case Default => true
    case HMS | HMSf | HMSF => field == Time
    case NameOnly => field == File
  }

  // ---------------------------------------------------------------- the grammar

  /** The items a pattern is a sequence of; the text of a field item is what stands between its braces. */
  datatype Item = Literal(c: char) | OpenBrace | CloseBrace | FieldItem(text: string, field: Field, spec: Spec)

  function ItemText(item: Item): string {
    match item
    case Literal(c) => [c]
    case OpenBrace => "{{"
    case CloseBrace => "}}"
    case FieldItem(text, _, _) => "{" + text + "}"
  }

  function NamePart(text: string): string {
    text[..IndexOf(text, 0, ':')]
  }

  function SpecPart(text: string): string {
    var k := IndexOf(text, 0, ':');
    if k == |text| then "" else text[k + 1..]
  }

  predicate ValidItem(item: Item) {
    match item
    case Literal(c) => c != '{' && c != '}'
    case OpenBrace => true
    case CloseBrace => true
    case FieldItem(text, field, spec) =>
      && '}' !in text
      && Lookup(FIELD_NAMES, NamePart(text)) == Some(field)
      && Lookup(SPEC_NAMES, SpecPart(text)) == Some(spec)
      && Allowed(field, spec)
  }

  predicate ValidItems(items: seq<Item>) {
    forall item :: item in items ==> ValidItem(item)
  }

  function TextOf(items: seq<Item>): string {
    if items == [] then "" else ItemText(items[0]) + TextOf(items[1..])
  }

  function FieldCount(items: seq<Item>): nat {
    if items == [] then 0 else (if items[0].FieldItem? then 1 else 0) + FieldCount(items[1..])
  }

  /** What is wrong with the inside of a pair of braces, when room more fields are allowed. */
  predicate BadField(text: string, room: nat, e: ParsingError) {
    var field, spec := Lookup(FIELD_NAMES, NamePart(text)), Lookup(SPEC_NAMES, SpecPart(text));
    match e
    case EmptyFieldName => text == ""
    case UnknownFieldName => text != "" && field == None
    case UnknownFormatSpec => text != "" && field != None && spec == None
    case InvalidSpecUsage => text != "" && field != None && spec != None && !Allowed(field.value, spec.value)
    case TooManyFields =>
      text != "" && field != None && spec != None && Allowed(field.value, spec.value) && room == 0
    case _ => false
  }

  /** The text starts with a pair of braces around this inside, and not with a doubled brace. */
  predicate Braced(rest: string, text: string, tail: string) {
    rest == "{" + text + "}" + tail && '}' !in text && (text != "" ==> text[0] != '{')
  }

  /** The text does not go on with an item, because of this error. */
  ghost predicate Offends(rest: string, room: nat, e: ParsingError) {
    match e
    case NoError => false
    case UnterminatedBrace => rest != "" && rest[0] == '{' && !("{{" <= rest) && '}' !in rest
    case UnmatchedClosingBrace => rest != "" && rest[0] == '}' && !("}}" <= rest)
    case _ => exists text, tail :: Braced(rest, text, tail) && BadField(text, room, e)
  }

  ghost predicate Ends(rest: string, room: nat, e: ParsingError) {
    if e == NoError then rest == "" else Offends(rest, room, e)
  }

  /** The pattern is these items followed by rest, where it ends or first offends. */
  ghost predicate Reads(p: string, max: nat, items: seq<Item>, rest: string, e: ParsingError) {
    && ValidItems(items) && FieldCount(items) <= max
    && p == TextOf(items) + rest && Ends(rest, max - FieldCount(items), e)
  }

  // ---------------------------------------------------------------- the parser

  datatype Outcome = Outcome(items: seq<Item>, error: ParsingError)

  datatype Step = Took(item: Item, rest: string) | Failed(error: ParsingError)

  /** The field item with this text, or the first complaint about it. */
  function ReadField(text: string, room: nat, rest: string): Step {
    if text == "" then Failed(EmptyFieldName)
    else
      match Lookup(FIELD_NAMES, NamePart(text))
      case None => Failed(UnknownFieldName)
      case Some(field) =>
        match Lookup(SPEC_NAMES, SpecPart(text))
        case None => Failed(UnknownFormatSpec)
        case Some(spec) =>
          if !Allowed(field, spec) then Failed(InvalidSpecUsage)
          else if room == 0 then Failed(TooManyFields)
          else Took(FieldItem(text, field, spec), rest)
  }

  /** What stands between the brace a text starts with and the first closing brace, and what follows. */
  function Inside(p: string): (r: Option<(string, string)>)
    requires p != ""
    ensures r.Some? ==> |r.value.1| < |p|
  {
    var k := IndexOf(p, 1, '}');
    if k == |p| then None else Some((p[1..k], p[k + 1..]))
  }

  /** One round of the parser's loop. */
  function Next(p: string, room: nat): (step: Step)
    requires p != ""
    ensures step.Took? ==> |step.rest| < |p|
  {
    if p[0] == '{' then
      if |p| > 1 && p[1] == '{' then Took(OpenBrace, p[2..])
      else
        match Inside(p)
        case None => Failed(UnterminatedBrace)
        case Some((text, rest)) => ReadField(text, room, rest)
    else if p[0] == '}' then
      if |p| > 1 && p[1] == '}' then Took(CloseBrace, p[2..]) else Failed(UnmatchedClosingBrace)
    else Took(Literal(p[0]), p[1..])
  }

  function RoomAfter(room: nat, item: Item): nat {
    if item.FieldItem? && room > 0 then room - 1 else room
  }

  /** The items before the end or the first error, when room fields are allowed. */
  function Parse(p: string, room: nat): Outcome
    decreases |p|
  {
    if p == "" then Outcome([], NoError)
    else
      match Next(p, room)
      case Failed(e) => Outcome([], e)
      case Took(item, rest) =>
        var o := Parse(rest, RoomAfter(room, item));
        Outcome([item] + o.items, o.error)
  }

  // ---------------------------------------------------------------- the parser decides the grammar

  lemma FieldNamesAreWords(name: string)
    requires Lookup(FIELD_NAMES, name).Some?
    ensures name != "" && name[0] != '{'
  {
    var i := LookupIsListed(FIELD_NAMES, name);
    assert FIELD_NAMES[i].0 != "" && FIELD_NAMES[i].0[0] != '{';
  }

  lemma NamesHaveNoBrace(text: string)
    requires Lookup(FIELD_NAMES, NamePart(text)).Some?
    ensures text != "" && text[0] != '{' && NamePart(text) != ""
  {
    FieldNamesAreWords(NamePart(text));
  }

  /** The inside of a pair of braces is determined by the text. */
  lemma BracedNext(p: string, text: string, tail: string, room: nat)
    requires Braced(p, text, tail)
    ensures p != "" && Next(p, room) == ReadField(text, room, tail)
  {
    var k := 1 + |text|;
    assert p[1..k] == text && p[k + 1..] == tail;
    IndexOfUnique(p, 1, '}', k);
    assert !(|p| > 1 && p[1] == '{');
  }

  lemma NextOfItem(item: Item, rest: string, room: nat)
    requires ValidItem(item) && (item.FieldItem? ==> room > 0)
    ensures ItemText(item) + rest != "" && Next(ItemText(item) + rest, room) == Took(item, rest)
  {
    var p := ItemText(item) + rest;
    match item
    case FieldItem(text, _, _) =>
      NamesHaveNoBrace(text);
      BracedNext(p, text, rest, room);
    case Literal(c) =>
      assert p[1..] == rest;
    case _ =>
      assert p[2..] == rest;
  }

  lemma BadFieldFails(text: string, room: nat, rest: string, e: ParsingError)
    ensures ReadField(text, room, rest) == Failed(e) <==> BadField(text, room, e)
  {
  }

  lemma NextOfOffence(rest: string, room: nat, e: ParsingError)
    requires Offends(rest, room, e)
    ensures rest != "" && Next(rest, room) == Failed(e)
  {
    if e == UnterminatedBrace {
      IndexOfMissing(rest, 1, '}');
    } else if e != UnmatchedClosingBrace {
      var text, tail :| Braced(rest, text, tail) && BadField(text, room, e);
      BracedNext(rest, text, tail, room);
      BadFieldFails(text, room, tail, e);
    }
  }

  lemma SplitBraces(p: string, k: nat)
    requires 0 < k < |p| && p[0] == '{' && p[k] == '}'
    ensures p == "{" + p[1..k] + "}" + p[k + 1..]
  {
  }

  lemma TookIsItem(p: string, room: nat)
    requires p != "" && Next(p, room).Took?
    ensures var step := Next(p, room);
      && ValidItem(step.item) && p == ItemText(step.item) + step.rest && (step.item.FieldItem? ==> room > 0)
  {
    if p[0] == '{' && !(|p| > 1 && p[1] == '{') {
      var k := IndexOf(p, 1, '}');
      SplitBraces(p, k);
      NoneBefore(p, 1, '}');
      TookIsField(p[1..k], room, p[k + 1..]);
    } else if p[0] == '{' || p[0] == '}' {
      assert p == [p[0], p[1]] + p[2..];
    } else {
      assert p == [p[0]] + p[1..];
    }
  }

  lemma TookIsField(text: string, room: nat, rest: string)
    requires ReadField(text, room, rest).Took? && '}' !in text
    ensures var step := ReadField(text, room, rest);
      && step.rest == rest && step.item.FieldItem? && step.item.text == text && ValidItem(step.item) && room > 0
  {
  }

  lemma FailedIsOffence(p: string, room: nat)
    requires p != "" && Next(p, room).Failed?
    ensures Next(p, room).error != NoError && Offends(p, room, Next(p, room).error)
  {
    if p[0] == '{' {
      var k := IndexOf(p, 1, '}');
      NoneBefore(p, 1, '}');
      if k == |p| {
        assert p == "{" + p[1..k];
      } else {
        SplitBraces(p, k);
        FieldOffends(p, p[1..k], room, p[k + 1..]);
      }
    }
  }

  lemma FieldOffends(p: string, text: string, room: nat, tail: string)
    requires Braced(p, text, tail) && ReadField(text, room, tail).Failed?
    ensures ReadField(text, room, tail).error != NoError && Offends(p, room, ReadField(text, room, tail).error)
  {
    BadFieldFails(text, room, tail, ReadField(text, room, tail).error);
  }

  lemma ParseEnds(rest: string, room: nat, e: ParsingError)
    requires Ends(rest, room, e)
    ensures Parse(rest, room) == Outcome([], e)
  {
    if e != NoError {
      NextOfOffence(rest, room, e);
    }
  }

  lemma ParseMore(item: Item, rest: string, max: nat, o: Outcome)
    requires ValidItem(item) && (item.FieldItem? ==> max > 0) && Parse(rest, RoomAfter(max, item)) == o
    ensures Parse(ItemText(item) + rest, max) == Outcome([item] + o.items, o.error)
  {
    NextOfItem(item, rest, max);
    ParseStep(ItemText(item) + rest, max);
  }

  lemma ValidTail(items: seq<Item>)
    requires ValidItems(items) && items != []
    ensures ValidItem(items[0]) && ValidItems(items[1..])
  {
    assert items[0] in items && forall x :: x in items[1..] ==> x in items;
  }

  /** A pattern without an error is read the same way in front of any other text. */
  lemma {:induction false} ParseThen(items: seq<Item>, rest: string, max: nat, room: nat, o: Outcome)
    requires ValidItems(items) && max == FieldCount(items) + room && Parse(rest, room) == o
    ensures Parse(TextOf(items) + rest, max) == Outcome(items + o.items, o.error)
    decreases |items|
  {
    if items == [] {
      NoItems(rest, o);
    } else {
      var item, more := items[0], items[1..];
      ValidTail(items);
      var o' := Outcome(more + o.items, o.error);
      ParseThen(more, rest, RoomAfter(max, item), room, o);
      ParseMore(item, TextOf(more) + rest, max, o');
      TextCons(items, rest);
      Regroup(items, o.items);
    }
  }

  lemma NoItems(rest: string, o: Outcome)
    ensures TextOf([]) + rest == rest && Outcome([] + o.items, o.error) == o
  {
    assert [] + o.items == o.items;
  }

  lemma Regroup(items: seq<Item>, others: seq<Item>)
    requires items != []
    ensures items + others == [items[0]] + (items[1..] + others)
  {
  }

  lemma TextCons(items: seq<Item>, rest: string)
    requires items != []
    ensures TextOf(items) + rest == ItemText(items[0]) + (TextOf(items[1..]) + rest)
  {
    Assoc(ItemText(items[0]), TextOf(items[1..]), rest);
  }

  /** Whatever items a pattern starts with, the parser finds them, and stops where they stop. */
  lemma ParseFindsItems(p: string, max: nat, items: seq<Item>, rest: string, e: ParsingError)
    requires Reads(p, max, items, rest, e)
    ensures Parse(p, max) == Outcome(items, e)
  {
    var room := max - FieldCount(items);
    ParseEnds(rest, room, e);
    ParseThen(items, rest, max, room, Outcome([], e));
    assert items + [] == items;
  }

  lemma ParseStep(p: string, max: nat)
    requires p != "" && Next(p, max).Took?
    ensures var step := Next(p, max);
      var o := Parse(step.rest, RoomAfter(max, step.item));
      Parse(p, max) == Outcome([step.item] + o.items, o.error)
  {
  }

  lemma {:induction false} ParseReads(p: string, max: nat) returns (rest: string)
    ensures Reads(p, max, Parse(p, max).items, rest, Parse(p, max).error)
    decreases |p|
  {
    rest := p;
    if p != "" {
      var step := Next(p, max);
      if step.Took? {
        TookIsItem(p, max);
        rest := ParseReads(step.rest, RoomAfter(max, step.item));
        ParseStep(p, max);
        ReadsMore(p, max, step.item, step.rest, Parse(step.rest, RoomAfter(max, step.item)), rest);
      } else {
        FailedIsOffence(p, max);
        assert TextOf([]) + p == p;
      }
    }
  }

  lemma ReadsMore(p: string, max: nat, item: Item, after: string, o: Outcome, rest: string)
    requires ValidItem(item) && p == ItemText(item) + after && (item.FieldItem? ==> max > 0)
    requires Reads(after, RoomAfter(max, item), o.items, rest, o.error)
    ensures Reads(p, max, [item] + o.items, rest, o.error)
  {
    assert ([item] + o.items)[1..] == o.items;
    Assoc(ItemText(item), TextOf(o.items), rest);
  }

  /** The parser decides the grammar: it returns these items and this error exactly when the pattern starts with
      these items and then ends, or goes on with something that is no item for this reason. */
  lemma ParserDecidesGrammar(p: string, max: nat, items: seq<Item>, e: ParsingError)
    ensures Parse(p, max) == Outcome(items, e) <==> exists rest :: Reads(p, max, items, rest, e)
  {
    var r := ParseReads(p, max);
    if Parse(p, max) == Outcome(items, e) {
      assert Reads(p, max, items, r, e);
    }
    if rest :| Reads(p, max, items, rest, e) {
      ParseFindsItems(p, max, items, rest, e);
    }
  }

  /** In particular: no error, exactly for the sequences of items with at most max fields. */
  lemma NoErrorExactlyForPatterns(p: string, max: nat)
    ensures Parse(p, max).error == NoError
       <==> exists items :: ValidItems(items) && FieldCount(items) <= max && TextOf(items) == p
  {
    var r := ParseReads(p, max);
    var o := Parse(p, max);
    if o.error == NoError {
      assert r == "" && TextOf(o.items) + r == TextOf(o.items);
      assert ValidItems(o.items) && FieldCount(o.items) <= max && TextOf(o.items) == p;
    }
    if items :| ValidItems(items) && FieldCount(items) <= max && TextOf(items) == p {
      assert p + "" == p;
      ParseFindsItems(p, max, items, "", NoError);
    }
  }

  /** The grammar is unambiguous, and a pattern has at most one leftmost error. */
  lemma ReadingIsUnique(p: string, max: nat, xs: seq<Item>, r: string, d: ParsingError,
                        ys: seq<Item>, s: string, e: ParsingError)
    requires Reads(p, max, xs, r, d) && Reads(p, max, ys, s, e)
    ensures xs == ys && r == s && d == e
  {
    ParseFindsItems(p, max, xs, r, d);
    ParseFindsItems(p, max, ys, s, e);
    assert r == p[|TextOf(xs)|..] && s == p[|TextOf(ys)|..];
  }

  // ---------------------------------------------------------------- what a pattern compiles to

  function Expansion(spec: Spec): string {
    match spec
    case Default => "{}"
    case HMS => "{}"
    case HMSf => "{}.{:06}"
    case HMSF => "{}.{:09}"
    case NameOnly => "{}"
  }

  function ItemFmt(item: Item): string {
    match item
    case Literal(c) => [c]
    case OpenBrace => "{{"
    case CloseBrace => "}}"
    case FieldItem(_, _, spec) => Expansion(spec)
  }

  /** The fmt format string. */
  function FmtOf(items: seq<Item>): string {
    if items == [] then "" else ItemFmt(items[0]) + FmtOf(items[1..])
  }

  function FieldsOf(items: seq<Item>): (fields: seq<Field>)
    ensures |fields| == FieldCount(items)
  {
    if items == [] then []
    else (if items[0].FieldItem? then [items[0].field] else []) + FieldsOf(items[1..])
  }

  function SpecsOf(items: seq<Item>): (specs: seq<Spec>)
    ensures |specs| == FieldCount(items)
  {
    if items == [] then []
    else (if items[0].FieldItem? then [items[0].spec] else []) + SpecsOf(items[1..])
  }

  lemma {:induction false} FmtAppend(items: seq<Item>, item: Item)
    ensures FmtOf(items + [item]) == FmtOf(items) + ItemFmt(item)
  {
    if items == [] {
      assert [item][1..] == [];
      assert ItemFmt(item) + "" == "" + ItemFmt(item);
    } else {
      assert (items + [item])[1..] == items[1..] + [item];
      FmtAppend(items[1..], item);
      Assoc(ItemFmt(items[0]), FmtOf(items[1..]), ItemFmt(item));
    }
  }

  lemma {:induction false} FieldsAppend(items: seq<Item>, item: Item)
    ensures FieldsOf(items + [item]) == FieldsOf(items) + (if item.FieldItem? then [item.field] else [])
  {
    if items != [] {
      assert (items + [item])[1..] == items[1..] + [item];
      FieldsAppend(items[1..], item);
    }
  }

  lemma {:induction false} SpecsAppend(items: seq<Item>, item: Item)
    ensures SpecsOf(items + [item]) == SpecsOf(items) + (if item.FieldItem? then [item.spec] else [])
  {
    if items != [] {
      assert (items + [item])[1..] == items[1..] + [item];
      SpecsAppend(items[1..], item);
    }
  }

  lemma SpecNameLength(name: string)
    requires Lookup(SPEC_NAMES, name) == Some(HMSf) || Lookup(SPEC_NAMES, name) == Some(HMSF)
    ensures |name| == 4
  {
    var i := LookupIsListed(SPEC_NAMES, name);
    assert i == 2 || i == 3;
  }

  lemma ItemFmtFits(item: Item)
    requires ValidItem(item)
    ensures |ItemFmt(item)| <= |ItemText(item)|
  {
    if item.FieldItem? {
      NamesHaveNoBrace(item.text);
      if item.spec == HMSf || item.spec == HMSF {
        SpecNameLength(SpecPart(item.text));
      }
    }
  }

  /** The format string is never longer than the part of the pattern it comes from. */
  lemma {:induction false} FmtFits(items: seq<Item>)
    requires ValidItems(items)
    ensures |FmtOf(items)| <= |TextOf(items)|
  {
    if items != [] {
      assert items[0] in items && forall x :: x in items[1..] ==> x in items;
      ItemFmtFits(items[0]);
      FmtFits(items[1..]);
    }
  }

  /** Also when parsing stops at an error: what has been generated is no longer than the pattern. */
  lemma FmtFitsPattern(p: string, max: nat)
    ensures |FmtOf(Parse(p, max).items)| <= |p|
  {
    var rest := ParseReads(p, max);
    FmtFits(Parse(p, max).items);
  }

  // ---------------------------------------------------------------- arguments and placeholders

  function ArgCount(spec: Spec): nat {
    match spec
    case HMSf | HMSF => 2
    case _ => 1
  }

  function ArgCounts(specs: seq<Spec>): nat {
    if specs == [] then 0 else ArgCount(specs[0]) + ArgCounts(specs[1..])
  }

  lemma ExpansionPlaceholders(spec: Spec, f: string)
    ensures Placeholders(Expansion(spec) + f) == ArgCount(spec) + Placeholders(f)
  {
    var v, w: TimeWriter := Argument.Text(""), t => "";
    match spec
    case HMSf =>
      SecondPlaceholder("06", f, w);
      assert "{}.{:" + "06" + "}" == Expansion(spec);
    case HMSF =>
      SecondPlaceholder("09", f, w);
      assert "{}.{:" + "09" + "}" == Expansion(spec);
    case _ =>
      FormatField("", f, v, [], w);
      assert Expansion(spec) + f == "{" + "" + "}" + f;
  }

  lemma SecondText(width: string, f: string)
    ensures "{}.{:" + width + "}" + f == "{" + "" + "}" + ("." + ("{" + (":" + width) + "}" + f))
  {
  }

  lemma SecondPlaceholder(width: string, f: string, w: TimeWriter)
    requires '}' !in width
    ensures Placeholders("{}.{:" + width + "}" + f) == 2 + Placeholders(f)
  {
    var v := Argument.Text("");
    var g := "{" + (":" + width) + "}" + f;
    FormatField("", "." + g, v, [], w);
    FormatChar('.', g, [], w);
    FormatField(":" + width, f, v, [], w);
    SecondText(width, f);
  }

  lemma ItemPlaceholders(item: Item, f: string)
    requires ValidItem(item)
    ensures Placeholders(ItemFmt(item) + f)
            == (if item.FieldItem? then ArgCount(item.spec) else 0) + Placeholders(f)
  {
    var w: TimeWriter := t => "";
    match item
    case Literal(c) => FormatChar(c, f, [], w);
    case OpenBrace => FormatDoubled('{', f, [], w);
    case CloseBrace => FormatDoubled('}', f, [], w);
    case FieldItem(_, _, spec) => ExpansionPlaceholders(spec, f);
  }

  /** The format string has as many placeholders as the recorded specifications have arguments. */
  lemma {:induction false} PlaceholdersMatchArguments(items: seq<Item>)
    requires ValidItems(items)
    ensures Placeholders(FmtOf(items)) == ArgCounts(SpecsOf(items))
  {
    if items != [] {
      var item, rest := items[0], items[1..];
      assert item in items && forall x :: x in rest ==> x in items;
      PlaceholdersMatchArguments(rest);
      ItemPlaceholders(item, FmtOf(rest));
      assert SpecsOf(items) == (if item.FieldItem? then [item.spec] else []) + SpecsOf(rest);
      if item.FieldItem? {
        assert SpecsOf(items)[1..] == SpecsOf(rest);
      } else {
        assert SpecsOf(items) == SpecsOf(rest);
      }
    }
  }
}
