/** The compile-time pattern parser in its imperative form: it walks an index over the pattern and pushes into the
    fixed-size arrays of the result. Writing past the end of such an array is not a constant expression, so the
    evaluation is rejected; the methods report that as ok being false. */
module PatternParser {
  import opened Fmt
  import opened Pattern
  import opened Wrappers

  /** The loop over a name table. */
  method NameToEnum<T>(table: seq<(string, T)>, name: string) returns (r: Option<T>)
    ensures r == Lookup(table, name)
  {
    var i := 0;
    while i < |table|
      invariant i <= |table| && Lookup(table, name) == Lookup(table[i..], name)
    {
      if table[i].0 == name {
        return Some(table[i].1);
      }
      i := i + 1;
    }
    return None;
  }

  class ParsedPattern {
    var error: ParsingError
    const fmtStr: array<char>
    var fmtStrLen: nat
    const fields: array<Field>
    const specs: array<Spec>
    var fieldCount: nat

    ghost predicate Valid()
      reads this
    {
      fmtStrLen <= fmtStr.Length && fieldCount <= fields.Length == specs.Length
    }

    function FmtStr(): string
      requires Valid()
      reads this, fmtStr
    {
      fmtStr[..fmtStrLen]
    }

    ghost function Fields(): (s: seq<Field>)
      requires Valid()
      reads this, fields
      ensures |s| == fieldCount
    {
      fields[..fieldCount]
    }

    ghost function Specs(): (s: seq<Spec>)
      requires Valid()
      reads this, specs
      ensures |s| == fieldCount
    {
      specs[..fieldCount]
    }

    /** The result holds what these items compile to. */
    ghost predicate Holds(items: seq<Item>)
      requires Valid()
      reads this, fmtStr, fields, specs
    {
      FmtStr() == FmtOf(items) && Fields() == FieldsOf(items) && Specs() == SpecsOf(items)
    }

    constructor (maxFmtStrLen: nat, maxFields: nat)
      ensures Valid() && Holds([]) && error == NoError
      ensures fmtStr.Length == maxFmtStrLen && fields.Length == maxFields
      ensures fresh(fmtStr) && fresh(fields) && fresh(specs)
    {
      error, fmtStrLen, fieldCount := NoError, 0, 0;
      fmtStr := new char[maxFmtStrLen];
      fields := new Field[maxFields];
      specs := new Spec[maxFields];
    }

    method PushChar(c: char) returns (ok: bool)
      requires Valid()
      modifies this`fmtStrLen, fmtStr
      ensures Valid() && ok == (old(fmtStrLen) < fmtStr.Length)
      ensures FmtStr() == (if ok then old(FmtStr()) + [c] else old(FmtStr()))
    {
      ok := fmtStrLen < fmtStr.Length;
      if ok {
        fmtStr[fmtStrLen] := c;
        fmtStrLen := fmtStrLen + 1;
      }
    }

    /** Pushes every character of s, as far as there is space. */
    method PushAll(s: string) returns (ok: bool)
      requires Valid()
      modifies this`fmtStrLen, fmtStr
      ensures Valid() && ok == (old(fmtStrLen) + |s| <= fmtStr.Length)
      ensures ok ==> FmtStr() == old(FmtStr()) + s
    {
      ok := true;
      var i := 0;
      while i < |s|
        invariant i <= |s| && Valid() && ok
        invariant FmtStr() == old(FmtStr()) + s[..i]
      {
        ok := PushChar(s[i]);
        if !ok {
          return;
        }
        i := i + 1;
      }
    }

    /** expand_spec_into_result. */
    method ExpandSpec(spec: Spec) returns (ok: bool)
      requires Valid()
      modifies this`fmtStrLen, fmtStr
      ensures Valid() && ok == (old(fmtStrLen) + |Expansion(spec)| <= fmtStr.Length)
      ensures ok ==> FmtStr() == old(FmtStr()) + Expansion(spec)
    {
      var expansion := "";
      match spec {
        case Default => expansion := "{}";
        case HMS => expansion := "{}";
        case HMSf => expansion := "{}.{:06}";
        case HMSF => expansion := "{}.{:09}";
        case NameOnly => expansion := "{}";
      }
      ok := PushAll(expansion);
    }

    method Fail(e: ParsingError)
      requires Valid()
      modifies this`error
      ensures Valid() && error == e
      ensures FmtStr() == old(FmtStr()) && Fields() == old(Fields()) && Specs() == old(Specs())
    {
      error := e;
    }

    method PushField(field: Field, spec: Spec)
      requires Valid() && fieldCount < fields.Length
      modifies this`fieldCount, fields, specs
      ensures Valid() && Fields() == old(Fields()) + [field] && Specs() == old(Specs()) + [spec]
    {
      specs[fieldCount] := spec;
      fields[fieldCount] := field;
      fieldCount := fieldCount + 1;
    }
  }

  /** Looks for the closing brace. */
  method FindClosingBrace(pattern: string, start: nat) returns (k: nat)
    requires start <= |pattern|
    ensures k == IndexOf(pattern, start, '}')
  {
    k := start;
    while k < |pattern| && pattern[k] != '}'
      invariant start <= k <= |pattern| && IndexOf(pattern, start, '}') == IndexOf(pattern, k, '}')
    {
      k := k + 1;
    }
  }

  lemma {:induction false} IndexOfShift(s: string, i: nat, j: nat, c: char)
    requires i + j <= |s|
    ensures IndexOf(s[i..], j, c) + i == IndexOf(s, i + j, c)
    decreases |s| - (i + j)
  {
    if i + j < |s| {
      IndexOfShift(s, i, j + 1, c);
    }
  }

  /** The result of one round of the parser's loop: an error, an item, or an item that did not fit. */
  twostate predicate Did(r: ParsedPattern, step: Step, ok: bool, more: bool, rest: string)
    reads r, r.fmtStr, r.fields, r.specs
  {
    && old(r.Valid()) && r.Valid()
    && match step
       case Failed(e) =>
         && ok && !more && r.error == e
         && r.FmtStr() == old(r.FmtStr()) && r.Fields() == old(r.Fields()) && r.Specs() == old(r.Specs())
       case Took(item, after) =>
         && ok == (|old(r.FmtStr())| + |ItemFmt(item)| <= r.fmtStr.Length)
         && (ok ==>
               && more && rest == after && r.error == old(r.error)
               && r.FmtStr() == old(r.FmtStr()) + ItemFmt(item)
               && r.Fields() == old(r.Fields()) + (if item.FieldItem? then [item.field] else [])
               && r.Specs() == old(r.Specs()) + (if item.FieldItem? then [item.spec] else []))
  }

  /** Looks up what stands between the braces, and records and expands the field. */
  method ReadFieldInto(text: string, r: ParsedPattern, ghost rest: string, ghost step: Step)
    returns (ok: bool, more: bool)
    requires r.Valid() && step == ReadField(text, r.fields.Length - r.fieldCount, rest)
    modifies r, r.fmtStr, r.fields, r.specs
    ensures Did(r, step, ok, more, rest)
  {
    ok, more := true, false;
    if text == "" {
      r.Fail(EmptyFieldName);
      return;
    }
    var field := NameToEnum(FIELD_NAMES, NamePart(text));
    if field == None {
      r.Fail(UnknownFieldName);
      return;
    }
    var spec := NameToEnum(SPEC_NAMES, SpecPart(text));
    if spec == None {
      r.Fail(UnknownFormatSpec);
      return;
    }
    if !Allowed(field.value, spec.value) {
      r.Fail(InvalidSpecUsage);
      return;
    }
    if r.fieldCount >= r.fields.Length {
      r.Fail(TooManyFields);
      return;
    }
    r.PushField(field.value, spec.value);
    ok := r.ExpandSpec(spec.value);
    more := true;
  }

  /** The part of the loop for a single opening brace at position i. */
  method ParseField(pattern: string, i: nat, r: ParsedPattern, ghost step: Step)
    returns (ok: bool, more: bool, i': nat)
    requires r.Valid() && i < |pattern| && step == FieldStep(pattern, i, r.fields.Length - r.fieldCount)
    modifies r, r.fmtStr, r.fields, r.specs
    ensures i < i' <= |pattern|
    ensures Did(r, step, ok, more, pattern[i'..])
  {
    var k := FindClosingBrace(pattern, i + 1);
    if k == |pattern| {
      ok, more, i' := true, false, |pattern|;
      r.Fail(UnterminatedBrace);
    } else {
      i' := k + 1;
      ok, more := ReadFieldInto(pattern[i + 1..k], r, pattern[k + 1..], step);
    }
  }

  /** The step at a single opening brace at position i. */
  function FieldStep(pattern: string, i: nat, room: nat): Step
    requires i < |pattern|
  {
    var k := IndexOf(pattern, i + 1, '}');
    if k == |pattern| then Failed(UnterminatedBrace) else ReadField(pattern[i + 1..k], room, pattern[k + 1..])
  }

  lemma NextOfBrace(pattern: string, i: nat, room: nat)
    requires i < |pattern| && SingleOpenBrace(pattern, i)
    ensures Next(pattern[i..], room) == FieldStep(pattern, i, room)
  {
    InsideOfBrace(pattern, i, IndexOf(pattern, i + 1, '}'));
  }

  lemma InsideOfBrace(pattern: string, i: nat, k: nat)
    requires i < |pattern| && k == IndexOf(pattern, i + 1, '}')
    ensures Inside(pattern[i..])
            == (if k == |pattern| then None else Some((pattern[i + 1..k], pattern[k + 1..])))
  {
    IndexOfShift(pattern, i, 1, '}');
    if k < |pattern| {
      SliceOfRest(pattern, i, i + 1, k);
      TailOfRest(pattern, i, k + 1);
    }
  }

  lemma SliceOfRest(s: string, i: nat, a: nat, b: nat)
    requires i <= a <= b <= |s|
    ensures s[i..][a - i..b - i] == s[a..b]
  {
  }

  lemma TailOfRest(s: string, i: nat, a: nat)
    requires i <= a <= |s|
    ensures s[i..][a - i..] == s[a..]
  {
  }

  predicate SingleOpenBrace(pattern: string, i: nat)
    requires i < |pattern|
  {
    pattern[i] == '{' && !(i + 1 < |pattern| && pattern[i + 1] == '{')
  }

  /** The part of the loop for escape sequences, a single closing brace and literal characters. */
  method ParseText(pattern: string, i: nat, r: ParsedPattern, ghost step: Step)
    returns (ok: bool, more: bool, i': nat)
    requires r.Valid() && i < |pattern| && !SingleOpenBrace(pattern, i)
    requires step == Next(pattern[i..], r.fields.Length - r.fieldCount)
    modifies r, r.fmtStr, r.fields, r.specs
    ensures i < i' <= |pattern|
    ensures Did(r, step, ok, more, pattern[i'..])
  {
    ghost var p := pattern[i..];
    var c := pattern[i];
    more := true;
    if c == '{' || (c == '}' && i + 1 < |pattern| && pattern[i + 1] == '}') {
      i' := i + 2;
      assert p[2..] == pattern[i'..];
      ok := r.PushChar(c);
      if ok {
        ok := r.PushChar(c);
      }
    } else if c == '}' {
      r.Fail(UnmatchedClosingBrace);
      ok, more, i' := true, false, |pattern|;
    } else {
      i' := i + 1;
      assert p[1..] == pattern[i'..];
      ok := r.PushChar(c);
    }
  }

  lemma NextAt(pattern: string, i: nat, room: nat) returns (step: Step)
    requires i < |pattern|
    ensures step == Next(pattern[i..], room)
    ensures SingleOpenBrace(pattern, i) ==> step == FieldStep(pattern, i, room)
  {
    step := Next(pattern[i..], room);
    if SingleOpenBrace(pattern, i) {
      NextOfBrace(pattern, i, room);
    }
  }

  /** One round of the loop. */
  method ParseItem(pattern: string, i: nat, r: ParsedPattern)
    returns (ok: bool, more: bool, i': nat, ghost step: Step)
    requires r.Valid() && i < |pattern|
    modifies r, r.fmtStr, r.fields, r.specs
    ensures step == Next(pattern[i..], r.fields.Length - old(r.fieldCount))
    ensures i < i' <= |pattern| && Did(r, step, ok, more, pattern[i'..])
  {
    step := NextAt(pattern, i, r.fields.Length - r.fieldCount);
    if SingleOpenBrace(pattern, i) {
      ok, more, i' := ParseField(pattern, i, r, step);
    } else {
      ok, more, i' := ParseText(pattern, i, r, step);
    }
  }

  /** What is done and what is still to be parsed make up the outcome. */
  ghost predicate Progress(o: Outcome, items: seq<Item>, rest: string, room: nat) {
    o.items == items + Parse(rest, room).items && o.error == Parse(rest, room).error
  }

  lemma ProgressStep(o: Outcome, items: seq<Item>, rest: string, room: nat, step: Step)
    requires Progress(o, items, rest, room) && rest != "" && step == Next(rest, room) && step.Took?
    ensures Progress(o, items + [step.item], step.rest, RoomAfter(room, step.item))
    ensures |FmtOf(items)| + |ItemFmt(step.item)| <= |FmtOf(o.items)|
  {
    var more := Parse(step.rest, RoomAfter(room, step.item));
    ParseStep(rest, room);
    Regroup(items, step.item, more.items);
    FmtAppend(items, step.item);
    FmtLength(items + [step.item], more.items);
  }

  lemma Regroup(xs: seq<Item>, x: Item, ys: seq<Item>)
    ensures xs + ([x] + ys) == xs + [x] + ys
  {
  }

  lemma StepFits(rest: string, room: nat, step: Step)
    requires rest != "" && step == Next(rest, room) && step.Took?
    ensures |ItemFmt(step.item)| + |step.rest| <= |rest| && (step.item.FieldItem? ==> room > 0)
  {
    TookIsItem(rest, room);
    ItemFmtFits(step.item);
  }

  lemma {:induction false} FmtLength(xs: seq<Item>, ys: seq<Item>)
    ensures |FmtOf(xs + ys)| == |FmtOf(xs)| + |FmtOf(ys)|
  {
    if xs == [] {
      assert xs + ys == ys;
    } else {
      assert (xs + ys)[1..] == xs[1..] + ys;
      FmtLength(xs[1..], ys);
    }
  }

  lemma HoldsMore(r: ParsedPattern, items: seq<Item>, item: Item) returns (items': seq<Item>)
    requires r.Valid() && r.FmtStr() == FmtOf(items) + ItemFmt(item)
    requires r.Fields() == FieldsOf(items) + (if item.FieldItem? then [item.field] else [])
    requires r.Specs() == SpecsOf(items) + (if item.FieldItem? then [item.spec] else [])
    ensures items' == items + [item] && r.Holds(items')
  {
    items' := items + [item];
    FmtAppend(items, item);
    FieldsAppend(items, item);
    SpecsAppend(items, item);
  }

  /** The loop has come to position i, behind these items. */
  ghost predicate Running(r: ParsedPattern, pattern: string, o: Outcome, items: seq<Item>, i: nat)
    reads r, r.fmtStr, r.fields, r.specs
  {
    && r.Valid() && r.error == NoError && r.fmtStrLen <= i <= |pattern| && r.Holds(items)
    && Progress(o, items, pattern[i..], r.fields.Length - r.fieldCount)
  }

  lemma RunningStarts(r: ParsedPattern, pattern: string, o: Outcome)
    requires r.Valid() && r.Holds([]) && r.error == NoError && o == Parse(pattern, r.fields.Length)
    ensures Running(r, pattern, o, [], 0)
  {
    assert |FmtOf([])| == |r.FmtStr()| && |FieldsOf([])| == |r.Fields()|;
    assert pattern[0..] == pattern && [] + o.items == o.items;
  }

  lemma RunningEnds(r: ParsedPattern, pattern: string, o: Outcome, items: seq<Item>)
    requires Running(r, pattern, o, items, |pattern|)
    ensures r.Holds(o.items) && r.error == o.error
  {
    assert pattern[|pattern|..] == "" && items + [] == items;
  }

  /** One round of the loop, in terms of the outcome. */
  method Round(pattern: string, i: nat, r: ParsedPattern, ghost o: Outcome, ghost items: seq<Item>)
    returns (ok: bool, more: bool, i': nat, ghost items': seq<Item>)
    requires Running(r, pattern, o, items, i) && i < |pattern|
    modifies r, r.fmtStr, r.fields, r.specs
    ensures i < i' <= |pattern| && r.Valid()
    ensures !ok ==> |FmtOf(o.items)| > r.fmtStr.Length
    ensures ok && more ==> Running(r, pattern, o, items', i')
    ensures ok && !more ==> r.Holds(o.items) && r.error == o.error
  {
    ghost var rest, room := pattern[i..], r.fields.Length - r.fieldCount;
    ghost var step;
    items' := items;
    assert r.Holds(items) && Progress(o, items, rest, room);
    ok, more, i', step := ParseItem(pattern, i, r);
    if step.Failed? {
      ProgressStop(o, items, rest, room, step);
    } else {
      ProgressStep(o, items, rest, room, step);
      StepFits(rest, room, step);
      if ok {
        items' := RunningMore(r, pattern, o, items, i', step.item);
      }
    }
  }

  lemma RunningMore(r: ParsedPattern, pattern: string, o: Outcome, items: seq<Item>, i': nat, item: Item)
    returns (items': seq<Item>)
    requires r.Valid() && r.error == NoError && r.fmtStrLen <= i' <= |pattern|
    requires r.FmtStr() == FmtOf(items) + ItemFmt(item)
    requires r.Fields() == FieldsOf(items) + (if item.FieldItem? then [item.field] else [])
    requires r.Specs() == SpecsOf(items) + (if item.FieldItem? then [item.spec] else [])
    requires Progress(o, items + [item], pattern[i'..], r.fields.Length - r.fieldCount)
    ensures Running(r, pattern, o, items', i')
  {
    items' := HoldsMore(r, items, item);
  }

  lemma ProgressStop(o: Outcome, items: seq<Item>, rest: string, room: nat, step: Step)
    requires Progress(o, items, rest, room) && rest != "" && step == Next(rest, room) && step.Failed?
    ensures o == Outcome(items, step.error)
  {
    assert items + [] == items;
  }

  /** parse_pattern: the evaluation is accepted exactly when the format string generated before the end or the first
      error fits, which it does for every pattern of at most maxFmtStrLen characters; the result then holds what the
      items before the first error compile to, and that error. */
  method ParsePattern(pattern: string, maxFields: nat, maxFmtStrLen: nat) returns (result: ParsedPattern, ok: bool)
    ensures fresh(result) && result.Valid()
    ensures ok <==> |FmtOf(Parse(pattern, maxFields).items)| <= maxFmtStrLen
    ensures |pattern| <= maxFmtStrLen ==> ok
    ensures ok ==> result.Holds(Parse(pattern, maxFields).items) && result.error == Parse(pattern, maxFields).error
  {
    result := new ParsedPattern(maxFmtStrLen, maxFields);
    ghost var o := Parse(pattern, maxFields);
    ghost var items: seq<Item> := [];
    FmtFitsPattern(pattern, maxFields);
    RunningStarts(result, pattern, o);
    var i := 0;
    ok := true;
    var more := true;
    while i < |pattern| && ok && more
      invariant fresh(result) && fresh(result.fmtStr) && fresh(result.fields) && fresh(result.specs)
      invariant result.fmtStr.Length == maxFmtStrLen && result.fields.Length == maxFields && result.Valid()
      invariant i <= |pattern|
      invariant !ok ==> |FmtOf(o.items)| > maxFmtStrLen
      invariant ok && more ==> Running(result, pattern, o, items, i)
      invariant ok && !more ==> result.Holds(o.items) && result.error == o.error
      decreases |pattern| - i
    {
      ok, more, i, items := Round(pattern, i, result, o, items);
    }
    if ok && more {
      RunningEnds(result, pattern, o, items);
    }
  }
}
