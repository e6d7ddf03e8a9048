/** The part of the fmt library's format strings that compiled patterns use: literal text, doubled braces, and the
    replacement fields {} , {:06} and {:09} with automatic argument numbering. */
module Fmt {
  import opened Digits
  import opened Wrappers

  datatype Argument = Text(s: string) | Number(n: nat) | TimePoint(ns: int)

  /** What a format call produces: the text, and the arguments it did not use. */
  datatype Output = Output(text: string, unused: seq<Argument>)

  /** How fmt writes a whole time point for the empty format specification. */
  type TimeWriter = int -> string

  /** The position of the first c in s from position i on, or the length of s. */
  function IndexOf(s: string, i: nat, c: char): (k: nat)
    requires i <= |s|
    ensures i <= k <= |s| && (k < |s| ==> s[k] == c)
    decreases |s| - i
  {
    if i == |s| || s[i] == c then i else IndexOf(s, i + 1, c)
  }

  lemma {:induction false} NoneBefore(s: string, i: nat, c: char)
    requires i <= |s|
    ensures c !in s[i..IndexOf(s, i, c)]
    decreases |s| - i
  {
    var k := IndexOf(s, i, c);
    if i < |s| && s[i] != c {
      NoneBefore(s, i + 1, c);
      assert s[i..k] == [s[i]] + s[i + 1..k];
    }
  }

  lemma {:induction false} IndexOfUnique(s: string, i: nat, c: char, k: nat)
    requires i <= k < |s| && s[k] == c && c !in s[i..k]
    ensures IndexOf(s, i, c) == k
    decreases k - i
  {
    if i < k {
      assert s[i..k] == [s[i]] + s[i + 1..k];
      IndexOfUnique(s, i + 1, c, k);
    }
  }

  lemma {:induction false} IndexOfMissing(s: string, i: nat, c: char)
    requires i <= |s| && c !in s
    ensures IndexOf(s, i, c) == |s|
    decreases |s| - i
  {
    if i < |s| {
      assert s[i] in s;
      IndexOfMissing(s, i + 1, c);
    }
  }

  /** One argument under one format specification; None is the error fmt reports. */
  function FormatValue(v: Argument, spec: string, writer: TimeWriter): Option<string> {
    match v
    case Text(s) => if spec == "" then Some(s) else None
    case Number(n) =>
      if spec == "" then Some(Decimal(n))
      else if spec == ":06" then Some(Padded(n, 6))
      else if spec == ":09" then Some(Padded(n, 9))
      else None
    case TimePoint(ns) => if spec == "" then Some(writer(ns)) else None
  }

  function Prefixed(s: string, rest: Option<Output>): Option<Output> {
    match rest
    case None => None
    case Some(o) => Some(Output(s + o.text, o.unused))
  }

  /** A format call; None when the format string is malformed, an argument is missing or a specification does not
      fit its argument. */
  function Format(f: string, args: seq<Argument>, writer: TimeWriter): Option<Output>
    decreases |f|
  {
    if f == "" then Some(Output("", args))
    else if f[0] == '{' && |f| > 1 && f[1] == '{' then Prefixed("{", Format(f[2..], args, writer))
    else if f[0] == '{' then
      var k := IndexOf(f, 1, '}');
      if k == |f| || args == [] then None
      else
        match FormatValue(args[0], f[1..k], writer)
        case None => None
        case Some(s) => Prefixed(s, Format(f[k + 1..], args[1..], writer))
    else if f[0] == '}' then
      if |f| > 1 && f[1] == '}' then Prefixed("}", Format(f[2..], args, writer)) else None
    else Prefixed([f[0]], Format(f[1..], args, writer))
  }

  /** The number of replacement fields of a format string, found the way Format finds them. */
  function Placeholders(f: string): nat
    decreases |f|
  {
    if f == "" then 0
    else if f[0] == '{' && |f| > 1 && f[1] == '{' then Placeholders(f[2..])
    else if f[0] == '{' then
      var k := IndexOf(f, 1, '}');
      if k == |f| then 0 else 1 + Placeholders(f[k + 1..])
    else if f[0] == '}' && |f| > 1 && f[1] == '}' then Placeholders(f[2..])
    else Placeholders(f[1..])
  }

  /** What the interpreter does at a replacement field. */
  lemma FormatField(spec: string, f: string, v: Argument, args: seq<Argument>, writer: TimeWriter)
    requires '}' !in spec && (spec != "" ==> spec[0] != '{')
    ensures Format("{" + spec + "}" + f, [v] + args, writer)
            == (match FormatValue(v, spec, writer) case None => None
                case Some(s) => Prefixed(s, Format(f, args, writer)))
    ensures Placeholders("{" + spec + "}" + f) == 1 + Placeholders(f)
  {
    var g := "{" + spec + "}" + f;
    var k := 1 + |spec|;
    assert g[1..k] == spec;
    IndexOfUnique(g, 1, '}', k);
    assert g[k + 1..] == f && ([v] + args)[1..] == args;
  }

  lemma FormatChar(c: char, f: string, args: seq<Argument>, writer: TimeWriter)
    requires c != '{' && c != '}'
    ensures Format([c] + f, args, writer) == Prefixed([c], Format(f, args, writer))
    ensures Placeholders([c] + f) == Placeholders(f)
  {
    assert ([c] + f)[1..] == f;
  }

  lemma FormatDoubled(c: char, f: string, args: seq<Argument>, writer: TimeWriter)
    requires c == '{' || c == '}'
    ensures Format([c, c] + f, args, writer) == Prefixed([c], Format(f, args, writer))
    ensures Placeholders([c, c] + f) == Placeholders(f)
  {
    assert ([c, c] + f)[2..] == f;
  }
}
