/** The printer of an endpoint's request and response values, and a parser that reads its output
    back. */
module Endpoint {
  import opened Wrappers
  import Text

  /** A registry value. */
  datatype Value = Value(name: string, typ: string, values: seq<Value>)

  /** What the printer shows of a value: its name in snake case, and its type. */
  datatype Tree = Tree(name: string, typ: string, children: seq<Tree>)

  function Shown(v: Value, snake: string -> string): Tree {
    Tree(snake(v.name), v.typ, seq(|v.values|, i requires 0 <= i < |v.values| => Shown(v.values[i], snake)))
  }

  function Tabs(n: nat): (s: string)
    ensures |s| == n && forall i :: 0 <= i < n ==> s[i] == '\t'
  {
    if n == 0 then "" else Tabs(n - 1) + "\t"
  }

  function Concat(parts: seq<string>): string {
    if parts == [] then "" else parts[0] + Concat(parts[1..])
  }

  /** `fmt.Sprintf` for formats whose only verb is %s; `None` when a verb lacks an argument, an
      argument lacks a verb, or there is another verb. */
  function Sprintf(format: string, args: seq<string>): Option<string> {
    if format == "" then
      if args == [] then Some("") else None
    else if format[0] == '%' then
      if |format| > 1 && format[1] == 's' && args != [] then Before(args[0], Sprintf(format[2..], args[1..])) else None
    else Before([format[0]], Sprintf(format[1..], args))
  }

  function Before(s: string, rest: Option<string>): Option<string> {
    if rest.None? then None else Some(s + rest.value)
  }

  /** The simple indented rendering that the printer is meant to produce. */
  function Render(t: Tree, r: nat): string
    decreases t, 1
  {
    if t.children == [] then Tabs(r + 1) + t.name + " " + t.typ + "\n"
    else Tabs(r + 1) + t.name + " " + t.typ + " {\n" + RenderAll(t.children, r + 1) + Tabs(r + 1) + "}\n"
  }

  function RenderAll(ts: seq<Tree>, r: nat): string
    decreases ts, 0
  {
    if ts == [] then "" else Render(ts[0], r) + RenderAll(ts[1..], r)
  }

  lemma BeforeTwice(a: string, b: string, rest: Option<string>)
    ensures Before(a, Before(b, rest)) == Before(a + b, rest)
  {
    if rest.Some? {
      assert a + (b + rest.value) == a + b + rest.value;
    }
  }

  lemma {:induction false} SprintfLiteral(text: string, format: string, args: seq<string>)
    requires '%' !in text
    ensures Sprintf(text + format, args) == Before(text, Sprintf(format, args))
  {
    if text == "" {
      assert text + format == format;
      assert Sprintf(format, args).Some? ==> "" + Sprintf(format, args).value == Sprintf(format, args).value;
    } else {
      BeforeTwice([text[0]], text[1..], Sprintf(format, args));
      SprintfLiteral(text[1..], format, args);
      assert (text + format)[1..] == text[1..] + format;
      assert [text[0]] + text[1..] == text;
    }
  }

  lemma SprintfVerb(format: string, arg: string, args: seq<string>)
    ensures Sprintf("%s" + format, [arg] + args) == Before(arg, Sprintf(format, args))
  {
    assert ("%s" + format)[2..] == format && ([arg] + args)[1..] == args;
  }

  /** The number of verbs in a format. */
  function VerbCount(format: string): nat {
    if format == "" then 0
    else if format[0] == '%' && |format| > 1 then 1 + VerbCount(format[2..])
    else VerbCount(format[1..])
  }

  /** A format that prints has exactly as many verbs as arguments. */
  lemma {:induction false} VerbsMatchArguments(format: string, args: seq<string>)
    requires Sprintf(format, args).Some?
    ensures VerbCount(format) == |args|
  {
    if format == "" {
    } else {
      if format[0] == '%' {
        VerbsMatchArguments(format[2..], args[1..]);
      } else {
        VerbsMatchArguments(format[1..], args);
      }
    }
  }

  /** One "%s" for each child. */
  function Verbs(n: nat): string {
    if n == 0 then "" else "%s" + Verbs(n - 1)
  }

  lemma {:induction false} SprintfVerbs(children: seq<string>, format: string, args: seq<string>)
    ensures Sprintf(Verbs(|children|) + format, children + args) == Before(Concat(children), Sprintf(format, args))
  {
    if children == [] {
      assert Verbs(0) + format == format && children + args == args;
      assert Sprintf(format, args).Some? ==> "" + Sprintf(format, args).value == Sprintf(format, args).value;
    } else {
      var rest := children[1..];
      assert Verbs(|children|) + format == "%s" + (Verbs(|rest|) + format);
      assert children + args == [children[0]] + (rest + args);
      SprintfVerb(Verbs(|rest|) + format, children[0], rest + args);
      SprintfVerbs(rest, format, args);
      BeforeTwice(children[0], Concat(rest), Sprintf(format, args));
    }
  }

  /** The first line: tabs, label, type. */
  lemma SprintfLine(n: nat, name: string, typ: string, format: string, args: seq<string>)
    ensures Sprintf(Tabs(n) + "%s %s" + format, [name, typ] + args)
            == Before(Tabs(n) + name + " " + typ, Sprintf(format, args))
  {
    assert Tabs(n) + "%s %s" + format == Tabs(n) + ("%s" + (" " + ("%s" + format)));
    assert [name, typ] + args == [name] + ([typ] + args);
    SprintfLiteral(Tabs(n), "%s" + (" " + ("%s" + format)), [name] + ([typ] + args));
    SprintfVerb(" " + ("%s" + format), name, [typ] + args);
    SprintfLiteral(" ", "%s" + format, [typ] + args);
    SprintfVerb(format, typ, args);
    var end := Sprintf(format, args);
    BeforeTwice(" ", typ, end);
    BeforeTwice(name, " " + typ, end);
    BeforeTwice(Tabs(n), name + (" " + typ), end);
    assert Tabs(n) + (name + (" " + typ)) == Tabs(n) + name + " " + typ;
  }

  lemma SprintfNested(n: nat, name: string, typ: string, children: seq<string>)
    ensures Sprintf(Tabs(n) + "%s %s" + (" {\n" + (Verbs(|children|) + (Tabs(n) + "}\n"))), [name, typ] + children)
            == Some(Tabs(n) + name + " " + typ + " {\n" + Concat(children) + Tabs(n) + "}\n")
  {
    var line, close := Tabs(n) + name + " " + typ, Tabs(n) + "}\n";
    SprintfLine(n, name, typ, " {\n" + (Verbs(|children|) + close), children);
    SprintfBody(children, close);
    assert line + (" {\n" + Concat(children) + close) == line + " {\n" + Concat(children) + Tabs(n) + "}\n";
  }

  lemma SprintfTail(children: seq<string>, close: string)
    requires '%' !in close
    ensures Sprintf(Verbs(|children|) + close, children) == Some(Concat(children) + close)
  {
    assert children + [] == children && close + "" == close;
    SprintfVerbs(children, close, []);
    SprintfLiteral(close, "", []);
  }

  lemma SprintfBody(children: seq<string>, close: string)
    requires '%' !in close
    ensures Sprintf(" {\n" + (Verbs(|children|) + close), children) == Some(" {\n" + Concat(children) + close)
  {
    SprintfTail(children, close);
    SprintfLiteral(" {\n", Verbs(|children|) + close, children);
    assert " {\n" + (Concat(children) + close) == " {\n" + Concat(children) + close;
  }

  lemma {:induction false} ConcatVerbs(n: nat, parts: seq<string>)
    requires |parts| == n && forall i :: 0 <= i < n ==> parts[i] == "%s"
    ensures Concat(parts) == Verbs(n)
  {
    if n == 0 {
    } else {
      ConcatVerbs(n - 1, parts[1..]);
    }
  }

  lemma {:induction false} ConcatAppend(a: seq<string>, b: seq<string>)
    ensures Concat(a + b) == Concat(a) + Concat(b)
  {
    if a == [] {
      assert a + b == b;
    } else {
      ConcatAppend(a[1..], b);
      assert (a + b)[1..] == a[1..] + b;
    }
  }

  lemma {:induction false} ConcatRendered(rendered: seq<string>, ts: seq<Tree>, r: nat)
    requires |rendered| == |ts| && forall i :: 0 <= i < |ts| ==> rendered[i] == Render(ts[i], r)
    ensures Concat(rendered) == RenderAll(ts, r)
  {
    if ts == [] {
    } else {
      ConcatRendered(rendered[1..], ts[1..], r);
    }
  }

  lemma ConcatThree(a: string, b: string, c: string, rest: seq<string>)
    ensures Concat([a, b, c] + rest) == a + (b + (c + Concat(rest)))
  {
    assert ([a, b, c] + rest)[1..] == [b, c] + rest;
    assert ([b, c] + rest)[1..] == [c] + rest;
    assert ([c] + rest)[1..] == rest;
    assert Concat([c] + rest) == c + Concat(rest);
    assert Concat([b, c] + rest) == b + Concat([c] + rest);
  }

  lemma ConcatClose(k: nat, tabs: string)
    requires k > 0
    ensures Concat(seq(k - 1, i => "%s") + ["%s" + tabs, "}\n"]) == Verbs(k) + (tabs + "}\n")
  {
    var front := seq(k - 1, i => "%s");
    ConcatVerbs(k - 1, front);
    ConcatVerbs(k, front + ["%s"]);
    ConcatAppend(front, ["%s"]);
    ConcatAppend(front, ["%s" + tabs, "}\n"]);
    assert Concat(["%s"]) == "%s" + "";
    assert ["%s" + tabs, "}\n"][1..] == ["}\n"] && Concat(["}\n"]) == "}\n" + "";
  }

  /** The format of a nested value, from the list of parts that the loops have built. */
  lemma NestedFormat(n: nat, fparts: seq<string>, k: nat)
    requires k > 0 && |fparts| == k + 4
    requires fparts[0] == Tabs(n) && fparts[1] == "%s %s {" && fparts[2] == "\n"
    requires forall i :: 3 <= i < k + 2 ==> fparts[i] == "%s"
    requires fparts[k + 2] == "%s" + Tabs(n) && fparts[k + 3] == "}\n"
    ensures Concat(fparts) == Tabs(n) + "%s %s" + (" {\n" + (Verbs(k) + (Tabs(n) + "}\n")))
  {
    var rest := seq(k - 1, i => "%s") + ["%s" + Tabs(n), "}\n"];
    assert fparts == [fparts[0], fparts[1], fparts[2]] + rest;
    ConcatThree(fparts[0], fparts[1], fparts[2], rest);
    ConcatClose(k, Tabs(n));
    Regroup(Tabs(n), Verbs(k) + (Tabs(n) + "}\n"));
  }

  lemma Regroup(tabs: string, rest: string)
    ensures tabs + ("%s %s {" + ("\n" + rest)) == tabs + "%s %s" + (" {\n" + rest)
  {
    assert "%s %s {" == "%s %s" + " {" && " {\n" == " {" + "\n";
  }

  /** What the finished parts print for a nested value. */
  lemma NestedPrints(t: Tree, r: nat, fparts: seq<string>, rendered: seq<string>)
    requires t.children != [] && |rendered| == |t.children| && |fparts| == |t.children| + 4
    requires forall i :: 0 <= i < |rendered| ==> rendered[i] == Render(t.children[i], r + 1)
    requires fparts[0] == Tabs(r + 1) && fparts[1] == "%s %s {" && fparts[2] == "\n"
    requires forall i :: 3 <= i < |t.children| + 2 ==> fparts[i] == "%s"
    requires fparts[|t.children| + 2] == "%s" + Tabs(r + 1) && fparts[|t.children| + 3] == "}\n"
    ensures Sprintf(Concat(fparts), [t.name, t.typ] + rendered) == Some(Render(t, r))
  {
    NestedFormat(r + 1, fparts, |t.children|);
    SprintfNested(r + 1, t.name, t.typ, rendered);
    ConcatRendered(rendered, t.children, r + 1);
  }

  lemma LeafFormat(n: nat, name: string, typ: string)
    ensures Sprintf(Concat([Tabs(n), "%s %s", "\n"]), [name, typ]) == Some(Tabs(n) + name + " " + typ + "\n")
  {
    ConcatThree(Tabs(n), "%s %s", "\n", []);
    assert [Tabs(n), "%s %s", "\n"] + [] == [Tabs(n), "%s %s", "\n"];
    assert Concat([Tabs(n), "%s %s", "\n"]) == Tabs(n) + "%s %s" + "\n";
    SprintfLine(n, name, typ, "\n", []);
    assert [name, typ] + [] == [name, typ];
    SprintfLiteral("\n", "", []);
    assert "\n" + "" == "\n";
  }

  /** A value and a tree that have the same shape. */
  predicate SameShape(v: Value, t: Tree) {
    |v.values| == |t.children| && forall i :: 0 <= i < |v.values| ==> SameShape(v.values[i], t.children[i])
  }

  /** The names in a value, itself first, then child by child. */
  function ValueNames(v: Value): seq<string>
    decreases v, 1
  {
    [v.name] + AllValueNames(v.values)
  }

  function AllValueNames(vs: seq<Value>): seq<string>
    decreases vs, 0
  {
    if vs == [] then [] else ValueNames(vs[0]) + AllValueNames(vs[1..])
  }

  function ValueTypes(v: Value): seq<string>
    decreases v, 1
  {
    [v.typ] + AllValueTypes(v.values)
  }

  function AllValueTypes(vs: seq<Value>): seq<string>
    decreases vs, 0
  {
    if vs == [] then [] else ValueTypes(vs[0]) + AllValueTypes(vs[1..])
  }

  /** The labels and the types in a tree, in the same order. */
  function Labels(t: Tree): seq<string>
    decreases t, 1
  {
    [t.name] + AllLabels(t.children)
  }

  function AllLabels(ts: seq<Tree>): seq<string>
    decreases ts, 0
  {
    if ts == [] then [] else Labels(ts[0]) + AllLabels(ts[1..])
  }

  function Types(t: Tree): seq<string>
    decreases t, 1
  {
    [t.typ] + AllTypes(t.children)
  }

  function AllTypes(ts: seq<Tree>): seq<string>
    decreases ts, 0
  {
    if ts == [] then [] else Types(ts[0]) + AllTypes(ts[1..])
  }

  function Mapped(names: seq<string>, snake: string -> string): (r: seq<string>)
    ensures |r| == |names| && forall i :: 0 <= i < |r| ==> r[i] == snake(names[i])
  {
    seq(|names|, i requires 0 <= i < |names| => snake(names[i]))
  }

  /** The tree shows the value: same shape, the names in snake case, and the types as they are. */
  predicate Shows(t: Tree, v: Value, snake: string -> string) {
    SameShape(v, t) && Labels(t) == Mapped(ValueNames(v), snake) && Types(t) == ValueTypes(v)
  }

  /** Names that snake-cased have no space and do not begin with a tab, and types without a newline. */
  predicate ReadableValue(v: Value, snake: string -> string) {
    && ' ' !in snake(v.name) && !("\t" <= snake(v.name)) && '\n' !in v.typ
    && forall i :: 0 <= i < |v.values| ==> ReadableValue(v.values[i], snake)
  }

  lemma {:induction false} ShownIsReadable(v: Value, snake: string -> string)
    requires ReadableValue(v, snake)
    ensures Readable(Shown(v, snake))
  {
    forall i | 0 <= i < |v.values|
      ensures Readable(Shown(v.values[i], snake))
    {
      ShownIsReadable(v.values[i], snake);
    }
  }

  function ShownAll(vs: seq<Value>, snake: string -> string): seq<Tree> {
    seq(|vs|, i requires 0 <= i < |vs| => Shown(vs[i], snake))
  }

  lemma {:induction false} ShownShows(v: Value, snake: string -> string)
    ensures Shows(Shown(v, snake), v, snake)
    decreases v, 1
  {
    ShownAllShow(v.values, snake);
    assert Shown(v, snake).children == ShownAll(v.values, snake);
    forall i | 0 <= i < |v.values|
      ensures SameShape(v.values[i], Shown(v.values[i], snake))
    {
      ShownShows(v.values[i], snake);
    }
  }

  lemma {:induction false} ShownAllShow(vs: seq<Value>, snake: string -> string)
    ensures AllLabels(ShownAll(vs, snake)) == Mapped(AllValueNames(vs), snake)
    ensures AllTypes(ShownAll(vs, snake)) == AllValueTypes(vs)
    decreases vs, 0
  {
    if vs == [] {
    } else {
      ShownShows(vs[0], snake);
      ShownAllShow(vs[1..], snake);
      ShownAllStep(vs, snake);
      MappedConcat(ValueNames(vs[0]), AllValueNames(vs[1..]), snake);
    }
  }

  lemma ShownAllStep(vs: seq<Value>, snake: string -> string)
    requires vs != []
    ensures AllLabels(ShownAll(vs, snake)) == Labels(Shown(vs[0], snake)) + AllLabels(ShownAll(vs[1..], snake))
    ensures AllTypes(ShownAll(vs, snake)) == Types(Shown(vs[0], snake)) + AllTypes(ShownAll(vs[1..], snake))
  {
    assert ShownAll(vs, snake)[1..] == ShownAll(vs[1..], snake);
  }

  lemma MappedConcat(a: seq<string>, b: seq<string>, snake: string -> string)
    ensures Mapped(a + b, snake) == Mapped(a, snake) + Mapped(b, snake)
  {
  }

  /** Reading the output back: a tree of the value's shape, with its names in snake case and its types. */
  predicate ReadsBack(s: string, v: Value, r: nat, snake: string -> string) {
    Parse(s, r).Some? && Parse(s, r).value.1 == "" && Shows(Parse(s, r).value.0, v, snake)
  }

  lemma PrintedReadsBack(v: Value, r: nat, snake: string -> string)
    ensures ReadableValue(v, snake) ==> ReadsBack(Render(Shown(v, snake), r), v, r, snake)
  {
    if ReadableValue(v, snake) {
      var t := Shown(v, snake);
      ShownIsReadable(v, snake);
      ShownShows(v, snake);
      assert !(Tabs(r + 2) <= "") && Render(t, r) + "" == Render(t, r);
      ParseRender(t, r, "");
    }
  }

  /** The body of `formatEndpoint`. */
  method Format(v: Value, r: nat, snake: string -> string) returns (s: string)
    ensures s == Render(Shown(v, snake), r)
    decreases v
  {
    var fparts := ["", "%s %s", "\n"];
    for i := 0 to r + 1
      invariant fparts == [Tabs(i), "%s %s", "\n"]
    {
      fparts := fparts[0 := fparts[0] + "\t"];
    }
    if |v.values| == 0 {
      LeafFormat(r + 1, snake(v.name), v.typ);
      return Sprintf(Concat(fparts), [snake(v.name), v.typ]).value;
    }
    fparts := fparts[1 := fparts[1] + " {"];
    var vals := [snake(v.name), v.typ];
    ghost var rendered: seq<string> := [];
    for k := 0 to |v.values|
      invariant |fparts| == k + 3
      invariant fparts[0] == Tabs(r + 1) && fparts[1] == "%s %s {" && fparts[2] == "\n"
      invariant forall i :: 3 <= i < k + 3 ==> fparts[i] == "%s"
      invariant vals == [snake(v.name), v.typ] + rendered
      invariant |rendered| == k
      invariant forall i :: 0 <= i < k ==> rendered[i] == Render(Shown(v.values[i], snake), r + 1)
    {
      fparts := fparts + ["%s"];
      var child := Format(v.values[k], r + 1, snake);
      vals := vals + [child];
      rendered := rendered + [child];
    }
    var l := |fparts| - 1;
    for i := 0 to r + 1
      invariant |fparts| == |v.values| + 3
      invariant fparts[0] == Tabs(r + 1) && fparts[1] == "%s %s {" && fparts[2] == "\n"
      invariant forall j :: 3 <= j < l ==> fparts[j] == "%s"
      invariant fparts[l] == "%s" + Tabs(i)
    {
      fparts := fparts[l := fparts[l] + "\t"];
    }
    fparts := fparts + ["}\n"];
    NestedPrints(Shown(v, snake), r, fparts, rendered);
    return Sprintf(Concat(fparts), vals).value;
  }

  /** `formatEndpoint`. `snake` stands for the library's conversion to snake case. */
  method FormatEndpoint(v: Value, r: nat, snake: string -> string) returns (s: string)
    ensures s == Render(Shown(v, snake), r)
    ensures ReadableValue(v, snake) ==> ReadsBack(s, v, r, snake)
  {
    s := Format(v, r, snake);
    PrintedReadsBack(v, r, snake);
  }

  /** The text before the first `c`, and the text after it. */
  function Cut(s: string, c: char): (r: Option<(string, string)>)
    ensures r.Some? ==> |r.value.0| + |r.value.1| < |s|
  {
    if s == "" then None
    else if s[0] == c then Some(("", s[1..]))
    else
      match Cut(s[1..], c)
      case None => None
      case Some((a, b)) => Some(([s[0]] + a, b))
  }

  /** Reads one value at depth `r`; also returns the text behind it. A value is nested exactly
      when the line after its own is indented deeper. */
  function Parse(s: string, r: nat): (result: Option<(Tree, string)>)
    ensures result.Some? ==> |result.value.1| < |s|
    decreases |s|, 0
  {
    if !(Tabs(r + 1) <= s) || Cut(s[r + 1..], ' ').None? then None
    else
      var (name, afterLabel) := Cut(s[r + 1..], ' ').value;
      if Cut(afterLabel, '\n').None? then None
      else
        var (text, after) := Cut(afterLabel, '\n').value;
        if !(Tabs(r + 2) <= after) then Some((Tree(name, text, []), after))
        else
          var children := ParseAll(after, r + 1);
          if children.None? || !Text.HasSuffix(text, " {") then None
          else
            var tail := children.value.1;
            if Tabs(r + 1) + "}\n" <= tail then
              Some((Tree(name, text[..|text| - 2], children.value.0), tail[r + 3..]))
            else None
  }

  function ParseAll(s: string, r: nat): (result: Option<(seq<Tree>, string)>)
    ensures result.Some? ==> |result.value.1| <= |s|
    decreases |s|, 1
  {
    if !(Tabs(r + 1) <= s) then Some(([], s))
    else
      var first := Parse(s, r);
      if first.None? then None
      else
        var rest := ParseAll(first.value.1, r);
        if rest.None? then None else Some(([first.value.0] + rest.value.0, rest.value.1))
  }

  /** Labels without a space that do not begin with a tab, and types without a newline. */
  predicate Readable(t: Tree) {
    && ' ' !in t.name && !("\t" <= t.name) && '\n' !in t.typ
    && forall i :: 0 <= i < |t.children| ==> Readable(t.children[i])
  }

  lemma {:induction false} CutWritten(a: string, b: string, c: char)
    requires c !in a
    ensures Cut(a + [c] + b, c) == Some((a, b))
  {
    var s := a + [c] + b;
    if a == "" {
      assert s[1..] == b;
    } else {
      assert s[1..] == a[1..] + [c] + b;
      CutWritten(a[1..], b, c);
      assert [a[0]] + a[1..] == a;
    }
  }

  /** A line that begins with exactly `n` tabs is not indented deeper. */
  lemma NotDeeper(n: nat, line: string)
    requires line != "" && line[0] != '\t'
    ensures Tabs(n) <= Tabs(n) + line && !(Tabs(n + 1) <= Tabs(n) + line)
  {
    assert (Tabs(n) + line)[n] == line[0];
    assert Tabs(n + 1)[n] == '\t';
  }

  lemma DeeperIsDeep(n: nat, s: string)
    ensures Tabs(n + 1) <= s ==> Tabs(n) <= s
  {
    assert Tabs(n + 1) == Tabs(n) + "\t";
  }

  /** How a rendered value begins. */
  lemma RenderStarts(t: Tree, r: nat, rest: string)
    requires Readable(t)
    ensures Tabs(r + 1) <= Render(t, r) + rest && !(Tabs(r + 2) <= Render(t, r) + rest)
  {
    var line := (Render(t, r) + rest)[r + 1..];
    assert Render(t, r) + rest == Tabs(r + 1) + line;
    assert line[0] == if t.name == "" then ' ' else t.name[0];
    NotDeeper(r + 1, line);
  }

  /** The first line of a rendered value is read back. */
  lemma LineRead(t: Tree, n: nat, text: string, rest: string)
    requires ' ' !in t.name && '\n' !in text
    ensures var s := Tabs(n) + t.name + " " + text + "\n" + rest;
            && Tabs(n) <= s
            && Cut(s[n..], ' ') == Some((t.name, text + "\n" + rest))
            && Cut(text + "\n" + rest, '\n') == Some((text, rest))
  {
    var s := Tabs(n) + t.name + " " + text + "\n" + rest;
    assert s[n..] == t.name + [' '] + (text + "\n" + rest);
    CutWritten(t.name, text + "\n" + rest, ' ');
    CutWritten(text, rest, '\n');
  }

  /** One step of the parser, on a text that begins with a line. */
  lemma ParseLeaf(s: string, r: nat, name: string, text: string, after: string)
    requires s == Tabs(r + 1) + name + " " + text + "\n" + after
    requires ' ' !in name && '\n' !in text && !(Tabs(r + 2) <= after)
    ensures Parse(s, r) == Some((Tree(name, text, []), after))
  {
    LineRead(Tree(name, text, []), r + 1, text, after);
  }

  lemma ParseNested(s: string, r: nat, name: string, text: string, after: string, children: seq<Tree>, close: string)
    requires s == Tabs(r + 1) + name + " " + text + "\n" + after
    requires ' ' !in name && '\n' !in text && Tabs(r + 2) <= after && Text.HasSuffix(text, " {")
    requires ParseAll(after, r + 1) == Some((children, close)) && Tabs(r + 1) + "}\n" <= close
    ensures Parse(s, r) == Some((Tree(name, text[..|text| - 2], children), close[r + 3..]))
  {
    LineRead(Tree(name, text, []), r + 1, text, after);
  }

  /** Parsing a rendered value gives the value back, whatever follows it, provided that what
      follows is not indented deeper. */
  lemma {:induction false} ParseRender(t: Tree, r: nat, rest: string)
    requires Readable(t) && !(Tabs(r + 2) <= rest)
    ensures Parse(Render(t, r) + rest, r) == Some((t, rest))
    decreases t, 1
  {
    var s := Render(t, r) + rest;
    if t.children == [] {
      assert s == Tabs(r + 1) + t.name + " " + t.typ + "\n" + rest;
      ParseLeaf(s, r, t.name, t.typ, rest);
    } else {
      var close := Tabs(r + 1) + "}\n" + rest;
      var text := t.typ + " {";
      var after := RenderAll(t.children, r + 1) + close;
      NestedText(t, r, rest);
      CloseNotDeeper(r, rest);
      ParseAllRender(t.children, r + 1, close);
      FirstChildDeeper(t.children, r + 1, close);
      assert text[..|text| - 2] == t.typ && Text.HasSuffix(text, " {");
      assert close[r + 3..] == rest && Tabs(r + 1) + "}\n" <= close;
      ParseNested(s, r, t.name, text, after, t.children, close);
    }
  }

  lemma NestedText(t: Tree, r: nat, rest: string)
    requires t.children != []
    ensures Render(t, r) + rest
            == Tabs(r + 1) + t.name + " " + (t.typ + " {") + "\n"
               + (RenderAll(t.children, r + 1) + (Tabs(r + 1) + "}\n" + rest))
  {
    assert " {\n" == " {" + "\n";
  }

  lemma CloseNotDeeper(r: nat, rest: string)
    ensures !(Tabs(r + 2) <= Tabs(r + 1) + "}\n" + rest)
  {
    assert Tabs(r + 1) + "}\n" + rest == Tabs(r + 1) + ("}\n" + rest);
    NotDeeper(r + 1, "}\n" + rest);
  }

  lemma RenderAllSplit(ts: seq<Tree>, r: nat, rest: string)
    requires ts != []
    ensures RenderAll(ts, r) + rest == Render(ts[0], r) + (RenderAll(ts[1..], r) + rest)
  {
  }

  lemma FirstChildDeeper(ts: seq<Tree>, r: nat, rest: string)
    requires ts != [] && Readable(ts[0])
    ensures Tabs(r + 1) <= RenderAll(ts, r) + rest && !(Tabs(r + 2) <= RenderAll(ts, r) + rest)
  {
    RenderAllSplit(ts, r, rest);
    RenderStarts(ts[0], r, RenderAll(ts[1..], r) + rest);
  }

  lemma ParseAllStep(s: string, r: nat, first: Tree, behind: string, ts: seq<Tree>, rest: string)
    requires Tabs(r + 1) <= s && Parse(s, r) == Some((first, behind)) && ParseAll(behind, r) == Some((ts, rest))
    ensures ParseAll(s, r) == Some(([first] + ts, rest))
  {
  }

  lemma BehindNotDeeper(ts: seq<Tree>, r: nat, rest: string)
    requires forall i :: 0 <= i < |ts| ==> Readable(ts[i])
    requires !(Tabs(r + 1) <= rest)
    ensures !(Tabs(r + 2) <= RenderAll(ts, r) + rest)
  {
    if ts == [] {
      assert RenderAll(ts, r) + rest == rest;
      DeeperIsDeep(r + 1, rest);
    } else {
      FirstChildDeeper(ts, r, rest);
    }
  }

  lemma ParseAllNone(r: nat, rest: string)
    requires !(Tabs(r + 1) <= rest)
    ensures ParseAll(RenderAll([], r) + rest, r) == Some(([], rest))
  {
    assert RenderAll([], r) + rest == rest;
  }

  lemma ParseFirst(ts: seq<Tree>, r: nat, behind: string, rest: string)
    requires ts != [] && Readable(ts[0]) && ParseAll(behind, r) == Some((ts[1..], rest))
    requires Parse(Render(ts[0], r) + behind, r) == Some((ts[0], behind))
    ensures ParseAll(Render(ts[0], r) + behind, r) == Some((ts, rest))
  {
    RenderStarts(ts[0], r, behind);
    assert [ts[0]] + ts[1..] == ts;
    ParseAllStep(Render(ts[0], r) + behind, r, ts[0], behind, ts[1..], rest);
  }

  lemma RestReadable(ts: seq<Tree>)
    requires ts != [] && forall i :: 0 <= i < |ts| ==> Readable(ts[i])
    ensures Readable(ts[0]) && forall i :: 0 <= i < |ts[1..]| ==> Readable(ts[1..][i])
  {
  }

  lemma {:induction false} ParseAllRender(ts: seq<Tree>, r: nat, rest: string)
    requires forall i :: 0 <= i < |ts| ==> Readable(ts[i])
    requires !(Tabs(r + 1) <= rest)
    ensures ParseAll(RenderAll(ts, r) + rest, r) == Some((ts, rest))
    decreases ts, 0
  {
    if ts == [] {
      ParseAllNone(r, rest);
    } else {
      var behind := RenderAll(ts[1..], r) + rest;
      RenderAllSplit(ts, r, rest);
      RestReadable(ts);
      ParseAllRender(ts[1..], r, rest);
      BehindNotDeeper(ts[1..], r, rest);
      ParseRender(ts[0], r, behind);
      ParseFirst(ts, r, behind, rest);
    }
  }

  /** The output is uniquely readable: two trees with the same output are the same. */
  lemma UniquelyReadable(a: Tree, b: Tree, r: nat)
    requires Readable(a) && Readable(b) && Render(a, r) == Render(b, r)
    ensures a == b
  {
    assert Render(a, r) + "" == Render(a, r) && Render(b, r) + "" == Render(b, r);
    ParseRender(a, r, "");
    ParseRender(b, r, "");
  }

  /** What the output looks like. */
  lemma PrintedText(name: string, typ: string, child: string, childType: string)
    ensures Render(Tree(name, typ, [Tree(child, childType, [])]), 0)
            == "\t" + name + " " + typ + " {\n" + "\t\t" + child + " " + childType + "\n" + "\t}\n"
  {
    var leaf := Tree(child, childType, []);
    assert Tabs(0) == "" && Tabs(1) == "\t" && Tabs(2) == "\t\t";
    assert RenderAll([leaf][1..], 1) == "";
    assert RenderAll([leaf], 1) == Render(leaf, 1) == "\t\t" + child + " " + childType + "\n";
  }

  /** With a space in a label the output is ambiguous. */
  lemma SpacesAreAmbiguous()
    ensures Render(Tree("a b", "c", []), 0) == Render(Tree("a", "b c", []), 0)
  {
    assert "a b" + " " + "c" == "a" + " " + "b c";
  }
}
