/** The routes of the API gateway and of the proxy: which service a path names. Paths are given by
    their segments; `/a/b` has the segments "a" and "b". */
module Routes {
  import Text

  predicate Digit(c: char) {
    '0' <= c <= '9'
  }

  /** `^v[0-9]+$`, for segments without newlines. */
  predicate IsVersion(s: string) {
    |s| > 1 && s[0] == 'v' && forall i :: 1 <= i < |s| ==> Digit(s[i])
  }

  predicate Alphanumeric(c: char) {
    Digit(c) || 'a' <= c <= 'z' || 'A' <= c <= 'Z'
  }

  /** `^[a-zA-Z0-9]+(-[a-zA-Z0-9]+)*$`: alphanumeric words joined by single dashes. */
  predicate IsServiceName(s: string) {
    NameWords(Text.Split(s, '-'))
  }

  predicate NameWord(word: string) {
    |word| > 0 && forall k :: 0 <= k < |word| ==> Alphanumeric(word[k])
  }

  predicate NameWords(words: seq<string>) {
    forall i :: 0 <= i < |words| ==> NameWord(words[i])
  }

  /** The path of a non-empty list of segments, and "/" for no segments. */
  function Path(segments: seq<string>): string {
    if segments == [] then "/" else "/" + Text.Join(segments, '/')
  }

  /** A clean absolute path: what `path.Clean` leaves unchanged. */
  predicate Clean(segments: seq<string>) {
    forall i :: 0 <= i < |segments| ==>
      |segments[i]| > 0 && '/' !in segments[i] && segments[i] != "." && segments[i] != ".."
      && '\n' !in segments[i]
  }

  /** `toCamel`: `title` stands for the library's title casing of a word. */
  function Camel(s: string, title: string -> string): string {
    ConcatTitles(Text.Split(s, '-'), title)
  }

  function ConcatTitles(words: seq<string>, title: string -> string): string {
    if words == [] then "" else ConcatTitles(words[..|words| - 1], title) + title(words[|words| - 1])
  }

  method ToCamel(s: string, title: string -> string) returns (out: string)
    ensures out == Camel(s, title)
  {
    var words := Text.Split(s, '-');
    out := "";
    for i := 0 to |words|
      invariant out == ConcatTitles(words[..i], title)
    {
      assert words[..i + 1][..i] == words[..i];
      out := out + title(words[i]);
    }
    assert words[..|words|] == words;
  }

  function Camels(parts: seq<string>, title: string -> string): (r: seq<string>)
    ensures |r| == |parts|
  {
    seq(|parts|, i requires 0 <= i < |parts| => Camel(parts[i], title))
  }

  /** The slice that `methodName` leaves when it has overwritten `parts[from..]` in place. */
  function Overwritten(parts: seq<string>, from: nat, title: string -> string): (r: seq<string>)
    requires from <= |parts|
    ensures |r| == |parts|
  {
    parts[..from] + Camels(parts[from..], title)
  }

  lemma OverwrittenAt(parts: seq<string>, from: nat, title: string -> string, k: nat)
    requires from <= |parts| && k < |parts|
    ensures Overwritten(parts, from, title)[k] == if k < from then parts[k] else Camel(parts[k], title)
  {
  }

  /** The loop of `methodName` on the slice `parts[from..]`: it overwrites the slice in place. */
  method CamelInPlace(parts: array<string>, from: nat, title: string -> string)
    requires from <= parts.Length
    modifies parts
    ensures parts[..] == Overwritten(old(parts[..]), from, title)
  {
    ghost var before, after := parts[..], Overwritten(parts[..], from, title);
    assert parts[..from] == after[..from];
    for i := from to parts.Length
      invariant parts[..i] == after[..i]
      invariant parts[i..] == before[i..]
    {
      OverwrittenAt(before, from, title, i);
      assert parts[i] == parts[i..][0] == before[i..][0] == before[i];
      parts[i] := ToCamel(parts[i], title);
      assert parts[..i + 1] == parts[..i] + [parts[i]];
      assert after[..i + 1] == after[..i] + [after[i]];
      assert parts[i + 1..] == before[i..][1..] == before[i + 1..];
    }
    assert parts[..parts.Length] == parts[..] && after[..|after|] == after;
  }

  /** `methodName` on the slice `parts[from..]`. */
  method MethodName(parts: array<string>, from: nat, title: string -> string) returns (name: string)
    requires from <= parts.Length
    modifies parts
    ensures name == Text.Join(Camels(old(parts[from..]), title), '.')
    ensures parts[..] == Overwritten(old(parts[..]), from, title)
  {
    ghost var before := parts[..];
    CamelInPlace(parts, from, title);
    assert parts[from..] == parts[..][from..] == Camels(before[from..], title);
    assert before[from..] == old(parts[from..]);
    name := Text.Join(parts[from..], '.');
  }

  /** The service and the method that the split parts of a path stand for. */
  function ServiceOf(parts: seq<string>): string
    requires parts != []
  {
    var n := |parts|;
    if n <= 2 then parts[0]
    else if n == 3 && IsVersion(parts[0]) then Text.Join(parts[..2], '.')
    else Text.Join(parts[..n - 2], '.')
  }

  function MethodOf(parts: seq<string>, title: string -> string): string
    requires parts != []
  {
    var n := |parts|;
    if n == 1 && |parts[0]| > 0 then Text.Join(Camels([parts[0], "Call"], title), '.')
    else if n <= 2 then Text.Join(Camels(parts, title), '.')
    else Text.Join(Camels(parts[n - 2..], title), '.')
  }

  /** The branches of `apiRoute`, on the slice that holds the split parts. `methodName` writes into
      that slice, but the name is built first, or the slice was copied when "Call" was added. */
  method RouteParts(parts: array<string>, title: string -> string) returns (name: string, methodName: string)
    requires parts.Length > 0
    modifies parts
    ensures name == ServiceOf(old(parts[..]))
    ensures methodName == MethodOf(old(parts[..]), title)
  {
    if parts.Length == 1 && |parts[0]| > 0 {
      // appending to a full slice copies it
      var longer := new string[2];
      longer[0], longer[1] := parts[0], "Call";
      assert longer[0..] == [parts[0], "Call"];
      methodName := MethodName(longer, 0, title);
      return parts[0], methodName;
    }
    if parts.Length <= 2 {
      name := parts[0];
      assert parts[0..] == parts[..];
      methodName := MethodName(parts, 0, title);
      return;
    }
    var last := parts.Length - 2;
    assert parts[last..] == parts[..][last..] && parts[..last] == parts[..][..last];
    if parts.Length == 3 && IsVersion(parts[0]) {
      assert parts[..2] == parts[..][..2];
      name := Text.Join(parts[..parts.Length - 1], '.');
    } else {
      name := Text.Join(parts[..last], '.');
    }
    methodName := MethodName(parts, last, title);
  }

  /** What a clean path stands for. The method is made of the last two segments, or of the only one and
      "Call"; the service of the segments in front of these two, or of the first one, and together with
      a version in front of it if there are just three. */
  predicate RoutesTo(segments: seq<string>, title: string -> string, name: string, methodName: string) {
    var n := |segments|;
    if n == 0 then name == "" && methodName == title("")
    else if n == 1 then name == segments[0] && methodName == Camel(segments[0], title) + "." + title("Call")
    else
      && methodName == Camel(segments[n - 2], title) + "." + Camel(segments[n - 1], title)
      && name == if n == 2 then segments[0]
                 else if n == 3 && IsVersion(segments[0]) then segments[0] + "." + segments[1]
                 else Text.Join(segments[..n - 2], '.')
  }

  lemma RouteInWords(segments: seq<string>, title: string -> string)
    requires Clean(segments)
    ensures var parts := if segments == [] then [""] else segments;
            RoutesTo(segments, title, ServiceOf(parts), MethodOf(parts, title))
  {
    var n := |segments|;
    if n == 0 {
      CamelWord("", title);
    } else if n == 1 {
      CamelWord("Call", title);
      JoinTwo(Camel(segments[0], title), Camel("Call", title));
      assert Camels([segments[0], "Call"], title) == [Camel(segments[0], title), Camel("Call", title)];
    } else {
      assert segments[n - 2..] == [segments[n - 2], segments[n - 1]];
      assert Camels(segments[n - 2..], title) == [Camel(segments[n - 2], title), Camel(segments[n - 1], title)];
      JoinTwo(Camel(segments[n - 2], title), Camel(segments[n - 1], title));
      if n == 2 {
        assert segments == segments[n - 2..];
      } else {
        assert segments[..2] == [segments[0], segments[1]];
        JoinTwo(segments[0], segments[1]);
      }
    }
  }

  /** A word without a dash is titled, and a dash begins a new word. */
  lemma CamelWord(word: string, title: string -> string)
    requires '-' !in word
    ensures Camel(word, title) == title(word)
  {
    Text.SplitFree(word, '-');
    assert [word][..0] == [];
    assert ConcatTitles([word][..0], title) == "";
  }

  lemma CamelDash(word: string, rest: string, title: string -> string)
    requires '-' !in word
    ensures Camel(word + "-" + rest, title) == title(word) + Camel(rest, title)
  {
    Text.SplitCons(word, rest, '-');
    ConcatTitlesCons(word, Text.Split(rest, '-'), title);
  }

  lemma {:induction false} ConcatTitlesCons(word: string, words: seq<string>, title: string -> string)
    ensures ConcatTitles([word] + words, title) == title(word) + ConcatTitles(words, title)
  {
    if words == [] {
      assert [word] + words == [word] && [word][..0] == [];
      assert ConcatTitles([word][..0], title) == "";
    } else {
      var front := words[..|words| - 1];
      assert ([word] + words)[..|words|] == [word] + front;
      ConcatTitlesCons(word, front, title);
    }
  }

  /** The titles of the words, one behind the other. */
  function Titles(words: seq<string>, title: string -> string): string {
    if words == [] then "" else title(words[0]) + Titles(words[1..], title)
  }

  /** The camel form of words joined by dashes. */
  lemma {:induction false} CamelOfWords(words: seq<string>, title: string -> string)
    requires words != [] && forall w :: w in words ==> '-' !in w
    ensures Camel(Text.Join(words, '-'), title) == Titles(words, title)
  {
    if |words| == 1 {
      CamelWord(words[0], title);
      assert Titles(words[1..], title) == "";
    } else {
      CamelOfWords(words[1..], title);
      CamelDash(words[0], Text.Join(words[1..], '-'), title);
    }
  }

  /** `apiRoute` on a clean path. */
  method ApiRoute(segments: seq<string>, title: string -> string) returns (name: string, methodName: string)
    requires Clean(segments)
    ensures name == ServiceOf(if segments == [] then [""] else segments)
    ensures methodName == MethodOf(if segments == [] then [""] else segments, title)
    ensures RoutesTo(segments, title, name, methodName)
  {
    TrimmedSplit(segments);
    RouteInWords(segments, title);
    var parts := ToArray(Text.Split(Text.TrimPrefix(Path(segments), "/"), '/'));
    name, methodName := RouteParts(parts, title);
  }

  /** The fresh slice that `strings.Split` returns. */
  method ToArray(split: seq<string>) returns (parts: array<string>)
    ensures fresh(parts) && parts[..] == split
  {
    parts := new string[|split|];
    for i := 0 to |split|
      invariant forall k :: 0 <= k < i ==> parts[k] == split[k]
    {
      parts[i] := split[i];
    }
  }

  /** The segments of a clean path, as `apiRoute` and `proxyRoute` split them. */
  lemma TrimmedSplit(segments: seq<string>)
    requires Clean(segments)
    ensures Text.Split(Text.TrimPrefix(Path(segments), "/"), '/') == if segments == [] then [""] else segments
    ensures Text.Split(Path(segments), '/') == if segments == [] then ["", ""] else [""] + segments
  {
    if segments == [] {
      RootSplit();
    } else {
      SegmentsSplit(segments);
    }
  }

  lemma RootSplit()
    ensures Text.TrimPrefix("/", "/") == "" && Text.Split("", '/') == [""] && Text.Split("/", '/') == ["", ""]
  {
    assert "/" == "" + ['/'] + "";
    Text.SplitCons("", "", '/');
  }

  lemma SegmentsSplit(segments: seq<string>)
    requires segments != [] && forall i :: 0 <= i < |segments| ==> '/' !in segments[i]
    ensures var joined := Text.Join(segments, '/');
            && Text.TrimPrefix("/" + joined, "/") == joined
            && Text.Split(joined, '/') == segments
            && Text.Split("/" + joined, '/') == [""] + segments
  {
    forall p | p in segments
      ensures '/' !in p
    {
      var i :| 0 <= i < |segments| && segments[i] == p;
    }
    Text.SplitJoin(segments, '/');
    LeadingSlash(Text.Join(segments, '/'));
  }

  lemma LeadingSlash(s: string)
    ensures Text.TrimPrefix("/" + s, "/") == s
    ensures Text.Split("/" + s, '/') == [""] + Text.Split(s, '/')
  {
    assert ("/" + s)[1..] == s;
    assert "/" + s == "" + ['/'] + s;
    Text.SplitCons("", s, '/');
  }

  /** `proxyRoute`; the empty string means that the path names no service. */
  function ProxyRoute(p: string): string {
    var parts := Text.Split(p, '/');
    if |parts| < 2 then ""
    else
      var versioned := |parts| > 2 && IsVersion(parts[1]);
      var service := if versioned then parts[1] + "." + parts[2] else parts[1];
      var alias := if versioned then parts[2] else parts[1];
      if IsServiceName(alias) then service else ""
  }

  lemma EmptyIsNoService()
    ensures !IsServiceName("")
  {
    assert Text.Split("", '-')[0] == "";
  }

  /** The service that the proxy finds on a clean path, if it finds one. */
  lemma ProxyService(segments: seq<string>)
    requires Clean(segments) && ProxyRoute(Path(segments)) != ""
    ensures |segments| > 0
    ensures ProxyRoute(Path(segments))
            == if |segments| > 1 && IsVersion(segments[0]) then segments[0] + "." + segments[1] else segments[0]
  {
    TrimmedSplit(segments);
    EmptyIsNoService();
  }

  function DigitsOnly(s: string): bool {
    s == "" || ('0' <= s[0] <= '9' && DigitsOnly(s[1..]))
  }

  /** A version is a "v" and at least one digit, and nothing else. */
  lemma {:induction false} VersionInWords(letter: string, digits: string)
    requires |letter| == 1
    ensures IsVersion(letter + digits) <==> letter == "v" && digits != "" && DigitsOnly(digits)
  {
    if digits == "" {
    } else {
      var s, shorter := letter + digits, letter + digits[1..];
      VersionInWords(letter, digits[1..]);
      assert s[1] == digits[0] && shorter[0] == letter[0] == s[0];
      assert forall i :: 2 <= i < |s| ==> s[i] == shorter[i - 1];
      assert forall i :: 1 <= i < |shorter| ==> shorter[i] == s[i + 1];
    }
  }

  /** Exactly when the proxy finds a service on a clean path. */
  lemma ProxyFinds(segments: seq<string>)
    requires Clean(segments)
    ensures ProxyRoute(Path(segments)) != ""
            <==> segments != []
                 && SpelledName(if |segments| > 1 && IsVersion(segments[0]) then segments[1] else segments[0])
  {
    TrimmedSplit(segments);
    EmptyIsNoService();
    if segments != [] {
      NameSpelled(if |segments| > 1 && IsVersion(segments[0]) then segments[1] else segments[0]);
    }
  }

  /** A service name, character by character: letters, digits and single dashes between them. */
  predicate SpelledName(s: string) {
    && s != "" && s[0] != '-' && s[|s| - 1] != '-'
    && (forall i :: 0 <= i < |s| ==> s[i] == '-' || '0' <= s[i] <= '9' || 'a' <= s[i] <= 'z' || 'A' <= s[i] <= 'Z')
    && (forall i :: 0 <= i < |s| - 1 ==> !(s[i] == '-' && s[i + 1] == '-'))
  }

  lemma {:induction false} NameSpelled(s: string)
    ensures IsServiceName(s) <==> SpelledName(s)
  {
    if s == "" {
      EmptyIsNoService();
    } else if s[0] == '-' {
      assert Text.Split(s, '-')[0] == "";
    } else if |s| == 1 {
      Text.SplitFree(s, '-');
      NameWordsCons(s, []);
      assert [s] + [] == [s];
    } else if s[1] == '-' {
      NameSpelled(s[2..]);
      NameOfFirst(s);
      SpelledAfterDash(s);
    } else {
      NameSpelled(s[1..]);
      NameOfMore(s);
      SpelledMore(s);
    }
  }

  lemma NameOfFirst(s: string)
    requires |s| > 1 && s[0] != '-' && s[1] == '-'
    ensures IsServiceName(s) <==> Alphanumeric(s[0]) && IsServiceName(s[2..])
  {
    assert s == [s[0]] + ['-'] + s[2..];
    Text.SplitCons([s[0]], s[2..], '-');
    NameWordsCons([s[0]], Text.Split(s[2..], '-'));
  }

  lemma NameWordsCons(word: string, words: seq<string>)
    ensures NameWords([word] + words) <==> NameWord(word) && NameWords(words)
  {
    var all := [word] + words;
    assert all[0] == word && forall i :: 0 <= i < |words| ==> words[i] == all[i + 1];
  }

  lemma NameOfMore(s: string)
    requires |s| > 1 && s[0] != '-' && s[1] != '-'
    ensures IsServiceName(s) <==> Alphanumeric(s[0]) && IsServiceName(s[1..])
  {
    var rest := Text.Split(s[1..], '-');
    assert rest == [rest[0]] + rest[1..];
    NameWordsCons([s[0]] + rest[0], rest[1..]);
    NameWordsCons(rest[0], rest[1..]);
    NameWordMore(s[0], rest[0]);
  }

  lemma NameWordMore(c: char, word: string)
    requires word != ""
    ensures NameWord([c] + word) <==> Alphanumeric(c) && NameWord(word)
  {
    var all := [c] + word;
    assert all[0] == c && forall k :: 0 <= k < |word| ==> word[k] == all[k + 1];
  }

  lemma SpelledAfterDash(s: string)
    requires |s| > 1 && s[0] != '-' && s[1] == '-'
    ensures SpelledName(s) <==> Alphanumeric(s[0]) && SpelledName(s[2..])
  {
    assert forall i :: 0 <= i < |s| - 2 ==> s[2..][i] == s[i + 2];
    if SpelledName(s) {
      assert |s| > 2;
      assert s[1] == '-' && s[2] != '-';
    }
    if Alphanumeric(s[0]) && SpelledName(s[2..]) {
      forall i | 0 <= i < |s|
        ensures s[i] == '-' || Alphanumeric(s[i])
        ensures i < |s| - 1 ==> !(s[i] == '-' && s[i + 1] == '-')
      {
        if i >= 2 {
          assert s[2..][i - 2] == s[i];
        }
      }
    }
  }

  lemma SpelledMore(s: string)
    requires |s| > 1 && s[0] != '-' && s[1] != '-'
    ensures SpelledName(s) <==> Alphanumeric(s[0]) && SpelledName(s[1..])
  {
    assert forall i :: 0 <= i < |s| - 1 ==> s[1..][i] == s[i + 1];
    if Alphanumeric(s[0]) && SpelledName(s[1..]) {
      forall i | 0 <= i < |s|
        ensures s[i] == '-' || Alphanumeric(s[i])
        ensures i < |s| - 1 ==> !(s[i] == '-' && s[i + 1] == '-')
      {
        if i >= 1 {
          assert s[1..][i - 1] == s[i];
        }
      }
    }
  }

  /** Joining more segments gives a longer name. */
  lemma {:induction false} JoinGrows(segments: seq<string>, n: nat)
    requires 0 < n < |segments|
    ensures |Text.Join(segments, '.')| > |Text.Join(segments[..n], '.')|
  {
    if n == 1 {
      assert segments[..1][0] == segments[0];
    } else {
      assert segments[1..][..n - 1] == segments[..n][1..];
      JoinGrows(segments[1..], n - 1);
    }
  }

  lemma JoinTwo(a: string, b: string)
    ensures Text.Join([a, b], '.') == a + "." + b
  {
    assert [a, b][1..] == [b];
  }

  /** When the proxy finds a service on a clean path, the two routes agree on it exactly for one
      segment, for two segments unless the first is a version, for three segments, and for four
      segments that begin with a version. */
  lemma RoutesAgree(segments: seq<string>)
    requires Clean(segments) && ProxyRoute(Path(segments)) != ""
    ensures segments != []
    ensures ServiceOf(segments) == ProxyRoute(Path(segments)) <==>
              || |segments| == 1
              || (|segments| == 2 && !IsVersion(segments[0]))
              || |segments| == 3
              || (|segments| == 4 && IsVersion(segments[0]))
  {
    ProxyService(segments);
    var n := |segments|;
    if n == 2 {
      assert |segments[0] + "." + segments[1]| > |segments[0]|;
    } else if n == 3 {
      assert segments[..2] == [segments[0], segments[1]];
      assert segments[..1] == [segments[0]];
      JoinTwo(segments[0], segments[1]);
    } else if n > 3 {
      var front := segments[..n - 2];
      assert front[..1] == [segments[0]] && front[..2] == [segments[0], segments[1]];
      JoinTwo(segments[0], segments[1]);
      JoinGrows(front, 1);
      if n == 4 {
        assert front == [segments[0], segments[1]];
      } else {
        JoinGrows(front, 2);
      }
    }
  }

  /** The path of a version and a name: the API route names the version, the proxy both. */
  lemma VersionAndName(version: string, name: string)
    requires Clean([version, name]) && IsVersion(version) && IsServiceName(name)
    ensures ServiceOf([version, name]) == version
    ensures ProxyRoute(Path([version, name])) == version + "." + name
  {
    TrimmedSplit([version, name]);
    assert [""] + [version, name] == ["", version, name];
  }

  /** For the path /v1/foo both routes name a service, and not the same one. */
  lemma VersionedPairDiffers()
    ensures Clean(["v1", "foo"]) && ProxyRoute(Path(["v1", "foo"])) != ""
    ensures ServiceOf(["v1", "foo"]) != ProxyRoute(Path(["v1", "foo"]))
  {
    Text.SplitFree("foo", '-');
    VersionAndName("v1", "foo");
    assert |"v1"| < |"v1" + "." + "foo"|;
  }
}
