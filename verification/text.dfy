/** The string operations of Go's `strings` package that the services use on their keys:
    splitting and joining on a one-character separator, prefix, suffix and substring tests.
    The lemmas say when a key built from components can be taken apart again. */
module Text {

  /** `strings.Split` for a one-character separator: never empty, and "" splits to [""]. */
  function Split(s: string, sep: char): (parts: seq<string>)
    ensures |parts| > 0
  {
    if s == "" then
      [""]
    else
      var rest := Split(s[1..], sep);
      if s[0] == sep then [""] + rest else [[s[0]] + rest[0]] + rest[1..]
  }

  /** `strings.Join` for a one-character separator. */
  function Join(parts: seq<string>, sep: char): string {
    if |parts| == 0 then ""
    else if |parts| == 1 then parts[0]
    else parts[0] + [sep] + Join(parts[1..], sep)
  }

  /** `strings.HasSuffix`. */
  predicate HasSuffix(s: string, suffix: string) {
    |suffix| <= |s| && s[|s| - |suffix|..] == suffix
  }

  /** `strings.Contains`. */
  predicate Contains(s: string, sub: string) {
    exists i :: 0 <= i <= |s| && sub <= s[i..]
  }

  /** `strings.TrimPrefix`. */
  function TrimPrefix(s: string, prefix: string): string {
    if prefix <= s then s[|prefix|..] else s
  }

  ghost predicate Distinct<T(!new)>(s: seq<T>) {
    forall i, j :: 0 <= i < j < |s| ==> s[i] != s[j]
  }

  lemma DistinctAppend<T(!new)>(s: seq<T>, x: T)
    requires Distinct(s) && x !in s
    ensures Distinct(s + [x])
  {
  }

  /** A string without the separator is its own only part. */
  lemma {:induction false} SplitFree(s: string, sep: char)
    requires sep !in s
    ensures Split(s, sep) == [s]
  {
    if s == "" {
    } else {
      SplitFree(s[1..], sep);
      assert [s[0]] + s[1..] == s;
    }
  }

  /** The first component of a key is cut off at the first separator. */
  lemma {:induction false} SplitCons(a: string, rest: string, sep: char)
    requires sep !in a
    ensures Split(a + [sep] + rest, sep) == [a] + Split(rest, sep)
  {
    var s := a + [sep] + rest;
    if a == "" {
      assert s[1..] == rest;
    } else {
      assert s[1..] == a[1..] + [sep] + rest;
      SplitCons(a[1..], rest, sep);
      assert [a[0]] + a[1..] == a;
    }
  }

  lemma {:induction false} SplitThree(a: string, b: string, c: string, sep: char)
    requires sep !in a && sep !in b && sep !in c
    ensures Split(a + [sep] + b + [sep] + c, sep) == [a, b, c]
  {
    assert a + [sep] + b + [sep] + c == a + [sep] + (b + [sep] + c);
    SplitCons(a, b + [sep] + c, sep);
    SplitCons(b, c, sep);
    SplitFree(c, sep);
  }

  lemma {:induction false} SplitFour(a: string, b: string, c: string, d: string, sep: char)
    requires sep !in a && sep !in b && sep !in c && sep !in d
    ensures Split(a + [sep] + b + [sep] + c + [sep] + d, sep) == [a, b, c, d]
  {
    assert a + [sep] + b + [sep] + c + [sep] + d == a + [sep] + (b + [sep] + c + [sep] + d);
    SplitCons(a, b + [sep] + c + [sep] + d, sep);
    SplitThree(b, c, d, sep);
  }

  /** Joining undoes splitting, for every string. */
  lemma {:induction false} JoinSplit(s: string, sep: char)
    ensures Join(Split(s, sep), sep) == s
  {
    if s == "" {
    } else {
      var rest := Split(s[1..], sep);
      JoinSplit(s[1..], sep);
      if s[0] == sep {
        assert ([""] + rest)[1..] == rest;
      } else if |rest| > 1 {
        assert ([[s[0]] + rest[0]] + rest[1..])[1..] == rest[1..];
      }
    }
  }

  /** Splitting undoes joining when no part holds the separator. */
  lemma {:induction false} SplitJoin(parts: seq<string>, sep: char)
    requires |parts| > 0
    requires forall p :: p in parts ==> sep !in p
    ensures Split(Join(parts, sep), sep) == parts
  {
    if |parts| == 1 {
      SplitFree(parts[0], sep);
    } else {
      SplitCons(parts[0], Join(parts[1..], sep), sep);
      SplitJoin(parts[1..], sep);
    }
  }

  /** A prefix that ends in a separator matches a key exactly when the components agree. */
  lemma {:induction false} ComponentPrefix(a: string, b: string, rest: string, sep: char)
    requires sep !in a && sep !in b
    ensures a + [sep] <= b + [sep] + rest <==> a == b
  {
    var s := b + [sep] + rest;
    if a != "" && b != "" {
      ComponentPrefix(a[1..], b[1..], rest, sep);
      assert s[1..] == b[1..] + [sep] + rest;
      assert (a + [sep])[1..] == a[1..] + [sep];
      Uncons(a + [sep], s);
      assert a == b <==> a[0] == b[0] && a[1..] == b[1..] by {
        assert a == [a[0]] + a[1..] && b == [b[0]] + b[1..];
      }
    } else {
      assert (a + [sep])[0] == if a == "" then sep else a[0];
      assert s[0] == if b == "" then sep else b[0];
    }
  }

  lemma Uncons(s: string, t: string)
    requires s != "" && t != ""
    ensures s <= t <==> s[0] == t[0] && s[1..] <= t[1..]
  {
    assert s == [s[0]] + s[1..] && t == [t[0]] + t[1..];
    if s[0] == t[0] && s[1..] <= t[1..] {
      assert forall i :: 1 <= i < |s| ==> s[i] == s[1..][i - 1] == t[1..][i - 1] == t[i];
    }
  }

  /** A common front can be dropped from a prefix test. */
  lemma SharedFront(front: string, a: string, b: string)
    ensures front + a <= front + b <==> a <= b
  {
    if front + a <= front + b {
      assert forall i :: 0 <= i < |a| ==> a[i] == (front + a)[|front| + i] == (front + b)[|front| + i] == b[i];
    }
  }

  /** What follows a separator-free head and the separator is recovered by cutting there. */
  lemma CutAtFirst(a: string, b: string, x: string, y: string, sep: char)
    requires sep !in a && sep !in b
    requires a + [sep] + x == b + [sep] + y
    ensures a == b && x == y
  {
    ComponentPrefix(a, b, y, sep);
    assert a + [sep] <= b + [sep] + y;
    assert x == (a + [sep] + x)[|a| + 1..] == (b + [sep] + y)[|b| + 1..] == y;
  }

  /** A separator-free prefix of a key is a prefix of its first component. */
  lemma {:induction false} PrefixInComponent(a: string, b: string, rest: string, sep: char)
    requires sep !in a && sep !in b
    ensures a <= b + [sep] + rest <==> a <= b
  {
    var s := b + [sep] + rest;
    if a != "" && b != "" {
      PrefixInComponent(a[1..], b[1..], rest, sep);
      assert s[1..] == b[1..] + [sep] + rest;
      Uncons(a, s);
      Uncons(a, b);
    } else {
      assert s[0] == if b == "" then sep else b[0];
    }
  }

  /** What precedes the last separator, and what follows it, are recovered by cutting there. */
  lemma {:induction false} CutAtLast(x: string, a: string, y: string, b: string, sep: char)
    requires sep !in a && sep !in b
    requires x + [sep] + a == y + [sep] + b
    ensures x == y && a == b
  {
    var s, t := x + [sep] + a, y + [sep] + b;
    assert s[|s| - 1] == if a == "" then sep else a[|a| - 1];
    assert t[|t| - 1] == if b == "" then sep else b[|b| - 1];
    if a == "" {
      assert x == s[..|s| - 1] == t[..|t| - 1] == y;
    } else {
      var a', b' := a[..|a| - 1], b[..|b| - 1];
      assert s[..|s| - 1] == x + [sep] + a' && t[..|t| - 1] == y + [sep] + b';
      CutAtLast(x, a', y, b', sep);
      assert a == a' + [a[|a| - 1]] && b == b' + [b[|b| - 1]];
    }
  }

  /** A suffix that begins with a separator is the last component, or ends in it and goes on in
      front of it. */
  lemma SuffixSteps(front: string, b: string, s: string, sep: char)
    requires sep !in b
    ensures HasSuffix(front + [sep] + b, [sep] + s)
            <==> s == b || (HasSuffix(s, [sep] + b) && HasSuffix(front, [sep] + s[..|s| - |b| - 1]))
  {
    var key, tail := front + [sep] + b, [sep] + b;
    assert key == front + tail;
    if HasSuffix(s, tail) {
      var rest := s[..|s| - |tail|];
      assert s == rest + tail && [sep] + s == [sep] + rest + tail;
      CommonTail(front, [sep] + rest, tail);
    } else if HasSuffix(key, [sep] + s) {
      SuffixOfBoth(key, tail, [sep] + s);
      assert ([sep] + s)[1..] == s && tail[1..] == b;
      if |s| < |b| {
        assert HasSuffix(b, [sep] + s);
        SeparatorInside(b, s, sep);
      }
    }
  }

  lemma SeparatorInside(b: string, s: string, sep: char)
    requires HasSuffix(b, [sep] + s)
    ensures sep in b
  {
    assert b[|b| - |s| - 1] == ([sep] + s)[0];
  }

  lemma CommonTail(a: string, b: string, tail: string)
    ensures HasSuffix(a + tail, b + tail) <==> HasSuffix(a, b)
  {
    var n := |a| - |b|;
    if n >= 0 {
      assert (a + tail)[n..] == a[n..] + tail;
      assert b == (b + tail)[..|b|] && a[n..] == (a[n..] + tail)[..|b|];
    }
  }

  /** Of two suffixes of one string the shorter is a suffix of the longer. */
  lemma SuffixOfBoth(s: string, a: string, b: string)
    requires HasSuffix(s, a) && HasSuffix(s, b)
    ensures |a| < |b| ==> HasSuffix(b[1..], a)
    ensures |b| <= |a| ==> HasSuffix(a, b)
  {
    if |a| < |b| {
      assert b[1..][|b| - 1 - |a|..] == b[|b| - |a|..] == s[|s| - |a|..];
    } else {
      assert a[|a| - |b|..] == s[|s| - |b|..];
    }
  }
}
