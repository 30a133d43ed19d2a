/** The request counters: a sliding window over rolling time windows. */
module Stats {

  /** Total number of windows, and with it the bound on the list of counters. */
  const TOTAL: nat := 24

  /** The recorded requests of one window: status code and amount. */
  type Window = seq<(string, int)>

  /** One step of the stats' life: a window ends, or requests are recorded. */
  datatype Step = Roll(timestamp: int) | Record(code: string, amount: int)

  function Amount(w: Window): int {
    if w == [] then 0 else Amount(w[..|w| - 1]) + w[|w| - 1].1
  }

  /** The amount that a window holds under one status code. */
  function AmountFor(w: Window, code: string): int {
    if w == [] then 0
    else AmountFor(w[..|w| - 1], code) + if w[|w| - 1].0 == code then w[|w| - 1].1 else 0
  }

  function Codes(w: Window): set<string> {
    set e | e in w :: e.0
  }

  /** The unbounded history: every window from the beginning, the current one last. */
  function History(steps: seq<Step>): (h: seq<Window>)
    ensures |h| > 0
  {
    if steps == [] then [[]]
    else
      var h := History(steps[..|steps| - 1]);
      match steps[|steps| - 1]
      case Roll(_) => h + [[]]
      case Record(code, amount) => h[|h| - 1 := h[|h| - 1] + [(code, amount)]]
  }

  function Rolls(steps: seq<Step>): nat {
    if steps == [] then 0 else Rolls(steps[..|steps| - 1]) + if steps[|steps| - 1].Roll? then 1 else 0
  }

  function Min(a: nat, b: nat): nat {
    if a < b then a else b
  }

  /** The sum of the values of a map, in whatever order they are visited. */
  ghost function Sum(m: map<string, int>): int
    decreases |m|
  {
    if m == map[] then 0
    else
      var k :| k in m;
      m[k] + Sum(m - {k})
  }

  lemma {:induction false} SumAt(m: map<string, int>, k: string)
    requires k in m
    ensures Sum(m) == m[k] + Sum(m - {k})
    decreases |m|
  {
    var c :| c in m && Sum(m) == m[c] + Sum(m - {c});
    if c != k {
      SumAt(m - {c}, k);
      SumAt(m - {k}, c);
      assert m - {c} - {k} == m - {k} - {c};
    }
  }

  lemma SumAdd(m: map<string, int>, k: string, t: int)
    ensures Sum(m[k := (if k in m then m[k] else 0) + t]) == Sum(m) + t
  {
    var m' := m[k := (if k in m then m[k] else 0) + t];
    SumAt(m', k);
    assert m' - {k} == m - {k};
    if k in m {
      SumAt(m, k);
    } else {
      assert m - {k} == m;
    }
  }

  /** What a counter must be for its window. */
  ghost predicate Counts(status: map<string, int>, total: int, w: Window) {
    && total == Amount(w)
    && status.Keys == Codes(w)
    && (forall c :: c in status ==> status[c] == AmountFor(w, c))
    && total == Sum(status)
  }

  lemma CountOne(status: map<string, int>, total: int, w: Window, code: string, amount: int)
    requires Counts(status, total, w)
    ensures Counts(status[code := (if code in status then status[code] else 0) + amount], total + amount,
                   w + [(code, amount)])
  {
    var w' := w + [(code, amount)];
    assert w'[..|w|] == w;
    SumAdd(status, code, amount);
    AbsentCode(w, code);
    assert Codes(w') == Codes(w) + {code} by {
      assert (code, amount) in w';
      assert forall e :: e in w' <==> e in w || e == (code, amount);
    }
  }

  lemma {:induction false} AbsentCode(w: Window, code: string)
    ensures code !in Codes(w) ==> AmountFor(w, code) == 0
  {
    if w == [] {
    } else {
      var front := w[..|w| - 1];
      AbsentCode(front, code);
      assert w == front + [w[|w| - 1]];
      assert Codes(front) <= Codes(w) && w[|w| - 1].0 in Codes(w);
    }
  }

  class Counter {
    var timestamp: int
    var status: map<string, int>
    var total: int

    constructor (timestamp: int)
      ensures this.timestamp == timestamp && status == map[] && total == 0
    {
      this.timestamp, status, total := timestamp, map[], 0;
    }
  }

  /** The contents of a counter. */
  datatype View = View(status: map<string, int>, total: int)

  const EMPTY: View := View(map[], 0)

  ghost predicate CountsView(v: View, w: Window) {
    Counts(v.status, v.total, w)
  }

  /** The list `xs` is related, element by element, to the END of the list `ys`. */
  ghost predicate EndOf<A(!new), B(!new)>(xs: seq<A>, ys: seq<B>, rel: (A, B) -> bool) {
    |xs| <= |ys| && forall i :: 0 <= i < |xs| ==> rel(xs[i], ys[|ys| - |xs| + i])
  }

  lemma EndOfAppended<A(!new), B(!new)>(xs: seq<A>, ys: seq<B>, rel: (A, B) -> bool, x: A, y: B)
    requires EndOf(xs, ys, rel) && rel(x, y)
    ensures EndOf(xs + [x], ys + [y], rel)
  {
    var xs', ys' := xs + [x], ys + [y];
    forall i | 0 <= i < |xs'|
      ensures rel(xs'[i], ys'[|ys'| - |xs'| + i])
    {
      if i < |xs| {
        assert rel(xs[i], ys[|ys| - |xs| + i]);
      }
    }
  }

  lemma EndOfShorter<A(!new), B(!new)>(xs: seq<A>, ys: seq<B>, rel: (A, B) -> bool)
    requires EndOf(xs, ys, rel) && |xs| > 0
    ensures EndOf(xs[1..], ys, rel)
  {
    var xs' := xs[1..];
    forall i | 0 <= i < |xs'|
      ensures rel(xs'[i], ys[|ys| - |xs'| + i])
    {
      assert rel(xs[i + 1], ys[|ys| - |xs| + (i + 1)]);
    }
  }

  lemma EndOfRolled<A(!new), B(!new)>(xs: seq<A>, ys: seq<B>, rel: (A, B) -> bool, x: A, y: B)
    requires EndOf(xs, ys, rel) && rel(x, y)
    ensures EndOf(Rolled(xs, x), ys + [y], rel)
  {
    EndOfAppended(xs, ys, rel, x, y);
    EndOfShorter(xs + [x], ys + [y], rel);
  }

  lemma EndOfChanged<A(!new), B(!new)>(xs: seq<A>, ys: seq<B>, rel: (A, B) -> bool, x: A, y: B)
    requires EndOf(xs, ys, rel) && rel(x, y) && |xs| > 0
    ensures EndOf(xs[|xs| - 1 := x], ys[|ys| - 1 := y], rel)
  {
    var xs', ys' := xs[|xs| - 1 := x], ys[|ys| - 1 := y];
    forall i | 0 <= i < |xs'|
      ensures rel(xs'[i], ys'[|ys'| - |xs'| + i])
    {
      if i < |xs| - 1 {
        assert rel(xs[i], ys[|ys| - |xs| + i]);
      }
    }
  }

  /** The counters are the last windows of the unbounded history: one more than there were rolls,
      but at most TOTAL - 1. */
  ghost predicate Matches(views: seq<View>, steps: seq<Step>) {
    && |views| == Min(Rolls(steps) + 1, TOTAL - 1)
    && EndOf(views, History(steps), CountsView)
  }

  /** The list after a tick: a new counter, and the oldest one dropped when there are TOTAL. */
  function Rolled<T>(counters: seq<T>, c: T): seq<T> {
    var longer := counters + [c];
    if |longer| >= TOTAL then longer[1..] else longer
  }

  function Added(v: View, code: string, amount: int): View {
    View(v.status[code := (if code in v.status then v.status[code] else 0) + amount], v.total + amount)
  }

  lemma RollMatches(views: seq<View>, steps: seq<Step>, timestamp: int)
    requires Matches(views, steps)
    ensures Matches(Rolled(views, EMPTY), steps + [Roll(timestamp)])
  {
    var steps' := steps + [Roll(timestamp)];
    assert steps'[..|steps|] == steps;
    assert History(steps') == History(steps) + [[]];
    assert CountsView(EMPTY, []);
    EndOfRolled(views, History(steps), CountsView, EMPTY, []);
  }

  lemma AddedCounts(v: View, w: Window, code: string, amount: int)
    requires CountsView(v, w)
    ensures CountsView(Added(v, code, amount), w + [(code, amount)])
  {
    CountOne(v.status, v.total, w, code, amount);
  }

  lemma RecordMatches(views: seq<View>, steps: seq<Step>, code: string, amount: int)
    requires Matches(views, steps)
    ensures |views| > 0
    ensures Matches(views[|views| - 1 := Added(views[|views| - 1], code, amount)], steps + [Record(code, amount)])
  {
    var steps' := steps + [Record(code, amount)];
    var h, last := History(steps), |views| - 1;
    assert steps'[..|steps|] == steps;
    assert History(steps') == h[|h| - 1 := h[|h| - 1] + [(code, amount)]];
    assert Rolls(steps') == Rolls(steps);
    AddedCounts(views[last], h[|h| - |views| + last], code, amount);
    EndOfChanged(views, h, CountsView, Added(views[last], code, amount), h[|h| - 1] + [(code, amount)]);
  }

  /** The counters after any interleaving of ticks and records, as the code computes them. */
  function Run(steps: seq<Step>): seq<View> {
    if steps == [] then [EMPTY]
    else
      var before, step := Run(steps[..|steps| - 1]), steps[|steps| - 1];
      match step
      case Roll(_) => Rolled(before, EMPTY)
      case Record(code, amount) =>
        if before == [] then [] else before[|before| - 1 := Added(before[|before| - 1], code, amount)]
  }

  class Stats {
    var counters: seq<Counter>
    /** The steps so far, and the contents of the counters. */
    ghost var steps: seq<Step>
    ghost var views: seq<View>

    ghost predicate Valid()
      reads this, counters
    {
      && |views| == |counters| > 0
      && (forall i :: 0 <= i < |counters| ==> views[i] == View(counters[i].status, counters[i].total))
      && (forall i, j :: 0 <= i < j < |counters| ==> counters[i] != counters[j])
      && views == Run(steps)
    }

    constructor (timestamp: int)
      ensures Valid() && steps == [] && fresh(counters)
    {
      var c := new Counter(timestamp);
      counters := [c];
      steps, views := [], [EMPTY];
    }

    /** One tick of `run`. */
    method Roll(timestamp: int)
      requires Valid()
      modifies this
      ensures Valid() && steps == old(steps) + [Step.Roll(timestamp)]
      ensures views == Rolled(old(views), EMPTY)
      ensures fresh(counters[|counters| - 1]) && counters[|counters| - 1].timestamp == timestamp
      ensures counters == Rolled(old(counters), counters[|counters| - 1])
    {
      var c := new Counter(timestamp);
      assert (steps + [Step.Roll(timestamp)])[..|steps|] == steps;
      steps, views := steps + [Step.Roll(timestamp)], Rolled(views, EMPTY);
      counters := counters + [c];
      if |counters| >= TOTAL {
        counters := counters[1..];
      }
    }

    /** `Record` adds to the newest counter. */
    method Record(c: string, t: int)
      requires Valid()
      modifies this`steps, this`views, counters[|counters| - 1]
      ensures Valid() && steps == old(steps) + [Step.Record(c, t)]
      ensures views == old(views)[|counters| - 1 := Added(old(views)[|counters| - 1], c, t)]
    {
      assert (steps + [Step.Record(c, t)])[..|steps|] == steps;
      var last := |counters| - 1;
      var counter := counters[last];
      counter.status := counter.status[c := (if c in counter.status then counter.status[c] else 0) + t];
      counter.total := counter.total + t;
      steps, views := steps + [Step.Record(c, t)], views[last := Added(views[last], c, t)];
    }
  }

  lemma {:induction false} RunMatches(steps: seq<Step>)
    ensures Matches(Run(steps), steps) && |Run(steps)| > 0
  {
    if steps == [] {
      assert CountsView(EMPTY, []);
    } else {
      var front, step := steps[..|steps| - 1], steps[|steps| - 1];
      RunMatches(front);
      assert steps == front + [step];
      match step
      case Roll(timestamp) => RollMatches(Run(front), front, timestamp);
      case Record(code, amount) => RecordMatches(Run(front), front, code, amount);
    }
  }

  lemma {:induction false} HistoryLength(steps: seq<Step>)
    ensures |History(steps)| == Rolls(steps) + 1
  {
    if steps == [] {
    } else {
      HistoryLength(steps[..|steps| - 1]);
    }
  }

  /** In every interleaving of rolls and records the counters are the last windows of the unbounded
      history, there is at least one, and each total is the sum of its per-status counts. */
  lemma SlidingWindow(steps: seq<Step>)
    ensures Matches(Run(steps), steps) && |Run(steps)| > 0
    ensures |History(steps)| == Rolls(steps) + 1
    ensures |Run(steps)| == if Rolls(steps) < 23 then Rolls(steps) + 1 else 23
    ensures forall i :: 0 <= i < |Run(steps)| ==> Run(steps)[i].total == Sum(Run(steps)[i].status)
  {
    RunMatches(steps);
    HistoryLength(steps);
    TotalsAreSums(Run(steps), steps);
  }

  lemma TotalsAreSums(views: seq<View>, steps: seq<Step>)
    requires Matches(views, steps)
    ensures forall i :: 0 <= i < |views| ==> views[i].total == Sum(views[i].status)
  {
    var h := History(steps);
    forall i | 0 <= i < |views|
      ensures views[i].total == Sum(views[i].status)
    {
      assert CountsView(views[i], h[|h| - |views| + i]);
    }
  }
}
