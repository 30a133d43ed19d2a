/** The trace handler. Go visits maps in an arbitrary order, and so do the loops here. */
module TraceHandler {
  import opened Wrappers
  import opened TraceSpec
  import Text

  type Groups = map<string, map<string, Span>>

  function SpanIn(groups: Groups, trace: string, id: string): Option<Span> {
    if trace in groups && id in groups[trace] then Some(groups[trace][id]) else None
  }

  ghost predicate Grouped(groups: Groups, spans: seq<Span>) {
    forall t, i :: SpanIn(groups, t, i) == LastWritten(spans, t, i)
  }

  /** The first half of `filterServiceSpans`: trace id -> span id -> span. */
  method GroupByTrace(snapshots: seq<Snapshot>) returns (groups: Groups)
    ensures Grouped(groups, Spans(snapshots))
  {
    groups := map[];
    for a := 0 to |snapshots|
      invariant Grouped(groups, Spans(snapshots[..a]))
    {
      var spans := snapshots[a].spans;
      ghost var before := Spans(snapshots[..a]);
      assert snapshots[..a + 1][..a] == snapshots[..a];
      assert before + spans[..0] == before;
      for b := 0 to |spans|
        invariant Grouped(groups, before + spans[..b])
      {
        var span := spans[b];
        GroupOne(groups, before + spans[..b], span);
        assert before + spans[..b + 1] == before + spans[..b] + [span];
        if span.trace !in groups {
          groups := groups[span.trace := map[]];
        }
        groups := groups[span.trace := groups[span.trace][span.id := span]];
      }
      assert spans[..|spans|] == spans;
    }
    assert snapshots[..|snapshots|] == snapshots;
  }

  lemma GroupOne(groups: Groups, spans: seq<Span>, span: Span)
    requires Grouped(groups, spans)
    ensures var inner := if span.trace in groups then groups[span.trace] else map[];
            Grouped(groups[span.trace := inner[span.id := span]], spans + [span])
  {
    var inner := if span.trace in groups then groups[span.trace] else map[];
    var after := groups[span.trace := inner[span.id := span]];
    assert (spans + [span])[..|spans|] == spans;
    forall t, i
      ensures SpanIn(after, t, i) == LastWritten(spans + [span], t, i)
    {
      assert SpanIn(groups, t, i) == LastWritten(spans, t, i);
    }
  }

  predicate Hit(spans: seq<Span>, service: string) {
    exists i :: 0 <= i < |spans| && Text.Contains(spans[i].name, service)
  }

  /** What the inner loop appends for one trace whose spans are visited in this order: from the
      first hit on, every turn appends all the spans visited so far. */
  function Burst(order: seq<Span>, service: string): seq<Span> {
    if order == [] then []
    else Burst(order[..|order| - 1], service) + if Hit(order, service) then order else []
  }

  /** The inner loop of `filterServiceSpans`; the ghost result is the order of the visit. */
  method AppendTrace(service: string, spanMap: map<string, Span>, ret: seq<Span>)
    returns (out: seq<Span>, ghost order: seq<Span>)
    requires forall i :: i in spanMap ==> spanMap[i].id == i
    ensures out == ret + Burst(order, service)
    ensures Text.Distinct(order)
    ensures forall s :: s in order <==> s.id in spanMap && spanMap[s.id] == s
  {
    out := ret;
    var spans: seq<Span> := [];
    var shouldAppend := false;
    var left := spanMap.Keys;
    while left != {}
      invariant left <= spanMap.Keys
      invariant Text.Distinct(spans)
      invariant forall s :: s in spans <==> s.id in spanMap.Keys - left && spanMap[s.id] == s
      invariant shouldAppend <==> Hit(spans, service)
      invariant out == ret + Burst(spans, service)
      decreases left
    {
      var id :| id in left;
      left := left - {id};
      var span := spanMap[id];
      HitGrows(spans, span, service);
      BurstGrows(spans, span, service);
      Text.DistinctAppend(spans, span);
      spans := spans + [span];
      if Text.Contains(span.name, service) {
        shouldAppend := true;
      }
      if shouldAppend {
        out := out + spans;
      }
    }
    order := spans;
  }

  lemma BurstGrows(spans: seq<Span>, span: Span, service: string)
    ensures Burst(spans + [span], service)
            == Burst(spans, service) + if Hit(spans + [span], service) then spans + [span] else []
  {
    assert (spans + [span])[..|spans|] == spans;
  }

  lemma HitGrows(spans: seq<Span>, span: Span, service: string)
    ensures Hit(spans + [span], service) <==> Hit(spans, service) || Text.Contains(span.name, service)
  {
    if i :| 0 <= i < |spans| && Text.Contains(spans[i].name, service) {
      assert Text.Contains((spans + [span])[i].name, service);
    }
    if Text.Contains(span.name, service) {
      assert Text.Contains((spans + [span])[|spans|].name, service);
    }
    if i :| 0 <= i < |spans + [span]| && Text.Contains((spans + [span])[i].name, service) && i < |spans| {
      assert Text.Contains(spans[i].name, service);
    }
  }

  /** As a set, a burst is all the spans of the trace if the trace is hit, and nothing otherwise. */
  lemma {:induction false} BurstMembers(order: seq<Span>, service: string, s: Span)
    ensures s in Burst(order, service) <==> Hit(order, service) && s in order
  {
    if order == [] {
    } else {
      var front, last := order[..|order| - 1], order[|order| - 1];
      assert order == front + [last];
      HitGrows(front, last, service);
      BurstMembers(front, service, s);
    }
  }

  /** Where the first hit is. */
  function FirstHit(order: seq<Span>, service: string): (p: nat)
    requires Hit(order, service)
    ensures p < |order| && Text.Contains(order[p].name, service)
    ensures forall i :: 0 <= i < p ==> !Text.Contains(order[i].name, service)
  {
    if Text.Contains(order[0].name, service) then 0
    else
      assert Hit(order[1..], service) by {
        var i :| 0 <= i < |order| && Text.Contains(order[i].name, service);
        assert Text.Contains(order[1..][i - 1].name, service);
      }
      1 + FirstHit(order[1..], service)
  }

  /** The span visited at turn `q` of `n`, with the first hit at turn `p`, is returned `n - max(p, q)`
      times. Only a hit at the last turn gives no repetition. */
  predicate Repeats(order: seq<Span>, service: string, q: nat)
    requires Hit(order, service) && q < |order|
  {
    var p := FirstHit(order, service);
    multiset(Burst(order, service))[order[q]] == |order| - (if p < q then q else p)
  }

  /** How often each span is repeated, for every order of the visit. */
  lemma {:induction false} BurstRepeats(order: seq<Span>, service: string, q: nat)
    requires Text.Distinct(order) && Hit(order, service) && q < |order|
    ensures Repeats(order, service, q)
  {
    var front, last := order[..|order| - 1], order[|order| - 1];
    assert order == front + [last];
    if Hit(front, service) {
      if q < |front| {
        BurstRepeats(front, service, q);
      }
      RepeatsAfterHit(front, last, service, q);
    } else {
      RepeatsAtHit(front, last, service, q);
    }
  }

  lemma RepeatsAtHit(front: seq<Span>, last: Span, service: string, q: nat)
    requires Text.Distinct(front + [last]) && !Hit(front, service) && Hit(front + [last], service) && q <= |front|
    ensures Repeats(front + [last], service, q)
  {
    FirstHitLast(front, last, service);
    BurstOfLast(front, last, service);
    DistinctOnce(front + [last], q);
  }

  lemma RepeatsAfterHit(front: seq<Span>, last: Span, service: string, q: nat)
    requires Text.Distinct(front + [last]) && Hit(front, service) && q <= |front|
    requires q < |front| ==> Repeats(front, service, q)
    ensures Hit(front + [last], service) && Repeats(front + [last], service, q)
  {
    HitGrows(front, last, service);
    FirstHitUnique(front, front + [last], service);
    BurstOnceMore(front, last, service, q);
  }

  /** A hit in the last turn only: the trace is appended once. */
  lemma BurstOfLast(front: seq<Span>, last: Span, service: string)
    requires !Hit(front, service) && Hit(front + [last], service)
    ensures Burst(front + [last], service) == front + [last]
  {
    BurstGrows(front, last, service);
    NoBurst(front, service);
  }

  lemma {:induction false} NoBurst(order: seq<Span>, service: string)
    requires !Hit(order, service)
    ensures Burst(order, service) == []
  {
    if Burst(order, service) != [] {
      BurstMembers(order, service, Burst(order, service)[0]);
    }
  }

  lemma FirstHitLast(front: seq<Span>, last: Span, service: string)
    requires !Hit(front, service) && Hit(front + [last], service)
    ensures FirstHit(front + [last], service) == |front|
  {
    assert forall i :: 0 <= i < |front| ==> (front + [last])[i] == front[i];
  }

  /** After a hit every turn returns each span so far once more. */
  lemma BurstOnceMore(front: seq<Span>, last: Span, service: string, q: nat)
    requires Text.Distinct(front + [last]) && Hit(front, service) && q <= |front|
    ensures multiset(Burst(front + [last], service))[(front + [last])[q]]
            == 1 + if q < |front| then multiset(Burst(front, service))[front[q]] else 0
  {
    HitGrows(front, last, service);
    BurstGrows(front, last, service);
    DistinctOnce(front + [last], q);
    BurstMembers(front, service, last);
  }

  lemma FirstHitUnique(front: seq<Span>, order: seq<Span>, service: string)
    requires Hit(front, service) && Hit(order, service) && front <= order
    ensures FirstHit(front, service) == FirstHit(order, service)
  {
    var a, b := FirstHit(front, service), FirstHit(order, service);
    assert Text.Contains(order[a].name, service);
    assert b < |front| ==> front[b] == order[b];
  }

  lemma DistinctOnce(order: seq<Span>, q: nat)
    requires Text.Distinct(order) && q < |order|
    ensures multiset(order)[order[q]] == 1
  {
    assert order == order[..q] + [order[q]] + order[q + 1..];
    assert order[q] !in order[..q] && order[q] !in order[q + 1..];
  }

  /** `filterServiceSpans`: as a set, the surviving spans of the traces that are hit. */
  method FilterServiceSpans(service: string, snapshots: seq<Snapshot>) returns (ret: seq<Span>)
    ensures forall s :: s in ret <==>
              LastWritten(Spans(snapshots), s.trace, s.id) == Some(s) && TraceHit(Spans(snapshots), s.trace, service)
  {
    ghost var all := Spans(snapshots);
    var groups := GroupByTrace(snapshots);
    ret := [];
    var left := groups.Keys;
    while left != {}
      invariant left <= groups.Keys
      invariant forall s :: s in ret <==>
                  && s.trace in groups.Keys - left
                  && LastWritten(all, s.trace, s.id) == Some(s) && TraceHit(all, s.trace, service)
      decreases left
    {
      var t :| t in left;
      left := left - {t};
      ghost var before := ret;
      forall i | i in groups[t]
        ensures LastWritten(all, t, i) == Some(groups[t][i])
      {
        assert SpanIn(groups, t, i) == LastWritten(all, t, i);
      }
      ghost var order;
      ret, order := AppendTrace(service, groups[t], ret);
      TraceOrder(groups, all, t, order, service);
      forall s
        ensures s in ret
                <==> s in before || (s.trace == t && LastWritten(all, t, s.id) == Some(s) && TraceHit(all, t, service))
      {
        BurstMembers(order, service, s);
      }
    }
    forall s: Span | LastWritten(all, s.trace, s.id) == Some(s)
      ensures s.trace in groups
    {
      assert SpanIn(groups, s.trace, s.id) == Some(s);
    }
  }

  lemma TraceOrder(groups: Groups, all: seq<Span>, t: string, order: seq<Span>, service: string)
    requires Grouped(groups, all) && t in groups
    requires forall s :: s in order <==> s.id in groups[t] && groups[t][s.id] == s
    ensures forall s :: s in order <==> s.trace == t && LastWritten(all, t, s.id) == Some(s)
    ensures Hit(order, service) <==> TraceHit(all, t, service)
  {
    forall s
      ensures s in order <==> s.trace == t && LastWritten(all, t, s.id) == Some(s)
    {
      assert SpanIn(groups, t, s.id) == LastWritten(all, t, s.id);
    }
    if Hit(order, service) {
      var i :| 0 <= i < |order| && Text.Contains(order[i].name, service);
      assert order[i] in order;
      assert LastWritten(all, t, order[i].id) == Some(order[i]);
    }
    if TraceHit(all, t, service) {
      var id :| LastWritten(all, t, id).Some? && Text.Contains(LastWritten(all, t, id).value.name, service);
      var s := LastWritten(all, t, id).value;
      assert s in order;
      var i :| 0 <= i < |order| && order[i] == s;
      assert Text.Contains(order[i].name, service);
    }
  }

  /** `dedupeSpans`: for each id exactly one span, the one that comes last. */
  method DedupeSpans(spans: seq<Span>) returns (ret: seq<Span>)
    ensures forall s :: s in ret <==> LastWithId(spans, s.id) == Some(s)
    ensures forall i, j :: 0 <= i < j < |ret| ==> ret[i].id != ret[j].id
  {
    var m: map<string, Span> := map[];
    for k := 0 to |spans|
      invariant forall id :: SpanOf(m, id) == LastWithId(spans[..k], id)
    {
      assert spans[..k + 1][..k] == spans[..k];
      m := m[spans[k].id := spans[k]];
    }
    assert spans[..|spans|] == spans;
    forall id | id in m
      ensures m[id].id == id
    {
      assert SpanOf(m, id) == LastWithId(spans, id);
    }
    ret := SpansIn(m);
    forall s: Span
      ensures s in ret <==> LastWithId(spans, s.id) == Some(s)
    {
      assert SpanOf(m, s.id) == LastWithId(spans, s.id);
    }
  }

  function SpanOf(m: map<string, Span>, id: string): Option<Span> {
    if id in m then Some(m[id]) else None
  }

  /** The values of the map, in its arbitrary order. */
  method SpansIn(m: map<string, Span>) returns (ret: seq<Span>)
    requires forall id :: id in m ==> m[id].id == id
    ensures forall s :: s in ret <==> s.id in m && m[s.id] == s
    ensures forall i, j :: 0 <= i < j < |ret| ==> ret[i].id != ret[j].id
  {
    ret := [];
    var left := m.Keys;
    while left != {}
      invariant left <= m.Keys
      invariant forall s :: s in ret <==> s.id in m.Keys - left && m[s.id] == s
      invariant forall i :: 0 <= i < |ret| ==> ret[i].id !in left
      invariant forall i, j :: 0 <= i < j < |ret| ==> ret[i].id != ret[j].id
      decreases left
    {
      var id :| id in left;
      left := left - {id};
      ret := ret + [m[id]];
    }
  }

  /** `snapshotsToSpans`. */
  method SnapshotsToSpans(snapshots: seq<Snapshot>) returns (ret: seq<Span>)
    ensures ret == Spans(snapshots)
  {
    ret := [];
    for i := 0 to |snapshots|
      invariant ret == Spans(snapshots[..i])
    {
      assert snapshots[..i + 1][..i] == snapshots[..i];
      ret := ret + snapshots[i].spans;
    }
    assert snapshots[..|snapshots|] == snapshots;
  }

  /** The complete answer of `Read` before the limit, from the entries that it looks at. */
  ghost predicate Answers(entries: Ring, service: Option<string>, spans: seq<Span>) {
    var all := Spans(Flatten(entries));
    match service
    case None =>
      && (forall s :: s in spans <==> LastWithId(all, s.id) == Some(s))
      && (forall i, j :: 0 <= i < j < |spans| ==> spans[i].id != spans[j].id)
    case Some(name) =>
      forall s :: s in spans <==> LastWritten(all, s.trace, s.id) == Some(s) && TraceHit(all, s.trace, name)
  }

  class Trace {
    const size: nat
    var ring: Ring

    constructor (size: nat)
      ensures this.size == size && ring == []
    {
      this.size := size;
      ring := [];
    }

    /** `Read`. The ghost result is the answer before the limit; a negative limit makes the
        original panic on the slice. */
    method Read(past: bool, service: Option<string>, limit: int)
      returns (r: Result<seq<Span>>, ghost complete: seq<Span>)
      ensures Answers(Get(ring, if past then -1 else 1), service, complete)
      ensures r.Success? <==> limit >= 0
      ensures limit == 0 ==> Answers(Get(ring, if past then -1 else 1), service, r.value)
      ensures limit > 0 ==> |r.value| <= limit
      ensures r == if limit < 0 then Failure("slice bounds out of range")
                   else Success(if limit == 0 || limit >= |complete| then complete else complete[..limit])
    {
      var numEntries := if past then -1 else 1;
      var entries := Get(ring, numEntries);
      var allSnapshots: seq<Snapshot> := [];
      for i := 0 to |entries|
        invariant allSnapshots == Flatten(entries[..i])
      {
        assert entries[..i + 1][..i] == entries[..i];
        allSnapshots := allSnapshots + entries[i];
      }
      assert entries[..|entries|] == entries;
      var spans: seq<Span>;
      if service.None? {
        var all := SnapshotsToSpans(allSnapshots);
        spans := DedupeSpans(all);
      } else {
        spans := FilterServiceSpans(service.value, allSnapshots);
      }
      complete := spans;
      if limit == 0 {
        return Success(spans), complete;
      }
      var lim := limit;
      if lim >= |spans| {
        lim := |spans|;
        assert spans[..lim] == spans;
      }
      if lim < 0 {
        return Failure("slice bounds out of range"), complete;
      }
      return Success(spans[..lim]), complete;
    }

    /** `scrape`, with the nodes' answers in the order in which they were appended. */
    method Scrape(answers: seq<Answer>)
      modifies this
      ensures ring == Scraped(old(ring), answers, size)
    {
      var ids := CollectIds();
      var next: seq<Snapshot> := [];
      for i := 0 to |answers|
        invariant next == Collected(answers[..i], ids)
      {
        assert answers[..i + 1][..i] == answers[..i];
        var a := answers[i];
        if a.spans.None? {
          continue;
        }
        var spans: seq<Span> := [];
        for j := 0 to |a.spans.value|
          invariant spans == Unknown(a.spans.value[..j], ids)
        {
          assert a.spans.value[..j + 1][..j] == a.spans.value[..j];
          if a.spans.value[j].id in ids {
            continue;
          }
          spans := spans + [a.spans.value[j]];
        }
        assert a.spans.value[..|a.spans.value|] == a.spans.value;
        if |spans| == 0 {
          continue;
        }
        next := next + [Snapshot(a.service, a.version, a.node, a.address, spans)];
      }
      assert answers[..|answers|] == answers;
      if |next| == 0 {
        return;
      }
      ring := Put(ring, next, size);
    }

    method CollectIds() returns (ids: set<string>)
      ensures ids == RingIds(ring)
    {
      ids := {};
      for i := 0 to |ring|
        invariant ids == RingIds(ring[..i])
      {
        ghost var before := ids;
        for j := 0 to |ring[i]|
          invariant ids == before + EntryIds(ring[i][..j])
        {
          assert ring[i][..j + 1][..j] == ring[i][..j];
          var spans := ring[i][j].spans;
          ghost var inner := ids;
          for k := 0 to |spans|
            invariant ids == inner + Ids(spans[..k])
          {
            assert spans[..k + 1] == spans[..k] + [spans[k]];
            ids := ids + {spans[k].id};
          }
          assert spans[..|spans|] == spans;
        }
        assert ring[i][..|ring[i]|] == ring[i];
        assert ring[..i + 1] == ring[..i] + [ring[i]];
      }
      assert ring[..|ring|] == ring;
    }
  }

  /** In every run of scrapes, reading the past without service and limit returns exactly one span
      for each id in the ring: as many spans as the entries have ids, counted entry by entry. */
  lemma OneSpanPerId(scrapes: seq<seq<Answer>>, size: nat, spans: seq<Span>)
    requires Answers(Get(Run(scrapes, size), -1), None, spans)
    ensures Ids(spans) == RingIds(Run(scrapes, size))
    ensures |spans| == IdCounts(Run(scrapes, size))
  {
    var ring := Run(scrapes, size);
    EntriesDisjoint(scrapes, size);
    DisjointCount(ring);
    FlattenIds(ring);
    var all := Spans(Flatten(ring));
    forall id
      ensures id in Ids(spans) <==> id in RingIds(ring)
    {
      if id in RingIds(ring) {
        var s := LastWithId(all, id).value;
        assert s in spans;
        var i :| 0 <= i < |spans| && spans[i] == s;
      }
      if i :| 0 <= i < |spans| && spans[i].id == id {
        assert spans[i] in spans;
      }
    }
    CountIds(spans);
  }

  lemma {:induction false} CountIds(spans: seq<Span>)
    requires forall i, j :: 0 <= i < j < |spans| ==> spans[i].id != spans[j].id
    ensures |Ids(spans)| == |spans|
  {
    if spans == [] {
    } else {
      var front, last := spans[..|spans| - 1], spans[|spans| - 1];
      CountIds(front);
      assert spans == front + [last];
      assert Ids(spans) == Ids(front) + {last.id};
      assert last.id !in Ids(front);
    }
  }
}
