/** The trace handler's data: spans grouped into snapshots, and a ring of scrapes. */
module TraceSpec {
  import opened Wrappers
  import Text

  datatype SpanType = Inbound | Outbound

  datatype Span = Span(trace: string, id: string, parent: string, name: string,
                       started: int, duration: int, metadata: map<string, string>, kind: SpanType)

  /** The spans that one node of a service reported in one scrape. */
  datatype Snapshot = Snapshot(service: string, version: string, node: string, address: string, spans: seq<Span>)

  /** `snapshotsToSpans`: all spans, snapshot by snapshot. */
  function Spans(snapshots: seq<Snapshot>): seq<Span> {
    if snapshots == [] then []
    else Spans(snapshots[..|snapshots| - 1]) + snapshots[|snapshots| - 1].spans
  }

  /** The span that was written last under this trace and id. */
  function LastWritten(spans: seq<Span>, trace: string, id: string): (r: Option<Span>)
    ensures r.Some? ==> r.value in spans && r.value.trace == trace && r.value.id == id
    ensures r.Some? <==> exists s :: s in spans && s.trace == trace && s.id == id
  {
    if spans == [] then None
    else
      var last := spans[|spans| - 1];
      assert spans == spans[..|spans| - 1] + [last];
      if last.trace == trace && last.id == id then Some(last) else LastWritten(spans[..|spans| - 1], trace, id)
  }

  /** The span that was written last under this id, in any trace. */
  function LastWithId(spans: seq<Span>, id: string): (r: Option<Span>)
    ensures r.Some? ==> r.value in spans && r.value.id == id
    ensures r.Some? <==> exists s :: s in spans && s.id == id
  {
    if spans == [] then None
    else
      var last := spans[|spans| - 1];
      assert spans == spans[..|spans| - 1] + [last];
      if last.id == id then Some(last) else LastWithId(spans[..|spans| - 1], id)
  }

  /** A trace is hit by a service when the name of one of its surviving spans contains the service. */
  ghost predicate TraceHit(spans: seq<Span>, trace: string, service: string) {
    exists id :: LastWritten(spans, trace, id).Some? && Text.Contains(LastWritten(spans, trace, id).value.name, service)
  }

  /** The span ids in a list of spans. */
  function Ids(spans: seq<Span>): set<string> {
    set s | s in spans :: s.id
  }

  function EntryIds(entry: seq<Snapshot>): set<string> {
    Ids(Spans(entry))
  }

  /** What one node answered: `None` when the call failed. */
  datatype Answer = Answer(service: string, version: string, node: string, address: string, spans: Option<seq<Span>>)

  /** The spans whose id is not known yet, in order. */
  function Unknown(spans: seq<Span>, known: set<string>): (r: seq<Span>)
    ensures forall s :: s in r <==> s in spans && s.id !in known
  {
    if spans == [] then []
    else
      var front, last := Unknown(spans[..|spans| - 1], known), spans[|spans| - 1];
      assert spans == spans[..|spans| - 1] + [last];
      if last.id in known then front else front + [last]
  }

  /** The snapshots of one scrape, in the order in which the answers came in. */
  function Collected(answers: seq<Answer>, known: set<string>): seq<Snapshot> {
    if answers == [] then []
    else
      var front, a := Collected(answers[..|answers| - 1], known), answers[|answers| - 1];
      if a.spans.None? || Unknown(a.spans.value, known) == [] then front
      else front + [Snapshot(a.service, a.version, a.node, a.address, Unknown(a.spans.value, known))]
  }

  type Ring = seq<seq<Snapshot>>

  function RingIds(ring: Ring): set<string> {
    set e, id | e in ring && id in EntryIds(e) :: id
  }

  /** The ring buffer's `Put`: append, and drop the oldest entry when there are more than `size`. */
  function Put(ring: Ring, entry: seq<Snapshot>, size: nat): Ring {
    var longer := ring + [entry];
    if |longer| > size then longer[1..] else longer
  }

  /** The ring buffer's `Get`: the newest `n` entries, or all of them for a negative or too large `n`. */
  function Get(ring: Ring, n: int): Ring {
    if n < 0 || n > |ring| then ring else ring[|ring| - n..]
  }

  function Scraped(ring: Ring, answers: seq<Answer>, size: nat): Ring {
    var next := Collected(answers, RingIds(ring));
    if next == [] then ring else Put(ring, next, size)
  }

  /** The ring after a run of scrapes. */
  function Run(scrapes: seq<seq<Answer>>, size: nat): Ring {
    if scrapes == [] then [] else Scraped(Run(scrapes[..|scrapes| - 1], size), scrapes[|scrapes| - 1], size)
  }

  lemma {:induction false} SpansOf(snapshots: seq<Snapshot>, s: Span)
    ensures s in Spans(snapshots) <==> exists i :: 0 <= i < |snapshots| && s in snapshots[i].spans
  {
    if snapshots == [] {
    } else {
      var front := snapshots[..|snapshots| - 1];
      SpansOf(front, s);
      if i :| 0 <= i < |snapshots| && s in snapshots[i].spans && i < |snapshots| - 1 {
        assert s in front[i].spans;
      }
    }
  }

  lemma {:induction false} CollectedAreNew(answers: seq<Answer>, known: set<string>)
    ensures forall i :: 0 <= i < |Collected(answers, known)| ==> Collected(answers, known)[i].spans != []
    ensures EntryIds(Collected(answers, known)) !! known
  {
    if answers == [] {
    } else {
      CollectedAreNew(answers[..|answers| - 1], known);
      var next, front := Collected(answers, known), Collected(answers[..|answers| - 1], known);
      if next != front {
        assert next[..|next| - 1] == front;
        forall s | s in Spans(next)
          ensures s.id !in known
        {
          if s in Spans(front) {
            assert s.id in EntryIds(front);
          }
        }
      }
    }
  }

  /** A span is in an answer. */
  predicate Reported(answers: seq<Answer>, s: Span) {
    exists i :: 0 <= i < |answers| && answers[i].spans.Some? && s in answers[i].spans.value
  }

  /** A scrape loses nothing: it keeps exactly the reported spans whose ids were not known. */
  lemma {:induction false} CollectedIsComplete(answers: seq<Answer>, known: set<string>, s: Span)
    ensures s in Spans(Collected(answers, known)) <==> Reported(answers, s) && s.id !in known
  {
    if answers == [] {
    } else {
      var front, a := answers[..|answers| - 1], answers[|answers| - 1];
      CollectedIsComplete(front, known, s);
      ReportedAppend(front, a, s);
      assert answers == front + [a];
      var next, before := Collected(answers, known), Collected(front, known);
      if next != before {
        assert next[..|next| - 1] == before;
      }
    }
  }

  lemma ReportedAppend(front: seq<Answer>, a: Answer, s: Span)
    ensures Reported(front + [a], s) <==> Reported(front, s) || (a.spans.Some? && s in a.spans.value)
  {
    var answers := front + [a];
    if i :| 0 <= i < |front| && front[i].spans.Some? && s in front[i].spans.value {
      assert answers[i].spans.Some?;
    }
    if a.spans.Some? && s in a.spans.value {
      assert answers[|front|].spans.Some?;
    }
    if i :| 0 <= i < |answers| && answers[i].spans.Some? && s in answers[i].spans.value && i < |front| {
      assert front[i].spans.Some?;
    }
  }

  /** No entry and no snapshot is empty, and no span id occurs in two entries. */
  ghost predicate RingInv(ring: Ring) {
    && (forall i :: 0 <= i < |ring| ==> ring[i] != [] && forall j :: 0 <= j < |ring[i]| ==> ring[i][j].spans != [])
    && (forall i, j :: 0 <= i < j < |ring| ==> EntryIds(ring[i]) !! EntryIds(ring[j]))
  }

  lemma ScrapeKeepsInv(ring: Ring, answers: seq<Answer>, size: nat)
    requires RingInv(ring)
    ensures RingInv(Scraped(ring, answers, size))
  {
    var next := Collected(answers, RingIds(ring));
    CollectedAreNew(answers, RingIds(ring));
    forall i | 0 <= i < |ring|
      ensures EntryIds(ring[i]) !! EntryIds(next)
    {
      assert ring[i] in ring;
      assert EntryIds(ring[i]) <= RingIds(ring);
    }
    assert RingInv(ring + [next]) || next == [];
  }

  /** In every run of scrapes the entries of the ring have disjoint span ids, the ring stays within
      its size, and there is no empty entry or snapshot. */
  lemma {:induction false} EntriesDisjoint(scrapes: seq<seq<Answer>>, size: nat)
    ensures RingInv(Run(scrapes, size)) && |Run(scrapes, size)| <= size
  {
    if scrapes == [] {
    } else {
      EntriesDisjoint(scrapes[..|scrapes| - 1], size);
      ScrapeKeepsInv(Run(scrapes[..|scrapes| - 1], size), scrapes[|scrapes| - 1], size);
    }
  }

  /** The ring's entries one after the other. */
  function Flatten(ring: Ring): seq<Snapshot> {
    if ring == [] then [] else Flatten(ring[..|ring| - 1]) + ring[|ring| - 1]
  }

  /** The number of distinct ids, entry by entry. */
  function IdCounts(ring: Ring): nat {
    if ring == [] then 0 else IdCounts(ring[..|ring| - 1]) + |EntryIds(ring[|ring| - 1])|
  }

  lemma {:induction false} SpansConcat(a: seq<Snapshot>, b: seq<Snapshot>)
    ensures Spans(a + b) == Spans(a) + Spans(b)
  {
    if b == [] {
      assert a + b == a;
    } else {
      var front := b[..|b| - 1];
      assert (a + b)[..|a + b| - 1] == a + front;
      SpansConcat(a, front);
    }
  }

  lemma {:induction false} FlattenIds(ring: Ring)
    ensures EntryIds(Flatten(ring)) == RingIds(ring)
  {
    if ring == [] {
    } else {
      var front, last := ring[..|ring| - 1], ring[|ring| - 1];
      FlattenIds(front);
      SpansConcat(Flatten(front), last);
      assert EntryIds(Flatten(ring)) == EntryIds(Flatten(front)) + EntryIds(last);
      RingIdsAppend(front, last);
      assert ring == front + [last];
    }
  }

  /** Because the entries are disjoint, each distinct id is counted in one entry only. */
  lemma {:induction false} DisjointCount(ring: Ring)
    requires RingInv(ring)
    ensures |RingIds(ring)| == IdCounts(ring)
  {
    if ring == [] {
    } else {
      var front, last := ring[..|ring| - 1], ring[|ring| - 1];
      FrontInv(ring);
      DisjointCount(front);
      LastAdds(ring);
    }
  }

  lemma LastAdds(ring: Ring)
    requires RingInv(ring) && ring != []
    ensures |RingIds(ring)| == |RingIds(ring[..|ring| - 1])| + |EntryIds(ring[|ring| - 1])|
  {
    var front, last := ring[..|ring| - 1], ring[|ring| - 1];
    RingIdsAppend(front, last);
    LastIsApart(ring);
    assert ring == front + [last];
    UnionSize(RingIds(front), EntryIds(last));
  }

  lemma UnionSize(a: set<string>, b: set<string>)
    requires a !! b
    ensures |a + b| == |a| + |b|
  {
  }

  lemma FrontInv(ring: Ring)
    requires RingInv(ring) && ring != []
    ensures RingInv(ring[..|ring| - 1])
  {
    var front := ring[..|ring| - 1];
    assert forall i :: 0 <= i < |front| ==> front[i] == ring[i];
  }

  lemma RingIdsAppend(front: Ring, last: seq<Snapshot>)
    ensures RingIds(front + [last]) == RingIds(front) + EntryIds(last)
  {
    assert last in front + [last];
    assert forall e :: e in front + [last] <==> e in front || e == last;
  }

  lemma LastIsApart(ring: Ring)
    requires RingInv(ring) && ring != []
    ensures RingIds(ring[..|ring| - 1]) !! EntryIds(ring[|ring| - 1])
  {
    var front := ring[..|ring| - 1];
    forall id | id in RingIds(front)
      ensures id !in EntryIds(ring[|ring| - 1])
    {
      var e :| e in front && id in EntryIds(e);
      var i :| 0 <= i < |front| && front[i] == e;
      assert EntryIds(ring[i]) !! EntryIds(ring[|ring| - 1]);
    }
  }
}
