/** What a trace read returns, in terms of the scrapes, and in which order things are kept. */
module TraceAnswers {
  import opened Wrappers
  import opened TraceSpec
  import opened TraceHandler
  import Text

  /** The spans of one snapshot are its own; those of more follow one another (`SpansConcat`). */
  lemma SpansOfOne(snapshot: Snapshot)
    ensures Spans([snapshot]) == snapshot.spans
  {
    assert [snapshot][..0] == [];
  }

  /** The last span written under a trace and an id is the one that none follows. */
  lemma {:induction false} LastWrittenIsLast(front: seq<Span>, s: Span, rest: seq<Span>)
    requires forall r :: r in rest ==> !(r.trace == s.trace && r.id == s.id)
    ensures LastWritten(front + [s] + rest, s.trace, s.id) == Some(s)
  {
    if rest == [] {
      assert front + [s] + rest == front + [s];
    } else {
      var n := |rest| - 1;
      LastWrittenIsLast(front, s, rest[..n]);
      assert rest == rest[..n] + [rest[n]];
      OneMoreWritten(front + [s] + rest[..n], rest[n], s.trace, s.id);
      assert front + [s] + rest == front + [s] + rest[..n] + [rest[n]];
    }
  }

  lemma OneMoreWritten(spans: seq<Span>, last: Span, trace: string, id: string)
    requires !(last.trace == trace && last.id == id)
    ensures LastWritten(spans + [last], trace, id) == LastWritten(spans, trace, id)
  {
    assert (spans + [last])[..|spans|] == spans;
  }

  /** And so is the last span under an id. */
  lemma {:induction false} LastWithIdIsLast(front: seq<Span>, s: Span, rest: seq<Span>)
    requires forall r :: r in rest ==> r.id != s.id
    ensures LastWithId(front + [s] + rest, s.id) == Some(s)
  {
    if rest == [] {
      assert front + [s] + rest == front + [s];
    } else {
      var n := |rest| - 1;
      LastWithIdIsLast(front, s, rest[..n]);
      assert rest == rest[..n] + [rest[n]];
      OneMoreWithId(front + [s] + rest[..n], rest[n], s.id);
      assert front + [s] + rest == front + [s] + rest[..n] + [rest[n]];
    }
  }

  lemma OneMoreWithId(spans: seq<Span>, last: Span, id: string)
    requires last.id != id
    ensures LastWithId(spans + [last], id) == LastWithId(spans, id)
  {
    assert (spans + [last])[..|spans|] == spans;
  }

  /** The service is somewhere in the span's name. */
  ghost predicate NameHas(name: string, service: string) {
    exists a, b :: Around(name, a, service, b)
  }

  predicate Around(name: string, before: string, service: string, behind: string) {
    name == before + service + behind
  }

  lemma ContainsInWords(name: string, service: string)
    ensures Text.Contains(name, service) <==> NameHas(name, service)
  {
    if i :| 0 <= i <= |name| && service <= name[i..] {
      assert Around(name, name[..i], service, name[i + |service|..]);
    }
    if a, b :| Around(name, a, service, b) {
      assert service <= name[|a|..];
    }
  }

  /** A trace is hit when some surviving span's name has the service somewhere in it. */
  lemma HitInWords(spans: seq<Span>, trace: string, service: string)
    ensures TraceHit(spans, trace, service)
            <==> exists s :: s in spans && LastWritten(spans, trace, s.id) == Some(s) && NameHas(s.name, service)
  {
    if TraceHit(spans, trace, service) {
      var id :| LastWritten(spans, trace, id).Some? && Text.Contains(LastWritten(spans, trace, id).value.name, service);
      var s := LastWritten(spans, trace, id).value;
      ContainsInWords(s.name, service);
    }
    if s :| s in spans && LastWritten(spans, trace, s.id) == Some(s) && NameHas(s.name, service) {
      ContainsInWords(s.name, service);
      assert LastWritten(spans, trace, s.id).Some?;
    }
  }

  /** The unknown spans of an answer keep their order. */
  lemma {:induction false} UnknownConcat(a: seq<Span>, b: seq<Span>, known: set<string>)
    ensures Unknown(a + b, known) == Unknown(a, known) + Unknown(b, known)
  {
    if b == [] {
      assert a + b == a;
    } else {
      assert (a + b)[..|a + b| - 1] == a + b[..|b| - 1];
      UnknownConcat(a, b[..|b| - 1], known);
    }
  }

  /** And the answers keep theirs. */
  lemma {:induction false} CollectedConcat(a: seq<Answer>, b: seq<Answer>, known: set<string>)
    ensures Collected(a + b, known) == Collected(a, known) + Collected(b, known)
  {
    if b == [] {
      assert a + b == a;
    } else {
      assert (a + b)[..|a + b| - 1] == a + b[..|b| - 1];
      CollectedConcat(a, b[..|b| - 1], known);
    }
  }

  /** The snapshot is what the node answered, without the spans that are known. */
  ghost predicate Reports(snapshot: Snapshot, a: Answer, known: set<string>) {
    && snapshot.service == a.service && snapshot.version == a.version
    && snapshot.node == a.node && snapshot.address == a.address
    && a.spans.Some?
    && (forall s :: s in snapshot.spans <==> s in a.spans.value && s.id !in known)
  }

  lemma {:induction false} SnapshotsReport(answers: seq<Answer>, known: set<string>, i: nat)
    requires i < |Collected(answers, known)|
    ensures exists a :: a in answers && Reports(Collected(answers, known)[i], a, known)
  {
    var front, last := answers[..|answers| - 1], answers[|answers| - 1];
    assert answers == front + [last];
    if i < |Collected(front, known)| {
      SnapshotsReport(front, known, i);
      var a :| a in front && Reports(Collected(front, known)[i], a, known);
      assert a in answers;
    } else {
      assert last in answers && Reports(Collected(answers, known)[i], last, known);
    }
  }

  /** The scrapes that found something new, from the beginning. */
  function Finds(scrapes: seq<seq<Answer>>, size: nat): seq<seq<Snapshot>> {
    if scrapes == [] then []
    else
      var front := scrapes[..|scrapes| - 1];
      var found := Collected(scrapes[|scrapes| - 1], RingIds(Run(front, size)));
      if found == [] then Finds(front, size) else Finds(front, size) + [found]
  }

  /** The ring holds the newest finds, up to its size, the newest one last. */
  lemma {:induction false} RingHoldsNewest(scrapes: seq<seq<Answer>>, size: nat)
    ensures var finds, ring := Finds(scrapes, size), Run(scrapes, size);
            ring == if |finds| <= size then finds else finds[|finds| - size..]
  {
    if scrapes == [] {
    } else {
      RingHoldsNewest(scrapes[..|scrapes| - 1], size);
    }
  }

  predicate NewId(answers: seq<Answer>, known: set<string>, s: Span) {
    Reported(answers, s) && s.id !in known
  }

  /** The default read, of the newest entry only: after a scrape that reported new spans it returns
      exactly one span for each new id, and no older one; after any other scrape what it did before. */
  lemma NewestRead(scrapes: seq<seq<Answer>>, answers: seq<Answer>, size: nat, spans: seq<Span>)
    requires size > 0 && Answers(Get(Run(scrapes + [answers], size), 1), None, spans)
    ensures var known := RingIds(Run(scrapes, size));
            if exists s :: NewId(answers, known, s) then
              && (forall id :: id in Ids(spans) <==> exists s :: NewId(answers, known, s) && s.id == id)
              && (forall i, j :: 0 <= i < j < |spans| ==> spans[i].id != spans[j].id)
            else Answers(Get(Run(scrapes, size), 1), None, spans)
  {
    var ring := Run(scrapes, size);
    var known := RingIds(ring);
    var found := Collected(answers, known);
    assert (scrapes + [answers])[..|scrapes|] == scrapes;
    if s :| NewId(answers, known, s) {
      CollectedIsComplete(answers, known, s);
      assert found != [];
      NewestEntry(ring, found, size);
      assert Flatten([found]) == found by { assert [found][..0] == []; }
      forall id
        ensures id in Ids(spans) <==> exists s :: NewId(answers, known, s) && s.id == id
      {
        ReadIds(found, spans, id);
        if id in EntryIds(found) {
          var x :| x in Spans(found) && x.id == id;
          CollectedIsComplete(answers, known, x);
          assert NewId(answers, known, x);
        }
        if x :| NewId(answers, known, x) && x.id == id {
          CollectedIsComplete(answers, known, x);
        }
      }
    } else if found != [] {
      NothingNew(answers, known);
    }
  }

  lemma NothingNew(answers: seq<Answer>, known: set<string>)
    requires forall s :: !NewId(answers, known, s)
    ensures Collected(answers, known) == []
  {
    CollectedAreNew(answers, known);
    var found := Collected(answers, known);
    if found != [] {
      var s := found[0].spans[0];
      SpansOf(found, s);
      CollectedIsComplete(answers, known, s);
      assert NewId(answers, known, s);
    }
  }

  lemma NewestEntry(ring: Ring, entry: seq<Snapshot>, size: nat)
    requires size > 0
    ensures Get(Put(ring, entry, size), 1) == [entry]
  {
  }

  lemma ReadIds(snapshots: seq<Snapshot>, spans: seq<Span>, id: string)
    requires forall s :: s in spans <==> LastWithId(Spans(snapshots), s.id) == Some(s)
    ensures id in Ids(spans) <==> id in EntryIds(snapshots)
  {
    if id in EntryIds(snapshots) {
      var s := LastWithId(Spans(snapshots), id).value;
      assert s in spans;
    }
  }
}
