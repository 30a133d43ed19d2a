/** Calls of `Generate` that interleave: only the set-up of default accounts is locked. Here a call is
    three steps, with any steps of other calls in between: it looks for the account, writes the
    account, and writes the refresh token. The calls of a set-up are among them. */
module AuthInterleaving {
  import opened KeyStore
  import opened AuthSpec
  import opened AuthRuns

  /** How far a call has come; `at` is the step at which it wrote the account. A call that finds the
      account ends at once and leaves no trace. */
  datatype Phase = Checked | Dropped | Written(at: nat) | Ended(at: nat, stored: bool)

  /** A call that found no account at step `start`. */
  datatype Activity = Activity(namespace: string, request: Request, random: Random, start: nat, phase: Phase)

  datatype FineSystem = FineSystem(now: int, table: Table<Value>, activities: seq<Activity>, clock: nat)

  datatype FineStep =
    | Pass(duration: nat)
    | Check(namespace: string, request: Request, random: Random, readUp: bool)
    | WriteAccount(i: nat, up: bool)
    | WriteToken(i: nat, up: bool)

  const FINE_INITIAL: FineSystem := FineSystem(0, map[], [], 0)

  predicate FineEnabled(s: FineSystem, step: FineStep) {
    match step
    case Pass(_) => true
    case Check(namespace, request, _, _) => SlashFree(namespace) && SlashFree(request.id)
    case WriteAccount(i, _) => i < |s.activities| && s.activities[i].phase.Checked?
    case WriteToken(i, _) => i < |s.activities| && s.activities[i].phase.Written?
  }

  function WithPhase(activities: seq<Activity>, i: nat, phase: Phase): seq<Activity>
    requires i < |activities|
  {
    activities[i := activities[i].(phase := phase)]
  }

  function FineNext(s: FineSystem, step: FineStep, hasher: Hasher): FineSystem
    requires FineEnabled(s, step)
  {
    match step
    case Pass(duration) => s.(now := s.now + duration, clock := s.clock + 1)
    case Check(namespace, request, random, readUp) =>
      if |request.id| == 0 || !readUp || Live(s.table, AccountKey(namespace, request.id), s.now) then
        s.(clock := s.clock + 1)
      else
        s.(activities := s.activities + [Activity(namespace, request, random, s.clock, Checked)], clock := s.clock + 1)
    case WriteAccount(i, up) =>
      var a := s.activities[i];
      var account := NewAccount(a.request, a.namespace, a.random, hasher);
      if !up then s.(activities := WithPhase(s.activities, i, Dropped), clock := s.clock + 1)
      else
        s.(table := Put(s.table, AccountKey(a.namespace, a.request.id), AccountRecord(account), 0, s.now),
           activities := WithPhase(s.activities, i, Written(s.clock)), clock := s.clock + 1)
    case WriteToken(i, up) =>
      var a := s.activities[i];
      var key := RefreshKey(a.namespace, a.request.id, a.random.token);
      s.(table := if up then Put(s.table, key, Empty, 0, s.now) else s.table,
         activities := WithPhase(s.activities, i, Ended(a.phase.at, up)), clock := s.clock + 1)
  }

  ghost predicate ValidFineRun(steps: seq<FineStep>, hasher: Hasher)
    decreases |steps|, 0
  {
    steps != [] ==>
      && ValidFineRun(steps[..|steps| - 1], hasher)
      && FineEnabled(FineRun(steps[..|steps| - 1], hasher), steps[|steps| - 1])
  }

  ghost function FineRun(steps: seq<FineStep>, hasher: Hasher): FineSystem
    requires ValidFineRun(steps, hasher)
    decreases |steps|, 1
  {
    if steps == [] then FINE_INITIAL
    else FineNext(FineRun(steps[..|steps| - 1], hasher), steps[|steps| - 1], hasher)
  }

  /** The call has written the account `p`. */
  predicate Wrote(a: Activity, p: (string, string)) {
    a.namespace == p.0 && a.request.id == p.1 && (a.phase.Written? || a.phase.Ended?)
  }

  /** Each of the two calls looked for the account before the other had written it. */
  predicate Overlap(a: Activity, b: Activity)
    requires (a.phase.Written? || a.phase.Ended?) && (b.phase.Written? || b.phase.Ended?)
  {
    a.start < b.phase.at && b.start < a.phase.at
  }

  ghost predicate OverlappingCalls(activities: seq<Activity>, p: (string, string)) {
    exists i, j :: 0 <= i < j < |activities|
      && Wrote(activities[i], p) && Wrote(activities[j], p) && Overlap(activities[i], activities[j])
  }

  ghost predicate TwoWriters(activities: seq<Activity>, p: (string, string)) {
    exists i, j :: 0 <= i < j < |activities| && Wrote(activities[i], p) && Wrote(activities[j], p)
  }

  /** The step puts an account where there is one. */
  predicate Overwrites(s: FineSystem, step: FineStep, p: (string, string)) {
    && step.WriteAccount? && step.up && step.i < |s.activities|
    && s.activities[step.i].namespace == p.0 && s.activities[step.i].request.id == p.1
    && AccountKey(p.0, p.1) in s.table
  }

  /** Some step of the run overwrites the account. */
  ghost predicate Overwritten(steps: seq<FineStep>, hasher: Hasher, p: (string, string))
    requires ValidFineRun(steps, hasher)
  {
    steps != [] &&
    (|| Overwritten(steps[..|steps| - 1], hasher, p)
     || Overwrites(FineRun(steps[..|steps| - 1], hasher), steps[|steps| - 1], p))
  }

  ghost predicate ActivityInv(s: FineSystem, a: Activity) {
    && SlashFree(a.namespace) && SlashFree(a.request.id) && a.start < s.clock
    && (Wrote(a, (a.namespace, a.request.id)) ==>
          && AccountKey(a.namespace, a.request.id) in s.table
          && s.table[AccountKey(a.namespace, a.request.id)].deadline.None?)
    && (a.phase.Ended? && a.phase.stored ==> RefreshKey(a.namespace, a.request.id, a.random.token) in s.table)
  }

  /** A call that looks for an account after it was written does not get past that. */
  predicate BeganBefore(b: Activity, a: Activity) {
    Wrote(a, (b.namespace, b.request.id)) ==> b.start < a.phase.at
  }

  predicate WroteKey(a: Activity, key: string) {
    (a.phase.Written? || a.phase.Ended?) && key == AccountKey(a.namespace, a.request.id)
  }

  predicate StoredToken(a: Activity, key: string) {
    a.phase.Ended? && a.phase.stored && key == RefreshKey(a.namespace, a.request.id, a.random.token)
  }

  /** Every record was written by some call. */
  ghost predicate KeysWritten(s: FineSystem) {
    && (forall k :: k in s.table && "account/" <= k ==>
          exists i :: 0 <= i < |s.activities| && WroteKey(s.activities[i], k))
    && (forall k :: k in s.table && "refresh/" <= k ==>
          exists i :: 0 <= i < |s.activities| && StoredToken(s.activities[i], k))
  }

  ghost predicate FineInv(s: FineSystem) {
    && (forall i :: 0 <= i < |s.activities| ==> ActivityInv(s, s.activities[i]))
    && (forall i, j :: 0 <= i < |s.activities| && 0 <= j < |s.activities| ==>
          BeganBefore(s.activities[i], s.activities[j]))
    && KeysWritten(s)
  }

  lemma CheckKeepsInv(s: FineSystem, step: FineStep, hasher: Hasher)
    requires FineInv(s) && FineEnabled(s, step) && step.Check?
    ensures FineInv(FineNext(s, step, hasher))
  {
    var s' := FineNext(s, step, hasher);
    forall k | k in s.table && "account/" <= k
      ensures exists i :: 0 <= i < |s'.activities| && WroteKey(s'.activities[i], k)
    {
      var i :| 0 <= i < |s.activities| && WroteKey(s.activities[i], k);
      assert WroteKey(s'.activities[i], k);
    }
    forall k | k in s.table && "refresh/" <= k
      ensures exists i :: 0 <= i < |s'.activities| && StoredToken(s'.activities[i], k)
    {
      var i :| 0 <= i < |s.activities| && StoredToken(s.activities[i], k);
      assert StoredToken(s'.activities[i], k);
    }
    forall i, j | 0 <= i < |s'.activities| && 0 <= j < |s'.activities|
      ensures BeganBefore(s'.activities[i], s'.activities[j])
    {
      if j < |s.activities| {
        assert ActivityInv(s, s.activities[j]);
        if i < |s.activities| {
          assert BeganBefore(s.activities[i], s.activities[j]);
        }
      }
    }
  }

  /** A write leaves every record where it is, and keeps who wrote it. */
  lemma WriteKeepsWriters(s: FineSystem, step: FineStep, hasher: Hasher)
    requires FineInv(s) && FineEnabled(s, step) && (step.WriteAccount? || step.WriteToken?)
    ensures KeysWritten(FineNext(s, step, hasher))
  {
    var s', a := FineNext(s, step, hasher), s.activities[step.i];
    KeyShapes(a.namespace, a.request.id, a.random.token);
    forall k | k in s'.table && "account/" <= k
      ensures exists i :: 0 <= i < |s'.activities| && WroteKey(s'.activities[i], k)
    {
      if k in s.table {
        var i :| 0 <= i < |s.activities| && WroteKey(s.activities[i], k);
        assert WroteKey(s'.activities[i], k);
      } else {
        assert WroteKey(s'.activities[step.i], k);
      }
    }
    forall k | k in s'.table && "refresh/" <= k
      ensures exists i :: 0 <= i < |s'.activities| && StoredToken(s'.activities[i], k)
    {
      if k in s.table {
        var i :| 0 <= i < |s.activities| && StoredToken(s.activities[i], k);
        assert StoredToken(s'.activities[i], k);
      } else {
        assert StoredToken(s'.activities[step.i], k);
      }
    }
  }

  lemma WriteKeepsActivity(s: FineSystem, step: FineStep, hasher: Hasher, i: nat)
    requires FineInv(s) && FineEnabled(s, step) && (step.WriteAccount? || step.WriteToken?) && i < |s.activities|
    ensures ActivityInv(FineNext(s, step, hasher), FineNext(s, step, hasher).activities[i])
  {
    var a, b := s.activities[step.i], s.activities[i];
    assert ActivityInv(s, a) && ActivityInv(s, b);
    KeyShapes(b.namespace, b.request.id, b.random.token);
    KeyShapes(a.namespace, a.request.id, a.random.token);
  }

  lemma WriteKeepsOrder(s: FineSystem, step: FineStep, hasher: Hasher, i: nat, j: nat)
    requires FineInv(s) && FineEnabled(s, step) && (step.WriteAccount? || step.WriteToken?)
    requires i < |s.activities| && j < |s.activities|
    ensures BeganBefore(FineNext(s, step, hasher).activities[i], FineNext(s, step, hasher).activities[j])
  {
    assert BeganBefore(s.activities[i], s.activities[j]) && ActivityInv(s, s.activities[i]);
  }

  lemma WriteKeepsInv(s: FineSystem, step: FineStep, hasher: Hasher)
    requires FineInv(s) && FineEnabled(s, step) && (step.WriteAccount? || step.WriteToken?)
    ensures FineInv(FineNext(s, step, hasher))
  {
    var s' := FineNext(s, step, hasher);
    WriteKeepsWriters(s, step, hasher);
    forall i | 0 <= i < |s'.activities|
      ensures ActivityInv(s', s'.activities[i])
    {
      WriteKeepsActivity(s, step, hasher, i);
    }
    forall i, j | 0 <= i < |s'.activities| && 0 <= j < |s'.activities|
      ensures BeganBefore(s'.activities[i], s'.activities[j])
    {
      WriteKeepsOrder(s, step, hasher, i, j);
    }
  }

  lemma {:induction false} FineRunKeepsInv(steps: seq<FineStep>, hasher: Hasher)
    requires ValidFineRun(steps, hasher)
    ensures FineInv(FineRun(steps, hasher))
  {
    if steps == [] {
    } else {
      var front, last := steps[..|steps| - 1], steps[|steps| - 1];
      FineRunKeepsInv(front, hasher);
      match last {
        case Pass(_) =>
        case Check(_, _, _, _) => CheckKeepsInv(FineRun(front, hasher), last, hasher);
        case _ => WriteKeepsInv(FineRun(front, hasher), last, hasher);
      }
    }
  }

  lemma StepKeepsWriters(s: FineSystem, step: FineStep, hasher: Hasher, p: (string, string))
    requires FineEnabled(s, step) && TwoWriters(s.activities, p)
    ensures TwoWriters(FineNext(s, step, hasher).activities, p)
  {
    var i, j :| 0 <= i < j < |s.activities| && Wrote(s.activities[i], p) && Wrote(s.activities[j], p);
    var after := FineNext(s, step, hasher).activities;
    assert Wrote(after[i], p) && Wrote(after[j], p);
  }

  /** A step that overwrites an account makes its call the second that wrote it. */
  lemma OverwriteIsSecond(s: FineSystem, step: FineStep, hasher: Hasher, p: (string, string))
    requires FineInv(s) && FineEnabled(s, step) && Overwrites(s, step, p)
    ensures TwoWriters(FineNext(s, step, hasher).activities, p)
  {
    KeyShapes(p.0, p.1, "");
    var i :| 0 <= i < |s.activities| && WroteKey(s.activities[i], AccountKey(p.0, p.1));
    assert ActivityInv(s, s.activities[i]) && ActivityInv(s, s.activities[step.i]);
    AccountKeyInjective(p.0, p.1, s.activities[i].namespace, s.activities[i].request.id);
    var after := FineNext(s, step, hasher).activities;
    assert Wrote(after[i], p) && Wrote(after[step.i], p) && i != step.i;
  }

  /** The second call that writes an account overwrites it. */
  lemma SecondOverwrites(s: FineSystem, step: FineStep, hasher: Hasher, p: (string, string))
    requires FineInv(s) && FineEnabled(s, step)
    requires !TwoWriters(s.activities, p) && TwoWriters(FineNext(s, step, hasher).activities, p)
    ensures Overwrites(s, step, p)
  {
    var after := FineNext(s, step, hasher).activities;
    var i, j :| 0 <= i < j < |after| && Wrote(after[i], p) && Wrote(after[j], p);
    assert j < |s.activities|;
    assert !(Wrote(s.activities[i], p) && Wrote(s.activities[j], p));
    assert step.WriteAccount? && (step.i == i || step.i == j);
    var other := if step.i == i then j else i;
    assert ActivityInv(s, s.activities[other]);
  }

  lemma {:induction false} OverwrittenByTwo(steps: seq<FineStep>, hasher: Hasher, p: (string, string))
    requires ValidFineRun(steps, hasher)
    ensures Overwritten(steps, hasher, p) <==> TwoWriters(FineRun(steps, hasher).activities, p)
  {
    if steps == [] {
    } else {
      var front, last := steps[..|steps| - 1], steps[|steps| - 1];
      var s := FineRun(front, hasher);
      OverwrittenByTwo(front, hasher, p);
      FineRunKeepsInv(front, hasher);
      if TwoWriters(s.activities, p) {
        StepKeepsWriters(s, last, hasher, p);
      } else if Overwrites(s, last, p) {
        OverwriteIsSecond(s, last, hasher, p);
      } else if TwoWriters(FineRun(steps, hasher).activities, p) {
        SecondOverwrites(s, last, hasher, p);
      }
    }
  }

  /** Two calls that have both written one account have overlapped. */
  lemma WritersOverlap(steps: seq<FineStep>, hasher: Hasher, p: (string, string))
    requires ValidFineRun(steps, hasher)
    ensures TwoWriters(FineRun(steps, hasher).activities, p) <==> OverlappingCalls(FineRun(steps, hasher).activities, p)
  {
    FineRunKeepsInv(steps, hasher);
    var activities := FineRun(steps, hasher).activities;
    if TwoWriters(activities, p) {
      var i, j :| 0 <= i < j < |activities| && Wrote(activities[i], p) && Wrote(activities[j], p);
      assert BeganBefore(activities[i], activities[j]) && BeganBefore(activities[j], activities[i]);
      assert Overlap(activities[i], activities[j]);
    }
  }

  /** Exactly when an account is overwritten, in every run of interleaved calls: two calls that write
      it have overlapped. */
  lemma OverwrittenIffOverlap(steps: seq<FineStep>, hasher: Hasher, p: (string, string))
    requires ValidFineRun(steps, hasher)
    ensures Overwritten(steps, hasher, p) <==> OverlappingCalls(FineRun(steps, hasher).activities, p)
  {
    OverwrittenByTwo(steps, hasher, p);
    WritersOverlap(steps, hasher, p);
  }

  lemma StepKeepsRecord(s: FineSystem, step: FineStep, hasher: Hasher, p: (string, string))
    requires FineInv(s) && FineEnabled(s, step) && AccountKey(p.0, p.1) in s.table && SlashFree(p.0)
    requires !Overwrites(s, step, p)
    ensures AccountKey(p.0, p.1) in FineNext(s, step, hasher).table
    ensures FineNext(s, step, hasher).table[AccountKey(p.0, p.1)] == s.table[AccountKey(p.0, p.1)]
  {
    KeyShapes(p.0, p.1, "");
    if step.WriteAccount? || step.WriteToken? {
      var a := s.activities[step.i];
      assert ActivityInv(s, a);
      KeyShapes(a.namespace, a.request.id, a.random.token);
      AccountKeyInjective(p.0, p.1, a.namespace, a.request.id);
    }
  }

  /** Without overlapping calls an account record never changes once it has been written. */
  lemma {:induction false} KeptWithoutOverlap(steps: seq<FineStep>, n: nat, hasher: Hasher, p: (string, string))
    requires ValidFineRun(steps, hasher) && n <= |steps| && ValidFineRun(steps[..n], hasher) && SlashFree(p.0)
    requires AccountKey(p.0, p.1) in FineRun(steps[..n], hasher).table
    requires !OverlappingCalls(FineRun(steps, hasher).activities, p)
    ensures AccountKey(p.0, p.1) in FineRun(steps, hasher).table
    ensures FineRun(steps, hasher).table[AccountKey(p.0, p.1)]
            == FineRun(steps[..n], hasher).table[AccountKey(p.0, p.1)]
    decreases |steps|
  {
    if n == |steps| {
      assert steps[..n] == steps;
    } else {
      var front := steps[..|steps| - 1];
      assert front[..n] == steps[..n];
      OverwrittenIffOverlap(steps, hasher, p);
      OverwrittenIffOverlap(front, hasher, p);
      KeptWithoutOverlap(front, n, hasher, p);
      FineRunKeepsInv(front, hasher);
      StepKeepsRecord(FineRun(front, hasher), steps[|steps| - 1], hasher, p);
    }
  }

  /** Without overlapping calls an account has at most one refresh token. */
  lemma OneTokenWithoutOverlap(steps: seq<FineStep>, hasher: Hasher, p: (string, string), t: string, t': string)
    requires ValidFineRun(steps, hasher) && SlashFree(p.0) && SlashFree(p.1)
    requires !OverlappingCalls(FineRun(steps, hasher).activities, p)
    requires RefreshKey(p.0, p.1, t) in FineRun(steps, hasher).table
    requires RefreshKey(p.0, p.1, t') in FineRun(steps, hasher).table
    ensures t == t'
  {
    FineRunKeepsInv(steps, hasher);
    WritersOverlap(steps, hasher, p);
    OneWriterOneToken(FineRun(steps, hasher), p, t, t');
  }

  lemma OneWriterOneToken(s: FineSystem, p: (string, string), t: string, t': string)
    requires FineInv(s) && SlashFree(p.0) && SlashFree(p.1) && !TwoWriters(s.activities, p)
    requires RefreshKey(p.0, p.1, t) in s.table && RefreshKey(p.0, p.1, t') in s.table
    ensures t == t'
  {
    var i := TokenWriter(s, p, t);
    var j := TokenWriter(s, p, t');
    assert i == j;
  }

  lemma TokenWriter(s: FineSystem, p: (string, string), t: string) returns (i: nat)
    requires FineInv(s) && SlashFree(p.0) && SlashFree(p.1) && RefreshKey(p.0, p.1, t) in s.table
    ensures i < |s.activities| && Wrote(s.activities[i], p) && s.activities[i].random.token == t
  {
    KeyShapes(p.0, p.1, t);
    i :| 0 <= i < |s.activities| && StoredToken(s.activities[i], RefreshKey(p.0, p.1, t));
    var a := s.activities[i];
    assert ActivityInv(s, a);
    RefreshKeyInjective(p.0, p.1, t, a.namespace, a.request.id, a.random.token);
  }

  /** A run of one step more. */
  lemma FineExtend(steps: seq<FineStep>, step: FineStep, hasher: Hasher) returns (longer: seq<FineStep>)
    requires ValidFineRun(steps, hasher) && FineEnabled(FineRun(steps, hasher), step)
    ensures longer == steps + [step] && ValidFineRun(longer, hasher)
    ensures FineRun(longer, hasher) == FineNext(FineRun(steps, hasher), step, hasher)
  {
    longer := steps + [step];
    assert longer[..|steps|] == steps;
  }

  /** The two calls have written their accounts, the second one last. */
  ghost predicate BothWritten(s: FineSystem, i: nat, namespace: string, first: Request, second: Request,
                              r1: Random, r2: Random, hasher: Hasher)
  {
    && |s.activities| == i + 2
    && s.activities[i].phase.Written? && s.activities[i + 1].phase.Written?
    && s.activities[i].namespace == namespace == s.activities[i + 1].namespace
    && s.activities[i].request == first && s.activities[i].random == r1
    && s.activities[i + 1].request == second && s.activities[i + 1].random == r2
    && HoldsAccount(s.table, namespace, second, r2, hasher)
  }

  ghost predicate HoldsAccount(table: Table<Value>, namespace: string, request: Request, random: Random,
                               hasher: Hasher)
  {
    var key := AccountKey(namespace, request.id);
    key in table && table[key].value == AccountRecord(NewAccount(request, namespace, random, hasher))
  }

  lemma OverlapChecks(steps: seq<FineStep>, hasher: Hasher, namespace: string, first: Request, second: Request,
                      r1: Random, r2: Random) returns (longer: seq<FineStep>)
    requires ValidFineRun(steps, hasher) && first.id == second.id && |first.id| > 0
    requires SlashFree(namespace) && SlashFree(first.id)
    requires !Live(FineRun(steps, hasher).table, AccountKey(namespace, first.id), FineRun(steps, hasher).now)
    ensures ValidFineRun(longer, hasher)
    ensures var s := FineRun(steps, hasher);
            FineRun(longer, hasher)
            == s.(activities := s.activities + [Activity(namespace, first, r1, s.clock, Checked)]
                                + [Activity(namespace, second, r2, s.clock + 1, Checked)],
                  clock := s.clock + 2)
  {
    longer := FineExtend(steps, Check(namespace, first, r1, true), hasher);
    longer := FineExtend(longer, Check(namespace, second, r2, true), hasher);
  }

  lemma OverlapWrites(steps: seq<FineStep>, hasher: Hasher, namespace: string, first: Request, second: Request,
                      r1: Random, r2: Random) returns (longer: seq<FineStep>)
    requires ValidFineRun(steps, hasher) && first.id == second.id && |first.id| > 0
    requires SlashFree(namespace) && SlashFree(first.id)
    requires !Live(FineRun(steps, hasher).table, AccountKey(namespace, first.id), FineRun(steps, hasher).now)
    ensures ValidFineRun(longer, hasher)
    ensures var i := |FineRun(steps, hasher).activities|;
            BothWritten(FineRun(longer, hasher), i, namespace, first, second, r1, r2, hasher)
  {
    var i := |FineRun(steps, hasher).activities|;
    longer := OverlapChecks(steps, hasher, namespace, first, second, r1, r2);
    longer := FineExtend(longer, WriteAccount(i, true), hasher);
    longer := FineExtend(longer, WriteAccount(i + 1, true), hasher);
  }

  /** Two calls for one id that both look for the account before either writes it: from every state of
      every run in which the id is free, the second account replaces the first, and both refresh
      tokens are left. */
  lemma OverlapReplaces(steps: seq<FineStep>, hasher: Hasher, namespace: string, first: Request, second: Request,
                        r1: Random, r2: Random) returns (longer: seq<FineStep>)
    requires ValidFineRun(steps, hasher) && first.id == second.id && |first.id| > 0
    requires SlashFree(namespace) && SlashFree(first.id)
    requires !Live(FineRun(steps, hasher).table, AccountKey(namespace, first.id), FineRun(steps, hasher).now)
    ensures ValidFineRun(longer, hasher) && Overwritten(longer, hasher, (namespace, first.id))
    ensures HoldsAccount(FineRun(longer, hasher).table, namespace, second, r2, hasher)
    ensures RefreshKey(namespace, first.id, r1.token) in FineRun(longer, hasher).table
    ensures RefreshKey(namespace, first.id, r2.token) in FineRun(longer, hasher).table
  {
    var i := |FineRun(steps, hasher).activities|;
    longer := OverlapWrites(steps, hasher, namespace, first, second, r1, r2);
    KeyShapes(namespace, first.id, r1.token);
    KeyShapes(namespace, first.id, r2.token);
    longer := FineExtend(longer, WriteToken(i, true), hasher);
    longer := FineExtend(longer, WriteToken(i + 1, true), hasher);
    var activities := FineRun(longer, hasher).activities;
    assert Wrote(activities[i], (namespace, first.id)) && Wrote(activities[i + 1], (namespace, first.id));
    OverwrittenByTwo(longer, hasher, (namespace, first.id));
  }

  /** A run with one account that was replaced and has two refresh tokens. */
  lemma ReplacedAccount(hasher: Hasher) returns (steps: seq<FineStep>)
    ensures ValidFineRun(steps, hasher)
    ensures Overwritten(steps, hasher, ("n", "x"))
    ensures RefreshKey("n", "x", "t") in FineRun(steps, hasher).table
    ensures RefreshKey("n", "x", "u") in FineRun(steps, hasher).table
  {
    var request := Request("x", "user", "secret", [], map[]);
    assert ValidFineRun([], hasher) && FineRun([], hasher) == FINE_INITIAL;
    steps := OverlapReplaces([], hasher, "n", request, request, Random("", "", "t"), Random("", "", "u"));
  }

  /** Without interruption a call is the atomic `Generate`. */
  lemma CallRun(steps: seq<FineStep>, hasher: Hasher, namespace: string, request: Request, random: Random, up: Up)
    returns (longer: seq<FineStep>)
    requires ValidFineRun(steps, hasher) && SlashFree(namespace) && SlashFree(request.id)
    ensures ValidFineRun(longer, hasher) && FineRun(longer, hasher).now == FineRun(steps, hasher).now
    ensures var s := FineRun(steps, hasher);
            FineRun(longer, hasher).table == Generate(s.table, namespace, request, random, up, hasher, s.now).0
  {
    var i := |FineRun(steps, hasher).activities|;
    longer := FineExtend(steps, Check(namespace, request, random, up.read), hasher);
    if |FineRun(longer, hasher).activities| > i {
      longer := FineExtend(longer, WriteAccount(i, up.accountWrite), hasher);
      if up.accountWrite {
        longer := FineExtend(longer, WriteToken(i, up.tokenWrite), hasher);
      }
    }
  }

  ghost predicate SameStore(s: FineSystem, other: System) {
    s.table == other.state.table && s.now == other.now
  }

  lemma AtomicStep(steps: seq<FineStep>, hasher: Hasher, s: System, step: Step) returns (longer: seq<FineStep>)
    requires ValidFineRun(steps, hasher) && SameStore(FineRun(steps, hasher), s) && Enabled(s, step)
    ensures ValidFineRun(longer, hasher) && SameStore(FineRun(longer, hasher), Next(s, step, hasher))
  {
    match step {
      case Tick(duration) =>
        longer := FineExtend(steps, Pass(duration), hasher);
      case GenerateStep(namespace, request, random, up) =>
        longer := CallRun(steps, hasher, namespace, request, random, up);
      case Visit(namespace, random, up) =>
        if namespace in s.state.namespaces || !up.read || HasUser(s.state.table, namespace, s.now) {
          longer := steps;
        } else {
          longer := CallRun(steps, hasher, namespace, DEFAULT_ACCOUNT, random, up);
        }
    }
  }

  /** Every run of atomic calls is a run of interleaved calls, with the same store at its end. */
  lemma {:induction false} AtomicRunsInterleave(steps: seq<Step>, hasher: Hasher) returns (fine: seq<FineStep>)
    requires ValidRun(steps, hasher)
    ensures ValidFineRun(fine, hasher) && SameStore(FineRun(fine, hasher), Run(steps, hasher))
  {
    if steps == [] {
      fine := [];
    } else {
      fine := AtomicRunsInterleave(steps[..|steps| - 1], hasher);
      fine := AtomicStep(fine, hasher, Run(steps[..|steps| - 1], hasher), steps[|steps| - 1]);
    }
  }
}
