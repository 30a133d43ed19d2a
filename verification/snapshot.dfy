/** Store snapshots: records written to a gob stream and read back. Gob leaves out the fields of
    a record that are zero, and the restoring loop decodes every record into the same variable. */
module Snapshots {
  import opened Wrappers

  newtype byte = x: int | 0 <= x < 256

  /** A store record; an expiry of zero means that it never expires. */
  datatype Record = Record(key: string, value: seq<byte>, expiry: int)

  /** The record as serialised. Times are nanoseconds since Go's zero time, which is 0 here. */
  datatype Stored = Stored(key: string, value: seq<byte>, expiresAt: int)

  /** A gob message: only the fields that were not zero. */
  datatype Message = Message(key: Option<string>, value: Option<seq<byte>>, expiresAt: Option<int>)

  const ZERO: Stored := Stored("", [], 0)

  function Encode(s: Stored): Message {
    Message(if s.key == "" then None else Some(s.key),
            if s.value == [] then None else Some(s.value),
            if s.expiresAt == 0 then None else Some(s.expiresAt))
  }

  /** Decoding into a variable that holds `target`: missing fields keep their old values. */
  function Decode(m: Message, target: Stored): Stored {
    Stored(if m.key.Some? then m.key.value else target.key,
           if m.value.Some? then m.value.value else target.value,
           if m.expiresAt.Some? then m.expiresAt.value else target.expiresAt)
  }

  /** What `receiveRecords` stores for a record that arrives at `now`. */
  function ToStored(r: Record, now: int): Stored {
    Stored(r.key, r.value, if r.expiry != 0 then now + r.expiry else 0)
  }

  function StoredAll(records: seq<Record>, times: seq<int>): (r: seq<Stored>)
    requires |times| == |records|
    ensures |r| == |records|
    ensures forall i :: 0 <= i < |r| ==> r[i] == ToStored(records[i], times[i])
  {
    seq(|records|, i requires 0 <= i < |records| => ToStored(records[i], times[i]))
  }

  function EncodeAll(stored: seq<Stored>): (r: seq<Message>)
    ensures |r| == |stored|
    ensures forall i :: 0 <= i < |r| ==> r[i] == Encode(stored[i])
  {
    seq(|stored|, i requires 0 <= i < |stored| => Encode(stored[i]))
  }

  /** The values of the loop's variable after each decode. */
  function DecodeAll(messages: seq<Message>): (r: seq<Stored>)
    ensures |r| == |messages|
  {
    if messages == [] then []
    else
      var front := DecodeAll(messages[..|messages| - 1]);
      front + [Decode(messages[|messages| - 1], if front == [] then ZERO else front[|front| - 1])]
  }

  /** What the restoring loop emits for a decoded record at `now`. */
  function ToRecord(s: Stored, now: int): Record {
    Record(s.key, s.value, if s.expiresAt != 0 then s.expiresAt - now else 0)
  }

  /** The absolute time at which a record expires that is handed over at `now`. */
  function Deadline(r: Record, now: int): Option<int> {
    if r.expiry == 0 then None else Some(now + r.expiry)
  }

  lemma {:induction false} DecodeAllAt(messages: seq<Message>, i: nat)
    requires i < |messages|
    ensures DecodeAll(messages)[i] == Decode(messages[i], if i == 0 then ZERO else DecodeAll(messages)[i - 1])
  {
    var n := |messages| - 1;
    if i == n {
    } else {
      DecodeAllAt(messages[..n], i);
    }
  }

  /** The last element that is not zero, or zero if there is none. */
  function LastSet<T(==)>(xs: seq<T>, zero: T): T {
    if xs == [] then zero
    else if xs[|xs| - 1] != zero then xs[|xs| - 1]
    else LastSet(xs[..|xs| - 1], zero)
  }

  lemma {:induction false} LastSetFound<T>(xs: seq<T>, zero: T)
    ensures LastSet(xs, zero) == zero <==> forall k :: 0 <= k < |xs| ==> xs[k] == zero
    ensures LastSet(xs, zero) == zero || LastSet(xs, zero) in xs
  {
    if xs == [] {
    } else {
      var front := xs[..|xs| - 1];
      LastSetFound(front, zero);
      assert forall k :: 0 <= k < |front| ==> xs[k] == front[k];
    }
  }

  lemma LastSetStep<T>(xs: seq<T>, i: nat, zero: T)
    requires i < |xs|
    ensures LastSet(xs[..i + 1], zero) == if xs[i] != zero then xs[i] else LastSet(xs[..i], zero)
  {
    assert xs[..i + 1][..i] == xs[..i];
  }

  /** Once set, a field is set in every later record. */
  ghost predicate StaysSet<T(!new)>(xs: seq<T>, zero: T) {
    forall i, j :: 0 <= i < j < |xs| ==> xs[i] != zero ==> xs[j] != zero
  }

  /** Taking the last set element changes nothing exactly when no zero follows a set element. */
  lemma KeptExactly<T(!new)>(xs: seq<T>, zero: T)
    ensures (forall i :: 0 <= i < |xs| ==> LastSet(xs[..i + 1], zero) == xs[i]) <==> StaysSet(xs, zero)
  {
    forall i | 0 <= i < |xs|
      ensures LastSet(xs[..i + 1], zero) == xs[i] <==> forall k :: 0 <= k < i && xs[k] != zero ==> xs[i] != zero
    {
      LastSetFound(xs[..i + 1], zero);
      LastSetStep(xs, i, zero);
      assert forall k :: 0 <= k <= i ==> xs[..i + 1][k] == xs[k];
    }
  }

  function Keys(stored: seq<Stored>): (r: seq<string>)
    ensures |r| == |stored| && forall i :: 0 <= i < |r| ==> r[i] == stored[i].key
  {
    seq(|stored|, i requires 0 <= i < |stored| => stored[i].key)
  }

  function Values(stored: seq<Stored>): (r: seq<seq<byte>>)
    ensures |r| == |stored| && forall i :: 0 <= i < |r| ==> r[i] == stored[i].value
  {
    seq(|stored|, i requires 0 <= i < |stored| => stored[i].value)
  }

  function Deadlines(stored: seq<Stored>): (r: seq<int>)
    ensures |r| == |stored| && forall i :: 0 <= i < |r| ==> r[i] == stored[i].expiresAt
  {
    seq(|stored|, i requires 0 <= i < |stored| => stored[i].expiresAt)
  }

  /** Each field of a decoded record is the last one in the stream so far that was not zero. */
  lemma {:induction false} DecodedFields(stored: seq<Stored>, i: nat)
    requires i < |stored|
    ensures DecodeAll(EncodeAll(stored))[i]
            == Stored(LastSet(Keys(stored)[..i + 1], ""),
                      LastSet(Values(stored)[..i + 1], []),
                      LastSet(Deadlines(stored)[..i + 1], 0))
  {
    DecodeAllAt(EncodeAll(stored), i);
    LastSetStep(Keys(stored), i, "");
    LastSetStep(Values(stored), i, []);
    LastSetStep(Deadlines(stored), i, 0);
    if i == 0 {
    } else {
      DecodedFields(stored, i - 1);
    }
  }

  /** No real deadline falls on Go's zero time. */
  ghost predicate RealDeadlines(records: seq<Record>, received: seq<int>)
    requires |received| == |records|
  {
    forall i :: 0 <= i < |records| && records[i].expiry != 0 ==> received[i] + records[i].expiry != 0
  }

  /** The record at position `i` comes back as it was saved: key, value and absolute deadline. */
  ghost predicate ComesBack(records: seq<Record>, received: seq<int>, restored: seq<int>, i: nat)
    requires |received| == |records| == |restored| && i < |records|
  {
    var back := ToRecord(DecodeAll(EncodeAll(StoredAll(records, received)))[i], restored[i]);
    && back.key == records[i].key
    && back.value == records[i].value
    && Deadline(back, restored[i]) == Deadline(records[i], received[i])
  }

  /** Exactly when one record comes back: no earlier key or value is taken for an empty one, and
      an expiring record is not restored at its own deadline, while any other finds no deadline
      before it, or the last one at the very time of its restore. */
  lemma ComesBackExactly(records: seq<Record>, received: seq<int>, restored: seq<int>, i: nat)
    requires |received| == |records| == |restored| && i < |records| && RealDeadlines(records, received)
    ensures var stored := StoredAll(records, received);
            var deadline := LastSet(Deadlines(stored)[..i + 1], 0);
            ComesBack(records, received, restored, i)
            <==>
            && LastSet(Keys(stored)[..i + 1], "") == records[i].key
            && LastSet(Values(stored)[..i + 1], []) == records[i].value
            && (if records[i].expiry != 0 then restored[i] != received[i] + records[i].expiry
                else deadline == 0 || deadline == restored[i])
  {
    var stored := StoredAll(records, received);
    DecodedFields(stored, i);
    LastSetStep(Deadlines(stored), i, 0);
  }

  /** No record is restored exactly at one of the saved deadlines. */
  ghost predicate NotAtDeadline(records: seq<Record>, received: seq<int>, restored: seq<int>)
    requires |received| == |records|
  {
    forall i, j :: 0 <= i < |records| && 0 <= j < |restored| && records[i].expiry != 0 ==>
      received[i] + records[i].expiry != restored[j]
  }

  /** A field that is not zero in an earlier record is not zero in a later one. */
  ghost predicate NoZeroAfterValue(records: seq<Record>) {
    forall i, j :: 0 <= i < j < |records| ==>
      && (records[i].key != "" ==> records[j].key != "")
      && (records[i].value != [] ==> records[j].value != [])
      && (records[i].expiry != 0 ==> records[j].expiry != 0)
  }

  /** Away from the saved deadlines a record comes back exactly when it is decoded as stored. */
  lemma ComesBackAsStored(records: seq<Record>, received: seq<int>, restored: seq<int>, i: nat)
    requires |received| == |records| == |restored| && i < |records|
    requires RealDeadlines(records, received) && NotAtDeadline(records, received, restored)
    ensures var stored := StoredAll(records, received);
            ComesBack(records, received, restored, i)
            <==>
            && LastSet(Keys(stored)[..i + 1], "") == stored[i].key
            && LastSet(Values(stored)[..i + 1], []) == stored[i].value
            && LastSet(Deadlines(stored)[..i + 1], 0) == stored[i].expiresAt
  {
    var stored := StoredAll(records, received);
    ComesBackExactly(records, received, restored, i);
    LastSetStep(Deadlines(stored), i, 0);
    var deadline := LastSet(Deadlines(stored)[..i + 1], 0);
    LastSetFound(Deadlines(stored)[..i + 1], 0);
    if deadline != 0 {
      var k :| 0 <= k <= i && Deadlines(stored)[k] == deadline;
      assert records[k].expiry != 0 && deadline == received[k] + records[k].expiry;
    }
  }

  /** Snapshot then restore keeps every key, value, position and absolute deadline EXACTLY WHEN no
      record with an empty field follows one in which that field is set. */
  lemma RoundTrip(records: seq<Record>, received: seq<int>, restored: seq<int>)
    requires |received| == |records| == |restored|
    requires RealDeadlines(records, received) && NotAtDeadline(records, received, restored)
    ensures (forall i :: 0 <= i < |records| ==> ComesBack(records, received, restored, i))
            <==> NoZeroAfterValue(records)
  {
    var stored := StoredAll(records, received);
    forall i | 0 <= i < |records|
      ensures ComesBack(records, received, restored, i)
              <==>
              && LastSet(Keys(stored)[..i + 1], "") == Keys(stored)[i]
              && LastSet(Values(stored)[..i + 1], []) == Values(stored)[i]
              && LastSet(Deadlines(stored)[..i + 1], 0) == Deadlines(stored)[i]
    {
      ComesBackAsStored(records, received, restored, i);
    }
    KeptExactly(Keys(stored), "");
    KeptExactly(Values(stored), []);
    KeptExactly(Deadlines(stored), 0);
    FieldsStaySet(records, received);
  }

  lemma FieldsStaySet(records: seq<Record>, received: seq<int>)
    requires |received| == |records| && RealDeadlines(records, received)
    ensures var stored := StoredAll(records, received);
            NoZeroAfterValue(records)
            <==> StaysSet(Keys(stored), "") && StaysSet(Values(stored), []) && StaysSet(Deadlines(stored), 0)
  {
    var stored := StoredAll(records, received);
    assert forall i :: 0 <= i < |records| ==>
        Keys(stored)[i] == records[i].key && Values(stored)[i] == records[i].value
        && (Deadlines(stored)[i] == 0 <==> records[i].expiry == 0);
  }

  /** Streams of non-empty keys and values in which all records expire, or none does, come back. */
  lemma UniformStreamsComeBack(records: seq<Record>, received: seq<int>, restored: seq<int>, i: nat)
    requires |received| == |records| == |restored| && i < |records|
    requires RealDeadlines(records, received) && NotAtDeadline(records, received, restored)
    requires forall k :: 0 <= k < |records| ==> records[k].key != "" && records[k].value != []
    requires || (forall k :: 0 <= k < |records| ==> records[k].expiry != 0)
             || (forall k :: 0 <= k < |records| ==> records[k].expiry == 0)
    ensures ComesBack(records, received, restored, i)
  {
    RoundTrip(records, received, restored);
  }

  /** Where nothing else is lost, an expiring record comes back exactly when it is not restored at
      its own deadline: there the remaining time is zero, which means that it never expires. */
  lemma LostAtDeadline(records: seq<Record>, received: seq<int>, restored: seq<int>, i: nat)
    requires |received| == |records| == |restored| && i < |records|
    requires RealDeadlines(records, received) && NoZeroAfterValue(records) && records[i].expiry != 0
    ensures ComesBack(records, received, restored, i) <==> restored[i] != received[i] + records[i].expiry
  {
    var stored := StoredAll(records, received);
    ComesBackExactly(records, received, restored, i);
    FieldsStaySet(records, received);
    KeptExactly(Keys(stored), "");
    KeptExactly(Values(stored), []);
  }

  const EXPIRING_FIRST: seq<Record> := [Record("a", [1], 5), Record("b", [1], 0)]

  /** A record that never expires, saved after one that does, comes back with the other's deadline. */
  lemma DeadlineIsInherited(received: seq<int>, restored: seq<int>)
    requires |received| == |restored| == 2
    requires RealDeadlines(EXPIRING_FIRST, received) && restored[1] != received[0] + 5
    ensures var back := ToRecord(DecodeAll(EncodeAll(StoredAll(EXPIRING_FIRST, received)))[1], restored[1]);
            Deadline(back, restored[1]) == Some(received[0] + 5)
    ensures !ComesBack(EXPIRING_FIRST, received, restored, 1)
  {
    var stored := StoredAll(EXPIRING_FIRST, received);
    DecodedFields(stored, 1);
    LastSetStep(Deadlines(stored), 1, 0);
    LastSetStep(Deadlines(stored), 0, 0);
    assert EXPIRING_FIRST[0].expiry == 5;
  }

  /** The file snapshot: its channel, encoder and file are set while it is in use. `contents` is
      what the file holds. */
  class FileSnapshot {
    var records: bool
    var encoder: bool
    var file: bool
    var contents: seq<Message>

    constructor ()
      ensures !InUse() && contents == []
    {
      records, encoder, file, contents := false, false, false, [];
    }

    predicate InUse()
      reads this
    {
      records || encoder || file
    }

    /** `Start`: refused while in use; otherwise it truncates the file. */
    method Start(opens: bool) returns (ok: bool)
      modifies this
      ensures ok <==> !old(InUse()) && opens
      ensures ok ==> records && encoder && file && contents == []
      ensures !ok ==>
                records == old(records) && encoder == old(encoder) && file == old(file) && contents == old(contents)
    {
      if records || encoder || file {
        return false;
      }
      if !opens {
        return false;
      }
      encoder := true;
      file := true;
      contents := [];
      records := true;
      return true;
    }

    /** `receiveRecords`: `incoming` are the records sent before the channel is closed, the i-th one
        arriving at `times[i]`. Afterwards the snapshot can be started again. */
    method ReceiveRecords(incoming: seq<Record>, times: seq<int>)
      requires |times| == |incoming|
      modifies this
      ensures contents == old(contents) + EncodeAll(StoredAll(incoming, times))
      ensures !InUse()
    {
      ghost var messages := EncodeAll(StoredAll(incoming, times));
      for i := 0 to |incoming|
        invariant contents == old(contents) + messages[..i]
      {
        var r := incoming[i];
        var ir := Stored(r.key, [], 0);
        if r.expiry != 0 {
          ir := ir.(expiresAt := times[i] + r.expiry);
        }
        ir := ir.(value := r.value);
        contents := contents + [Encode(ir)];
        assert messages[..i + 1] == messages[..i] + [messages[i]];
      }
      assert messages[..|incoming|] == messages;
      file, encoder, records := false, false, false;
    }
  }

  /** An emitted record: its value is a buffer that its receiver may keep. */
  datatype Emitted = Emitted(key: string, value: array<byte>, expiry: int)

  /** The decoder writes a byte slice into the old buffer if it fits, and into a new one otherwise. */
  method DecodeBytes(v: seq<byte>, target: array<byte>) returns (buffer: array<byte>)
    modifies target
    ensures buffer == target || fresh(buffer)
    ensures |v| <= buffer.Length && buffer[..|v|] == v
  {
    buffer := target;
    if buffer.Length < |v| {
      buffer := new byte[|v|];
    }
    for k := 0 to |v|
      invariant buffer[..k] == v[..k]
    {
      buffer[k] := v[k];
    }
  }

  /** `make` and `copy`. */
  method CopyOf(buffer: array<byte>, length: nat) returns (value: array<byte>)
    requires length <= buffer.Length
    ensures fresh(value) && value[..] == buffer[..length]
  {
    value := new byte[length];
    for k := 0 to length
      invariant value[..k] == buffer[..k]
    {
      value[k] := buffer[k];
    }
  }

  /** The loop's variable. Its value is a slice of a buffer that the decoder writes into. */
  class Variable {
    var key: string
    var buffer: array<byte>
    var length: nat
    var expiresAt: int

    constructor ()
      ensures Valid() && fresh(buffer) && Contents() == ZERO
    {
      key, buffer, length, expiresAt := "", new byte[0], 0, 0;
    }

    predicate Valid()
      reads this
    {
      length <= buffer.Length
    }

    ghost function Contents(): Stored
      requires Valid()
      reads this, buffer
    {
      Stored(key, buffer[..length], expiresAt)
    }

    method Read(m: Message)
      requires Valid()
      modifies this, buffer
      ensures Valid() && Contents() == Decode(m, old(Contents()))
      ensures buffer == old(buffer) || fresh(buffer)
    {
      if m.key.Some? {
        key := m.key.value;
      }
      if m.expiresAt.Some? {
        expiresAt := m.expiresAt.value;
      }
      if m.value.Some? {
        buffer := DecodeBytes(m.value.value, buffer);
        length := |m.value.value|;
      }
    }
  }

  ghost predicate Emits(e: Emitted, r: Record)
    reads e.value
  {
    Record(e.key, e.value[..], e.expiry) == r
  }

  /** One turn of the loop: decode into the variable, and emit a copy. */
  method ReadAndEmit(r: Variable, m: Message, now: int) returns (e: Emitted)
    requires r.Valid()
    modifies r, r.buffer
    ensures r.Valid() && r.Contents() == Decode(m, old(r.Contents()))
    ensures r.buffer == old(r.buffer) || fresh(r.buffer)
    ensures fresh(e.value) && e.value != r.buffer
    ensures Emits(e, ToRecord(r.Contents(), now))
  {
    r.Read(m);
    var value := CopyOf(r.buffer, r.length);
    var expiry := 0;
    if r.expiresAt != 0 {
      expiry := r.expiresAt - now;
    }
    e := Emitted(r.key, value, expiry);
  }

  /** The records have been emitted, each in a buffer of its own. */
  ghost predicate AllEmitted(out: seq<Emitted>, records: seq<Record>)
    reads set e | e in out :: e.value
  {
    && |out| == |records|
    && (forall k :: 0 <= k < |out| ==> Emits(out[k], records[k]))
    && (forall j, k :: 0 <= j < k < |out| ==> out[j].value != out[k].value)
  }

  /** One more turn of the loop, which leaves what was emitted before as it is. */
  method EmitNext(r: Variable, m: Message, now: int, out: seq<Emitted>, ghost records: seq<Record>)
    returns (longer: seq<Emitted>)
    requires r.Valid() && AllEmitted(out, records)
    requires forall k :: 0 <= k < |out| ==> out[k].value != r.buffer
    modifies r, r.buffer
    ensures r.Valid() && r.Contents() == Decode(m, old(r.Contents()))
    ensures r.buffer == old(r.buffer) || fresh(r.buffer)
    ensures |longer| == |out| + 1 && longer[..|out|] == out
    ensures fresh(longer[|out|].value) && longer[|out|].value != r.buffer
    ensures AllEmitted(longer, records + [ToRecord(r.Contents(), now)])
  {
    var e := ReadAndEmit(r, m, now);
    forall k | 0 <= k < |out|
      ensures Emits(out[k], records[k])
    {
      assert old(Emits(out[k], records[k]));
    }
    longer := out + [e];
  }

  /** The records that the decode loop hands over. */
  function ToRecords(decoded: seq<Stored>, times: seq<int>): (r: seq<Record>)
    requires |times| == |decoded|
    ensures |r| == |decoded| && forall i :: 0 <= i < |r| ==> r[i] == ToRecord(decoded[i], times[i])
  {
    seq(|decoded|, i requires 0 <= i < |decoded| => ToRecord(decoded[i], times[i]))
  }

  /** Each value of the loop's variable is decoded into the one before. */
  ghost predicate InTurn(messages: seq<Message>, decoded: seq<Stored>, i: nat)
    requires i < |messages| == |decoded|
  {
    decoded[i] == Decode(messages[i], if i == 0 then ZERO else decoded[i - 1])
  }

  method RestoreInTurn(messages: seq<Message>, times: seq<int>, ghost decoded: seq<Stored>) returns (out: seq<Emitted>)
    requires |times| == |messages| == |decoded|
    requires forall i :: 0 <= i < |messages| ==> InTurn(messages, decoded, i)
    ensures AllEmitted(out, ToRecords(decoded, times))
    ensures forall i :: 0 <= i < |out| ==> fresh(out[i].value)
  {
    out := [];
    var r := new Variable();
    ghost var records := ToRecords(decoded, times);
    for i := 0 to |messages|
      invariant fresh(r) && fresh(r.buffer) && r.Valid()
      invariant r.Contents() == if i == 0 then ZERO else decoded[i - 1]
      invariant AllEmitted(out, records[..i])
      invariant forall k :: 0 <= k < |out| ==> fresh(out[k].value) && out[k].value != r.buffer
    {
      assert InTurn(messages, decoded, i);
      assert records[..i + 1] == records[..i] + [ToRecord(decoded[i], times[i])];
      out := EmitNext(r, messages[i], times[i], out, records[..i]);
    }
    assert records[..|messages|] == records;
  }

  /** The decode loop of `FileRestore.Start`. The decoder reuses the variable's byte buffer when it
      is large enough, so each emitted value is a copy in a buffer of its own; later decodes leave
      the emitted buffers as they are. */
  method Restore(messages: seq<Message>, times: seq<int>) returns (out: seq<Emitted>)
    requires |times| == |messages|
    ensures AllEmitted(out, ToRecords(DecodeAll(messages), times))
    ensures forall i :: 0 <= i < |out| ==> fresh(out[i].value)
  {
    forall i | 0 <= i < |messages|
      ensures InTurn(messages, DecodeAll(messages), i)
    {
      DecodeAllAt(messages, i);
    }
    out := RestoreInTurn(messages, times, DecodeAll(messages));
  }
}
