/** The keyed store that the handlers share: records under string keys, each with an optional
    deadline. A record can be read until its deadline, and not at it or after; expired records
    need not be removed. Times and expiries are nanoseconds, as in Go. */
module KeyStore {
  import opened Wrappers
  import Text

  const SECOND: nat := 1_000_000_000
  const MINUTE: nat := 60 * SECOND

  datatype Entry<+V> = Entry(value: V, deadline: Option<int>)

  type Table<V> = map<string, Entry<V>>

  predicate Live<V>(table: Table<V>, key: string, now: int) {
    key in table && (table[key].deadline.Some? ==> now < table[key].deadline.value)
  }

  /** An expiry of zero means that the record never expires. */
  function Put<V>(table: Table<V>, key: string, value: V, expiry: nat, now: int): Table<V> {
    table[key := Entry(value, if expiry == 0 then None else Some(now + expiry))]
  }

  /** What a prefix read returns: every live key with the prefix, once each, in some order. */
  ghost predicate Lists<V>(table: Table<V>, prefix: string, now: int, keys: seq<string>) {
    && Text.Distinct(keys)
    && (forall k :: k in keys <==> Live(table, k, now) && prefix <= k)
  }

  class Store<V> {
    var table: Table<V>

    constructor ()
      ensures table == map[]
    {
      table := map[];
    }

    /** An exact read; `None` stands for the not-found error. */
    method Read(key: string, now: int) returns (r: Option<V>)
      ensures r == if Live(table, key, now) then Some(table[key].value) else None
    {
      r := if Live(table, key, now) then Some(table[key].value) else None;
    }

    /** A prefix read. It returns the keys; their values are `table[key].value`. */
    method ReadPrefix(prefix: string, now: int) returns (keys: seq<string>)
      ensures Lists(table, prefix, now, keys)
    {
      keys := [];
      var left := table.Keys;
      while left != {}
        invariant left <= table.Keys
        invariant Text.Distinct(keys)
        invariant forall k :: k in keys <==> k in table.Keys - left && Live(table, k, now) && prefix <= k
        decreases left
      {
        var k :| k in left;
        left := left - {k};
        if Live(table, k, now) && prefix <= k {
          Text.DistinctAppend(keys, k);
          keys := keys + [k];
        }
      }
    }

    method Write(key: string, value: V, expiry: nat, now: int)
      modifies this
      ensures table == Put(old(table), key, value, expiry, now)
    {
      table := Put(table, key, value, expiry, now);
    }

    /** Deleting a missing key is not an error. */
    method Delete(key: string)
      modifies this
      ensures table == old(table) - {key}
    {
      table := table - {key};
    }
  }
}
