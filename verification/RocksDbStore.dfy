// The local store of a node. Each method is one atomic step of the node.
module LocalStore {
  import opened Types
  import opened ByteOrder
  import opened Lww

  // What a full iteration of a database yields: its keys in byte order, each with its value.
  ghost predicate IsIteration(items: seq<(Key, Versioned)>, db: Db) {
    && (forall i, j :: 0 <= i < j < |items| ==> Less(items[i].0, items[j].0))
    && (forall k, v :: (k, v) in items <==> k in db && db[k] == v)
  }

  class RocksDbStore {
    var db: Db

    constructor ()
      ensures db == map[]
    {
      db := map[];
    }

    // Writes only over a missing or strictly older entry.
    method PutIfNewer(key: Key, value: Bytes, timestamp: nat)
      modifies this
      ensures db == Apply(old(db), Write(key, Versioned(timestamp, value)))
      ensures forall k :: Lookup(db, k)
                          == if k == key && (key !in old(db) || old(db)[key].timestamp < timestamp)
                             then Some(Versioned(timestamp, value)) else Lookup(old(db), k)
    {
      if key in db {
        var current := db[key];
        if current.timestamp >= timestamp {
          return;
        }
      }
      db := db[key := Versioned(timestamp, value)];
    }

    method Get(key: Key) returns (r: Option<Versioned>)
      ensures r.None? <==> key !in db
      ensures r.Some? ==> r.value == db[key]
    {
      if key in db {
        r := Some(db[key]);
      } else {
        r := None;
      }
    }

    method IterAll() returns (items: seq<(Key, Versioned)>)
      ensures IsIteration(items, db)
    {
      var keys := Sorted(db.Keys);
      items := [];
      for i := 0 to |keys|
        invariant |items| == i
        invariant forall j :: 0 <= j < i ==> items[j] == (keys[j], db[keys[j]])
      {
        assert keys[i] in keys;
        items := items + [(keys[i], db[keys[i]])];
      }
      forall k, v ensures (k, v) in items <==> k in db && db[k] == v {
        if k in db {
          assert k in keys;
        }
      }
    }

    // The data loss that reconciliation repairs.
    method ClearAll()
      modifies this
      ensures db == map[]
    {
      var keys := Sorted(db.Keys);
      for i := 0 to |keys|
        invariant forall k :: k in db ==> k in keys[i..]
      {
        db := db - {keys[i]};
      }
    }
  }
}
