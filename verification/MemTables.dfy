/**
 The memtable of crabstash-storage/src/memtable.rs, an ordered map of versions held as its sorted
 entries, and the part of lsm.rs that numbers writes and reads them back.
 */
module MemTables {
  import opened Bytes
  import opened Simd

  /** A version: `None` for a deletion. */
  type Version = (Key, Option<bytes>)

  predicate Sorted(entries: seq<Version>) {
    forall i, j :: 0 <= i < j < |entries| ==> CompareKeys(entries[i].0, entries[j].0) == Less
  }

  /** `SkipMap::insert`: in key order, replacing an equal key. */
  function Inserted(entries: seq<Version>, key: Key, value: Option<bytes>): seq<Version> {
    if entries == [] then [(key, value)]
    else
      match CompareKeys(key, entries[0].0)
      case Less => [(key, value)] + entries
      case Equal => [(key, value)] + entries[1..]
      case Greater => [entries[0]] + Inserted(entries[1..], key, value)
  }

  lemma {:induction false} InsertedHas(entries: seq<Version>, key: Key, value: Option<bytes>, e: Version)
    requires Sorted(entries)
    ensures e in Inserted(entries, key, value) <==> e == (key, value) || (e in entries && e.0 != key)
  {
    if entries != [] {
      KeyOrderIsTotal(key, entries[0].0, e.0);
      if CompareKeys(key, entries[0].0) == Greater {
        InsertedHas(entries[1..], key, value, e);
      } else if e in entries[1..] {
        var i :| 1 <= i < |entries| && entries[i] == e;
        KeyOrderIsTotal(entries[0].0, e.0, e.0);
      }
    }
  }

  lemma {:induction false} InsertedSorted(entries: seq<Version>, key: Key, value: Option<bytes>)
    requires Sorted(entries)
    ensures Sorted(Inserted(entries, key, value))
  {
    if entries != [] {
      KeyOrderIsTotal(key, entries[0].0, key);
      if CompareKeys(key, entries[0].0) == Greater {
        InsertedSorted(entries[1..], key, value);
        var rest := Inserted(entries[1..], key, value);
        forall i | 0 <= i < |rest| ensures CompareKeys(entries[0].0, rest[i].0) == Less {
          InsertedHas(entries[1..], key, value, rest[i]);
        }
      } else {
        forall i | 1 <= i < |entries| ensures CompareKeys(key, entries[i].0) == Less {
          KeyOrderIsTotal(key, entries[0].0, entries[i].0);
          KeyOrderIsTotal(entries[i].0, key, key);
        }
      }
    }
  }

  /** Version `e` is the newest one of its key written at or before `ts`. */
  predicate Newest(entries: seq<Version>, e: Version, ts: nat) {
    && e in entries && e.0.timestamp <= ts
    && forall i :: 0 <= i < |entries| && entries[i].0.data == e.0.data && entries[i].0.timestamp <= ts ==>
         entries[i].0.timestamp <= e.0.timestamp
  }

  class MemTable {
    var entries: seq<Version>
    var size: nat

    constructor ()
      ensures Valid() && entries == [] && size == 0
    {
      entries, size := [], 0;
    }

    predicate Valid()
      reads this
    {
      Sorted(entries)
    }

    method Put(key: Key, value: bytes)
      requires Valid()
      modifies this
      ensures Valid() && entries == Inserted(old(entries), key, Some(value))
      ensures size == old(size) + |key.data| + |value|
    {
      InsertedSorted(entries, key, Some(value));
      entries := Inserted(entries, key, Some(value));
      size := size + |key.data| + |value|;
    }

    method Delete(key: Key)
      requires Valid()
      modifies this
      ensures Valid() && entries == Inserted(old(entries), key, None)
      ensures size == old(size) + |key.data|
    {
      InsertedSorted(entries, key, None);
      entries := Inserted(entries, key, None);
      size := size + |key.data|;
    }

    /** The newest version of the key at or before `ts`, or nothing when it has none. */
    method GetAtTs(data: bytes, ts: nat) returns (r: Option<Option<bytes>>)
      requires Valid()
      ensures r.Some? ==> exists k: Key :: k.data == data && Newest(entries, (k, r.value), ts)
      ensures r.None? ==> forall i :: 0 <= i < |entries| ==> entries[i].0.data != data || entries[i].0.timestamp > ts
    {
      var searchKey := Key(data, ts);
      var i: int := 0;
      while i < |entries| && CompareKeys(entries[i].0, searchKey) == Less
        invariant 0 <= i <= |entries|
        invariant forall j :: 0 <= j < i ==> CompareKeys(entries[j].0, searchKey) == Less
      {
        i := i + 1;
      }
      EarlierAreNewer(entries, i, data, ts);
      if i == |entries| {
        return None;
      }
      LaterAreOlder(entries, i, data, ts);
      hide CompareKeys, Sorted;
      // The scan of the range never gets past its first entry.
      if entries[i].0.data != data {
        return None;
      }
      if entries[i].0.timestamp <= ts {
        assert Newest(entries, (entries[i].0, entries[i].1), ts);
        return Some(entries[i].1);
      }
      assert false;
    }
  }

  /** What sorts before a search key is another key or a version that is too new. */
  lemma EarlierAreNewer(entries: seq<Version>, i: nat, data: bytes, ts: nat)
    requires i <= |entries|
    requires forall j :: 0 <= j < i ==> CompareKeys(entries[j].0, Key(data, ts)) == Less
    ensures forall j :: 0 <= j < i ==> entries[j].0.data != data || entries[j].0.timestamp > ts
  {
    forall j | 0 <= j < i ensures entries[j].0.data != data || entries[j].0.timestamp > ts {
      KeyOrderIsTotal(entries[j].0, Key(data, ts), Key(data, ts));
    }
  }

  /** The first entry from the search key on is the newest old enough, if it is of that key at all. */
  lemma LaterAreOlder(entries: seq<Version>, i: nat, data: bytes, ts: nat)
    requires Sorted(entries) && i < |entries| && CompareKeys(entries[i].0, Key(data, ts)) != Less
    ensures entries[i].0.data == data ==> entries[i].0.timestamp <= ts
    ensures forall j :: i < j < |entries| && entries[j].0.data == data ==>
              entries[i].0.data == data && entries[j].0.timestamp < entries[i].0.timestamp
  {
    var search := Key(data, ts);
    KeyOrderIsTotal(entries[i].0, search, search);
    forall j | i < j < |entries| && entries[j].0.data == data
      ensures entries[i].0.data == data && entries[j].0.timestamp < entries[i].0.timestamp
    {
      assert CompareKeys(entries[i].0, entries[j].0) == Less;
      KeyOrderIsTotal(entries[i].0, entries[j].0, search);
      LtIsStrictTotalOrder();
    }
  }

  // ---------------------------------------------------------------- the store behind the engine

  /** `contents` is what the newest versions of all keys say. */
  ghost predicate Represents(entries: seq<Version>, contents: map<bytes, bytes>, nextTs: nat) {
    && (forall e :: e in entries ==> e.0.timestamp < nextTs)
    && (forall data :: data in contents ==>
         exists k: Key :: k.data == data && Newest(entries, (k, Some(contents[data])), nextTs))
    && (forall e :: Newest(entries, e, nextTs) ==>
          match e.1 case Some(v) => e.0.data in contents && contents[e.0.data] == v case None => e.0.data !in contents)
  }

  function Written(contents: map<bytes, bytes>, data: bytes, value: Option<bytes>): map<bytes, bytes> {
    match value case Some(v) => contents[data := v] case None => contents - {data}
  }

  lemma NewVersionIsNewest(entries: seq<Version>, nextTs: nat, data: bytes, value: Option<bytes>, e: Version)
    requires Sorted(entries) && forall x :: x in entries ==> x.0.timestamp < nextTs
    ensures Newest(Inserted(entries, Key(data, nextTs), value), e, nextTs + 1) <==>
              if e.0.data == data then e == (Key(data, nextTs), value) else Newest(entries, e, nextTs)
  {
    var key, entries' := Key(data, nextTs), Inserted(entries, Key(data, nextTs), value);
    forall x ensures x in entries' <==> x == (key, value) || (x in entries && x.0 != key) {
      InsertedHas(entries, key, value, x);
    }
    hide Inserted, Sorted;
  }

  /** What a write with the next sequence number makes newest. */
  lemma WriteNewest(entries: seq<Version>, nextTs: nat, data: bytes, value: Option<bytes>)
    requires Sorted(entries) && forall x :: x in entries ==> x.0.timestamp < nextTs
    ensures forall x :: x in Inserted(entries, Key(data, nextTs), value) ==> x.0.timestamp < nextTs + 1
    ensures forall e :: Newest(Inserted(entries, Key(data, nextTs), value), e, nextTs + 1) <==>
              if e.0.data == data then e == (Key(data, nextTs), value) else Newest(entries, e, nextTs)
  {
    hide Newest, Inserted, Sorted;
    forall e ensures e in Inserted(entries, Key(data, nextTs), value) ==> e.0.timestamp < nextTs + 1
      ensures Newest(Inserted(entries, Key(data, nextTs), value), e, nextTs + 1) <==>
                if e.0.data == data then e == (Key(data, nextTs), value) else Newest(entries, e, nextTs)
    {
      InsertedHas(entries, Key(data, nextTs), value, e);
      NewVersionIsNewest(entries, nextTs, data, value, e);
    }
  }

  lemma WriteRepresents(entries: seq<Version>, contents: map<bytes, bytes>, nextTs: nat, data: bytes,
                        value: Option<bytes>)
    requires Sorted(entries) && Represents(entries, contents, nextTs)
    ensures Represents(Inserted(entries, Key(data, nextTs), value), Written(contents, data, value), nextTs + 1)
  {
    hide Newest, Inserted, Sorted;
    WriteNewest(entries, nextTs, data, value);
    var key, entries' := Key(data, nextTs), Inserted(entries, Key(data, nextTs), value);
    var contents' := Written(contents, data, value);
    forall d | d in contents'
      ensures exists k: Key :: k.data == d && Newest(entries', (k, Some(contents'[d])), nextTs + 1)
    {
      if d == data {
        assert Newest(entries', (key, Some(contents'[d])), nextTs + 1);
      } else {
        var k: Key :| k.data == d && Newest(entries, (k, Some(contents[d])), nextTs);
        assert Newest(entries', (k, Some(contents'[d])), nextTs + 1);
      }
    }
  }

  /** A read at or past every write sees the contents. */
  lemma LateReadSeesContents(entries: seq<Version>, contents: map<bytes, bytes>, nextTs: nat, data: bytes, ts: nat,
                             r: Option<Option<bytes>>)
    requires Represents(entries, contents, nextTs) && nextTs <= ts + 1
    requires r.Some? ==> exists k: Key :: k.data == data && Newest(entries, (k, r.value), ts)
    requires r.None? ==> forall i :: 0 <= i < |entries| ==> entries[i].0.data != data || entries[i].0.timestamp > ts
    ensures (match r case Some(v) => v case None => None) == if data in contents then Some(contents[data]) else None
  {
    if r.Some? {
      var k: Key :| k.data == data && Newest(entries, (k, r.value), ts);
      assert Newest(entries, (k, r.value), nextTs);
    }
  }

  class Storage {
    const memtable: MemTable
    var nextTs: nat
    ghost var contents: map<bytes, bytes>

    constructor ()
      ensures Valid() && fresh(memtable) && contents == map[] && nextTs == 1
    {
      memtable := new MemTable();
      nextTs, contents := 1, map[];
    }

    ghost predicate Valid()
      reads this, memtable
    {
      memtable.Valid() && Represents(memtable.entries, contents, nextTs)
    }

    method Put(data: bytes, value: bytes)
      requires Valid()
      modifies this, memtable
      ensures Valid() && contents == Written(old(contents), data, Some(value)) && nextTs == old(nextTs) + 1
    {
      hide Represents, Sorted, Inserted;
      ghost var contents' := Written(contents, data, Some(value));
      WriteRepresents(memtable.entries, contents, nextTs, data, Some(value));
      hide Written;
      var ts := nextTs;
      nextTs := nextTs + 1;
      memtable.Put(Key(data, ts), value);
      contents := contents';
    }

    method Delete(data: bytes)
      requires Valid()
      modifies this, memtable
      ensures Valid() && contents == Written(old(contents), data, None) && nextTs == old(nextTs) + 1
    {
      hide Represents, Sorted, Inserted;
      ghost var contents' := Written(contents, data, None);
      WriteRepresents(memtable.entries, contents, nextTs, data, None);
      hide Written;
      var ts := nextTs;
      nextTs := nextTs + 1;
      memtable.Delete(Key(data, ts));
      contents := contents';
    }

    /** The newest version at or before the timestamp; the current value once no write is later. */
    method GetAtTs(data: bytes, ts: nat) returns (r: Option<bytes>)
      requires Valid()
      ensures IsReadAt(memtable.entries, data, ts, r)
      ensures nextTs <= ts + 1 ==> r == if data in contents then Some(contents[data]) else None
    {
      var found := memtable.GetAtTs(data, ts);
      if nextTs <= ts + 1 {
        LateReadSeesContents(memtable.entries, contents, nextTs, data, ts, found);
      }
      r := match found case Some(v) => v case None => None;
    }
  }

  /** `r` is the value of the newest version of the key at or before `ts`, or nothing when it has none. */
  ghost predicate IsReadAt(entries: seq<Version>, data: bytes, ts: nat, r: Option<bytes>) {
    || (exists k: Key :: k.data == data && Newest(entries, (k, r), ts))
    || (r == None && forall i :: 0 <= i < |entries| ==> entries[i].0.data != data || entries[i].0.timestamp > ts)
  }
}
