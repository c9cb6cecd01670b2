/** The address book: records keyed by name, in the insertion order a Python
    dict keeps. The class holds the key order as a sequence beside the map;
    `BookValue` is its value at one moment and specifies every operation. */
module Book {
  import opened Wrappers
  import opened Records

  predicate Distinct(ks: seq<string>) {
    forall i, j :: 0 <= i < j < |ks| ==> ks[i] != ks[j]
  }

  /** The key order after `data[k] = v`: an existing key keeps its place, a new
      one goes last. */
  function KeysAfterPut(ks: seq<string>, k: string): seq<string> {
    if k in ks then ks else ks + [k]
  }

  /** The key order after `del data[k]`: the other keys in their order. */
  function KeysAfterDelete(ks: seq<string>, k: string): (r: seq<string>)
    ensures forall x :: x in r <==> x in ks && x != k
    ensures |r| <= |ks|
  {
    if ks == [] then []
    else if ks[0] == k then KeysAfterDelete(ks[1..], k)
    else [ks[0]] + KeysAfterDelete(ks[1..], k)
  }

  lemma {:induction false} DeleteAbsentKey(ks: seq<string>, k: string)
    requires k !in ks
    ensures KeysAfterDelete(ks, k) == ks
  {
    if ks != [] {
      DeleteAbsentKey(ks[1..], k);
    }
  }

  lemma {:induction false} DeleteKeepsDistinct(ks: seq<string>, k: string)
    requires Distinct(ks)
    ensures Distinct(KeysAfterDelete(ks, k))
    ensures k in ks ==> |KeysAfterDelete(ks, k)| == |ks| - 1
  {
    if ks != [] {
      assert Distinct(ks[1..]);
      DeleteKeepsDistinct(ks[1..], k);
      if ks[0] == k {
        assert k !in ks[1..];
        DeleteAbsentKey(ks[1..], k);
      } else {
        assert ks[0] !in ks[1..];
      }
    }
  }

  /** Deleting the key at position `i` cuts out that one position: the keys
      before and after it keep their order. */
  lemma {:induction false} DeleteCutsOut(ks: seq<string>, i: nat)
    requires Distinct(ks) && i < |ks|
    ensures KeysAfterDelete(ks, ks[i]) == ks[..i] + ks[i + 1..]
  {
    if i == 0 {
      assert ks[0] !in ks[1..];
      DeleteAbsentKey(ks[1..], ks[0]);
    } else {
      assert Distinct(ks[1..]);
      assert ks[1..][i - 1] == ks[i];
      DeleteCutsOut(ks[1..], i - 1);
      assert ks[1..][..i - 1] == ks[1..i];
      assert ks[1..][i..] == ks[i + 1..];
      assert ks[..i] == [ks[0]] + ks[1..i];
    }
  }

  lemma PutKeepsDistinct(ks: seq<string>, k: string)
    requires Distinct(ks)
    ensures Distinct(KeysAfterPut(ks, k))
  {
  }

  /** Deleting a key and adding it again moves it to the end; overwriting a key
      that is present leaves the order as it was. */
  lemma DeleteThenPutMovesToEnd(ks: seq<string>, k: string)
    requires Distinct(ks) && k in ks
    ensures KeysAfterPut(ks, k) == ks
    ensures KeysAfterPut(KeysAfterDelete(ks, k), k) == KeysAfterDelete(ks, k) + [k]
    ensures |KeysAfterPut(KeysAfterDelete(ks, k), k)| == |ks|
    ensures forall i :: 0 <= i < |ks| && ks[i] == k ==>
      KeysAfterPut(KeysAfterDelete(ks, k), k) == ks[..i] + ks[i + 1..] + [k]
  {
    DeleteKeepsDistinct(ks, k);
    forall i | 0 <= i < |ks| && ks[i] == k
      ensures KeysAfterPut(KeysAfterDelete(ks, k), k) == ks[..i] + ks[i + 1..] + [k]
    {
      DeleteCutsOut(ks, i);
    }
  }

  /** The book's contents: its key order and the contact under each key. */
  datatype BookValue = BookValue(order: seq<string>, entries: map<string, Contact>)

  /** The keys are the map's keys without repetition, and each record is stored
      under its own name. */
  predicate WellFormed(b: BookValue) {
    && Distinct(b.order)
    && (forall k :: k in b.entries ==> k in b.order)
    && (forall k :: k in b.order ==> k in b.entries)
    && (forall k :: k in b.entries ==> b.entries[k].name == k && ValidContact(b.entries[k]))
  }

  /** `add_record`. */
  function Put(b: BookValue, c: Contact): BookValue {
    BookValue(KeysAfterPut(b.order, c.name), b.entries[c.name := c])
  }

  /** `delete_record`. */
  function Delete(b: BookValue, name: string): BookValue {
    BookValue(KeysAfterDelete(b.order, name), map k | k in b.entries && k != name :: b.entries[k])
  }

  /** `find_record`. */
  function Find(b: BookValue, name: string): Option<Contact> {
    if name in b.entries then Some(b.entries[name]) else None
  }

  /** Adding stores the record under its own name, replacing any earlier record
      of that name and nothing else. */
  lemma PutStores(b: BookValue, c: Contact)
    requires WellFormed(b) && ValidContact(c)
    ensures WellFormed(Put(b, c))
    ensures Find(Put(b, c), c.name) == Some(c)
    ensures forall k :: k != c.name ==> Find(Put(b, c), k) == Find(b, k)
  {
    PutKeepsDistinct(b.order, c.name);
  }

  /** Deleting removes that name only, and deleting a name that is absent
      changes nothing. */
  lemma DeleteRemoves(b: BookValue, name: string)
    requires WellFormed(b)
    ensures WellFormed(Delete(b, name))
    ensures Find(Delete(b, name), name) == None
    ensures forall k :: k != name ==> Find(Delete(b, name), k) == Find(b, k)
    ensures name !in b.entries ==> Delete(b, name) == b
  {
    DeleteKeepsDistinct(b.order, name);
    if name !in b.entries {
      DeleteAbsentKey(b.order, name);
      assert (map k | k in b.entries && k != name :: b.entries[k]) == b.entries;
    }
  }

  /** Storing the contact a name already holds changes nothing. */
  lemma PutUnchanged(b: BookValue, name: string)
    requires WellFormed(b) && name in b.entries
    ensures Put(b, b.entries[name]) == b
  {
    assert b.entries[name := b.entries[name]] == b.entries;
  }

  class AddressBook {
    var keys: seq<string>
    var data: map<string, Record>

    ghost predicate Valid()
      reads this, data.Values
    {
      && Distinct(keys)
      && (forall k :: k in data <==> k in keys)
      && (forall k :: k in data ==> data[k].name == k && data[k].Valid())
    }

    function Value(): BookValue
      reads this, data.Values
    {
      BookValue(keys, map k | k in data :: data[k].Value())
    }

    lemma ValueWellFormed()
      requires Valid()
      ensures WellFormed(Value())
    {
    }

    constructor ()
      ensures Valid() && Value() == BookValue([], map[])
    {
      keys := [];
      data := map[];
    }

    method AddRecord(record: Record)
      requires Valid() && record.Valid()
      modifies this
      ensures Valid() && Value() == Put(old(Value()), record.Value())
      ensures data == old(data)[record.name := record]
    {
      PutKeepsDistinct(keys, record.name);
      data := data[record.name := record];
      keys := KeysAfterPut(keys, record.name);
      assert Value().entries == old(Value()).entries[record.name := record.Value()];
    }

    /** When only the record stored under one name changed, the book's value
        changes only under that name. */
    twostate lemma OneRecordChanged(r: Record)
      requires old(Valid()) && unchanged(this)
      requires r.name in data && data[r.name] == r && r.Valid()
      requires forall k :: k in data && k != r.name ==> unchanged(data[k])
      ensures Valid() && Value() == Put(old(Value()), r.Value())
    {
      assert Value().entries == old(Value()).entries[r.name := r.Value()];
    }

    method FindRecord(name: string) returns (r: Record?)
      requires Valid()
      ensures r == null <==> Find(Value(), name).None?
      ensures r != null ==> r.name == name && name in data && data[name] == r && Find(Value(), name) == Some(r.Value())
    {
      if name in data {
        return data[name];
      }
      return null;
    }

    /** `delete_record`; `message` is the line the source prints. */
    method DeleteRecord(name: string) returns (message: string)
      requires Valid()
      modifies this
      ensures Valid() && Value() == Delete(old(Value()), name)
      ensures message == if name in old(data) then "Record removed successfully." else "Record not found."
    {
      if name in data {
        RemovePresent(name);
        message := "Record removed successfully.";
      } else {
        ValueWellFormed();
        DeleteRemoves(Value(), name);
        message := "Record not found.";
      }
    }

    method RemovePresent(name: string)
      requires Valid() && name in data
      modifies this
      ensures Valid() && Value() == Delete(old(Value()), name)
    {
      DeleteKeepsDistinct(keys, name);
      data := data - {name};
      keys := KeysAfterDelete(keys, name);
      OneRecordRemoved(name);
    }

    /** When one name left the map and the key order, and no record changed, the
        book's value lost that name only. */
    twostate lemma OneRecordRemoved(name: string)
      requires old(Valid()) && name in old(data)
      requires data == old(data) - {name} && keys == KeysAfterDelete(old(keys), name)
      requires Distinct(keys)
      requires forall k :: k in data ==> unchanged(data[k])
      ensures Valid() && Value() == Delete(old(Value()), name)
    {
      StillValid(name);
    }

    twostate lemma StillValid(name: string)
      requires old(Valid()) && data == old(data) - {name} && keys == KeysAfterDelete(old(keys), name)
      requires Distinct(keys)
      requires forall k :: k in data ==> unchanged(data[k])
      ensures Valid()
    {
    }
  }
}
