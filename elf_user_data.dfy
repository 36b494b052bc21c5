/** `UserData` of the ELF loader (vendor/elf_loader/src/format/mod.rs): the
    user's values attached to a loaded object, one slot per one-byte key,
    kept in a vector of items in insertion order.  The boxed `dyn Any`
    values are values of a type parameter. */
module ElfUserData {
  import opened Common

  datatype DataItem<V> = DataItem(key: u8, value: Option<V>)

  /** The index of the first item with `key`. */
  function IndexOf<V>(items: seq<DataItem<V>>, key: u8): (r: Option<nat>)
    ensures r.Some? ==> r.value < |items| && items[r.value].key == key
    ensures r.Some? ==> forall i :: 0 <= i < r.value ==> items[i].key != key
    ensures r.None? ==> forall i :: 0 <= i < |items| ==> items[i].key != key
    decreases |items|
  {
    if |items| == 0 then None
    else if items[0].key == key then Some(0)
    else
      var r := IndexOf(items[1..], key);
      if r.Some? then Some(r.value + 1) else None
  }

  /** `find_map` of `get`: the value of the first item with `key` that
      holds one. */
  function FindValue<V>(items: seq<DataItem<V>>, key: u8): (r: Option<V>)
    ensures r.Some? ==> exists i :: 0 <= i < |items| && items[i] == DataItem(key, r)
    ensures r.None? ==> forall i :: 0 <= i < |items| && items[i].key == key ==> items[i].value.None?
    decreases |items|
  {
    if |items| == 0 then None
    else if items[0].key == key && items[0].value.Some? then items[0].value
    else
      var r := FindValue(items[1..], key);
      assert r.Some? ==> exists i :: 1 <= i < |items| && items[i] == DataItem(key, r) by {
        if r.Some? {
          var i :| 0 <= i < |items[1..]| && items[1..][i] == DataItem(key, r);
          assert items[i + 1] == DataItem(key, r);
        }
      }
      r
  }

  /** The items after inserting `value` at `key`: the first item with the
      key takes the value, or a new item is appended. */
  function InsertItems<V>(items: seq<DataItem<V>>, key: u8, value: V): (r: seq<DataItem<V>>)
  {
    var i := IndexOf(items, key);
    if i.Some? then items[i.value := DataItem(key, Some(value))]
    else items + [DataItem(key, Some(value))]
  }

  /** Every key occurs once, and every item holds a value. */
  ghost predicate WellFormed<V>(items: seq<DataItem<V>>)
  {
    && (forall i, j :: 0 <= i < j < |items| ==> items[i].key != items[j].key)
    && (forall i :: 0 <= i < |items| ==> items[i].value.Some?)
  }

  lemma {:induction false} FindValueAtIndex<V>(items: seq<DataItem<V>>, key: u8)
    requires IndexOf(items, key).Some? && items[IndexOf(items, key).value].value.Some?
    ensures FindValue(items, key) == items[IndexOf(items, key).value].value
    decreases |items|
  {
    if items[0].key != key {
      FindValueAtIndex(items[1..], key);
    }
  }

  lemma {:induction false} FindValueFrame<V>(items: seq<DataItem<V>>, other: seq<DataItem<V>>, key: u8)
    requires |items| <= |other|
    requires forall i :: 0 <= i < |items| && (items[i].key == key || other[i].key == key) ==> items[i] == other[i]
    requires forall i :: |items| <= i < |other| ==> other[i].key != key
    ensures FindValue(other, key) == FindValue(items, key)
    decreases |items|
  {
    if |items| == 0 {
      assert FindValue(other, key).None?;
    } else {
      FindValueFrame(items[1..], other[1..], key);
    }
  }

  /** After an insert, `get` of the key finds the inserted value, and `get`
      of every other key finds what it found before. */
  lemma GetAfterInsert<V>(items: seq<DataItem<V>>, key: u8, value: V, other: u8)
    ensures FindValue(InsertItems(items, key, value), key) == Some(value)
    ensures other != key ==> FindValue(InsertItems(items, key, value), other) == FindValue(items, other)
  {
    var after := InsertItems(items, key, value);
    var i := IndexOf(items, key);
    if i.Some? {
      assert IndexOf(after, key) == i by {
        IndexOfStable(items, after, key, i.value);
      }
      FindValueAtIndex(after, key);
      if other != key {
        FindValueFrame(items, after, other);
      }
    } else {
      IndexOfAppended(items, key, value);
      FindValueAtIndex(after, key);
      if other != key {
        FindValueFrame(items, after, other);
      }
    }
  }

  lemma IndexOfStable<V>(items: seq<DataItem<V>>, after: seq<DataItem<V>>, key: u8, i: nat)
    requires IndexOf(items, key) == Some(i)
    requires |after| == |items| && after[i].key == key
    requires forall k :: 0 <= k < |items| && k != i ==> after[k] == items[k]
    ensures IndexOf(after, key) == Some(i)
  {
  }

  lemma {:induction false} IndexOfAppended<V>(items: seq<DataItem<V>>, key: u8, value: V)
    requires IndexOf(items, key).None?
    ensures IndexOf(items + [DataItem(key, Some(value))], key) == Some(|items|)
    decreases |items|
  {
    if |items| > 0 {
      assert (items + [DataItem(key, Some(value))])[1..] == items[1..] + [DataItem(key, Some(value))];
      IndexOfAppended(items[1..], key, value);
    }
  }

  /** Inserting keeps every key once and every item holding a value, and
      on well-formed items the value replaced is the one `get` found. */
  lemma InsertWellFormed<V>(items: seq<DataItem<V>>, key: u8, value: V)
    requires WellFormed(items)
    ensures WellFormed(InsertItems(items, key, value))
    ensures IndexOf(items, key).Some? ==> items[IndexOf(items, key).value].value == FindValue(items, key)
  {
    if IndexOf(items, key).Some? {
      FindValueAtIndex(items, key);
    }
  }

  /** `UserData`: the user's values, one per key. */
  class UserData<V> {
    var data: seq<DataItem<V>>

    /** `empty`: no items. */
    constructor Empty()
      ensures data == []
      ensures WellFormed(data)
    {
      data := [];
    }

    /** `insert`: the loop over the items for the key, replacing its value
        and returning the old one, or appending a new item. */
    method Insert(key: u8, value: V) returns (prev: Option<V>)
      modifies this
      ensures data == InsertItems(old(data), key, value)
      ensures IndexOf(old(data), key).Some? ==> prev == old(data)[IndexOf(old(data), key).value].value
      ensures IndexOf(old(data), key).None? ==> prev.None?
    {
      var i := 0;
      while i < |data|
        invariant i <= |data| && data == old(data)
        invariant forall k :: 0 <= k < i ==> data[k].key != key
      {
        if data[i].key == key {
          prev := data[i].value;
          data := data[i := DataItem(key, Some(value))];
          return;
        }
        i := i + 1;
      }
      data := data + [DataItem(key, Some(value))];
      prev := None;
    }

    /** `get`: the value stored at `key`, if any. */
    function Get(key: u8): (r: Option<V>)
      reads this
      ensures r.Some? ==> exists i :: 0 <= i < |data| && data[i] == DataItem(key, r)
      ensures r.None? ==> forall i :: 0 <= i < |data| && data[i].key == key ==> data[i].value.None?
    {
      FindValue(data, key)
    }
  }
}
