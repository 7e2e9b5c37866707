// RTPHashTable: the hash table whose elements are their own keys. It has the structure and the
// branches of RTPKeyHashTable with `element` in place of `key`; only the error codes differ.

module HashTable {
  import opened TableSpec
  import opened KeyHashTable

  const ELEMENT_ALREADY_EXISTS: int := -4
  const ELEMENT_NOT_FOUND: int := -5
  const HASHTABLE_INVALID_HASH_INDEX: int := -6
  const HASHTABLE_NO_CURRENT_ELEMENT: int := -7

  function ErrorCode(keyStatus: int): (status: int)
    ensures status < 0 <==> keyStatus in {INVALID_HASH_INDEX, KEY_ALREADY_EXISTS, KEY_NOT_FOUND, NO_CURRENT_ELEMENT}
    ensures status == OK <==> status >= 0
  {
    if keyStatus == INVALID_HASH_INDEX then HASHTABLE_INVALID_HASH_INDEX
    else if keyStatus == KEY_ALREADY_EXISTS then ELEMENT_ALREADY_EXISTS
    else if keyStatus == KEY_NOT_FOUND then ELEMENT_NOT_FOUND
    else if keyStatus == NO_CURRENT_ELEMENT then HASHTABLE_NO_CURRENT_ELEMENT
    else OK
  }

  /** The elements in insertion order. */
  ghost function Firsts<E>(entries: seq<(E, ())>): (r: seq<E>)
    ensures |r| == |entries|
    ensures forall i :: 0 <= i < |r| ==> r[i] == entries[i].0
  {
    seq(|entries|, i requires 0 <= i < |entries| => entries[i].0)
  }

  lemma {:induction false} FindByElement<E>(entries: seq<(E, ())>, e: E)
    ensures Find(entries, e).At? <==> e in Firsts(entries)
    ensures Find(entries, e).At? ==> Firsts(entries)[Find(entries, e).index] == e
  {
    if entries != [] {
      FindByElement(entries[1..], e);
      assert Firsts(entries) == [entries[0].0] + Firsts(entries[1..]);
    }
  }

  class HashTable<E(==)> {
    const inner: KeyHashTable<E, ()>

    ghost predicate Valid()
      reads this, inner, inner.table, inner.list
    {
      inner.Valid()
    }

    ghost function Elements(): seq<E>
      reads inner`list
    {
      Firsts(inner.Entries())
    }

    ghost function Current(): Cursor
      reads inner`cursor
    {
      inner.cursor
    }

    constructor (getIndex: E -> nat, hashsize: nat)
      ensures Valid() && fresh(inner.Repr())
      ensures inner.getIndex == getIndex && inner.table.Length == hashsize
      ensures Elements() == [] && Current() == Unset
    {
      inner := new KeyHashTable(getIndex, hashsize);
    }

    method HasElement(e: E) returns (found: bool)
      requires Valid()
      ensures found <==> inner.getIndex(e) < inner.table.Length && e in Elements()
    {
      FindByElement(inner.Entries(), e);
      found := inner.HasElement(e);
    }

    method GotoElement(e: E) returns (status: int)
      requires Valid()
      modifies inner`curhashelem, inner`cursor
      ensures Valid() && Elements() == old(Elements())
      ensures status == (if inner.getIndex(e) >= inner.table.Length then -6
                         else if e in Elements() then 0 else -5)
      ensures status == HASHTABLE_INVALID_HASH_INDEX ==> Current() == old(Current())
      ensures status == ELEMENT_NOT_FOUND ==> Current() == Off
      ensures status == OK ==>
                Current().At? && Current().index < |Elements()| && Elements()[Current().index] == e
    {
      FindByElement(inner.Entries(), e);
      var s := inner.GotoElement(e);
      status := ErrorCode(s);
    }

    function GetCurrentElement(): (e: E)
      requires Valid() && Current().At?
      reads this, inner, inner.table, inner.list
      ensures Current().index < |Elements()| && e == Elements()[Current().index]
    {
      inner.GetCurrentKey()
    }

    method AddElement(e: E) returns (status: int)
      requires Valid()
      modifies inner.Repr()
      ensures Valid() && fresh(inner.Repr() - old(inner.Repr()))
      ensures status == (if inner.getIndex(e) >= inner.table.Length then -6
                         else if e in old(Elements()) then -4 else 0)
      ensures Elements() == old(Elements()) + (if status == OK then [e] else [])
      ensures Current() == old(Current())
    {
      FindByElement(inner.Entries(), e);
      var s := inner.AddElement(e, ());
      status := ErrorCode(s);
    }

    method DeleteCurrentElement() returns (status: int)
      requires Valid() && Current() != Unset
      modifies inner.Repr()
      ensures Valid() && inner.Repr() <= old(inner.Repr())
      ensures status == if old(Current()).At? then 0 else -7
      ensures status != OK ==> Elements() == old(Elements()) && Current() == old(Current())
      ensures status == OK ==>
                var i := old(Current()).index;
                && i < |old(Elements())|
                && Elements() == RemoveAt(old(Elements()), i)
                && Current() == AfterDelete(i, |old(Elements())|)
    {
      var s := inner.DeleteCurrentElement();
      status := ErrorCode(s);
    }

    method DeleteElement(e: E) returns (status: int)
      requires Valid()
      modifies inner.Repr()
      ensures Valid() && inner.Repr() <= old(inner.Repr())
      ensures status == (if inner.getIndex(e) >= inner.table.Length then -6
                         else if e in old(Elements()) then 0 else -5)
      ensures status != OK ==> Elements() == old(Elements())
      ensures status == HASHTABLE_INVALID_HASH_INDEX ==> Current() == old(Current())
      ensures status == ELEMENT_NOT_FOUND ==> Current() == Off
      ensures status == OK ==>
                exists i: nat :: i < |old(Elements())| && old(Elements())[i] == e
                                 && Elements() == RemoveAt(old(Elements()), i)
                                 && Current() == AfterDelete(i, |old(Elements())|)
    {
      FindByElement(inner.Entries(), e);
      ghost var i := Find(inner.Entries(), e);
      var s := inner.DeleteElement(e);
      status := ErrorCode(s);
      if status == OK {
        assert Elements() == RemoveAt(old(Elements()), i.index);
      }
    }
  }
}
