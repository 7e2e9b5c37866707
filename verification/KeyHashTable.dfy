// RTPKeyHashTable: a hash table whose elements also form a doubly linked list in
// insertion order, with a cursor on that list.

/** The table as a client sees it: an insertion-ordered list of entries and a cursor. */
module TableSpec {
  import opened Sequences

  datatype Cursor = Unset | Off | At(index: nat)

  datatype View<K, E> = View(entries: seq<(K, E)>, cursor: Cursor)

  const OK: int := 0
  const INVALID_HASH_INDEX: int := -8
  const KEY_ALREADY_EXISTS: int := -9
  const KEY_NOT_FOUND: int := -10
  const NO_CURRENT_ELEMENT: int := -11

  /** Where the first entry with key k is; Off when there is none. */
  function Find<K(==), E>(entries: seq<(K, E)>, k: K): (c: Cursor)
    ensures c != Unset
    ensures c.At? ==> c.index < |entries| && entries[c.index].0 == k
  {
    if entries == [] then Off
    else if entries[0].0 == k then At(0)
    else
      match Find(entries[1..], k)
      case At(i) => At(i + 1)
      case _ => Off
  }

  lemma {:induction false} FindAt<K, E>(entries: seq<(K, E)>, i: nat)
    requires DistinctKeys(entries) && i < |entries|
    ensures Find(entries, entries[i].0) == At(i)
  {
    if i > 0 {
      assert entries[0].0 != entries[i].0;
      FindAt(entries[1..], i - 1);
    }
  }

  lemma {:induction false} FindAbsent<K, E>(entries: seq<(K, E)>, k: K)
    requires Find(entries, k) == Off
    ensures forall i :: 0 <= i < |entries| ==> entries[i].0 != k
  {
    if entries != [] {
      FindAbsent(entries[1..], k);
    }
  }

  lemma {:induction false} FindOff<K, E>(entries: seq<(K, E)>, k: K)
    requires forall i :: 0 <= i < |entries| ==> entries[i].0 != k
    ensures Find(entries, k) == Off
  {
    if entries != [] {
      FindOff(entries[1..], k);
    }
  }

  ghost predicate DistinctKeys<K, E>(entries: seq<(K, E)>) {
    forall i, j :: 0 <= i < j < |entries| ==> entries[i].0 != entries[j].0
  }

  /** A cursor that a Goto call has set is off the list or on one of its entries. */
  ghost predicate Consistent<K, E>(v: View<K, E>) {
    DistinctKeys(v.entries) && (v.cursor.At? ==> v.cursor.index < |v.entries|)
  }

  function RemoveAt<T>(s: seq<T>, k: nat): (r: seq<T>)
    requires k < |s|
    ensures |r| == |s| - 1
    ensures forall i :: 0 <= i < |r| ==> r[i] == if i < k then s[i] else s[i + 1]
  {
    seq(|s| - 1, i requires 0 <= i < |s| - 1 => if i < k then s[i] else s[i + 1])
  }

  lemma RemoveMiddle<T>(a: seq<T>, x: T, b: seq<T>)
    ensures RemoveAt(a + [x] + b, |a|) == a + b
  {
  }

  /** Where the cursor goes when the entry it stands on is deleted. */
  function AfterDelete(k: nat, n: nat): Cursor
    requires k < n
  {
    if k + 1 < n then At(k) else Off
  }

  /** The entries that survive a sweep which deletes entry i exactly when `deletes[i]`. */
  function Survivors<T>(s: seq<T>, deletes: seq<bool>): (r: seq<T>)
    requires |s| == |deletes|
  {
    if s == [] then []
    else (if deletes[0] then [] else [s[0]]) + Survivors(s[1..], deletes[1..])
  }

  lemma {:induction false} SurvivorsSnoc<T>(s: seq<T>, deletes: seq<bool>, x: T, d: bool)
    requires |s| == |deletes|
    ensures Survivors(s + [x], deletes + [d]) == Survivors(s, deletes) + (if d then [] else [x])
  {
    if s == [] {
      assert ([x])[1..] == [] && ([d])[1..] == [];
    } else {
      var head, tail := if deletes[0] then [] else [s[0]], if d then [] else [x];
      assert (s + [x])[1..] == s[1..] + [x] && (deletes + [d])[1..] == deletes[1..] + [d];
      calc {
        Survivors(s + [x], deletes + [d]);
        head + Survivors(s[1..] + [x], deletes[1..] + [d]);
        { SurvivorsSnoc(s[1..], deletes[1..], x, d); }
        head + (Survivors(s[1..], deletes[1..]) + tail);
        Survivors(s, deletes) + tail;
      }
    }
  }

  /** The survivors keep their order, and a key survives exactly when its entry is not deleted. */
  lemma {:induction false} SurvivorsAreTheKept<K, E>(s: seq<(K, E)>, deletes: seq<bool>)
    requires |s| == |deletes| && DistinctKeys(s)
    ensures IsSubsequence(Survivors(s, deletes), s)
    ensures forall i :: 0 <= i < |s| ==> (s[i] in Survivors(s, deletes) <==> !deletes[i])
  {
    if s != [] {
      SurvivorsAreTheKept(s[1..], deletes[1..]);
      SurvivorsSubset(s[1..], deletes[1..]);
      var rest := Survivors(s[1..], deletes[1..]);
      assert deletes[0] ==> Survivors(s, deletes) == rest;
      assert !deletes[0] ==> Survivors(s, deletes)[1..] == rest;
      forall i | 0 <= i < |s|
        ensures s[i] in Survivors(s, deletes) <==> !deletes[i]
      {
        if i > 0 {
          assert s[i] == s[1..][i - 1] && s[i].0 != s[0].0;
        } else {
          assert s[0] !in s[1..] by {
            assert forall j :: 0 < j < |s| ==> s[j].0 != s[0].0;
          }
        }
      }
    }
  }

  lemma {:induction false} SurvivorsSubset<T>(s: seq<T>, deletes: seq<bool>)
    requires |s| == |deletes|
    ensures forall x :: x in Survivors(s, deletes) ==> x in s
  {
    if s != [] {
      SurvivorsSubset(s[1..], deletes[1..]);
    }
  }

  /** The table after deleting the entry under the cursor, or stepping over it. */
  ghost function Advance<K, E>(v: View<K, E>, del: bool): View<K, E> {
    if !v.cursor.At? || v.cursor.index >= |v.entries| then v
    else
      var i := v.cursor.index;
      if del then View(RemoveAt(v.entries, i), AfterDelete(i, |v.entries|))
      else v.(cursor := if i + 1 < |v.entries| then At(i + 1) else Off)
  }

  /** The table after a sweep has taken its first n decisions. */
  ghost function SweepRun<K, E>(v: View<K, E>, deletes: seq<bool>, n: nat): View<K, E>
    requires n <= |deletes|
  {
    if n == 0 then v else Advance(SweepRun(v, deletes, n - 1), deletes[n - 1])
  }

  ghost function SweepStart<K, E>(all: seq<(K, E)>): View<K, E> {
    View(all, if all == [] then Off else At(0))
  }

  lemma AdvanceAcross<K, E>(kept: seq<(K, E)>, x: (K, E), rest: seq<(K, E)>, del: bool)
    ensures var kept' := kept + (if del then [] else [x]);
            Advance(View(kept + ([x] + rest), At(|kept|)), del)
            == View(kept' + rest, if rest != [] then At(|kept'|) else Off)
  {
    assert RemoveAt(kept + ([x] + rest), |kept|) == kept + rest;
    assert kept + ([x] + rest) == (kept + [x]) + rest;
  }

  /** After n rounds the survivors of the first n entries are followed by the untouched rest,
      and the cursor is on the first untouched entry. */
  lemma {:induction false} SweepTheorem<K, E>(all: seq<(K, E)>, deletes: seq<bool>, n: nat)
    requires n <= |all| == |deletes|
    ensures var kept := Survivors(all[..n], deletes[..n]);
            SweepRun(SweepStart(all), deletes, n) == View(kept + all[n..], if n < |all| then At(|kept|) else Off)
  {
    if n == 0 {
      assert all[0..] == all;
    } else {
      var m := n - 1;
      SweepTheorem(all, deletes, m);
      SurvivorsSnoc(all[..m], deletes[..m], all[m], deletes[m]);
      PrefixSnoc(all, m, all[m]);
      PrefixSnoc(deletes, m, deletes[m]);
      assert all[m..] == [all[m]] + all[n..];
      AdvanceAcross(Survivors(all[..m], deletes[..m]), all[m], all[n..], deletes[m]);
    }
  }

  lemma SweepLooksAt<K, E>(all: seq<(K, E)>, deletes: seq<bool>, n: nat)
    requires n <= |all| == |deletes|
    ensures var v := SweepRun(SweepStart(all), deletes, n);
            && (v.cursor.At? <==> n < |all|)
            && (n < |all| ==> v.cursor.index < |v.entries| && v.entries[v.cursor.index] == all[n])
            && (n == |all| ==> v == View(Survivors(all, deletes), Off))
  {
    SweepTheorem(all, deletes, n);
    if n == |all| {
      assert all[..n] == all && deletes[..n] == deletes && all[n..] == [];
    }
  }

  /** The finite map an entry list stands for. */
  ghost function ToMap<K, E>(entries: seq<(K, E)>): map<K, E> {
    if entries == [] then map[]
    else ToMap(entries[1..])[entries[0].0 := entries[0].1]
  }

  lemma {:induction false} ToMapKeys<K, E>(entries: seq<(K, E)>, k: K)
    ensures k in ToMap(entries) <==> Find(entries, k).At?
    ensures k in ToMap(entries) ==> ToMap(entries)[k] == entries[Find(entries, k).index].1
  {
    if entries != [] {
      ToMapKeys(entries[1..], k);
    }
  }

  /** Appending an absent key is a map insertion. */
  lemma {:induction false} AppendIsInsert<K, E>(entries: seq<(K, E)>, k: K, e: E)
    requires Find(entries, k) == Off
    ensures ToMap(entries + [(k, e)]) == ToMap(entries)[k := e]
  {
    if entries == [] {
      assert ([(k, e)])[1..] == [];
    } else {
      AppendIsInsert(entries[1..], k, e);
      assert (entries + [(k, e)])[1..] == entries[1..] + [(k, e)];
    }
  }

  /** Deleting the entry of a key is a map removal. */
  lemma {:induction false} RemoveIsDelete<K, E>(entries: seq<(K, E)>, i: nat)
    requires DistinctKeys(entries) && i < |entries|
    ensures ToMap(RemoveAt(entries, i)) == ToMap(entries) - {entries[i].0}
    ensures DistinctKeys(RemoveAt(entries, i))
  {
    var k := entries[i].0;
    if i == 0 {
      assert RemoveAt(entries, 0) == entries[1..];
      FindOff(entries[1..], k);
      ToMapKeys(entries[1..], k);
    } else {
      RemoveIsDelete(entries[1..], i - 1);
      assert RemoveAt(entries, i) == [entries[0]] + RemoveAt(entries[1..], i - 1);
      assert entries[0].0 != k;
    }
  }
}

module KeyHashTable {
  import opened Sequences
  import opened TableSpec

  /** One element, a node of its bucket chain and of the global list. */
  class HashElement<K, E> {
    const hashindex: nat
    const key: K
    const element: E
    var hashprev: HashElement?<K, E>
    var hashnext: HashElement?<K, E>
    var listprev: HashElement?<K, E>
    var listnext: HashElement?<K, E>

    constructor (k: K, e: E, index: nat)
      ensures key == k && element == e && hashindex == index
      ensures hashprev == null && hashnext == null && listprev == null && listnext == null
    {
      key := k;
      element := e;
      hashindex := index;
      hashprev := null;
      hashnext := null;
      listprev := null;
      listnext := null;
    }
  }

  /** The node at position i, or null outside the sequence. */
  ghost function NodeAt<K, E>(s: seq<HashElement<K, E>>, i: int): HashElement?<K, E> {
    if 0 <= i < |s| then s[i] else null
  }

  ghost predicate Injective<T>(s: seq<T>) {
    forall i, j :: 0 <= i < j < |s| ==> s[i] != s[j]
  }

  ghost predicate ListLinked<K, E>(s: seq<HashElement<K, E>>)
    reads s`listprev, s`listnext
  {
    && (forall i {:trigger s[i].listnext} :: 0 <= i < |s| ==> s[i].listnext == NodeAt(s, i + 1))
    && (forall i {:trigger s[i].listprev} :: 0 <= i < |s| ==> s[i].listprev == NodeAt(s, i - 1))
  }

  /** The chain c is doubly linked and starts at head. */
  ghost predicate ChainLinked<K, E>(head: HashElement?<K, E>, c: seq<HashElement<K, E>>)
    reads c`hashprev, c`hashnext
  {
    && head == NodeAt(c, 0)
    && (forall i {:trigger c[i].hashnext} :: 0 <= i < |c| ==> c[i].hashnext == NodeAt(c, i + 1))
    && (forall i {:trigger c[i].hashprev} :: 0 <= i < |c| ==> c[i].hashprev == NodeAt(c, i - 1))
  }

  lemma NodeRemove<K, E>(s: seq<HashElement<K, E>>, p: nat, i: int)
    requires p < |s|
    ensures NodeAt(RemoveAt(s, p), i) == NodeAt(s, if i < p then i else i + 1)
  {
  }

  /** Chain c with element p bypassed is linked without it. */
  lemma ChainClosed<K, E>(head: HashElement?<K, E>, c: seq<HashElement<K, E>>, p: nat)
    requires p < |c| && head == NodeAt(c, if p == 0 then 1 else 0)
    requires p > 0 ==> c[p - 1].hashnext == NodeAt(c, p + 1)
    requires p + 1 < |c| ==> c[p + 1].hashprev == NodeAt(c, p - 1)
    requires forall i {:trigger c[i].hashnext} :: 0 <= i < |c| && i != p && i + 1 != p ==> c[i].hashnext == NodeAt(c, i + 1)
    requires forall i {:trigger c[i].hashprev} :: 0 <= i < |c| && i != p && i - 1 != p ==> c[i].hashprev == NodeAt(c, i - 1)
    ensures ChainLinked(head, RemoveAt(c, p))
  {
    var rest := RemoveAt(c, p);
    forall i | 0 <= i < |rest|
      ensures rest[i].hashnext == NodeAt(rest, i + 1)
    {
      NodeRemove(c, p, i + 1);
      assert rest[i] == if i < p then c[i] else c[i + 1];
    }
    forall i | 0 <= i < |rest|
      ensures rest[i].hashprev == NodeAt(rest, i - 1)
    {
      NodeRemove(c, p, i - 1);
      assert rest[i] == if i < p then c[i] else c[i + 1];
    }
  }

  /** List c with element p bypassed is linked without it. */
  lemma ListClosed<K, E>(c: seq<HashElement<K, E>>, p: nat)
    requires p < |c|
    requires p > 0 ==> c[p - 1].listnext == NodeAt(c, p + 1)
    requires p + 1 < |c| ==> c[p + 1].listprev == NodeAt(c, p - 1)
    requires forall i {:trigger c[i].listnext} :: 0 <= i < |c| && i != p && i + 1 != p ==> c[i].listnext == NodeAt(c, i + 1)
    requires forall i {:trigger c[i].listprev} :: 0 <= i < |c| && i != p && i - 1 != p ==> c[i].listprev == NodeAt(c, i - 1)
    ensures ListLinked(RemoveAt(c, p))
  {
    var rest := RemoveAt(c, p);
    forall i | 0 <= i < |rest|
      ensures rest[i].listnext == NodeAt(rest, i + 1)
    {
      NodeRemove(c, p, i + 1);
      assert rest[i] == if i < p then c[i] else c[i + 1];
    }
    forall i | 0 <= i < |rest|
      ensures rest[i].listprev == NodeAt(rest, i - 1)
    {
      NodeRemove(c, p, i - 1);
      assert rest[i] == if i < p then c[i] else c[i + 1];
    }
  }

  /** Bucket b: the list restricted to hash index b, newest element first. */
  ghost function Chain<K, E>(s: seq<HashElement<K, E>>, b: nat): (c: seq<HashElement<K, E>>)
    ensures forall i :: 0 <= i < |c| ==> c[i] in s
    ensures forall i {:trigger c[i].hashindex} :: 0 <= i < |c| ==> c[i].hashindex == b
  {
    if s == [] then []
    else Chain(s[1..], b) + (if s[0].hashindex == b then [s[0]] else [])
  }

  lemma {:induction false} ChainHas<K, E>(s: seq<HashElement<K, E>>, i: nat)
    requires i < |s|
    ensures s[i] in Chain(s, s[i].hashindex)
  {
    if i > 0 {
      ChainHas(s[1..], i - 1);
    }
  }

  lemma {:induction false} ChainInjective<K, E>(s: seq<HashElement<K, E>>, b: nat)
    requires Injective(s)
    ensures Injective(Chain(s, b))
  {
    if s != [] {
      ChainInjective(s[1..], b);
      assert s[0] !in s[1..];
    }
  }

  lemma ChainsDisjoint<K, E>(s: seq<HashElement<K, E>>, b: nat, b': nat)
    requires b != b'
    ensures forall e :: e in Chain(s, b) ==> e in s && e !in Chain(s, b')
  {
  }

  lemma {:induction false} ChainConcat<K, E>(s: seq<HashElement<K, E>>, t: seq<HashElement<K, E>>, b: nat)
    ensures Chain(s + t, b) == Chain(t, b) + Chain(s, b)
  {
    if s == [] {
      assert s + t == t;
    } else {
      var own := if s[0].hashindex == b then [s[0]] else [];
      assert (s + t)[1..] == s[1..] + t;
      calc {
        Chain(s + t, b);
        Chain(s[1..] + t, b) + own;
        { ChainConcat(s[1..], t, b); }
        Chain(t, b) + Chain(s[1..], b) + own;
        Chain(t, b) + Chain(s, b);
      }
    }
  }

  /** A new element goes to the head of its own bucket and into no other. */
  lemma ChainSnoc<K, E>(s: seq<HashElement<K, E>>, n: HashElement<K, E>, b: nat)
    ensures n.hashindex == b ==> Chain(s + [n], b) == [n] + Chain(s, b)
    ensures n.hashindex != b ==> Chain(s + [n], b) == Chain(s, b)
  {
    ChainConcat(s, [n], b);
    assert Chain([n], b) == if n.hashindex == b then [n] else [];
  }

  /** Chains around list element k: it sits in its own bucket after the newer elements. */
  lemma ChainSplit<K, E>(s: seq<HashElement<K, E>>, k: nat, b: nat)
    requires k < |s|
    ensures Chain(s, b) == Chain(s[k + 1..], b) + (if s[k].hashindex == b then [s[k]] else []) + Chain(s[..k], b)
    ensures Chain(RemoveAt(s, k), b) == Chain(s[k + 1..], b) + Chain(s[..k], b)
  {
    assert s == s[..k] + s[k..];
    assert s[k..][1..] == s[k + 1..];
    ChainConcat(s[..k], s[k..], b);
    ChainConcat(s[..k], s[k + 1..], b);
    assert RemoveAt(s, k) == s[..k] + s[k + 1..];
  }

  /** In its own bucket, element k of the list comes after the newer elements and no others. */
  lemma ChainRemove<K, E>(s: seq<HashElement<K, E>>, k: nat)
    requires k < |s|
    ensures var c, p := Chain(s, s[k].hashindex), |Chain(s[k + 1..], s[k].hashindex)|;
            p < |c| && c[p] == s[k] && Chain(RemoveAt(s, k), s[k].hashindex) == RemoveAt(c, p)
  {
    var b := s[k].hashindex;
    ChainSplit(s, k, b);
    RemoveMiddle(Chain(s[k + 1..], b), s[k], Chain(s[..k], b));
  }

  lemma ChainElsewhere<K, E>(s: seq<HashElement<K, E>>, k: nat, b: nat)
    requires k < |s| && s[k].hashindex != b
    ensures Chain(RemoveAt(s, k), b) == Chain(s, b)
  {
    ChainSplit(s, k, b);
  }

  ghost function EntriesOf<K, E>(s: seq<HashElement<K, E>>): (r: seq<(K, E)>)
    ensures |r| == |s|
    ensures forall i :: 0 <= i < |s| ==> r[i] == (s[i].key, s[i].element)
  {
    seq(|s|, i requires 0 <= i < |s| => (s[i].key, s[i].element))
  }

  lemma EntriesSnoc<K, E>(s: seq<HashElement<K, E>>, n: HashElement<K, E>)
    ensures EntriesOf(s + [n]) == EntriesOf(s) + [(n.key, n.element)]
  {
  }

  lemma EntriesRemove<K, E>(s: seq<HashElement<K, E>>, k: nat)
    requires k < |s|
    ensures EntriesOf(RemoveAt(s, k)) == RemoveAt(EntriesOf(s), k)
  {
  }

  class KeyHashTable<K(==), E> {
    const getIndex: K -> nat
    const table: array<HashElement?<K, E>>
    var firsthashelem: HashElement?<K, E>
    var lasthashelem: HashElement?<K, E>
    var curhashelem: HashElement?<K, E>
    // The elements in list order, and where the cursor is. The cursor is Unset until a Goto
    // call gives curhashelem a value.
    ghost var list: seq<HashElement<K, E>>
    ghost var cursor: Cursor

    ghost predicate Valid()
      reads this, table, list
    {
      && Structured()
      && CursorValid()
    }

    /** The list and the buckets hold the same elements, each properly linked. */
    ghost predicate Structured()
      reads this`list, this`firsthashelem, this`lasthashelem, table, list
    {
      && ElementsFit(list)
      && ListValid(list)
      && BucketsLinked(list)
    }

    /** Distinct nodes with distinct keys, each carrying the index its key hashes to. */
    ghost predicate ElementsFit(s: seq<HashElement<K, E>>) {
      && (forall i {:trigger s[i].hashindex} ::
            0 <= i < |s| ==> s[i].hashindex == getIndex(s[i].key) < table.Length)
      && (forall i, j {:trigger s[i].key, s[j].key} :: 0 <= i < j < |s| ==> s[i].key != s[j].key)
    }

    /** The global list is s. */
    ghost predicate ListValid(s: seq<HashElement<K, E>>)
      reads this`firsthashelem, this`lasthashelem, s`listprev, s`listnext
    {
      && ListLinked(s)
      && firsthashelem == NodeAt(s, 0)
      && lasthashelem == NodeAt(s, |s| - 1)
    }

    /** The buckets are exactly the chains of s: they partition s by hash index. */
    ghost predicate BucketsLinked(s: seq<HashElement<K, E>>)
      reads table, s`hashprev, s`hashnext
    {
      forall b :: 0 <= b < table.Length ==> ChainLinked(table[b], Chain(s, b))
    }

    ghost predicate CursorValid()
      reads this`list, this`cursor, this`curhashelem
    {
      && (cursor.At? ==> cursor.index < |list| && curhashelem == list[cursor.index])
      && (cursor.Off? ==> curhashelem == null)
    }

    ghost function Entries(): (r: seq<(K, E)>)
      reads this`list
      ensures |r| == |list|
    {
      EntriesOf(list)
    }

    ghost function Abs(): View<K, E>
      reads this`list, this`cursor
    {
      View(Entries(), cursor)
    }

    /** Everything the table owns. */
    ghost function Repr(): set<object>
      reads this`list
    {
      {this, table} + set e | e in list
    }

    constructor (getIndex: K -> nat, hashsize: nat)
      ensures Valid() && fresh(Repr())
      ensures this.getIndex == getIndex && table.Length == hashsize
      ensures Abs() == View([], Unset)
    {
      this.getIndex := getIndex;
      table := new HashElement?<K, E>[hashsize](_ => null);
      firsthashelem := null;
      lasthashelem := null;
      curhashelem := null;
      list := [];
      cursor := Unset;
    }

    method GotoFirstElement()
      requires Valid()
      modifies this`curhashelem, this`cursor
      ensures Valid()
      ensures Abs() == old(Abs()).(cursor := if old(Entries()) == [] then Off else At(0))
    {
      curhashelem := firsthashelem;
      cursor := if |list| == 0 then Off else At(0);
    }

    method GotoLastElement()
      requires Valid()
      modifies this`curhashelem, this`cursor
      ensures Valid()
      ensures Abs() == old(Abs()).(cursor := if old(Entries()) == [] then Off else At(|old(Entries())| - 1))
    {
      curhashelem := lasthashelem;
      cursor := if |list| == 0 then Off else At(|list| - 1);
    }

    predicate HasCurrentElement()
      requires Valid() && cursor != Unset
      reads this, table, list
      ensures HasCurrentElement() <==> cursor.At?
    {
      curhashelem != null
    }

    function GetCurrentElement(): (e: E)
      requires Valid() && cursor.At?
      reads this, table, list
      ensures e == Entries()[cursor.index].1
    {
      curhashelem.element
    }

    function GetCurrentKey(): (k: K)
      requires Valid() && cursor.At?
      reads this, table, list
      ensures k == Entries()[cursor.index].0
    {
      curhashelem.key
    }

    method GotoNextElement()
      requires Valid() && cursor != Unset
      modifies this`curhashelem, this`cursor
      ensures Valid()
      ensures Abs() == old(Abs()).(cursor :=
                if old(cursor).At? && old(cursor).index + 1 < |old(Entries())| then At(old(cursor).index + 1) else Off)
    {
      if curhashelem != null {
        assert curhashelem.listnext == NodeAt(list, cursor.index + 1);
        curhashelem := curhashelem.listnext;
        cursor := if cursor.index + 1 < |list| then At(cursor.index + 1) else Off;
      }
    }

    method GotoPreviousElement()
      requires Valid() && cursor != Unset
      modifies this`curhashelem, this`cursor
      ensures Valid()
      ensures Abs() == old(Abs()).(cursor :=
                if old(cursor).At? && old(cursor).index > 0 then At(old(cursor).index - 1) else Off)
    {
      if curhashelem != null {
        assert curhashelem.listprev == NodeAt(list, cursor.index - 1);
        curhashelem := curhashelem.listprev;
        cursor := if cursor.index > 0 then At(cursor.index - 1) else Off;
      }
    }

    lemma ListInjective()
      requires ElementsFit(list)
      ensures Injective(list)
    {
      forall i, j | 0 <= i < j < |list|
        ensures list[i] != list[j]
      {
        assert list[i].key != list[j].key;
      }
    }

    /** Relinking the list does not touch the buckets. */
    twostate lemma BucketsKept(s: seq<HashElement<K, E>>)
      requires old(BucketsLinked(s)) && unchanged(table)
      requires forall e :: e in s ==> unchanged(e`hashprev) && unchanged(e`hashnext)
      ensures BucketsLinked(s)
    {
    }

    /** Moving the cursor touches neither structure. */
    twostate lemma StructureKept()
      requires old(Structured()) && unchanged(table) && unchanged(this`list)
      requires unchanged(this`firsthashelem) && unchanged(this`lasthashelem)
      requires forall e :: e in list ==> unchanged(e)
      ensures Structured()
    {
      forall i | 0 <= i < |list|
        ensures list[i].listnext == old(list[i].listnext) && list[i].listprev == old(list[i].listprev)
      {
        assert list[i] in list;
      }
      BucketsKept(list);
    }

    /** A key absent from its bucket is absent from the table. */
    lemma BucketMiss(k: K, index: nat)
      requires ElementsFit(list)
      requires index == getIndex(k)
      requires forall j :: 0 <= j < |Chain(list, index)| ==> Chain(list, index)[j].key != k
      ensures Find(Entries(), k) == Off
    {
      forall i | 0 <= i < |list|
        ensures Entries()[i].0 != k
      {
        if list[i].key == k {
          ChainHas(list, i);
          assert false;
        }
      }
      FindOff(Entries(), k);
    }

    /** A key found in its bucket is in the table. */
    lemma BucketHit(k: K, e: HashElement<K, E>)
      requires ElementsFit(list) && e in list && e.key == k
      ensures Find(Entries(), k).At?
      ensures var i := Find(Entries(), k).index; i < |list| && list[i] == e
    {
      var i :| 0 <= i < |list| && list[i] == e;
      FindAt(Entries(), i);
    }

    /** The bucket walk of GotoElement, HasElement and AddElement: the element with key k, or null. */
    method FindInBucket(k: K, index: nat) returns (e: HashElement?<K, E>)
      requires Valid() && index == getIndex(k) < table.Length
      ensures e == null ==> Find(Entries(), k) == Off
      ensures e != null ==> Find(Entries(), k).At?
      ensures e != null ==> var i := Find(Entries(), k).index; i < |list| && list[i] == e
    {
      e := table[index];
      var found := false;
      ghost var c := Chain(list, index);
      assert ChainLinked(table[index], c);
      ghost var p: nat := 0;
      while !found && e != null
        invariant p <= |c| && e == NodeAt(c, p)
        invariant found ==> p < |c| && c[p].key == k
        invariant forall j :: 0 <= j < p ==> c[j].key != k
        decreases |c| - p, !found
      {
        if e.key == k {
          found := true;
        } else {
          e := e.hashnext;
          p := p + 1;
        }
      }
      if found {
        BucketHit(k, e);
      } else {
        BucketMiss(k, index);
      }
    }

    method HasElement(k: K) returns (found: bool)
      requires Valid()
      ensures found <==> getIndex(k) < table.Length && Find(Entries(), k).At?
    {
      var index := getIndex(k);
      if index >= table.Length {
        return false;
      }
      var tmp := FindInBucket(k, index);
      found := tmp != null;
    }

    method GotoElement(k: K) returns (status: int)
      requires Valid()
      modifies this`curhashelem, this`cursor
      ensures Valid()
      ensures status == (if getIndex(k) >= table.Length then -8
                         else if Find(Entries(), k).At? then 0 else -10)
      ensures Abs() == old(Abs()).(cursor := if status == INVALID_HASH_INDEX then old(cursor) else Find(Entries(), k))
    {
      var index := getIndex(k);
      if index >= table.Length {
        return INVALID_HASH_INDEX;
      }
      var e := FindInBucket(k, index);
      curhashelem, cursor := e, Find(Entries(), k);
      StructureKept();
      if e == null {
        return KEY_NOT_FOUND;
      }
      return OK;
    }

    /** Puts a new node at the head of its bucket chain c. */
    method LinkBucket(n: HashElement<K, E>, ghost c: seq<HashElement<K, E>>)
      requires n.hashindex < table.Length && ChainLinked(table[n.hashindex], c)
      requires Injective(c) && n !in c && n.hashprev == null
      modifies table, n`hashnext, c`hashprev
      ensures ChainLinked(table[n.hashindex], [n] + c)
      ensures forall b :: 0 <= b < table.Length && b != n.hashindex ==> table[b] == old(table[b])
    {
      var e := table[n.hashindex];
      table[n.hashindex] := n;
      n.hashnext := e;
      if e != null {
        e.hashprev := n;
      }
    }

    /** A bucket whose nodes were not relinked is as it was. */
    twostate lemma BucketKept(b: nat)
      requires b < table.Length && table[b] == old(table[b]) && list == old(list)
      requires old(ChainLinked(table[b], Chain(list, b)))
      requires forall e :: e in Chain(list, b) ==> unchanged(e`hashprev) && unchanged(e`hashnext)
      ensures ChainLinked(table[b], Chain(list, b))
    {
      var c := Chain(list, b);
      forall i | 0 <= i < |c|
        ensures c[i].hashnext == old(c[i].hashnext) && c[i].hashprev == old(c[i].hashprev)
      {
        assert c[i] in c;
      }
    }

    /** Afterwards every bucket is linked for the list extended by n. */
    method LinkBuckets(n: HashElement<K, E>)
      requires Injective(list) && BucketsLinked(list)
      requires n !in list && n.hashindex < table.Length && n.hashprev == null
      modifies table, n`hashnext, list`hashprev
      ensures BucketsLinked(list + [n])
    {
      ghost var index := n.hashindex;
      ChainInjective(list, index);
      LinkBucket(n, Chain(list, index));
      forall b | 0 <= b < table.Length
        ensures ChainLinked(table[b], Chain(list + [n], b))
      {
        ChainSnoc(list, n, b);
        if b != index {
          ChainsDisjoint(list, b, index);
          BucketKept(b);
        }
      }
    }

    /** Appends a new node to the global list s. */
    method LinkList(n: HashElement<K, E>, ghost s: seq<HashElement<K, E>>)
      requires Injective(s) && ListValid(s)
      requires n !in s && n.listprev == null && n.listnext == null
      modifies this`firsthashelem, this`lasthashelem, n`listprev, s`listnext
      ensures ListValid(s + [n])
    {
      if firsthashelem == null {
        firsthashelem := n;
        lasthashelem := n;
      } else {
        lasthashelem.listnext := n;
        n.listprev := lasthashelem;
        lasthashelem := n;
      }
    }

    lemma ElementsFitSnoc(n: HashElement<K, E>)
      requires ElementsFit(list) && n !in list
      requires n.hashindex == getIndex(n.key) < table.Length
      requires Find(Entries(), n.key) == Off
      ensures ElementsFit(list + [n])
    {
      FindAbsent(Entries(), n.key);
      forall i | 0 <= i < |list|
        ensures list[i].key != n.key
      {
        assert Entries()[i].0 != n.key;
      }
    }

    /** Adds a new node to both structures. */
    method Link(n: HashElement<K, E>)
      requires Structured() && n !in list
      requires n.hashindex == getIndex(n.key) < table.Length
      requires Find(Entries(), n.key) == Off
      requires n.hashprev == null && n.listprev == null && n.listnext == null
      modifies table, this`list, this`firsthashelem, this`lasthashelem
      modifies n, list`hashprev, list`listnext
      ensures Structured()
      ensures list == old(list) + [n]
    {
      ListInjective();
      ElementsFitSnoc(n);
      LinkBuckets(n);
      ghost var longer := list + [n];
      label BeforeList:
      LinkList(n, list);
      BucketsKept@BeforeList(longer);
      list := longer;
    }

    method AddElement(k: K, elem: E) returns (status: int)
      requires Valid()
      modifies Repr()
      ensures Valid() && fresh(Repr() - old(Repr()))
      ensures status == (if getIndex(k) >= table.Length then -8
                         else if Find(old(Entries()), k).At? then -9 else 0)
      ensures Abs() == old(Abs()).(entries := old(Entries()) + if status == OK then [(k, elem)] else [])
    {
      var index := getIndex(k);
      if index >= table.Length {
        return INVALID_HASH_INDEX;
      }
      var e := FindInBucket(k, index);
      if e != null {
        return KEY_ALREADY_EXISTS;
      }
      var newelem := new HashElement(k, elem, index);
      EntriesSnoc(list, newelem);
      StructureKept();
      Link(newelem);
      return OK;
    }

    /** Takes e out of its bucket chain c, where it stands at position p. */
    method UnlinkBucket(e: HashElement<K, E>, ghost c: seq<HashElement<K, E>>, ghost p: nat)
      requires p < |c| && c[p] == e
      requires e.hashindex < table.Length && ChainLinked(table[e.hashindex], c)
      requires Injective(c)
      modifies table, c`hashnext, c`hashprev
      ensures ChainLinked(table[e.hashindex], RemoveAt(c, p))
      ensures forall b :: 0 <= b < table.Length && b != e.hashindex ==> table[b] == old(table[b])
    {
      assert c[p].hashprev == NodeAt(c, p - 1) && c[p].hashnext == NodeAt(c, p + 1);
      var tmp1 := e.hashprev;
      var tmp2 := e.hashnext;
      if tmp1 == null {
        table[e.hashindex] := tmp2;
        if tmp2 != null {
          tmp2.hashprev := null;
        }
      } else {
        tmp1.hashnext := tmp2;
        if tmp2 != null {
          tmp2.hashprev := tmp1;
        }
      }
      ChainClosed(table[e.hashindex], c, p);
    }

    /** Takes the list element k out of every bucket. */
    method UnlinkBuckets(e: HashElement<K, E>, ghost k: nat)
      requires Injective(list) && BucketsLinked(list)
      requires k < |list| && e == list[k] && e.hashindex < table.Length
      modifies table, list`hashprev, list`hashnext
      ensures BucketsLinked(RemoveAt(list, k))
    {
      ghost var index := e.hashindex;
      ChainRemove(list, k);
      ChainInjective(list, index);
      UnlinkBucket(e, Chain(list, index), |Chain(list[k + 1..], index)|);
      forall b | 0 <= b < table.Length && b != index
        ensures ChainLinked(table[b], Chain(RemoveAt(list, k), b))
      {
        ChainsDisjoint(list, b, index);
        BucketKept(b);
        ChainElsewhere(list, k, b);
      }
    }

    /** Takes e out of the global list c, where it stands at position k, and returns its successor. */
    method UnlinkNode(e: HashElement<K, E>, ghost c: seq<HashElement<K, E>>, ghost k: nat)
      returns (next: HashElement?<K, E>)
      requires k < |c| && c[k] == e
      requires Injective(c) && ListValid(c)
      modifies this`firsthashelem, this`lasthashelem, c`listnext, c`listprev
      ensures ListValid(RemoveAt(c, k))
      ensures next == NodeAt(RemoveAt(c, k), k)
    {
      assert c[k].listprev == NodeAt(c, k - 1) && c[k].listnext == NodeAt(c, k + 1);
      var tmp1 := e.listprev;
      var tmp2 := e.listnext;
      if tmp1 == null {
        firsthashelem := tmp2;
        if tmp2 != null {
          tmp2.listprev := null;
        } else {
          lasthashelem := null;
        }
      } else {
        tmp1.listnext := tmp2;
        if tmp2 != null {
          tmp2.listprev := tmp1;
        } else {
          lasthashelem := tmp1;
        }
      }
      ListClosed(c, k);
      next := tmp2;
    }

    lemma ElementsFitRemove(k: nat)
      requires ElementsFit(list) && k < |list|
      ensures ElementsFit(RemoveAt(list, k))
    {
    }

    /** Takes list element k out of both structures and returns its list successor. */
    method Unlink(e: HashElement<K, E>, ghost k: nat) returns (next: HashElement?<K, E>)
      requires Structured() && k < |list| && e == list[k]
      modifies table, this`list, this`firsthashelem, this`lasthashelem
      modifies list`hashprev, list`hashnext, list`listprev, list`listnext
      ensures Structured()
      ensures list == RemoveAt(old(list), k)
      ensures next == NodeAt(list, k)
    {
      ListInjective();
      ElementsFitRemove(k);
      ghost var rest := RemoveAt(list, k);
      UnlinkBuckets(e, k);
      label BeforeList:
      next := UnlinkNode(e, list, k);
      BucketsKept@BeforeList(rest);
      list := rest;
    }

    /** Deletes the element under the cursor and moves the cursor to its list successor. */
    method DeleteCurrentElement() returns (status: int)
      requires Valid() && cursor != Unset
      modifies Repr()
      ensures Valid() && Repr() <= old(Repr())
      ensures status == if old(cursor).At? then 0 else -11
      ensures status != OK ==> Abs() == old(Abs())
      ensures status == OK ==> Abs() == View(RemoveAt(old(Entries()), old(cursor).index),
                                             AfterDelete(old(cursor).index, |old(Entries())|))
    {
      if curhashelem == null {
        return NO_CURRENT_ELEMENT;
      }
      ghost var k := cursor.index;
      EntriesRemove(list, k);
      var next := Unlink(curhashelem, k);
      label Unlinked:
      curhashelem := next;
      cursor := if curhashelem != null then At(k) else Off;
      StructureKept@Unlinked();
      return OK;
    }

    method DeleteElement(k: K) returns (status: int)
      requires Valid()
      modifies Repr()
      ensures Valid() && Repr() <= old(Repr())
      ensures status == (if getIndex(k) >= table.Length then -8
                         else if Find(old(Entries()), k).At? then 0 else -10)
      ensures status == INVALID_HASH_INDEX ==> Abs() == old(Abs())
      ensures status == KEY_NOT_FOUND ==> Abs() == old(Abs()).(cursor := Off)
      ensures status == OK ==>
                var i := Find(old(Entries()), k).index;
                Abs() == View(RemoveAt(old(Entries()), i), AfterDelete(i, |old(Entries())|))
    {
      status := GotoElement(k);
      if status < 0 {
        return;
      }
      status := DeleteCurrentElement();
    }

    method Clear()
      requires Valid()
      modifies Repr()
      ensures Valid() && Repr() <= old(Repr())
      ensures Abs() == View([], Unset)
    {
      var i := 0;
      while i < table.Length
        invariant 0 <= i <= table.Length
        invariant forall b :: 0 <= b < i ==> table[b] == null
        modifies table
      {
        table[i] := null;
        i := i + 1;
      }
      var tmp1 := firsthashelem;
      ghost var n := 0;
      while tmp1 != null
        invariant 0 <= n <= |list| && tmp1 == NodeAt(list, n)
        decreases |list| - n
      {
        tmp1 := tmp1.listnext;
        n := n + 1;
      }
      firsthashelem := null;
      lasthashelem := null;
      list := [];
      cursor := Unset;
    }

    /** What the invariant means to a client: distinct keys, and a cursor that is in range. */
    lemma ValidMeansConsistent()
      requires Valid()
      ensures Consistent(Abs())
    {
      forall i, j | 0 <= i < j < |list|
        ensures Entries()[i].0 != Entries()[j].0
      {
        assert list[i].key != list[j].key;
      }
    }

    /** The buckets partition the list: each element is once in its own bucket and in no other. */
    lemma BucketsPartition(i: nat, b: nat)
      requires Valid() && i < |list| && b < table.Length
      ensures getIndex(list[i].key) < table.Length
      ensures list[i] in Chain(list, b) <==> b == getIndex(list[i].key)
      ensures Injective(Chain(list, b))
    {
      ListInjective();
      ChainInjective(list, b);
      ChainHas(list, i);
      assert list[i].hashindex == getIndex(list[i].key);
    }
  }

  /** One round of a sweep: look at the current element, then delete it or move on. */
  method SweepOne<K, E>(t: KeyHashTable<K, E>, del: bool) returns (entry: (K, E), more: bool)
    requires t.Valid() && t.cursor.At?
    modifies t.Repr()
    ensures t.Valid() && t.Repr() <= old(t.Repr())
    ensures old(t.cursor.index < |t.Entries()|) && entry == old(t.Entries()[t.cursor.index])
    ensures t.Abs() == Advance(old(t.Abs()), del)
    ensures more <==> t.cursor.At?
  {
    var k := t.GetCurrentKey();
    var e := t.GetCurrentElement();
    entry := (k, e);
    if del {
      var _ := t.DeleteCurrentElement();
    } else {
      t.GotoNextElement();
    }
    more := t.HasCurrentElement();
  }

  /** Round n of a sweep over `all`. */
  method SweepRound<K, E>(t: KeyHashTable<K, E>, deletes: seq<bool>, ghost all: seq<(K, E)>, n: nat)
    returns (entry: (K, E), more: bool)
    requires t.Valid() && n < |all| == |deletes|
    requires t.Abs() == SweepRun(SweepStart(all), deletes, n)
    modifies t.Repr()
    ensures t.Valid() && t.Repr() <= old(t.Repr())
    ensures t.Abs() == SweepRun(SweepStart(all), deletes, n + 1)
    ensures entry == all[n] && (more <==> n + 1 < |all|)
    ensures all[..n + 1] == all[..n] + [entry]
  {
    PrefixSnoc(all, n, all[n]);
    SweepLooksAt(all, deletes, n);
    entry, more := SweepOne(t, deletes[n]);
    SweepLooksAt(all, deletes, n + 1);
  }

  /** A client's sweep: at each element it either deletes it or moves on, as `deletes` says. */
  method Sweep<K, E>(t: KeyHashTable<K, E>, deletes: seq<bool>) returns (visited: seq<(K, E)>)
    requires t.Valid() && |deletes| == |t.Entries()|
    modifies t.Repr()
    ensures t.Valid() && t.Repr() <= old(t.Repr())
    ensures visited == old(t.Entries())
    ensures t.Abs() == View(Survivors(old(t.Entries()), deletes), Off)
  {
    ghost var all := t.Entries();
    var n := 0;
    visited := [];
    t.GotoFirstElement();
    SweepLooksAt(all, deletes, 0);
    var more := t.HasCurrentElement();
    while more
      invariant t.Valid() && t.Repr() <= old(t.Repr())
      invariant n <= |all| && visited == all[..n]
      invariant t.Abs() == SweepRun(SweepStart(all), deletes, n)
      invariant more <==> n < |all|
      decreases |all| - n
    {
      var entry;
      entry, more := SweepRound(t, deletes, all, n);
      visited, n := visited + [entry], n + 1;
    }
    SweepLooksAt(all, deletes, n);
  }
}
