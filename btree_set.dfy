/**
 * The operations of btree in spp_btree.h that the ordered containers
 * call, seen through the sequence of values an in-order walk of the tree
 * yields: insert_unique, insert_multi, erase, erase_unique, find_unique,
 * count_unique and size. An iterator is the index of the value it
 * designates in that sequence, and end() is the length of the sequence.
 */
module SppBtreeSet {
  import opened SppBtreeNode

  /** No value twice: the order a tree filled only by insert_unique keeps. */
  ghost predicate StrictlySorted(s: seq<int>)
  {
    forall i, j :: 0 <= i < j < |s| ==> s[i] < s[j]
  }

  /** k placed before the value at index i. */
  function InsertAt(s: seq<int>, i: nat, k: int): (r: seq<int>)
    requires i <= |s|
    ensures |r| == |s| + 1 && r[i] == k
    ensures r[..i] == s[..i] && r[i + 1..] == s[i..]
    ensures multiset(r) == multiset(s) + multiset{k}
  {
    assert s == s[..i] + s[i..];
    s[..i] + [k] + s[i..]
  }

  /** The value at index i taken out. */
  function RemoveAt(s: seq<int>, i: nat): (r: seq<int>)
    requires i < |s|
    ensures |r| == |s| - 1
    ensures r[..i] == s[..i] && r[i..] == s[i + 1..]
    ensures multiset(r) == multiset(s) - multiset{s[i]}
  {
    assert s == s[..i] + [s[i]] + s[i + 1..];
    s[..i] + s[i + 1..]
  }

  /**
   * On sorted values the lower bound of k finds k when it is there at all:
   * internal_locate's exact match.
   */
  lemma {:induction false} Locate(s: seq<int>, k: int)
    requires Sorted(s)
    ensures var p := FirstNotBefore(s, k, false);
      k in s <==> p < |s| && s[p] == k
  {
    var p := FirstNotBefore(s, k, false);
    if k in s {
      var i :| 0 <= i < |s| && s[i] == k;
      SortedSplit(s, k, false);
      assert p <= i;
      assert s[p] <= s[i];
    }
  }

  /**
   * Inserting k at its lower or upper bound keeps the values sorted:
   * everything before that index is no greater than k and everything from
   * it on no smaller.
   */
  lemma {:induction false} InsertSorted(s: seq<int>, k: int, upper: bool)
    requires Sorted(s)
    ensures Sorted(InsertAt(s, FirstNotBefore(s, k, upper), k))
  {
    var p := FirstNotBefore(s, k, upper);
    var r := InsertAt(s, p, k);
    SortedSplit(s, k, upper);
    forall i, j | 0 <= i < j < |r|
      ensures r[i] <= r[j]
    {
      var a := if i < p then i else i - 1;
      var b := if j <= p then j else j - 1;
      if i != p && j != p {
        assert r[i] == s[a] && r[j] == s[b];
      }
    }
  }

  /** What insert_unique(key) did: the new values, the iterator, whether it inserted. */
  datatype Insertion = Insertion(elems: seq<int>, pos: nat, inserted: bool)

  /**
   * insert_unique(key): when k is already there, nothing changes and the
   * iterator designates the value equal to k; otherwise k goes in at its
   * lower bound, which the iterator designates.
   */
  function UniqueInsertion(s: seq<int>, k: int): (r: Insertion)
    requires Sorted(s)
    ensures r.inserted <==> k !in s
    ensures r.pos <= |s| && r.pos < |r.elems| && r.elems[r.pos] == k && Sorted(r.elems)
    ensures !r.inserted ==> r.elems == s
    ensures r.inserted ==> r.elems == InsertAt(s, r.pos, k)
  {
    var p := FirstNotBefore(s, k, false);
    Locate(s, k);
    InsertSorted(s, k, false);
    if p < |s| && s[p] == k then Insertion(s, p, false) else Insertion(InsertAt(s, p, k), p, true)
  }

  /** insert_unique never lets a value in twice. */
  lemma UniqueStaysStrict(s: seq<int>, k: int)
    requires StrictlySorted(s)
    ensures StrictlySorted(UniqueInsertion(s, k).elems)
  {
    var r := UniqueInsertion(s, k);
    if r.inserted {
      var p := r.pos;
      SortedSplit(s, k, false);
      forall i, j | 0 <= i < j < |r.elems|
        ensures r.elems[i] < r.elems[j]
      {
        var a := if i < p then i else i - 1;
        var b := if j <= p then j else j - 1;
        if i != p && j != p {
          assert r.elems[i] == s[a] && r.elems[j] == s[b];
        } else if i == p {
          assert s[b] != k;
        }
      }
    }
  }

  /** A second insert_unique of the same key changes nothing and finds the first one. */
  lemma UniqueInsertTwice(s: seq<int>, k: int)
    requires Sorted(s)
    ensures var r := UniqueInsertion(s, k);
      UniqueInsertion(r.elems, k) == Insertion(r.elems, r.pos, false)
  {
    var r := UniqueInsertion(s, k);
    var t := UniqueInsertion(r.elems, k);
    SortedSplit(r.elems, k, false);
    assert t.elems[t.pos] == k;
    if r.inserted {
      SortedSplit(s, k, false);
      FirstIndex(r.elems, r.pos, k, false);
    } else {
      FirstIndex(s, r.pos, k, false);
    }
  }

  /**
   * insert_multi(key): k goes in at its upper bound, after every value
   * equal to it, and the iterator designates it.
   */
  function MultiInsertion(s: seq<int>, k: int): (r: Insertion)
    requires Sorted(s)
    ensures r.inserted && r.pos <= |s|
    ensures r.elems == InsertAt(s, r.pos, k) && Sorted(r.elems)
    ensures forall i :: 0 <= i < r.pos ==> s[i] <= k
    ensures forall i :: r.pos <= i < |s| ==> k < s[i]
  {
    var p := FirstNotBefore(s, k, true);
    InsertSorted(s, k, true);
    SortedSplit(s, k, true);
    Insertion(InsertAt(s, p, k), p, true)
  }

  /**
   * erase(iter): the value at i goes; what remains stays sorted and the
   * returned iterator, i, designates the value that followed it (or end()).
   */
  function Removal(s: seq<int>, i: nat): (r: seq<int>)
    requires Sorted(s) && i < |s|
    ensures |r| == |s| - 1 && Sorted(r) && multiset(r) == multiset(s) - multiset{s[i]}
    ensures i < |r| ==> r[i] == s[i + 1]
  {
    var r := RemoveAt(s, i);
    assert forall a, b :: 0 <= a < b < |r| ==> r[a] == s[if a < i then a else a + 1] && r[b] == s[if b < i then b else b + 1];
    r
  }

  /** What erase_unique(key) did: the new values and how many it erased. */
  datatype Erasure = Erasure(elems: seq<int>, count: nat)

  /** erase_unique(key): 1 and k gone when it was there, else 0 and no change. */
  function UniqueRemoval(s: seq<int>, k: int): (r: Erasure)
    requires Sorted(s)
    ensures r.count == (if k in s then 1 else 0)
    ensures Sorted(r.elems) && multiset(r.elems) == multiset(s) - multiset{k}
    ensures k !in s ==> r.elems == s
  {
    var p := FirstNotBefore(s, k, false);
    Locate(s, k);
    if p < |s| && s[p] == k then Erasure(Removal(s, p), 1)
    else
      assert multiset(s)[k] == 0;
      Erasure(s, 0)
  }

  /** With no duplicates, each value occurs once. */
  lemma Once(s: seq<int>, p: nat)
    requires StrictlySorted(s) && p < |s|
    ensures multiset(s)[s[p]] == 1
  {
    var a, x, b := s[..p], s[p], s[p + 1..];
    assert s == a + [x] + b;
    assert x !in a by {
      forall i | 0 <= i < |a| ensures a[i] != x { assert a[i] == s[i]; }
    }
    assert x !in b by {
      forall i | 0 <= i < |b| ensures b[i] != x { assert b[i] == s[p + 1 + i]; }
    }
  }

  /** With no duplicates, erase_unique leaves no trace of k. */
  lemma UniqueRemovalGone(s: seq<int>, k: int)
    requires StrictlySorted(s)
    ensures k !in UniqueRemoval(s, k).elems
  {
    var r := UniqueRemoval(s, k);
    if k in s {
      var p := Lookup(s, k);
      Once(s, p);
      assert multiset(r.elems)[k] == 0;
    }
  }

  /** erase_unique undoes an insert_unique that inserted. */
  lemma {:induction false} EraseUndoesInsert(s: seq<int>, k: int)
    requires Sorted(s) && k !in s
    ensures UniqueRemoval(UniqueInsertion(s, k).elems, k) == Erasure(s, 1)
  {
    var r := UniqueInsertion(s, k);
    SortedSplit(s, k, false);
    FirstIndex(r.elems, r.pos, k, false);
    assert RemoveAt(r.elems, r.pos) == s;
  }

  /**
   * find_unique(key): the index of the value equal to k, or end() (the
   * length) when there is none.
   */
  function Lookup(s: seq<int>, k: int): (r: nat)
    requires Sorted(s)
    ensures r <= |s|
    ensures r < |s| <==> k in s
    ensures r < |s| ==> s[r] == k
  {
    var p := FirstNotBefore(s, k, false);
    Locate(s, k);
    if p < |s| && s[p] == k then p else |s|
  }

  /** find_unique finds what insert_unique inserted, where it put it. */
  lemma FindAfterInsert(s: seq<int>, k: int)
    requires Sorted(s)
    ensures Lookup(UniqueInsertion(s, k).elems, k) == UniqueInsertion(s, k).pos
  {
    var r := UniqueInsertion(s, k);
    if r.inserted {
      SortedSplit(s, k, false);
      FirstIndex(r.elems, r.pos, k, false);
    } else {
      FirstIndex(s, r.pos, k, false);
    }
  }

  /** count_unique(key): 1 when find_unique finds k, else 0. */
  function Occurrences(s: seq<int>, k: int): (r: nat)
    requires Sorted(s)
    ensures r <= 1 && (r == 1 <==> k in s)
  {
    if Lookup(s, k) < |s| then 1 else 0
  }

  /** Without duplicates, count_unique is the number of times k occurs. */
  lemma CountIsMultiplicity(s: seq<int>, k: int)
    requires StrictlySorted(s)
    ensures Occurrences(s, k) == multiset(s)[k]
  {
    if k in s {
      Once(s, Lookup(s, k));
    }
  }

  /**
   * btree: the values an in-order walk of the tree yields, which the
   * operations keep sorted.
   */
  class Btree {
    var elems: seq<int>

    ghost predicate Valid()
      reads this
    {
      Sorted(elems)
    }

    /** btree(): an empty tree (root() null). */
    constructor ()
      ensures Valid() && elems == []
    {
      elems := [];
    }

    /** size(): how many values the tree holds. */
    function Size(): (n: nat)
      reads this
      ensures n == |elems|
    {
      |elems|
    }

    method InsertUnique(k: int) returns (pos: nat, inserted: bool)
      requires Valid()
      modifies this
      ensures Valid() && UniqueInsertion(old(elems), k) == Insertion(elems, pos, inserted)
    {
      var r := UniqueInsertion(elems, k);
      elems, pos, inserted := r.elems, r.pos, r.inserted;
    }

    method InsertMulti(k: int) returns (pos: nat)
      requires Valid()
      modifies this
      ensures Valid() && MultiInsertion(old(elems), k) == Insertion(elems, pos, true)
    {
      var r := MultiInsertion(elems, k);
      elems, pos := r.elems, r.pos;
    }

    method Erase(i: nat) returns (next: nat)
      requires Valid() && i < |elems|
      modifies this
      ensures Valid() && elems == Removal(old(elems), i) && next == i
    {
      elems := Removal(elems, i);
      next := i;
    }

    method EraseUnique(k: int) returns (count: nat)
      requires Valid()
      modifies this
      ensures Valid() && UniqueRemoval(old(elems), k) == Erasure(elems, count)
    {
      var r := UniqueRemoval(elems, k);
      elems, count := r.elems, r.count;
    }

    function FindUnique(k: int): (r: nat)
      requires Valid()
      reads this
      ensures r == Lookup(elems, k)
    {
      Lookup(elems, k)
    }

    function CountUnique(k: int): (r: nat)
      requires Valid()
      reads this
      ensures r == Occurrences(elems, k)
    {
      Occurrences(elems, k)
    }
  }
}
