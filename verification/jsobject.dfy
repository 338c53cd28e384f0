/**
 The enumeration order of a plain JavaScript object's own string keys, as
 used by `Object.keys` and `for...in`: keys that are array indices come
 first in ascending numeric order, then every other key in the order it was
 first added. An object is modelled by its entries in insertion order.
 */
module JsObject {

  predicate IsDigit(c: char)
  {
    '0' <= c <= '9'
  }

  predicate AllDigits(s: string)
  {
    forall i :: 0 <= i < |s| ==> IsDigit(s[i])
  }

  function DecimalValue(s: string): nat
    requires AllDigits(s)
  {
    if |s| == 0 then 0
    else DecimalValue(s[..|s| - 1]) * 10 + (s[|s| - 1] as int - '0' as int)
  }

  /** The canonical decimal form of an integer in [0, 2^32 - 2]. */
  predicate IsArrayIndex(k: string)
  {
    && |k| > 0
    && AllDigits(k)
    && (k == "0" || k[0] != '0')
    && DecimalValue(k) < 0xFFFF_FFFF
  }

  /** The numeric value of an array-index key (0 for any other key). */
  function IndexValue(k: string): nat
  {
    if IsArrayIndex(k) then DecimalValue(k) else 0
  }

  predicate DistinctKeys<V>(entries: seq<(string, V)>)
  {
    forall i, j :: 0 <= i < j < |entries| ==> entries[i].0 != entries[j].0
  }

  /** The sort key of an entry: its array-index value. */
  function IndexRank<V>(e: (string, V)): nat
  {
    IndexValue(e.0)
  }

  predicate SortedBy<T>(rank: T -> nat, xs: seq<T>)
  {
    forall i, j :: 0 <= i < j < |xs| ==> rank(xs[i]) <= rank(xs[j])
  }

  predicate SortedByIndex<V>(entries: seq<(string, V)>)
  {
    SortedBy(IndexRank, entries)
  }

  predicate AllIndexKeys<V>(entries: seq<(string, V)>)
  {
    forall i :: 0 <= i < |entries| ==> IsArrayIndex(entries[i].0)
  }

  predicate NoIndexKeys<V>(entries: seq<(string, V)>)
  {
    forall i :: 0 <= i < |entries| ==> !IsArrayIndex(entries[i].0)
  }

  /** The entries with array-index keys, in insertion order. */
  function IndexEntries<V>(entries: seq<(string, V)>): (r: seq<(string, V)>)
    ensures AllIndexKeys(r)
  {
    if |entries| == 0 then []
    else if IsArrayIndex(entries[0].0) then [entries[0]] + IndexEntries(entries[1..])
    else IndexEntries(entries[1..])
  }

  /** The entries with other keys, in insertion order. */
  function OtherEntries<V>(entries: seq<(string, V)>): (r: seq<(string, V)>)
    ensures NoIndexKeys(r)
  {
    if |entries| == 0 then []
    else if IsArrayIndex(entries[0].0) then OtherEntries(entries[1..])
    else [entries[0]] + OtherEntries(entries[1..])
  }

  /** Inserts x before the first element of rank at least its own. */
  function Insert<T>(rank: T -> nat, x: T, sorted: seq<T>): (r: seq<T>)
    ensures |r| == |sorted| + 1
    decreases |sorted|
  {
    if |sorted| == 0 then [x]
    else if rank(x) <= rank(sorted[0]) then [x] + sorted
    else [sorted[0]] + Insert(rank, x, sorted[1..])
  }

  lemma {:induction false} InsertMembers<T>(rank: T -> nat, x: T, sorted: seq<T>)
    ensures forall e :: e in Insert(rank, x, sorted) <==> e == x || e in sorted
    decreases |sorted|
  {
    if |sorted| > 0 && rank(x) > rank(sorted[0]) {
      InsertMembers(rank, x, sorted[1..]);
      assert forall e :: e in sorted <==> e == sorted[0] || e in sorted[1..] by {
        assert sorted == [sorted[0]] + sorted[1..];
      }
    }
  }

  lemma {:induction false} InsertPermutes<T>(rank: T -> nat, x: T, sorted: seq<T>)
    ensures multiset(Insert(rank, x, sorted)) == multiset(sorted) + multiset{x}
    decreases |sorted|
  {
    if |sorted| > 0 && rank(x) > rank(sorted[0]) {
      InsertPermutes(rank, x, sorted[1..]);
      assert sorted == [sorted[0]] + sorted[1..];
    }
  }

  /** Inserting an element of rank at least `lo` into a list bounded below by `lo` keeps the bound. */
  lemma InsertBounded<T>(rank: T -> nat, x: T, sorted: seq<T>, lo: nat)
    requires lo <= rank(x)
    requires forall e :: e in sorted ==> lo <= rank(e)
    ensures forall e :: e in Insert(rank, x, sorted) ==> lo <= rank(e)
  {
    InsertMembers(rank, x, sorted);
  }

  /** Insertion keeps a list ordered by rank. */
  lemma {:induction false} InsertSorted<T>(rank: T -> nat, x: T, sorted: seq<T>)
    requires SortedBy(rank, sorted)
    ensures SortedBy(rank, Insert(rank, x, sorted))
    decreases |sorted|
  {
    if |sorted| > 0 && rank(x) > rank(sorted[0]) {
      var first, tail := sorted[0], sorted[1..];
      var rest := Insert(rank, x, tail);
      assert SortedBy(rank, tail) by {
        forall i, j | 0 <= i < j < |tail| ensures rank(tail[i]) <= rank(tail[j]) {
          assert tail[i] == sorted[i + 1] && tail[j] == sorted[j + 1];
        }
      }
      InsertSorted(rank, x, tail);
      assert forall e :: e in rest ==> rank(first) <= rank(e) by {
        forall e | e in tail ensures rank(first) <= rank(e) {
          var m :| 0 <= m < |tail| && tail[m] == e;
          assert sorted[m + 1] == e;
        }
        InsertBounded(rank, x, tail, rank(first));
      }
      var r := [first] + rest;
      forall i, j | 0 <= i < j < |r| ensures rank(r[i]) <= rank(r[j]) {
        assert r[j] == rest[j - 1] && rest[j - 1] in rest;
        if i > 0 {
          assert r[i] == rest[i - 1];
        }
      }
    } else if |sorted| > 0 {
      var r := [x] + sorted;
      forall i, j | 0 <= i < j < |r| ensures rank(r[i]) <= rank(r[j]) {
        assert r[j] == sorted[j - 1];
        if i > 0 {
          assert r[i] == sorted[i - 1];
        }
      }
    }
  }

  /** Insertion sort by rank; elements of equal rank keep their order. */
  function SortBy<T>(rank: T -> nat, xs: seq<T>): (r: seq<T>)
    ensures SortedBy(rank, r)
    ensures multiset(r) == multiset(xs)
    decreases |xs|
  {
    if |xs| == 0 then []
    else
      var rest := SortBy(rank, xs[1..]);
      InsertSorted(rank, xs[0], rest);
      assert multiset(Insert(rank, xs[0], rest)) == multiset(xs) by {
        InsertPermutes(rank, xs[0], rest);
        assert xs == [xs[0]] + xs[1..];
        assert multiset(xs) == multiset(xs[1..]) + multiset{xs[0]};
      }
      Insert(rank, xs[0], rest)
  }

  /** Object.keys / for...in order of an object built by inserting `entries`. */
  function OwnKeyOrder<V>(entries: seq<(string, V)>): seq<(string, V)>
  {
    SortBy(IndexRank, IndexEntries(entries)) + OtherEntries(entries)
  }

  lemma {:induction false} SplitIsPermutation<V>(entries: seq<(string, V)>)
    ensures multiset(IndexEntries(entries)) + multiset(OtherEntries(entries)) == multiset(entries)
  {
    if |entries| > 0 {
      SplitIsPermutation(entries[1..]);
      assert entries == [entries[0]] + entries[1..];
    }
  }

  /**
   The enumeration is a permutation of the entries in which array-index keys
   come first in ascending order, followed by the other keys in insertion order.
   */
  lemma OwnKeyOrderShape<V>(entries: seq<(string, V)>)
    ensures multiset(OwnKeyOrder(entries)) == multiset(entries)
    ensures var n := |IndexEntries(entries)|;
            && n <= |OwnKeyOrder(entries)|
            && AllIndexKeys(OwnKeyOrder(entries)[..n])
            && SortedByIndex(OwnKeyOrder(entries)[..n])
            && OwnKeyOrder(entries)[n..] == OtherEntries(entries)
  {
    SplitIsPermutation(entries);
    var s := SortBy(IndexRank, IndexEntries(entries));
    var n := |IndexEntries(entries)|;
    assert |multiset(s)| == n;
    assert |s| == n;
    assert OwnKeyOrder(entries)[..n] == s;
    forall i | 0 <= i < |s|
      ensures IsArrayIndex(s[i].0)
    {
      assert s[i] in multiset(IndexEntries(entries));
    }
  }

  lemma {:induction false} OtherEntriesOfPlain<V>(entries: seq<(string, V)>)
    requires NoIndexKeys(entries)
    ensures IndexEntries(entries) == []
    ensures OtherEntries(entries) == entries
  {
    if |entries| > 0 {
      OtherEntriesOfPlain(entries[1..]);
      assert entries == [entries[0]] + entries[1..];
    }
  }

  /** Without array-index keys, enumeration order is insertion order. */
  lemma OwnKeyOrderPlain<V>(entries: seq<(string, V)>)
    requires NoIndexKeys(entries)
    ensures OwnKeyOrder(entries) == entries
  {
    OtherEntriesOfPlain(entries);
  }

  function KeySet<V>(entries: seq<(string, V)>): set<string>
  {
    set i | 0 <= i < |entries| :: entries[i].0
  }

  lemma {:induction false} KeySetCard<V>(entries: seq<(string, V)>)
    ensures |KeySet(entries)| <= |entries|
    ensures DistinctKeys(entries) <==> |KeySet(entries)| == |entries|
  {
    if |entries| > 0 {
      var rest := entries[1..];
      KeySetCard(rest);
      assert KeySet(entries) == {entries[0].0} + KeySet(rest) by {
        forall k | k in KeySet(entries) ensures k in {entries[0].0} + KeySet(rest) {
          var i :| 0 <= i < |entries| && entries[i].0 == k;
          if i > 0 { assert rest[i - 1].0 == k; }
        }
        forall k | k in KeySet(rest) ensures k in KeySet(entries) {
          var i :| 0 <= i < |rest| && rest[i].0 == k;
          assert entries[i + 1].0 == k;
        }
      }
      if entries[0].0 in KeySet(rest) {
        var i :| 0 <= i < |rest| && rest[i].0 == entries[0].0;
        assert entries[i + 1].0 == entries[0].0;
        assert !DistinctKeys(entries);
      } else {
        assert DistinctKeys(entries) <==> DistinctKeys(rest) by {
          if DistinctKeys(rest) {
            forall i, j | 0 <= i < j < |entries| ensures entries[i].0 != entries[j].0 {
              if i == 0 {
                assert rest[j - 1].0 == entries[j].0;
              } else {
                assert rest[i - 1] == entries[i] && rest[j - 1] == entries[j];
              }
            }
          }
          if DistinctKeys(entries) {
            forall i, j | 0 <= i < j < |rest| ensures rest[i].0 != rest[j].0 {
              assert rest[i] == entries[i + 1] && rest[j] == entries[j + 1];
            }
          }
        }
      }
    }
  }

  lemma KeySetOfPermutation<V>(a: seq<(string, V)>, b: seq<(string, V)>)
    requires multiset(a) == multiset(b)
    ensures |a| == |b|
    ensures KeySet(a) == KeySet(b)
  {
    assert |multiset(a)| == |multiset(b)|;
    forall k | k in KeySet(a) ensures k in KeySet(b) {
      var i :| 0 <= i < |a| && a[i].0 == k;
      assert a[i] in multiset(b);
      var j :| 0 <= j < |b| && b[j] == a[i];
    }
    forall k | k in KeySet(b) ensures k in KeySet(a) {
      var i :| 0 <= i < |b| && b[i].0 == k;
      assert b[i] in multiset(a);
      var j :| 0 <= j < |a| && a[j] == b[i];
    }
  }

  lemma OwnKeyOrderPermutation<V>(entries: seq<(string, V)>)
    ensures multiset(OwnKeyOrder(entries)) == multiset(entries)
  {
    SplitIsPermutation(entries);
  }

  /** Enumeration never duplicates or loses a key: an object's keys stay distinct. */
  lemma OwnKeyOrderDistinct<V>(entries: seq<(string, V)>)
    requires DistinctKeys(entries)
    ensures DistinctKeys(OwnKeyOrder(entries))
    ensures KeySet(OwnKeyOrder(entries)) == KeySet(entries)
  {
    var r := OwnKeyOrder(entries);
    OwnKeyOrderPermutation(entries);
    KeySetOfPermutation(r, entries);
    KeySetCard(r);
    KeySetCard(entries);
  }
}
