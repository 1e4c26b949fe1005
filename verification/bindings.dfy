/**
 * Sorted association lists: the abstract view of both search trees.
 * A tree is read through its in-order sequence of key/value bindings; the
 * functions here say what inserting, looking up and removing mean on that
 * sequence, independently of any tree shape.
 */
module Bindings {

  datatype Option<T> = None | Some(value: T)

  /** One stored key/value pair. */
  datatype Binding<V> = Binding(key: int, value: V)

  /** Keys strictly increase from left to right (so every key occurs once). */
  ghost predicate StrictlySorted<V>(s: seq<Binding<V>>) {
    forall i, j :: 0 <= i < j < |s| ==> s[i].key < s[j].key
  }

  /** Every key of s is smaller than k. */
  ghost predicate AllBelow<V>(s: seq<Binding<V>>, k: int) {
    forall i :: 0 <= i < |s| ==> s[i].key < k
  }

  /** Every key of s is larger than k. */
  ghost predicate AllAbove<V>(s: seq<Binding<V>>, k: int) {
    forall i :: 0 <= i < |s| ==> k < s[i].key
  }

  /** The value of the first binding for k, if there is one. */
  ghost function Lookup<V>(s: seq<Binding<V>>, k: int): Option<V> {
    if s == [] then None
    else if s[0].key == k then Some(s[0].value)
    else Lookup(s[1..], k)
  }

  /** Puts the binding (k, v) at its place in key order, replacing the binding already held for k. */
  ghost function InsertSorted<V>(s: seq<Binding<V>>, k: int, v: V): seq<Binding<V>> {
    if s == [] then [Binding(k, v)]
    else if k < s[0].key then [Binding(k, v)] + s
    else if k == s[0].key then [Binding(k, v)] + s[1..]
    else [s[0]] + InsertSorted(s[1..], k, v)
  }

  /** A sorted sequence splits around any of its elements. */
  lemma SortedSplit<V>(a: seq<Binding<V>>, x: Binding<V>, b: seq<Binding<V>>)
    ensures StrictlySorted(a + [x] + b) <==>
              StrictlySorted(a) && StrictlySorted(b) && AllBelow(a, x.key) && AllAbove(b, x.key)
  {
    var s := a + [x] + b;
    if StrictlySorted(a) && StrictlySorted(b) && AllBelow(a, x.key) && AllAbove(b, x.key) {
      forall i, j | 0 <= i < j < |s| ensures s[i].key < s[j].key {
        if j < |a| {
        } else if j == |a| {
        } else if i < |a| {
          assert s[i].key < x.key < s[j].key;
        } else if i == |a| {
        } else {
          assert s[i] == b[i - |a| - 1] && s[j] == b[j - |a| - 1];
        }
      }
    }
    if StrictlySorted(s) {
      assert forall i :: 0 <= i < |a| ==> s[i] == a[i];
      assert forall i :: 0 <= i < |b| ==> s[|a| + 1 + i] == b[i];
      assert s[|a|] == x;
    }
  }

  /** The smallest key of a sorted sequence comes first. */
  lemma SortedHeadIsSmallest<V>(s: seq<Binding<V>>)
    requires StrictlySorted(s) && |s| > 0
    ensures AllAbove(s[1..], s[0].key) && StrictlySorted(s[1..])
  {
  }

  /** Inserting into a sorted sequence keeps it sorted. */
  lemma {:induction false} InsertSortedKeepsOrder<V>(s: seq<Binding<V>>, k: int, v: V)
    requires StrictlySorted(s)
    ensures StrictlySorted(InsertSorted(s, k, v))
    ensures |s| > 0 && k > s[0].key ==> InsertSorted(s, k, v)[0] == s[0]
    ensures |InsertSorted(s, k, v)| > 0
  {
    if s != [] && k > s[0].key {
      InsertSortedKeepsOrder(s[1..], k, v);
      var t := InsertSorted(s[1..], k, v);
      assert StrictlySorted(t);
      if s[1..] != [] && k > s[1].key {
        assert t[0] == s[1];
      } else {
        assert t[0].key == k;
      }
      SortedSplit([], s[0], t);
    }
  }

  /** Lookup after inserting: k now maps to v, every other key keeps its value. */
  lemma {:induction false} InsertSortedLookup<V>(s: seq<Binding<V>>, k: int, v: V, q: int)
    requires StrictlySorted(s)
    ensures Lookup(InsertSorted(s, k, v), q) == if q == k then Some(v) else Lookup(s, q)
  {
    if s == [] {
    } else if k < s[0].key {
    } else if k == s[0].key {
      if q != k {
        assert InsertSorted(s, k, v)[1..] == s[1..];
      }
    } else {
      InsertSortedLookup(s[1..], k, v, q);
      assert InsertSorted(s, k, v)[1..] == InsertSorted(s[1..], k, v);
    }
  }

  /** Inserting grows the sequence by one exactly when the key was absent. */
  lemma {:induction false} InsertSortedLength<V>(s: seq<Binding<V>>, k: int, v: V)
    requires StrictlySorted(s)
    ensures |InsertSorted(s, k, v)| == if Lookup(s, k).None? then |s| + 1 else |s|
  {
    if s == [] {
    } else if k < s[0].key {
      LookupMissesSmallerKey(s, k);
    } else if k == s[0].key {
    } else {
      InsertSortedLength(s[1..], k, v);
    }
  }

  /** A key below the first key of a sorted sequence is absent. */
  lemma {:induction false} LookupMissesSmallerKey<V>(s: seq<Binding<V>>, k: int)
    requires StrictlySorted(s) && (s == [] || k < s[0].key)
    ensures Lookup(s, k) == None
  {
    if s != [] {
      if s[1..] != [] {
        assert s[1].key > s[0].key;
      }
      LookupMissesSmallerKey(s[1..], k);
    }
  }

  /** Lookup skips a prefix that holds no binding for the key. */
  lemma {:induction false} LookupSkipsPrefix<V>(a: seq<Binding<V>>, b: seq<Binding<V>>, k: int)
    requires forall i :: 0 <= i < |a| ==> a[i].key != k
    ensures Lookup(a + b, k) == Lookup(b, k)
  {
    if a == [] {
      assert a + b == b;
    } else {
      assert (a + b)[0] == a[0] && (a + b)[1..] == a[1..] + b;
      LookupSkipsPrefix(a[1..], b, k);
    }
  }

  /** Lookup in a prefix that holds the key ignores what follows. */
  lemma {:induction false} LookupInPrefix<V>(a: seq<Binding<V>>, b: seq<Binding<V>>, k: int)
    requires forall j :: 0 <= j < |b| ==> b[j].key != k
    ensures Lookup(a + b, k) == Lookup(a, k)
  {
    if a == [] {
      assert a + b == b;
      LookupAbsent(b, k);
    } else {
      assert (a + b)[0] == a[0] && (a + b)[1..] == a[1..] + b;
      if a[0].key != k {
        LookupInPrefix(a[1..], b, k);
      }
    }
  }

  /** A key held by no binding is not found. */
  lemma {:induction false} LookupAbsent<V>(s: seq<Binding<V>>, k: int)
    requires forall j :: 0 <= j < |s| ==> s[j].key != k
    ensures Lookup(s, k) == None
  {
    if s != [] {
      LookupAbsent(s[1..], k);
    }
  }

  /** Inserting a key larger than every key of a prefix leaves the prefix in front. */
  lemma {:induction false} InsertSortedAfter<V>(a: seq<Binding<V>>, b: seq<Binding<V>>, k: int, v: V)
    requires AllBelow(a, k)
    ensures InsertSorted(a + b, k, v) == a + InsertSorted(b, k, v)
  {
    if a != [] {
      assert (a + b)[0] == a[0];
      assert (a + b)[1..] == a[1..] + b;
      InsertSortedAfter(a[1..], b, k, v);
      calc {
        InsertSorted(a + b, k, v);
        [a[0]] + InsertSorted(a[1..] + b, k, v);
        [a[0]] + (a[1..] + InsertSorted(b, k, v));
        { assert a == [a[0]] + a[1..]; }
        a + InsertSorted(b, k, v);
      }
    } else {
      assert a + b == b;
    }
  }

  /** Inserting a key smaller than every key of a suffix leaves the suffix behind. */
  lemma {:induction false} InsertSortedBefore<V>(a: seq<Binding<V>>, b: seq<Binding<V>>, k: int, v: V)
    requires AllAbove(b, k)
    ensures InsertSorted(a + b, k, v) == InsertSorted(a, k, v) + b
  {
    if a == [] {
      assert a + b == b;
    } else {
      assert (a + b)[0] == a[0];
      assert (a + b)[1..] == a[1..] + b;
      if k > a[0].key {
        InsertSortedBefore(a[1..], b, k, v);
      }
    }
  }

  /**
   * Inserting into a sorted sequence split around x: the binding goes into the
   * part on k's side of x, or replaces x when the keys are equal.
   */
  lemma InsertSortedAround<V>(a: seq<Binding<V>>, x: Binding<V>, b: seq<Binding<V>>, k: int, v: V)
    ensures StrictlySorted(a + [x] + b) ==>
              && StrictlySorted(a) && StrictlySorted(b)
              && StrictlySorted(InsertSorted(a + [x] + b, k, v))
              && (k > x.key ==> InsertSorted(a + [x] + b, k, v) == a + [x] + InsertSorted(b, k, v))
              && (k < x.key ==> InsertSorted(a + [x] + b, k, v) == InsertSorted(a, k, v) + [x] + b)
              && (k == x.key ==> InsertSorted(a + [x] + b, k, v) == a + [Binding(k, v)] + b)
  {
    if StrictlySorted(a + [x] + b) {
      SortedSplit(a, x, b);
      InsertSortedKeepsOrder(a + [x] + b, k, v);
      if k > x.key {
        assert AllBelow(a + [x], k);
        InsertSortedAfter(a + [x], b, k, v);
      } else if k < x.key {
        assert AllAbove([x] + b, k);
        InsertSortedBefore(a, [x] + b, k, v);
        assert a + [x] + b == a + ([x] + b);
      } else {
        InsertSortedAfter(a, [x] + b, k, v);
        assert a + [x] + b == a + ([x] + b);
      }
    }
  }

  /** Looking up in a sorted sequence split around x only needs the part on k's side of x. */
  lemma LookupAround<V>(a: seq<Binding<V>>, x: Binding<V>, b: seq<Binding<V>>, k: int)
    ensures StrictlySorted(a + [x] + b) ==>
              && StrictlySorted(a) && StrictlySorted(b)
              && Lookup(a + [x] + b, k) == (if k > x.key then Lookup(b, k)
                                            else if k < x.key then Lookup(a, k)
                                            else Some(x.value))
  {
    if StrictlySorted(a + [x] + b) {
      SortedSplit(a, x, b);
      if k > x.key {
        LookupSkipsPrefix(a + [x], b, k);
      } else if k < x.key {
        LookupInPrefix(a, [x] + b, k);
        assert a + [x] + b == a + ([x] + b);
      } else {
        LookupSkipsPrefix(a, [x] + b, k);
        assert a + [x] + b == a + ([x] + b);
      }
    }
  }

  /** Dropping the first element of a concatenation whose first part is non-empty. */
  lemma TailOfSplit<V>(a: seq<Binding<V>>, x: Binding<V>, b: seq<Binding<V>>)
    requires |a| > 0
    ensures (a + [x] + b)[1..] == a[1..] + [x] + b
  {
  }
}
