/**
  Strictly increasing key sequences. The in-order key sequence of a binary
  search tree is one of these, and inserting a key into the tree corresponds
  to `InsertSorted` on that sequence.
 */
module SortedKeys {

  /** Strictly increasing: no duplicates, ascending order. */
  predicate Sorted(s: seq<int>)
  {
    forall i, j :: 0 <= i < j < |s| ==> s[i] < s[j]
  }

  /** Reference definition of keyed insertion into a sorted sequence:
      a key that is already present leaves the sequence as it is. */
  function InsertSorted(s: seq<int>, k: int): seq<int>
  {
    if s == [] then [k]
    else if k < s[0] then [k] + s
    else if k == s[0] then s
    else [s[0]] + InsertSorted(s[1..], k)
  }

  /** Inserting keeps the sequence sorted and adds exactly the key, once. */
  lemma {:induction false} InsertSortedSpec(s: seq<int>, k: int)
    requires Sorted(s)
    ensures Sorted(InsertSorted(s, k))
    ensures forall x :: x in InsertSorted(s, k) <==> x == k || x in s
    ensures |InsertSorted(s, k)| == if k in s then |s| else |s| + 1
  {
    if s == [] {
    } else if k < s[0] {
      SortedHead(s);
      SortedCons(k, s);
    } else if k > s[0] {
      var t := s[1..];
      assert s == [s[0]] + t;
      SortedHead(s);
      InsertSortedSpec(t, k);
      SortedCons(s[0], InsertSorted(t, k));
    }
  }

  /** The head of a sorted sequence is below everything after it. */
  lemma SortedHead(s: seq<int>)
    requires Sorted(s) && s != []
    ensures Sorted(s[1..])
    ensures forall x :: x in s[1..] ==> s[0] < x
  {
    forall x | x in s[1..] ensures s[0] < x {
      var i :| 0 <= i < |s[1..]| && s[1..][i] == x;
      assert s[i + 1] == x;
    }
  }

  /** A key below every element of a sorted sequence can be put in front. */
  lemma SortedCons(h: int, u: seq<int>)
    requires Sorted(u)
    requires forall x :: x in u ==> h < x
    ensures Sorted([h] + u)
  {
    forall i, j | 0 <= i < j < |[h] + u| ensures ([h] + u)[i] < ([h] + u)[j] {
      assert ([h] + u)[j] == u[j - 1];
      if i > 0 {
        assert ([h] + u)[i] == u[i - 1];
      } else {
        assert u[j - 1] in u;
      }
    }
  }

  /** Insertion of a key that is already present changes nothing. */
  lemma {:induction false} InsertSortedPresent(s: seq<int>, k: int)
    requires Sorted(s) && k in s
    ensures InsertSorted(s, k) == s
  {
    if k != s[0] {
      assert k > s[0] by {
        var i :| 0 <= i < |s| && s[i] == k;
        assert i > 0;
      }
      assert k in s[1..] by {
        var i :| 0 <= i < |s| && s[i] == k;
        assert s[1..][i - 1] == k;
      }
      assert Sorted(s[1..]);
      InsertSortedPresent(s[1..], k);
      assert s == [s[0]] + s[1..];
    }
  }

  /** Where the key goes: after every smaller key and before every larger
      one (the walk stops at the first larger key). */
  lemma {:induction false} InsertSortedBetween(a: seq<int>, b: seq<int>, k: int)
    requires forall x :: x in a ==> x < k
    requires forall x :: x in b ==> k < x
    ensures InsertSorted(a + b, k) == a + [k] + b
  {
    if a == [] {
      assert a + b == b && a + [k] + b == [k] + b;
      if b != [] {
        assert b[0] in b;
      }
    } else {
      var s := a + b;
      assert s[0] == a[0] && a[0] in a;
      assert s[1..] == a[1..] + b;
      forall x | x in a[1..] ensures x < k {
        assert x in a;
      }
      InsertSortedBetween(a[1..], b, k);
      calc {
        InsertSorted(s, k);
        [a[0]] + InsertSorted(a[1..] + b, k);
        [a[0]] + (a[1..] + [k] + b);
        { assert a == [a[0]] + a[1..]; }
        a + [k] + b;
      }
    }
  }

  /** A sorted sequence stays sorted when one element moves out of it
      to a place between a smaller and a larger part. */
  lemma SortedSplit(a: seq<int>, k: int, b: seq<int>)
    requires Sorted(a + [k] + b)
    ensures Sorted(a) && Sorted(b)
    ensures forall x :: x in a ==> x < k
    ensures forall x :: x in b ==> k < x
  {
    var s := a + [k] + b;
    assert s[|a|] == k;
    forall i, j | 0 <= i < j < |a| ensures a[i] < a[j] {
      assert s[i] == a[i] && s[j] == a[j];
    }
    forall i, j | 0 <= i < j < |b| ensures b[i] < b[j] {
      assert s[|a| + 1 + i] == b[i] && s[|a| + 1 + j] == b[j];
    }
    forall x | x in a ensures x < k {
      var i :| 0 <= i < |a| && a[i] == x;
      assert s[i] == x;
    }
    forall x | x in b ensures k < x {
      var i :| 0 <= i < |b| && b[i] == x;
      assert s[|a| + 1 + i] == x;
    }
  }

  /** The converse of `SortedSplit`. */
  lemma SortedJoin(a: seq<int>, k: int, b: seq<int>)
    requires Sorted(a) && Sorted(b)
    requires forall x :: x in a ==> x < k
    requires forall x :: x in b ==> k < x
    ensures Sorted(a + [k] + b)
  {
    var s := a + [k] + b;
    forall i, j | 0 <= i < j < |s| ensures s[i] < s[j] {
      if j < |a| {
        assert s[i] == a[i] && s[j] == a[j];
      } else if i > |a| {
        assert s[i] == b[i - |a| - 1] && s[j] == b[j - |a| - 1];
      } else {
        if i < |a| {
          assert s[i] == a[i] && a[i] in a;
        }
        if j > |a| {
          assert s[j] == b[j - |a| - 1] && b[j - |a| - 1] in b;
        }
      }
    }
  }

  /** A contiguous part of a sorted sequence is sorted. */
  lemma SortedMiddle(a: seq<int>, b: seq<int>, c: seq<int>)
    requires Sorted(a + b + c)
    ensures Sorted(b) && Sorted(a + c)
  {
    var s := a + b + c;
    forall i, j | 0 <= i < j < |b| ensures b[i] < b[j] {
      assert s[|a| + i] == b[i] && s[|a| + j] == b[j];
    }
    forall i, j | 0 <= i < j < |a + c| ensures (a + c)[i] < (a + c)[j] {
      var i' := if i < |a| then i else i + |b|;
      var j' := if j < |a| then j else j + |b|;
      assert (a + c)[i] == s[i'] && (a + c)[j] == s[j'];
    }
  }

  /** A key strictly between the two halves of a sorted sequence goes
      between them: the result is sorted and is the keyed insertion. */
  lemma KeysBetween(a: seq<int>, k: int, b: seq<int>)
    requires Sorted(a + b)
    requires forall x :: x in a ==> x < k
    requires forall x :: x in b ==> k < x
    ensures Sorted(a + [k] + b)
    ensures InsertSorted(a + b, k) == a + [k] + b
  {
    assert [] + a + b == a + b && a + b + [] == a + b;
    SortedMiddle([], a, b);
    SortedMiddle(a, b, []);
    SortedJoin(a, k, b);
    InsertSortedBetween(a, b, k);
  }
}
