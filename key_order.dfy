/**
 * The order in which a java.util.TreeSet<String> keeps its keys (String.compareTo:
 * character by character, a proper prefix first), and the sorted duplicate-free
 * sequence that such a set iterates over.
 */
module KeyOrder {

  /** String.compareTo(a, b) < 0. */
  predicate Less(a: string, b: string)
    decreases |a|
  {
    if a == [] then b != []
    else if b == [] then false
    else if a[0] != b[0] then a[0] < b[0]
    else Less(a[1..], b[1..])
  }

  lemma {:induction false} LessIrreflexive(a: string)
    ensures !Less(a, a)
    decreases |a|
  {
    if a != [] {
      LessIrreflexive(a[1..]);
    }
  }

  lemma {:induction false} LessTransitive(a: string, b: string, c: string)
    requires Less(a, b) && Less(b, c)
    ensures Less(a, c)
    decreases |a|
  {
    if a != [] && b != [] && c != [] && a[0] == b[0] && b[0] == c[0] {
      LessTransitive(a[1..], b[1..], c[1..]);
    }
  }

  lemma {:induction false} LessTotal(a: string, b: string)
    ensures a == b || Less(a, b) || Less(b, a)
    decreases |a|
  {
    if a != [] && b != [] && a[0] == b[0] {
      LessTotal(a[1..], b[1..]);
      if a[1..] == b[1..] {
        assert a == [a[0]] + a[1..] && b == [b[0]] + b[1..];
      }
    }
  }

  lemma LessAsymmetric(a: string, b: string)
    requires Less(a, b)
    ensures !Less(b, a)
  {
    if Less(b, a) {
      LessTransitive(a, b, a);
      LessIrreflexive(a);
    }
  }

  /** Strictly ascending, hence without duplicates: the iteration order of a TreeSet. */
  predicate StrictlySorted(s: seq<string>)
  {
    forall i, j :: 0 <= i < j < |s| ==> Less(s[i], s[j])
  }

  /** The sequence lists exactly the members of the set. */
  ghost predicate Lists(s: seq<string>, keys: set<string>)
  {
    forall x :: x in s <==> x in keys
  }

  /** TreeSet.add: the key is inserted at its place; a key already present is not added twice. */
  function Insert(s: seq<string>, k: string): (r: seq<string>)
    requires StrictlySorted(s)
    ensures StrictlySorted(r)
    ensures forall x :: x in r <==> x in s || x == k
    decreases |s|
  {
    if s == [] then [k]
    else if k == s[0] then s
    else if Less(k, s[0]) then
      BelowHead(k, s);
      [k] + s
    else
      LessTotal(k, s[0]);
      var tail := Insert(s[1..], k);
      AboveTail(s, k, tail);
      [s[0]] + tail
  }

  /** A key below the head of a sorted sequence can be put in front of it. */
  lemma BelowHead(k: string, s: seq<string>)
    requires StrictlySorted(s) && s != [] && Less(k, s[0])
    ensures StrictlySorted([k] + s)
  {
    forall x | x in s
      ensures Less(k, x)
    {
      var j :| 0 <= j < |s| && s[j] == x;
      if j > 0 {
        LessTransitive(k, s[0], x);
      }
    }
    ConsSorted(k, s);
  }

  /** The head of a sorted sequence stays in front when the tail gains a larger key. */
  lemma AboveTail(s: seq<string>, k: string, tail: seq<string>)
    requires StrictlySorted(s) && s != [] && Less(s[0], k)
    requires StrictlySorted(tail)
    requires forall x :: x in tail ==> x in s[1..] || x == k
    ensures StrictlySorted([s[0]] + tail)
  {
    forall x | x in tail
      ensures Less(s[0], x)
    {
      if x != k {
        var j :| 0 <= j < |s[1..]| && s[1..][j] == x;
        assert s[j + 1] == x;
      }
    }
    ConsSorted(s[0], tail);
  }

  lemma ConsSorted(h: string, tail: seq<string>)
    requires StrictlySorted(tail)
    requires forall x :: x in tail ==> Less(h, x)
    ensures StrictlySorted([h] + tail)
  {
    var r := [h] + tail;
    forall i, j | 0 <= i < j < |r|
      ensures Less(r[i], r[j])
    {
      assert r[j] == tail[j - 1];
      if i > 0 {
        assert r[i] == tail[i - 1];
      }
    }
  }

  /** A key above everything in a sorted sequence can be put at its end. */
  lemma SnocSorted(s: seq<string>, k: string)
    requires StrictlySorted(s)
    requires forall x :: x in s ==> Less(x, k)
    ensures StrictlySorted(s + [k])
  {
    var r := s + [k];
    forall i, j | 0 <= i < j < |r|
      ensures Less(r[i], r[j])
    {
      assert r[i] == s[i];
      if j < |s| {
        assert r[j] == s[j];
      } else {
        assert s[i] in s;
      }
    }
  }

  /**
   * The iteration order of a TreeSet holding exactly the given keys. Which key is
   * added first does not matter: Sorted below shows the result is unique.
   */
  ghost function SortedKeys(keys: set<string>): (r: seq<string>)
    ensures StrictlySorted(r) && Lists(r, keys)
    decreases keys
  {
    if keys == {} then []
    else
      var k :| k in keys;
      Insert(SortedKeys(keys - {k}), k)
  }

  /** Two strictly sorted sequences with the same members are equal. */
  lemma {:induction false} SortedUnique(s: seq<string>, t: seq<string>)
    requires StrictlySorted(s) && StrictlySorted(t)
    requires forall x :: x in s <==> x in t
    ensures s == t
    decreases |s|
  {
    EmptyTogether(s, t);
    if s != [] {
      SameHead(s, t);
      HeadNotInTail(s);
      HeadNotInTail(t);
      forall x
        ensures x in s[1..] <==> x in t[1..]
      {
        assert x in s <==> x == s[0] || x in s[1..] by {
          assert s == [s[0]] + s[1..];
        }
        assert x in t <==> x == t[0] || x in t[1..] by {
          assert t == [t[0]] + t[1..];
        }
      }
      SortedUnique(s[1..], t[1..]);
      assert s == [s[0]] + s[1..] && t == [t[0]] + t[1..];
    }
  }

  lemma EmptyTogether(s: seq<string>, t: seq<string>)
    requires forall x :: x in s <==> x in t
    ensures s == [] <==> t == []
  {
    if s != [] {
      assert s[0] in t;
    }
    if t != [] {
      assert t[0] in s;
    }
  }

  lemma SameHead(s: seq<string>, t: seq<string>)
    requires StrictlySorted(s) && StrictlySorted(t) && s != [] && t != []
    requires forall x :: x in s <==> x in t
    ensures s[0] == t[0]
  {
    assert t[0] in s && s[0] in t;
    var i :| 0 <= i < |s| && s[i] == t[0];
    var j :| 0 <= j < |t| && t[j] == s[0];
    if i > 0 && j > 0 {
      LessAsymmetric(s[0], t[0]);
    }
  }

  lemma HeadNotInTail(s: seq<string>)
    requires StrictlySorted(s) && s != []
    ensures s[0] !in s[1..]
  {
    if s[0] in s[1..] {
      var j :| 0 <= j < |s[1..]| && s[1..][j] == s[0];
      assert Less(s[0], s[j + 1]);
      LessIrreflexive(s[0]);
    }
  }

  /** Any strictly sorted listing of a key set is its TreeSet iteration order. */
  lemma SortedKeysUnique(s: seq<string>, keys: set<string>)
    requires StrictlySorted(s) && Lists(s, keys)
    ensures s == SortedKeys(keys)
  {
    SortedUnique(s, SortedKeys(keys));
  }
}
