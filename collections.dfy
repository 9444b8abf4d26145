/** Sequence helpers shared by the registries: duplicate-freedom and `splice(indexOf(x), 1)`. */
module Collections {

  /** No element occurs twice. */
  predicate NoDup<T(==)>(s: seq<T>) {
    forall i, j :: 0 <= i < j < |s| ==> s[i] != s[j]
  }

  /** Appending an element that is not there yet keeps the sequence duplicate-free. */
  lemma NoDupSnoc<T>(s: seq<T>, x: T)
    requires NoDup(s) && x !in s
    ensures NoDup(s + [x])
  {
  }

  /** Concatenation regroups freely. */
  lemma AppendAssoc<T>(x: seq<T>, y: seq<T>, z: seq<T>)
    ensures x + y + z == x + (y + z)
  {
  }

  /** The position of the first `x` in `s`, as `indexOf` finds it. */
  function IndexOf<T(==)>(s: seq<T>, x: T): (r: int)
    ensures -1 <= r < |s|
    ensures r == -1 <==> x !in s
    ensures r >= 0 ==> s[r] == x && x !in s[..r]
  {
    if s == [] then -1
    else if s[0] == x then 0
    else
      var r := IndexOf(s[1..], x);
      if r == -1 then -1
      else
        assert s[..r + 1] == [s[0]] + s[1..][..r];
        r + 1
  }

  /**
   * `s.splice(s.indexOf(x), 1)` as the registries use it: the first occurrence
   * of `x` is removed and everything else keeps its order.
   */
  function RemoveFirst<T(==)>(s: seq<T>, x: T): (r: seq<T>)
    ensures x in s ==> |r| == |s| - 1
  {
    var i := IndexOf(s, x);
    if i < 0 then s else s[..i] + s[i + 1..]
  }

  /** Removing the first `x` drops exactly one occurrence of it: the multiset loses one `x`. */
  lemma RemoveFirstMultiset<T>(s: seq<T>, x: T)
    ensures x in s ==> multiset(RemoveFirst(s, x)) == multiset(s) - multiset{x}
    ensures x !in s ==> RemoveFirst(s, x) == s
  {
    var i := IndexOf(s, x);
    if i >= 0 {
      assert s == s[..i] + [x] + s[i + 1..];
    }
  }

  /** Removing an element from where it was appended gives back the sequence before the append. */
  lemma RemoveFirstOfSnoc<T>(s: seq<T>, x: T)
    requires x !in s
    ensures RemoveFirst(s + [x], x) == s
  {
    var t := s + [x];
    assert t[..|s|] == s;
    assert IndexOf(t, x) == |s|;
  }

  /** Where each remaining element of `RemoveFirst` comes from: the positions after the removed one shift down by one. */
  lemma RemoveFirstAt<T>(s: seq<T>, x: T)
    requires x in s
    ensures var i, r := IndexOf(s, x), RemoveFirst(s, x);
            forall a :: 0 <= a < |r| ==> r[a] == s[if a < i then a else a + 1]
  {
    var i := IndexOf(s, x);
    var r := s[..i] + s[i + 1..];
    forall a | 0 <= a < |r|
      ensures r[a] == s[if a < i then a else a + 1]
    {
      if a < i {
        assert r[a] == s[..i][a];
      } else {
        assert r[a] == s[i + 1..][a - i];
      }
    }
  }

  /** Removing from a duplicate-free sequence removes the element entirely and keeps every other one. */
  lemma RemoveFirstNoDup<T>(s: seq<T>, x: T)
    requires NoDup(s)
    ensures NoDup(RemoveFirst(s, x)) && x !in RemoveFirst(s, x)
    ensures forall y :: y != x ==> (y in RemoveFirst(s, x) <==> y in s)
  {
    if x in s {
      var i, r := IndexOf(s, x), RemoveFirst(s, x);
      RemoveFirstAt(s, x);
      forall y | y in s && y != x
        ensures y in r
      {
        var a :| 0 <= a < |s| && s[a] == y;
        if a < i { assert r[a] == y; } else { assert r[a - 1] == y; }
      }
    }
  }
}
