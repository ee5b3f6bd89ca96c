/** The `likedBy` array of a comment and the like toggle performed on it:
    an `indexOf` lookup followed by either a `push` of the caller or a
    `splice` of exactly one element at the found index. */
module LikeList {

  /** No element occurs twice: each user has liked the comment at most once. */
  predicate NoDup<T(==)>(s: seq<T>) {
    forall i, j :: 0 <= i < j < |s| ==> s[i] != s[j]
  }

  /** `indexOf`: the first position of `x` in `s`, or -1 when `x` does not occur. */
  function IndexOf<T(==)>(s: seq<T>, x: T): (r: int)
    ensures -1 <= r < |s|
    ensures r == -1 <==> x !in s
    ensures 0 <= r ==> s[r] == x && x !in s[..r]
  {
    if s == [] then -1
    else if s[0] == x then 0
    else
      var k := IndexOf(s[1..], x);
      assert s == [s[0]] + s[1..];
      assert 0 <= k ==> s[..k + 1] == [s[0]] + s[1..][..k];
      if k == -1 then -1 else k + 1
  }

  /** Reference definition of "take out the first occurrence of `x`", written
      independently of `IndexOf`: walk the list and drop the first match. */
  function RemoveFirst<T(==)>(s: seq<T>, x: T): (r: seq<T>)
  {
    if s == [] then []
    else if s[0] == x then s[1..]
    else [s[0]] + RemoveFirst(s[1..], x)
  }

  /** Removing the first occurrence takes exactly one copy of `x` out of the
      multiset of elements, and nothing when `x` does not occur. */
  lemma {:induction false} RemoveFirstDropsOneCopy<T>(s: seq<T>, x: T)
    ensures multiset(RemoveFirst(s, x)) == multiset(s) - multiset{x}
  {
    if s != [] {
      assert s == [s[0]] + s[1..];
      if s[0] != x {
        RemoveFirstDropsOneCopy(s[1..], x);
      }
    }
  }

  /** The like toggle: append the caller when absent (`push`), otherwise cut
      out the element at the position `indexOf` found (`splice(index, 1)`). */
  function Toggle<T(==)>(s: seq<T>, x: T): (r: seq<T>)
    ensures |r| == if x in s then |s| - 1 else |s| + 1
    ensures x !in s ==> x in r
  {
    var i := IndexOf(s, x);
    if i == -1 then s + [x] else s[..i] + s[i + 1..]
  }

  /** The `indexOf` loop: scans from the front and stops at the first match. */
  method FindIndex<T(==)>(s: seq<T>, x: T) returns (index: int)
    ensures index == IndexOf(s, x)
    ensures index == -1 <==> x !in s
    ensures 0 <= index ==> index < |s| && s[index] == x && x !in s[..index]
  {
    var i := 0;
    while i < |s|
      invariant 0 <= i <= |s|
      invariant x !in s[..i]
    {
      if s[i] == x {
        return i;
      }
      assert s[..i + 1] == s[..i] + [s[i]];
      i := i + 1;
    }
    assert s[..i] == s;
    return -1;
  }

  /** Cutting out the element at `IndexOf(s, x)` is exactly "remove the first
      occurrence of `x`". */
  lemma {:induction false} SpliceAtIndexOfIsRemoveFirst<T>(s: seq<T>, x: T)
    requires x in s
    ensures var i := IndexOf(s, x); s[..i] + s[i + 1..] == RemoveFirst(s, x)
  {
    var t := s[1..];
    if s[0] == x {
      assert IndexOf(s, x) == 0;
      assert RemoveFirst(s, x) == t;
    } else {
      assert s == [s[0]] + t;
      assert x in t;
      SpliceAtIndexOfIsRemoveFirst(t, x);
      var k := IndexOf(t, x);
      assert IndexOf(s, x) == k + 1;
      assert RemoveFirst(s, x) == [s[0]] + RemoveFirst(t, x);
      assert s[..k + 1] == [s[0]] + t[..k];
      assert s[k + 2..] == t[k + 1..];
    }
  }

  /** What a toggle does to the list. An unliked caller is appended at the end;
      for a liked caller exactly the first occurrence is removed and every
      other element keeps its relative order. */
  lemma ToggleCases<T>(s: seq<T>, x: T)
    ensures x !in s ==> Toggle(s, x) == s + [x]
    ensures x in s ==> Toggle(s, x) == RemoveFirst(s, x)
    ensures x in s ==> multiset(Toggle(s, x)) == multiset(s) - multiset{x}
    ensures x in s ==> exists i :: 0 <= i < |s| && s[i] == x && x !in s[..i]
                                  && Toggle(s, x) == s[..i] + s[i + 1..]
  {
    if x in s {
      SpliceAtIndexOfIsRemoveFirst(s, x);
      RemoveFirstDropsOneCopy(s, x);
    }
  }

  /** A toggle leaves every other user's membership as it was. */
  lemma ToggleKeepsOthers<T>(s: seq<T>, x: T, y: T)
    requires y != x
    ensures y in Toggle(s, x) <==> y in s
  {
    var i := IndexOf(s, x);
    if i != -1 {
      var t := s[..i] + s[i + 1..];
      if y in s {
        var j :| 0 <= j < |s| && s[j] == y;
        assert j != i;
        assert t[if j < i then j else j - 1] == y;
      }
      if y in t {
        var k :| 0 <= k < |t| && t[k] == y;
        assert s[if k < i then k else k + 1] == y;
      }
    }
  }

  /** Unliking removes the caller entirely when the list has no duplicates. */
  lemma UnlikeRemovesCaller<T>(s: seq<T>, x: T)
    requires NoDup(s) && x in s
    ensures x !in Toggle(s, x)
  {
    var i := IndexOf(s, x);
    var t := s[..i] + s[i + 1..];
    forall k | 0 <= k < |t|
      ensures t[k] != x
    {
      if k < i {
        assert t[k] == s[k];
        assert s[k] in s[..i];
      } else {
        assert t[k] == s[k + 1];
      }
    }
  }

  /** A toggle changes the membership of the caller only: an unliked caller
      becomes liked, and, when the list has no duplicates, a liked one
      becomes unliked. */
  lemma ToggleMembership<T>(s: seq<T>, x: T)
    ensures forall y :: y != x ==> (y in Toggle(s, x) <==> y in s)
    ensures x !in s ==> x in Toggle(s, x)
    ensures NoDup(s) && x in s ==> x !in Toggle(s, x)
  {
    forall y | y != x
      ensures y in Toggle(s, x) <==> y in s
    {
      ToggleKeepsOthers(s, x, y);
    }
    if NoDup(s) && x in s {
      UnlikeRemovesCaller(s, x);
    }
  }

  /** Toggling keeps the list free of duplicates. */
  lemma TogglePreservesNoDup<T>(s: seq<T>, x: T)
    requires NoDup(s)
    ensures NoDup(Toggle(s, x))
  {
    var i := IndexOf(s, x);
    var t := Toggle(s, x);
    if i == -1 {
      forall a, b | 0 <= a < b < |t|
        ensures t[a] != t[b]
      {
        if b == |s| {
          assert t[a] == s[a];
          assert s[a] in s;
        }
      }
    } else {
      forall a, b | 0 <= a < b < |t|
        ensures t[a] != t[b]
      {
        var a' := if a < i then a else a + 1;
        var b' := if b < i then b else b + 1;
        assert t[a] == s[a'] && t[b] == s[b'];
      }
    }
  }

  /** Two toggles by the same caller restore that caller's membership, provided
      the list held no duplicates to begin with. */
  lemma ToggleTwiceRestoresMembership<T>(s: seq<T>, x: T)
    requires NoDup(s)
    ensures (x in Toggle(Toggle(s, x), x)) == (x in s)
  {
    ToggleMembership(s, x);
    TogglePreservesNoDup(s, x);
    ToggleMembership(Toggle(s, x), x);
  }

  /** Starting from "not liked", like followed by unlike gives back the exact list. */
  lemma ToggleTwiceFromUnliked<T>(s: seq<T>, x: T)
    requires x !in s
    ensures Toggle(Toggle(s, x), x) == s
  {
    var t := s + [x];
    assert Toggle(s, x) == t;
    var i := IndexOf(t, x);
    assert t[|s|] == x;
    assert i == |s|;
    assert t[..i] == s;
  }

  /** Without the no-duplicates invariant the toggle is not an involution: a
      caller listed twice is still listed after an unlike, and a second toggle
      removes the remaining entry instead of adding one back. */
  lemma DuplicateLikeBreaksRestore<T>(x: T)
    ensures var s := [x, x];
            x in Toggle(s, x) && x !in Toggle(Toggle(s, x), x)
  {
    var s := [x, x];
    assert IndexOf(s, x) == 0;
    assert Toggle(s, x) == [x];
    assert IndexOf([x], x) == 0;
    assert Toggle([x], x) == [];
  }
}
