/** The Python list operations the server relies on, as sequence functions. */
module Lists {

  predicate Distinct<T(==)>(s: seq<T>) {
    forall i, j :: 0 <= i < j < |s| ==> s[i] != s[j]
  }

  /** `list.index(x)`: the position of the first occurrence. */
  function IndexOf<T(==)>(s: seq<T>, x: T): (i: nat)
    requires x in s
    ensures i < |s| && s[i] == x
    ensures forall j :: 0 <= j < i ==> s[j] != x
  {
    if s[0] == x then 0 else 1 + IndexOf(s[1..], x)
  }

  /** `list.remove(x)`: drops the first occurrence only. */
  function RemoveFirst<T(==)>(s: seq<T>, x: T): (r: seq<T>)
    requires x in s
  {
    s[..IndexOf(s, x)] + s[IndexOf(s, x) + 1..]
  }

  /** In a list without repeats the element at `i` is the first occurrence of itself. */
  lemma IndexOfDistinct<T>(s: seq<T>, i: nat)
    requires Distinct(s) && i < |s|
    ensures IndexOf(s, s[i]) == i
  {
  }

  /** Removing an element keeps a list without repeats, and it is gone afterwards. */
  lemma RemoveFirstDistinct<T>(s: seq<T>, x: T)
    requires Distinct(s) && x in s
    ensures Distinct(RemoveFirst(s, x))
    ensures x !in RemoveFirst(s, x)
    ensures |RemoveFirst(s, x)| == |s| - 1
  {
    var i := IndexOf(s, x);
    var r := RemoveFirst(s, x);
    forall a, b | 0 <= a < b < |r| ensures r[a] != r[b] {
      var a' := if a < i then a else a + 1;
      var b' := if b < i then b else b + 1;
      assert r[a] == s[a'] && r[b] == s[b'];
    }
  }

  /** In a list without repeats, `remove` takes the element out and keeps every other one. */
  lemma RemoveFirstMembers<T>(s: seq<T>, x: T)
    requires Distinct(s) && x in s
    ensures forall y :: y in RemoveFirst(s, x) <==> y in s && y != x
  {
    RemoveFirstDistinct(s, x);
    RemoveFirstMultiset(s, x);
    forall y ensures y in RemoveFirst(s, x) <==> y in s && y != x {
      assert y in RemoveFirst(s, x) <==> y in multiset(RemoveFirst(s, x));
      assert y in s <==> y in multiset(s);
    }
  }

  /** Appending a fresh element keeps a list without repeats. */
  lemma AppendDistinct<T>(s: seq<T>, x: T)
    requires Distinct(s) && x !in s
    ensures Distinct(s + [x])
  {
  }

  /** In a list without repeats, an element does not occur before its own position. */
  lemma DistinctPrefix<T>(s: seq<T>, i: nat)
    requires Distinct(s) && i < |s|
    ensures s[i] !in s[..i]
    ensures forall x :: x in s[..i + 1] ==> x in s
  {
    forall j | 0 <= j < i
      ensures s[..i][j] != s[i]
    {
      assert s[..i][j] == s[j];
    }
  }

  lemma SliceSnoc<T>(s: seq<T>, i: nat)
    requires i < |s|
    ensures s[..i + 1] == s[..i] + [s[i]]
  {
  }

  lemma SliceAll<T>(s: seq<T>)
    ensures s[..|s|] == s
  {
  }

  lemma EmptyPrefix<T>(s: seq<T>)
    ensures [] + s == s
  {
  }

  lemma AppendEmpty<T>(s: seq<T>)
    ensures s + [] == s
  {
  }

  lemma AppendAssoc<T>(a: seq<T>, b: seq<T>, c: seq<T>)
    ensures a + b + c == a + (b + c)
  {
  }

  /** The list with every element of `gone` left out, order kept (what repeated `del` leaves of a dict's keys). */
  function Without<T(==,!new)>(s: seq<T>, gone: set<T>): (r: seq<T>)
    ensures forall x :: x in r <==> x in s && x !in gone
  {
    if s == [] then []
    else
      assert forall x :: x in s <==> x == s[0] || x in s[1..];
      (if s[0] in gone then [] else [s[0]]) + Without(s[1..], gone)
  }

  /** Leaving nothing out changes nothing. */
  lemma {:induction false} WithoutNothing<T(!new)>(s: seq<T>)
    ensures Without(s, {}) == s
  {
    if s != [] {
      WithoutNothing(s[1..]);
      assert s == [s[0]] + s[1..];
    }
  }

  /** Leaving elements out keeps a list without repeats. */
  lemma {:induction false} WithoutDistinct<T(!new)>(s: seq<T>, gone: set<T>)
    requires Distinct(s)
    ensures Distinct(Without(s, gone))
  {
    if s != [] {
      DistinctTail(s);
      WithoutDistinct(s[1..], gone);
    }
  }

  /** Removing one more element from a list without repeats is leaving out one more. */
  lemma {:induction false} RemoveFirstWithout<T(!new)>(s: seq<T>, gone: set<T>, x: T)
    requires Distinct(s) && x in s && x !in gone
    ensures x in Without(s, gone)
    ensures RemoveFirst(Without(s, gone), x) == Without(s, gone + {x})
  {
    DistinctTail(s);
    var rest, rest' := Without(s[1..], gone), Without(s[1..], gone + {x});
    if s[0] == x {
      assert Without(s, gone) == [x] + rest;
      assert Without(s, gone + {x}) == rest';
      assert rest' == rest by {
        WithoutUnchanged(s[1..], gone, x);
      }
      RemoveFirstHead(x, rest);
    } else {
      assert x in s[1..];
      RemoveFirstWithout(s[1..], gone, x);
      if s[0] in gone {
        assert Without(s, gone) == rest;
        assert Without(s, gone + {x}) == rest';
      } else {
        assert Without(s, gone) == [s[0]] + rest;
        assert Without(s, gone + {x}) == [s[0]] + rest';
        RemoveFirstCons(s[0], rest, x);
      }
    }
  }

  /** `remove` of the leading element drops it. */
  lemma RemoveFirstHead<T>(x: T, tail: seq<T>)
    ensures RemoveFirst([x] + tail, x) == tail
  {
    assert ([x] + tail)[1..] == tail;
  }

  /** The tail of a list without repeats has none either and lacks the head. */
  lemma DistinctTail<T>(s: seq<T>)
    requires Distinct(s) && s != []
    ensures Distinct(s[1..]) && s[0] !in s[1..]
  {
    forall i, j | 0 <= i < j < |s[1..]| ensures s[1..][i] != s[1..][j] {
      assert s[1..][i] == s[i + 1] && s[1..][j] == s[j + 1];
    }
    forall i | 0 <= i < |s[1..]| ensures s[1..][i] != s[0] {
      assert s[1..][i] == s[i + 1];
    }
  }

  /** Leaving out an element that does not occur changes nothing. */
  lemma {:induction false} WithoutUnchanged<T(!new)>(s: seq<T>, gone: set<T>, x: T)
    requires x !in s
    ensures Without(s, gone + {x}) == Without(s, gone)
  {
    if s != [] {
      WithoutUnchanged(s[1..], gone, x);
    }
  }

  /** `remove` skips a leading element that differs. */
  lemma RemoveFirstCons<T>(y: T, tail: seq<T>, x: T)
    requires y != x && x in tail
    ensures RemoveFirst([y] + tail, x) == [y] + RemoveFirst(tail, x)
  {
    var s := [y] + tail;
    assert s[1..] == tail;
    var i := IndexOf(tail, x);
    assert IndexOf(s, x) == 1 + i;
    assert s[..1 + i] == [y] + tail[..i];
    assert s[1 + i + 1..] == tail[i + 1..];
  }

  /** `remove` takes away exactly one occurrence. */
  lemma RemoveFirstMultiset<T>(s: seq<T>, x: T)
    requires x in s
    ensures multiset(RemoveFirst(s, x)) == multiset(s) - multiset{x}
  {
    var i := IndexOf(s, x);
    assert s == s[..i] + [x] + s[i + 1..];
    assert multiset(s) == multiset(s[..i]) + multiset{x} + multiset(s[i + 1..]);
  }
}
