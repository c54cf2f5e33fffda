/**
 * `Array.prototype.sort` with a comparator of the form `(a, b) => key(a) - key(b)`, as the
 * graph and grid engines use it to order edges by weight and nodes by distance. The sort is
 * stable, so elements with equal keys keep their order. A key is a number that may be
 * `Infinity`: `Infinity - Infinity` is `NaN`, which the sort treats like 0, so two infinite
 * keys compare equal and every finite key comes before an infinite one.
 */
module JsSort {

  datatype Key = Fin(n: int) | Inf

  /** The comparator's result is negative: a sorts strictly before b. */
  predicate Below(a: Key, b: Key)
  {
    match a
    case Inf => false
    case Fin(x) => b.Inf? || x < b.n
  }

  /** No later element has a smaller key than an earlier one. */
  predicate Ordered<T>(s: seq<T>, key: T -> Key)
  {
    forall i, j :: 0 <= i < j < |s| ==> !Below(key(s[j]), key(s[i]))
  }

  /** Every element of s has a key no smaller than b. */
  predicate AtLeast<T>(s: seq<T>, key: T -> Key, b: Key)
  {
    forall k :: 0 <= k < |s| ==> !Below(key(s[k]), b)
  }

  /** The comparison is a total preorder: a key below b is below everything not below b. */
  lemma BelowTrans(a: Key, b: Key, c: Key)
    requires Below(a, b) && !Below(c, b)
    ensures Below(a, c)
  {
  }

  /**
   * x placed into s just before the first element with a larger key: after every element
   * whose key is not larger, which is what keeps the sort stable.
   */
  function Insert<T(==)>(x: T, s: seq<T>, key: T -> Key): (r: seq<T>)
    ensures |r| == |s| + 1 && multiset(r) == multiset(s) + multiset{x}
    decreases |s|
  {
    if s == [] then [x]
    else if Below(key(x), key(s[0])) then [x] + s
    else
      assert s == [s[0]] + s[1..];
      [s[0]] + Insert(x, s[1..], key)
  }

  /** Inserting an element no smaller than b into elements no smaller than b keeps them so. */
  lemma {:induction false} InsertAtLeast<T>(x: T, s: seq<T>, key: T -> Key, b: Key)
    requires AtLeast(s, key, b) && !Below(key(x), b)
    ensures AtLeast(Insert(x, s, key), key, b)
    decreases |s|
  {
    if s != [] && !Below(key(x), key(s[0])) {
      InsertAtLeast(x, s[1..], key, b);
    }
  }

  /** Inserting into an ordered sequence keeps it ordered. */
  lemma {:induction false} InsertOrdered<T>(x: T, s: seq<T>, key: T -> Key)
    requires Ordered(s, key)
    ensures Ordered(Insert(x, s, key), key)
    decreases |s|
  {
    if s == [] {
    } else if Below(key(x), key(s[0])) {
      forall k | 0 <= k < |s|
        ensures Below(key(x), key(s[k]))
      {
        BelowTrans(key(x), key(s[0]), key(s[k]));
      }
    } else {
      InsertOrdered(x, s[1..], key);
      InsertAtLeast(x, s[1..], key, key(s[0]));
      var t := Insert(x, s[1..], key);
      assert AtLeast(t, key, key(s[0]));
    }
  }

  /** The sorted copy: each element in turn inserted into the sorted copy of those before it. */
  function SortBy<T(==)>(s: seq<T>, key: T -> Key): (r: seq<T>)
    ensures |r| == |s| && multiset(r) == multiset(s)
    decreases |s|
  {
    if s == [] then []
    else
      assert s == s[..|s| - 1] + [s[|s| - 1]];
      Insert(s[|s| - 1], SortBy(s[..|s| - 1], key), key)
  }

  /** The sorted copy is ordered by key. */
  lemma {:induction false} SortByOrdered<T>(s: seq<T>, key: T -> Key)
    ensures Ordered(SortBy(s, key), key)
    decreases |s|
  {
    if s != [] {
      SortByOrdered(s[..|s| - 1], key);
      InsertOrdered(s[|s| - 1], SortBy(s[..|s| - 1], key), key);
    }
  }

  /** Every element of the sorted copy comes from the input, and every input element is in it. */
  lemma SortByMembers<T>(s: seq<T>, key: T -> Key, x: T)
    ensures x in SortBy(s, key) <==> x in s
  {
    var r := SortBy(s, key);
    assert x in r <==> x in multiset(r);
    assert x in s <==> x in multiset(s);
  }

  /** The elements of s whose key is b, in the order s lists them. */
  function WithKey<T>(s: seq<T>, key: T -> Key, b: Key): (r: seq<T>)
    ensures |r| <= |s|
    decreases |s|
  {
    if s == [] then [] else (if key(s[0]) == b then [s[0]] else []) + WithKey(s[1..], key, b)
  }

  /** Picking the elements with key b out of two sequences one after the other. */
  lemma {:induction false} WithKeyAppend<T>(s: seq<T>, t: seq<T>, key: T -> Key, b: Key)
    ensures WithKey(s + t, key, b) == WithKey(s, key, b) + WithKey(t, key, b)
    decreases |s|
  {
    if s == [] {
      assert s + t == t;
    } else {
      assert (s + t)[0] == s[0] && (s + t)[1..] == s[1..] + t;
      WithKeyAppend(s[1..], t, key, b);
    }
  }

  /** Elements whose keys are all above b hold none with key b. */
  lemma {:induction false} WithKeyNone<T>(s: seq<T>, key: T -> Key, b: Key)
    requires forall k :: 0 <= k < |s| ==> Below(b, key(s[k]))
    ensures WithKey(s, key, b) == []
    decreases |s|
  {
    if s != [] {
      assert Below(b, key(s[0]));
      WithKeyNone(s[1..], key, b);
    }
  }

  /** Dropping the first element of an ordered sequence leaves it ordered. */
  lemma OrderedTail<T>(s: seq<T>, key: T -> Key)
    requires s != [] && Ordered(s, key)
    ensures Ordered(s[1..], key)
  {
    forall i, j | 0 <= i < j < |s| - 1
      ensures !Below(key(s[1..][j]), key(s[1..][i]))
    {
      assert s[1..][i] == s[i + 1] && s[1..][j] == s[j + 1];
    }
  }

  /** x inserted in front of elements with larger keys comes before none with its own key. */
  lemma InsertFrontStable<T>(x: T, s: seq<T>, key: T -> Key, b: Key)
    requires s != [] && Ordered(s, key) && Below(key(x), key(s[0]))
    ensures WithKey([x] + s, key, b) == WithKey(s, key, b) + (if key(x) == b then [x] else [])
  {
    var r := [x] + s;
    assert r[0] == x && r[1..] == s;
    if key(x) == b {
      forall k | 0 <= k < |s|
        ensures Below(b, key(s[k]))
      {
        if k > 0 {
          BelowTrans(key(x), key(s[0]), key(s[k]));
        }
      }
      WithKeyNone(s, key, b);
    }
  }

  /**
   * Inserting x into an ordered sequence puts it after every element with its key: among the
   * elements with key b, x comes last when its key is b, and the others keep their order.
   */
  lemma {:induction false} InsertStable<T>(x: T, s: seq<T>, key: T -> Key, b: Key)
    requires Ordered(s, key)
    ensures WithKey(Insert(x, s, key), key, b) == WithKey(s, key, b) + (if key(x) == b then [x] else [])
    decreases |s|
  {
    if s == [] {
      assert Insert(x, s, key) == [x] && [x][1..] == [];
    } else if Below(key(x), key(s[0])) {
      InsertFrontStable(x, s, key, b);
    } else {
      OrderedTail(s, key);
      InsertStable(x, s[1..], key, b);
      InsertRestStable(x, s, key, b);
    }
  }

  /** Putting h in front of c + d is putting h + c in front of d. */
  lemma PrependAssoc<T>(h: seq<T>, b: seq<T>, c: seq<T>, d: seq<T>)
    requires b == c + d
    ensures h + b == (h + c) + d
  {
  }

  /** The step of InsertStable past a first element that x does not go before. */
  lemma InsertRestStable<T>(x: T, s: seq<T>, key: T -> Key, b: Key)
    requires s != [] && !Below(key(x), key(s[0]))
    requires WithKey(Insert(x, s[1..], key), key, b) == WithKey(s[1..], key, b) + (if key(x) == b then [x] else [])
    ensures WithKey(Insert(x, s, key), key, b) == WithKey(s, key, b) + (if key(x) == b then [x] else [])
  {
    var t := Insert(x, s[1..], key);
    var r := [s[0]] + t;
    assert r[0] == s[0] && r[1..] == t;
    var S0 := if key(s[0]) == b then [s[0]] else [];
    var X := if key(x) == b then [x] else [];
    assert Insert(x, s, key) == r;
    assert WithKey(r, key, b) == S0 + WithKey(t, key, b);
    assert WithKey(s, key, b) == S0 + WithKey(s[1..], key, b);
    PrependAssoc(S0, WithKey(t, key, b), WithKey(s[1..], key, b), X);
  }

  /**
   * The sort is stable: for every key, the elements with that key come out of the sorted
   * copy in the order they went in.
   */
  lemma {:induction false} SortByStable<T>(s: seq<T>, key: T -> Key, b: Key)
    ensures WithKey(SortBy(s, key), key, b) == WithKey(s, key, b)
    decreases |s|
  {
    if s != [] {
      var p, x := s[..|s| - 1], s[|s| - 1];
      SortByStable(p, key, b);
      SortByOrdered(p, key);
      InsertStable(x, SortBy(p, key), key, b);
      assert s == p + [x];
      WithKeyAppend(p, [x], key, b);
      assert WithKey([x], key, b) == (if key(x) == b then [x] else []) by {
        assert [x][1..] == [];
      }
    }
  }

}
