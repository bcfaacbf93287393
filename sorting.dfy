/** Stable sorting by a real-valued key, the behaviour of Kotlin's `sortedBy` and of
    `Stream.sorted` with a comparator. Every sort in the program orders candidate ids
    or positions, so the model sorts sequences of naturals that are strictly increasing
    on input; stability then says that equal keys keep their ascending order. */
module Sorting {
  predicate Increasing(s: seq<nat>)
  {
    forall i, j :: 0 <= i < j < |s| ==> s[i] < s[j]
  }

  /** `x` sorts before `y`: a smaller key, or an equal key and a smaller element. */
  predicate Precedes(x: nat, y: nat, key: nat -> real)
  {
    key(x) < key(y) || (key(x) == key(y) && x < y)
  }

  /** Ascending by key, and by element among equal keys. */
  ghost predicate SortedStably(s: seq<nat>, key: nat -> real)
  {
    forall i, j :: 0 <= i < j < |s| ==> Precedes(s[i], s[j], key)
  }

  /** Places `x`, larger than every element of `t`, after all elements whose key
      does not exceed its own. */
  function InsertBy(t: seq<nat>, x: nat, key: nat -> real): (r: seq<nat>)
    requires SortedStably(t, key)
    requires forall y :: y in t ==> y < x
    ensures multiset(r) == multiset(t) + multiset{x}
    ensures SortedStably(r, key)
  {
    if t == [] then [x]
    else if key(t[0]) > key(x) then
      InsertFront(t, x, key);
      [x] + t
    else
      assert forall y :: y in t[1..] ==> y in t;
      var rest := InsertBy(t[1..], x, key);
      InsertBehindHead(t, x, rest, key);
      [t[0]] + rest
  }

  lemma InsertFront(t: seq<nat>, x: nat, key: nat -> real)
    requires SortedStably(t, key) && t != [] && key(t[0]) > key(x)
    ensures SortedStably([x] + t, key)
  {
    var r := [x] + t;
    forall i, j | 0 <= i < j < |r| ensures Precedes(r[i], r[j], key) {
      if i == 0 {
        assert r[j] == t[j - 1];
        if j > 1 {
          assert Precedes(t[0], t[j - 1], key);
        }
      } else {
        assert r[i] == t[i - 1] && r[j] == t[j - 1];
      }
    }
  }

  lemma InsertBehindHead(t: seq<nat>, x: nat, rest: seq<nat>, key: nat -> real)
    requires SortedStably(t, key) && t != [] && key(t[0]) <= key(x)
    requires forall y :: y in t ==> y < x
    requires SortedStably(rest, key) && multiset(rest) == multiset(t[1..]) + multiset{x}
    ensures multiset([t[0]] + rest) == multiset(t) + multiset{x}
    ensures SortedStably([t[0]] + rest, key)
  {
    assert t == [t[0]] + t[1..];
    assert t[0] in t;
    var r := [t[0]] + rest;
    forall i, j | 0 <= i < j < |r| ensures Precedes(r[i], r[j], key) {
      if i == 0 {
        var y := rest[j - 1];
        assert r[j] == y;
        assert y in multiset(rest);
        if y != x {
          assert y in multiset(t[1..]);
          var k :| 0 <= k < |t[1..]| && t[1..][k] == y;
          assert t[k + 1] == y;
        }
      } else {
        assert r[i] == rest[i - 1] && r[j] == rest[j - 1];
      }
    }
  }

  /** Stable ascending sort of `s` by `key`. */
  function SortBy(s: seq<nat>, key: nat -> real): (r: seq<nat>)
    requires Increasing(s)
    ensures multiset(r) == multiset(s)
    ensures |r| == |s|
    ensures SortedStably(r, key)
  {
    if s == [] then []
    else
      var init := s[..|s| - 1];
      var sorted := SortBy(init, key);
      LastIsLargest(s, sorted);
      InsertBy(sorted, s[|s| - 1], key)
  }

  lemma LastIsLargest(s: seq<nat>, sorted: seq<nat>)
    requires Increasing(s) && s != []
    requires multiset(sorted) == multiset(s[..|s| - 1])
    ensures forall y :: y in sorted ==> y < s[|s| - 1]
    ensures multiset(s) == multiset(s[..|s| - 1]) + multiset{s[|s| - 1]}
  {
    assert s == s[..|s| - 1] + [s[|s| - 1]];
    forall y | y in sorted ensures y < s[|s| - 1] {
      assert y in multiset(s[..|s| - 1]);
    }
  }

  function Reverse(s: seq<nat>): (r: seq<nat>)
    ensures |r| == |s|
    ensures forall i :: 0 <= i < |s| ==> r[i] == s[|s| - 1 - i]
  {
    if s == [] then [] else [s[|s| - 1]] + Reverse(s[..|s| - 1])
  }

  /** The ascending run 0, 1, ..., n - 1. */
  function Range(n: nat): (r: seq<nat>)
    ensures |r| == n
    ensures forall i :: 0 <= i < n ==> r[i] == i
    ensures Increasing(r)
  {
    seq(n, i => i)
  }

  /** Elements of an increasing sequence are distinct, so its multiset holds each once. */
  lemma IncreasingMultiset(s: seq<nat>, x: nat)
    requires Increasing(s)
    ensures multiset(s)[x] == (if x in s then 1 else 0)
  {
    if s != [] {
      assert s == [s[0]] + s[1..];
      assert Increasing(s[1..]);
      IncreasingMultiset(s[1..], x);
      if x == s[0] {
        assert x !in s[1..];
      }
    }
  }

  /** Two positions holding the same value contribute two occurrences. */
  lemma AtLeastTwice(s: seq<nat>, i: nat, j: nat)
    requires i < j < |s|
    ensures multiset(s)[s[i]] >= 1 + (if s[j] == s[i] then 1 else 0)
  {
    assert s == s[..i] + [s[i]] + s[i + 1..j] + [s[j]] + s[j + 1..];
  }

  /** The positions of `keys` ordered by ascending key, positions of equal keys in
      ascending order: a stable ascending sort of the positions. Every position occurs
      exactly once. */
  function Ascending(keys: seq<real>): (p: seq<nat>)
    ensures |p| == |keys|
    ensures forall k :: 0 <= k < |p| ==> p[k] < |keys|
    ensures forall i :: 0 <= i < |keys| ==> i in p
    ensures forall k, l :: 0 <= k < l < |p| ==> p[k] != p[l]
    ensures forall k, l :: 0 <= k < l < |p| ==>
      keys[p[k]] < keys[p[l]] || (keys[p[k]] == keys[p[l]] && p[k] < p[l])
  {
    var key := (i: nat) => if i < |keys| then keys[i] else 0.0;
    var positions := Range(|keys|);
    var p := SortBy(positions, key);
    forall k | 0 <= k < |p| ensures p[k] < |keys| {
      assert p[k] in multiset(positions);
    }
    forall i | 0 <= i < |keys| ensures i in p {
      assert positions[i] == i;
      assert i in multiset(positions);
    }
    forall k, l | 0 <= k < l < |p| ensures p[k] != p[l] {
      IncreasingMultiset(positions, p[k]);
      AtLeastTwice(p, k, l);
    }
    forall k, l | 0 <= k < l < |p|
      ensures keys[p[k]] < keys[p[l]] || (keys[p[k]] == keys[p[l]] && p[k] < p[l])
    {
      assert Precedes(p[k], p[l], key);
    }
    p
  }

  /** The positions of `keys` ordered by descending key, positions of equal keys in
      descending order: the ascending order reversed. Every position occurs exactly
      once. */
  function Descending(keys: seq<real>): (p: seq<nat>)
    ensures |p| == |keys|
    ensures forall k :: 0 <= k < |p| ==> p[k] < |keys|
    ensures forall i :: 0 <= i < |keys| ==> i in p
    ensures forall k, l :: 0 <= k < l < |p| ==> p[k] != p[l]
    ensures forall k, l :: 0 <= k < l < |p| ==>
      keys[p[k]] > keys[p[l]] || (keys[p[k]] == keys[p[l]] && p[k] > p[l])
  {
    var a := Ascending(keys);
    ReversedPositions(a, |keys|);
    ReversedDescends(a, keys);
    Reverse(a)
  }

  /** Reversing a list that holds every position below n once gives another such list. */
  lemma ReversedPositions(a: seq<nat>, n: nat)
    requires |a| == n && (forall k :: 0 <= k < |a| ==> a[k] < n) && (forall i :: 0 <= i < n ==> i in a)
    requires forall k, l :: 0 <= k < l < |a| ==> a[k] != a[l]
    ensures forall k :: 0 <= k < n ==> Reverse(a)[k] < n
    ensures forall i :: 0 <= i < n ==> i in Reverse(a)
    ensures forall k, l :: 0 <= k < l < n ==> Reverse(a)[k] != Reverse(a)[l]
  {
    var p := Reverse(a);
    forall i | 0 <= i < n ensures i in p {
      assert i in a;
      var k :| 0 <= k < |a| && a[k] == i;
      assert p[|a| - 1 - k] == i;
    }
    forall k, l | 0 <= k < l < |p| ensures p[k] != p[l] {
      assert p[k] == a[|a| - 1 - k] && p[l] == a[|a| - 1 - l];
    }
  }

  /** Reversing the ascending order gives the descending one, equal keys included. */
  lemma ReversedDescends(a: seq<nat>, keys: seq<real>)
    requires |a| == |keys| && forall k :: 0 <= k < |a| ==> a[k] < |keys|
    requires forall k, l :: 0 <= k < l < |a| ==>
      keys[a[k]] < keys[a[l]] || (keys[a[k]] == keys[a[l]] && a[k] < a[l])
    ensures forall k, l :: 0 <= k < l < |a| ==>
      keys[Reverse(a)[k]] > keys[Reverse(a)[l]] ||
      (keys[Reverse(a)[k]] == keys[Reverse(a)[l]] && Reverse(a)[k] > Reverse(a)[l])
  {
    var p := Reverse(a);
    forall k, l | 0 <= k < l < |p|
      ensures keys[p[k]] > keys[p[l]] || (keys[p[k]] == keys[p[l]] && p[k] > p[l])
    {
      assert p[k] == a[|a| - 1 - k] && p[l] == a[|a| - 1 - l];
    }
  }

  /** The elements of `s` at the positions listed in `p`, in that order. */
  function Read<T>(s: seq<T>, p: seq<nat>): (r: seq<T>)
    requires forall k :: 0 <= k < |p| ==> p[k] < |s|
    ensures |r| == |p| && forall k :: 0 <= k < |p| ==> r[k] == s[p[k]]
  {
    seq(|p|, k requires 0 <= k < |p| => s[p[k]])
  }

  /** Taking the position `p[j]` out of `p` takes `s[p[j]]` out of the read. */
  lemma ReadWithout<T>(s: seq<T>, p: seq<nat>, j: nat)
    requires forall k :: 0 <= k < |p| ==> p[k] < |s|
    requires j < |p|
    ensures multiset(Read(s, p)) == multiset(Read(s, p[..j] + p[j + 1..])) + multiset{s[p[j]]}
  {
    var q := p[..j] + p[j + 1..];
    assert Read(s, p) == Read(s, q)[..j] + [s[p[j]]] + Read(s, q)[j..];
    assert Read(s, q) == Read(s, q)[..j] + Read(s, q)[j..];
  }

  /** Positions below `|t|` read the same from `t` and from any extension of `t`. */
  lemma ReadPrefix<T>(t: seq<T>, s: seq<T>, p: seq<nat>)
    requires |t| <= |s| && t == s[..|t|]
    requires forall k :: 0 <= k < |p| ==> p[k] < |t|
    ensures Read(t, p) == Read(s, p)
  {
  }

  /** Dropping the largest position from a list that holds every position below n once
      leaves a list that holds every position below n - 1 once. */
  lemma DropLastPosition(p: seq<nat>, n: nat, j: nat)
    requires |p| == n && j < n && p[j] == n - 1
    requires forall k :: 0 <= k < |p| ==> p[k] < n
    requires forall i :: 0 <= i < n ==> i in p
    requires forall k, l :: 0 <= k < l < |p| ==> p[k] != p[l]
    ensures var q := p[..j] + p[j + 1..];
      && |q| == n - 1
      && (forall k :: 0 <= k < |q| ==> q[k] < n - 1)
      && (forall i :: 0 <= i < n - 1 ==> i in q)
      && (forall k, l :: 0 <= k < l < |q| ==> q[k] != q[l])
  {
    var q := p[..j] + p[j + 1..];
    forall k | 0 <= k < |q| ensures q[k] < n - 1 {
      if k < j {
        assert q[k] == p[k];
      } else {
        assert q[k] == p[k + 1];
      }
    }
    forall i | 0 <= i < n - 1 ensures i in q {
      assert i in p;
      var k :| 0 <= k < n && p[k] == i;
      if k < j {
        assert q[k] == i;
      } else {
        assert q[k - 1] == i;
      }
    }
    forall k, l | 0 <= k < l < |q| ensures q[k] != q[l] {
      var k' := if k < j then k else k + 1;
      var l' := if l < j then l else l + 1;
      assert q[k] == p[k'] && q[l] == p[l'];
    }
  }

  /** Reading `s` through a list of positions that holds every position of `s` once gives
      a permutation of `s`. */
  lemma {:induction false} PermutedReadIsPermutation<T>(s: seq<T>, p: seq<nat>)
    requires |p| == |s|
    requires forall k :: 0 <= k < |p| ==> p[k] < |s|
    requires forall i :: 0 <= i < |s| ==> i in p
    requires forall k, l :: 0 <= k < l < |p| ==> p[k] != p[l]
    ensures multiset(Read(s, p)) == multiset(s)
  {
    var n := |s|;
    if n > 0 {
      assert n - 1 in p;
      var j :| 0 <= j < n && p[j] == n - 1;
      var q := p[..j] + p[j + 1..];
      var s' := s[..n - 1];
      DropLastPosition(p, n, j);
      PermutedReadIsPermutation(s', q);
      ReadPrefix(s', s, q);
      ReadWithout(s, p, j);
      assert s == s' + [s[n - 1]];
    }
  }
}
