/** Sequence helpers shared by the model: `Array.prototype.filter`, `find`,
    `.filter(...).length`, and the order-preserving subsequence relation. */
module Seqs {
  import opened Wrappers

  /** The elements of `s` that satisfy `p`, in their original order. */
  function Filter<T(==)>(p: T -> bool, s: seq<T>): (r: seq<T>)
    ensures |r| <= |s|
    ensures forall x :: x in r ==> x in s && p(x)
    ensures forall i :: 0 <= i < |s| && p(s[i]) ==> s[i] in r
  {
    if s == [] then []
    else if p(s[0]) then [s[0]] + Filter(p, s[1..])
    else Filter(p, s[1..])
  }

  /** `s.filter(p).length` */
  function Count<T(==)>(p: T -> bool, s: seq<T>): (n: nat)
    ensures n <= |s|
  {
    |Filter(p, s)|
  }

  /** The index of the first element satisfying `p`, or `|s|` when there is none. */
  function FindIndex<T>(p: T -> bool, s: seq<T>): (k: nat)
    ensures k <= |s|
    ensures forall j :: 0 <= j < k ==> !p(s[j])
    ensures k < |s| ==> p(s[k])
  {
    if s == [] then 0
    else if p(s[0]) then 0
    else 1 + FindIndex(p, s[1..])
  }

  /** `s.find(p)`: the first element satisfying `p`, if any. */
  function FindFirst<T>(p: T -> bool, s: seq<T>): (r: Option<T>)
    ensures r.None? <==> forall i :: 0 <= i < |s| ==> !p(s[i])
    ensures r.Some? ==> p(r.value) && r.value in s
    ensures forall k :: 0 <= k < |s| && p(s[k]) && (forall j :: 0 <= j < k ==> !p(s[j])) ==> r == Some(s[k])
  {
    var k := FindIndex(p, s);
    if k < |s| then Some(s[k]) else None
  }

  /** Past a first element that does not match, the search goes on in the rest. */
  lemma FindFirstTail<T>(p: T -> bool, s: seq<T>)
    requires s != [] && !p(s[0])
    ensures FindFirst(p, s) == FindFirst(p, s[1..])
  {
  }

  /** Two lists of the same length that agree wherever either one matches give the same
      result. */
  lemma FindFirstAgrees<T>(p: T -> bool, s: seq<T>, r: seq<T>)
    requires |r| == |s|
    requires forall i :: 0 <= i < |s| && (p(s[i]) || p(r[i])) ==> r[i] == s[i]
    ensures FindFirst(p, r) == FindFirst(p, s)
  {
    assert FindIndex(p, r) == FindIndex(p, s);
  }

  /** A prefix without a match does not change what is found. */
  lemma {:induction false} FindFirstAfterPrefix<T>(p: T -> bool, prefix: seq<T>, rest: seq<T>)
    requires forall i :: 0 <= i < |prefix| ==> !p(prefix[i])
    ensures FindFirst(p, prefix + rest) == FindFirst(p, rest)
    decreases |prefix|
  {
    if prefix == [] {
      assert prefix + rest == rest;
    } else {
      FindFirstAfterPrefix(p, prefix[1..], rest);
      assert (prefix + rest)[1..] == prefix[1..] + rest;
      FindFirstTail(p, prefix + rest);
    }
  }

  /** Filtering with a predicate that every match satisfies does not change what is found. */
  lemma {:induction false} FindFirstFilter<T>(keep: T -> bool, p: T -> bool, s: seq<T>)
    requires forall x :: p(x) ==> keep(x)
    ensures FindFirst(p, Filter(keep, s)) == FindFirst(p, s)
    decreases |s|
  {
    if s != [] {
      FindFirstFilter(keep, p, s[1..]);
      var rest := Filter(keep, s[1..]);
      if keep(s[0]) {
        var r := [s[0]] + rest;
        assert Filter(keep, s) == r;
        if !p(s[0]) {
          assert r[1..] == rest;
          FindFirstTail(p, r);
          FindFirstTail(p, s);
        }
      } else {
        FindFirstTail(p, s);
      }
    }
  }

  /** `a` can be obtained from `b` by deleting elements (order is kept). */
  predicate IsSubsequence<T(==)>(a: seq<T>, b: seq<T>)
    decreases |b|
  {
    a == [] || (b != [] && ((a[0] == b[0] && IsSubsequence(a[1..], b[1..])) || IsSubsequence(a, b[1..])))
  }

  /** No two elements of `s` share a key. */
  predicate UniqueKeys<T>(s: seq<T>, key: T -> string)
  {
    forall i, j :: 0 <= i < j < |s| ==> key(s[i]) != key(s[j])
  }

  /** The predicate `x => key(x) !== k` used to remove entries by id. */
  function KeyIsNot<T>(key: T -> string, k: string): T -> bool
  {
    x => key(x) != k
  }

  /** `s.map((x) => key(x) === k ? f(x) : x)`: the update-by-id idiom. */
  function MapWhere<T>(s: seq<T>, key: T -> string, k: string, f: T -> T): (r: seq<T>)
    ensures |r| == |s|
    ensures forall i :: 0 <= i < |s| && key(s[i]) != k ==> r[i] == s[i]
    ensures forall i :: 0 <= i < |s| && key(s[i]) == k ==> r[i] == f(s[i])
  {
    seq(|s|, i requires 0 <= i < |s| => if key(s[i]) == k then f(s[i]) else s[i])
  }

  /** With unique keys, updating by the key of entry `k` rewrites that entry alone. */
  lemma MapWhereSingle<T>(s: seq<T>, key: T -> string, k: nat, f: T -> T)
    requires UniqueKeys(s, key) && k < |s|
    ensures MapWhere(s, key, key(s[k]), f) == s[k := f(s[k])]
  {
  }

  /** An update that leaves no entry with the key changes nothing. */
  lemma MapWhereAbsent<T>(s: seq<T>, key: T -> string, k: string, f: T -> T)
    requires forall i :: 0 <= i < |s| ==> key(s[i]) != k
    ensures MapWhere(s, key, k, f) == s
  {
  }

  lemma {:induction false} FilterIsSubsequence<T>(p: T -> bool, s: seq<T>)
    ensures IsSubsequence(Filter(p, s), s)
    decreases |s|
  {
    if s != [] {
      FilterIsSubsequence(p, s[1..]);
      if p(s[0]) {
        assert ([s[0]] + Filter(p, s[1..]))[1..] == Filter(p, s[1..]);
      }
    }
  }

  /** A filter that keeps nothing returns the empty sequence. */
  lemma FilterKeepsNone<T>(p: T -> bool, s: seq<T>)
    requires forall i :: 0 <= i < |s| ==> !p(s[i])
    ensures Filter(p, s) == []
  {
  }

  /** A filter that keeps everything returns its input. */
  lemma {:induction false} FilterKeepsAll<T>(p: T -> bool, s: seq<T>)
    requires forall i :: 0 <= i < |s| ==> p(s[i])
    ensures Filter(p, s) == s
    decreases |s|
  {
    if s != [] {
      FilterKeepsAll(p, s[1..]);
      assert [s[0]] + s[1..] == s;
    }
  }

  /** Filters whose predicates agree on every element keep the same elements. */
  lemma {:induction false} FilterAgrees<T>(p: T -> bool, q: T -> bool, s: seq<T>)
    requires forall i :: 0 <= i < |s| ==> p(s[i]) == q(s[i])
    ensures Filter(p, s) == Filter(q, s)
    decreases |s|
  {
    if s != [] {
      FilterAgrees(p, q, s[1..]);
    }
  }

  lemma {:induction false} FilterConcat<T>(p: T -> bool, a: seq<T>, b: seq<T>)
    ensures Filter(p, a + b) == Filter(p, a) + Filter(p, b)
    decreases |a|
  {
    if a != [] {
      assert (a + b)[1..] == a[1..] + b;
      FilterConcat(p, a[1..], b);
    } else {
      assert a + b == b;
    }
  }

  /** Filtering with a weaker predicate keeps at least what a stronger one keeps, in the same order. */
  lemma {:induction false} FilterMonotone<T>(p: T -> bool, q: T -> bool, s: seq<T>)
    requires forall i :: 0 <= i < |s| && p(s[i]) ==> q(s[i])
    ensures IsSubsequence(Filter(p, s), Filter(q, s))
    decreases |s|
  {
    if s != [] {
      FilterMonotone(p, q, s[1..]);
      var a, b := Filter(p, s[1..]), Filter(q, s[1..]);
      if p(s[0]) {
        assert ([s[0]] + a)[1..] == a;
        assert ([s[0]] + b)[1..] == b;
      } else if q(s[0]) {
        assert ([s[0]] + b)[1..] == b;
      }
    }
  }

  /** Each value occurs in the filtered sequence exactly as often as in the input when it
      satisfies `p`, and not at all otherwise. */
  lemma {:induction false} FilterMultiset<T>(p: T -> bool, s: seq<T>, x: T)
    ensures multiset(Filter(p, s))[x] == if p(x) then multiset(s)[x] else 0
    decreases |s|
  {
    if s != [] {
      FilterMultiset(p, s[1..], x);
      assert s == [s[0]] + s[1..];
      assert multiset(s) == multiset([s[0]]) + multiset(s[1..]);
      if p(s[0]) {
        assert multiset([s[0]] + Filter(p, s[1..])) == multiset([s[0]]) + multiset(Filter(p, s[1..]));
      }
    }
  }

  /** Changing one element changes a count by at most that element's contribution. */
  lemma CountAfterUpdate<T>(p: T -> bool, s: seq<T>, k: nat, v: T)
    requires k < |s|
    ensures Count(p, s[k := v]) == Count(p, s) - (if p(s[k]) then 1 else 0) + (if p(v) then 1 else 0)
  {
    var pre, post := s[..k], s[k + 1..];
    assert s == pre + [s[k]] + post;
    assert s[k := v] == pre + [v] + post;
    FilterConcat(p, pre + [s[k]], post);
    FilterConcat(p, pre, [s[k]]);
    FilterConcat(p, pre + [v], post);
    FilterConcat(p, pre, [v]);
  }

  /** Filtering keeps keys unique. */
  lemma {:induction false} FilterKeepsUniqueKeys<T>(p: T -> bool, s: seq<T>, key: T -> string)
    requires UniqueKeys(s, key)
    ensures UniqueKeys(Filter(p, s), key)
    decreases |s|
  {
    if s != [] {
      var rest := Filter(p, s[1..]);
      FilterKeepsUniqueKeys(p, s[1..], key);
      if p(s[0]) {
        var r := [s[0]] + rest;
        forall i, j | 0 <= i < j < |r| ensures key(r[i]) != key(r[j]) {
          if i == 0 {
            assert r[j] in s[1..];
            var m :| 0 <= m < |s[1..]| && s[1..][m] == r[j];
            assert s[m + 1] == r[j];
          } else {
            assert r[i] == rest[i - 1] && r[j] == rest[j - 1];
          }
        }
      }
    }
  }

  /** Removing by a key that is unique drops exactly one element when the key is present
      and none otherwise. */
  lemma {:induction false} RemoveUniqueKey<T>(s: seq<T>, key: T -> string, k: string)
    requires UniqueKeys(s, key)
    ensures |Filter(KeyIsNot(key, k), s)| == if exists i :: 0 <= i < |s| && key(s[i]) == k then |s| - 1 else |s|
    decreases |s|
  {
    if s != [] {
      var t := s[1..];
      assert UniqueKeys(t, key) by {
        forall i, j | 0 <= i < j < |t| ensures key(t[i]) != key(t[j]) {
          assert t[i] == s[i + 1] && t[j] == s[j + 1];
        }
      }
      if key(s[0]) == k {
        forall i | 0 <= i < |t| ensures KeyIsNot(key, k)(t[i]) {
          assert t[i] == s[i + 1];
        }
        FilterKeepsAll(KeyIsNot(key, k), t);
      } else {
        RemoveUniqueKey(t, key, k);
        if exists i :: 0 <= i < |s| && key(s[i]) == k {
          var i :| 0 <= i < |s| && key(s[i]) == k;
          assert key(t[i - 1]) == k;
        }
        if exists i :: 0 <= i < |t| && key(t[i]) == k {
          var i :| 0 <= i < |t| && key(t[i]) == k;
          assert key(s[i + 1]) == k;
        }
      }
    }
  }

  /** `s.filter((x) => key(x) !== k)`: an order-preserving subsequence without the key that
      keeps every other element; with unique keys it stays unique and is one shorter
      exactly when the key was present. */
  lemma RemoveByKey<T>(s: seq<T>, key: T -> string, k: string)
    ensures var r := Filter(KeyIsNot(key, k), s);
      && IsSubsequence(r, s)
      && (forall i :: 0 <= i < |r| ==> key(r[i]) != k)
      && (forall i :: 0 <= i < |s| && key(s[i]) != k ==> s[i] in r)
      && (UniqueKeys(s, key) ==> UniqueKeys(r, key))
      && (UniqueKeys(s, key) ==>
            |r| == if exists i :: 0 <= i < |s| && key(s[i]) == k then |s| - 1 else |s|)
  {
    var r := Filter(KeyIsNot(key, k), s);
    FilterIsSubsequence(KeyIsNot(key, k), s);
    forall i | 0 <= i < |r| ensures key(r[i]) != k {
      assert r[i] in r;
    }
    if UniqueKeys(s, key) {
      FilterKeepsUniqueKeys(KeyIsNot(key, k), s, key);
      RemoveUniqueKey(s, key, k);
    }
  }

  /** An update by key that keeps every key keeps the keys unique. */
  lemma MapWhereKeepsKeys<T>(s: seq<T>, key: T -> string, k: string, f: T -> T)
    requires forall i :: 0 <= i < |s| ==> key(f(s[i])) == key(s[i])
    ensures forall i :: 0 <= i < |s| ==> key(MapWhere(s, key, k, f)[i]) == key(s[i])
    ensures UniqueKeys(s, key) ==> UniqueKeys(MapWhere(s, key, k, f), key)
  {
  }
}
