/**
  Generic sequence operations the backend spells as comprehensions and dictionary-building
  loops: keeping the elements that pass a test, keeping the last value per key, and
  collecting the values per key.
 */
module Seqs {
  import opened Results

  // ---------------------------------------------------------------------
  // `[x for x in s if keep(x)]`

  function Filter<T>(s: seq<T>, keep: T -> bool): (r: seq<T>)
    ensures |r| <= |s|
    ensures forall i :: 0 <= i < |r| ==> keep(r[i])
  {
    if s == [] then [] else (if keep(s[0]) then [s[0]] else []) + Filter(s[1..], keep)
  }

  /** An element is kept exactly when it is in the input and passes the test. */
  lemma {:induction false} FilterMembers<T>(s: seq<T>, keep: T -> bool, x: T)
    ensures x in Filter(s, keep) <==> x in s && keep(x)
  {
    if s != [] {
      FilterMembers(s[1..], keep, x);
      assert x in s <==> x == s[0] || x in s[1..];
    }
  }

  /** Nothing is kept exactly when no element passes the test. */
  lemma FilterNone<T>(s: seq<T>, keep: T -> bool)
    ensures Filter(s, keep) == [] <==> forall x :: x in s ==> !keep(x)
  {
    forall x {
      FilterMembers(s, keep, x);
    }
    if Filter(s, keep) != [] {
      assert Filter(s, keep)[0] in Filter(s, keep);
    }
  }

  /** Filtering twice keeps what passes both tests. */
  lemma {:induction false} FilterTwice<T>(s: seq<T>, p: T -> bool, q: T -> bool, both: T -> bool)
    requires forall x :: both(x) == (p(x) && q(x))
    ensures Filter(Filter(s, p), q) == Filter(s, both)
  {
    if s != [] {
      FilterTwice(s[1..], p, q, both);
      if p(s[0]) {
        assert Filter(s, p) == [s[0]] + Filter(s[1..], p);
        assert Filter(s, p)[1..] == Filter(s[1..], p);
      } else {
        assert Filter(s, p) == Filter(s[1..], p);
      }
    }
  }

  /** Two tests that agree everywhere filter alike. */
  lemma {:induction false} FilterSame<T>(s: seq<T>, p: T -> bool, q: T -> bool)
    requires forall x :: p(x) == q(x)
    ensures Filter(s, p) == Filter(s, q)
  {
    if s != [] {
      FilterSame(s[1..], p, q);
    }
  }

  /** A test every element passes keeps the whole sequence. */
  lemma {:induction false} FilterAll<T>(s: seq<T>, p: T -> bool)
    requires forall x :: p(x)
    ensures Filter(s, p) == s
  {
    if s != [] {
      FilterAll(s[1..], p);
      assert s == [s[0]] + s[1..];
    }
  }

  /** Filtering a sequence with one more element at the end, as a loop over it does. */
  lemma {:induction false} FilterSnoc<T>(s: seq<T>, x: T, keep: T -> bool)
    ensures Filter(s + [x], keep) == Filter(s, keep) + (if keep(x) then [x] else [])
  {
    if s == [] {
      assert [x][1..] == [];
    } else {
      assert (s + [x])[1..] == s[1..] + [x];
      FilterSnoc(s[1..], x, keep);
    }
  }

  /** One more element of `s`, as a loop that appends what passes the test takes it. */
  lemma FilterStep<T>(s: seq<T>, i: int, keep: T -> bool)
    requires 0 <= i < |s|
    ensures Filter(s[..i + 1], keep) == Filter(s[..i], keep) + if keep(s[i]) then [s[i]] else []
  {
    assert s[..i + 1] == s[..i] + [s[i]];
    FilterSnoc(s[..i], s[i], keep);
  }

  /** Filtering a sequence cut at `k` filters the two parts. */
  lemma {:induction false} FilterSplit<T>(s: seq<T>, keep: T -> bool, k: nat)
    requires k <= |s|
    ensures Filter(s, keep) == Filter(s[..k], keep) + Filter(s[k..], keep)
  {
    if k > 0 {
      FilterSplit(s[1..], keep, k - 1);
      assert s[1..][..k - 1] == s[..k][1..];
      assert s[1..][k - 1..] == s[k..];
    }
  }

  /** A filter keeps every copy of a kept element: none is merged with an equal one. */
  lemma {:induction false} FilterCounts<T>(s: seq<T>, keep: T -> bool, x: T)
    ensures multiset(Filter(s, keep))[x] == if keep(x) then multiset(s)[x] else 0
  {
    if s != [] {
      FilterCounts(s[1..], keep, x);
      assert s == [s[0]] + s[1..];
    }
  }

  /** `a` is `b` with some elements left out, the rest in their order. */
  ghost predicate Subsequence<T>(a: seq<T>, b: seq<T>)
    decreases |b|
  {
    a == [] || (b != [] && if a[0] == b[0] then Subsequence(a[1..], b[1..]) else Subsequence(a, b[1..]))
  }

  /** Leaving out the first element keeps a subsequence a subsequence. */
  lemma {:induction false} SubsequenceDrop<T>(a: seq<T>, b: seq<T>)
    requires a != [] && Subsequence(a, b)
    ensures Subsequence(a[1..], b)
    decreases |b|
  {
    if a[0] != b[0] {
      SubsequenceDrop(a, b[1..]);
      if a[1..] != [] && a[1..][0] == b[0] {
        SubsequenceDrop(a[1..], b[1..]);
      }
    } else if a[1..] != [] && a[1..][0] == b[0] {
      SubsequenceDrop(a[1..], b[1..]);
    }
  }

  /** Filtering keeps the order of the elements it keeps. */
  lemma {:induction false} FilterIsSubsequence<T>(s: seq<T>, keep: T -> bool)
    ensures Subsequence(Filter(s, keep), s)
  {
    if s != [] {
      var f := Filter(s[1..], keep);
      FilterIsSubsequence(s[1..], keep);
      if keep(s[0]) {
        assert Filter(s, keep) == [s[0]] + f;
        assert ([s[0]] + f)[1..] == f;
      } else {
        assert Filter(s, keep) == f;
      }
    }
  }

  /** Every sequence is a subsequence of itself. */
  lemma {:induction false} SubsequenceSelf<T>(s: seq<T>)
    ensures Subsequence(s, s)
  {
    if s != [] {
      SubsequenceSelf(s[1..]);
    }
  }

  /** A prefix of a subsequence is a subsequence. */
  lemma {:induction false} PrefixIsSubsequence<T>(a: seq<T>, b: seq<T>, n: nat)
    requires Subsequence(a, b) && n <= |a|
    ensures Subsequence(a[..n], b)
    decreases |b|
  {
    if n > 0 {
      if a[0] == b[0] {
        PrefixIsSubsequence(a[1..], b[1..], n - 1);
        assert a[..n][1..] == a[1..][..n - 1];
      } else {
        PrefixIsSubsequence(a, b[1..], n);
      }
    }
  }

  // ---------------------------------------------------------------------
  // `m[key(x)] = val(x)` for every `x` with `has(x)`, in order

  function LastWins<T, K, V>(xs: seq<T>, has: T -> bool, key: T -> K, val: T -> V): map<K, V>
  {
    if xs == [] then map[]
    else
      var m := LastWins(xs[..|xs| - 1], has, key, val);
      var x := xs[|xs| - 1];
      if has(x) then m[key(x) := val(x)] else m
  }

  /** One more element of `xs`, as the loop that builds the map takes it. */
  lemma LastWinsStep<T, K, V>(xs: seq<T>, i: int, has: T -> bool, key: T -> K, val: T -> V)
    requires 0 <= i < |xs|
    ensures LastWins(xs[..i + 1], has, key, val) ==
      if has(xs[i]) then LastWins(xs[..i], has, key, val)[key(xs[i]) := val(xs[i])] else LastWins(xs[..i], has, key, val)
  {
    assert xs[..i + 1][..i] == xs[..i];
  }

  /** Building the map over `a + b` is building it over `a`, then overriding with what `b`
      stores. */
  lemma {:induction false} LastWinsAppend<T, K, V>(a: seq<T>, b: seq<T>, has: T -> bool, key: T -> K, val: T -> V)
    ensures LastWins(a + b, has, key, val) == LastWins(a, has, key, val) + LastWins(b, has, key, val)
    decreases |b|
  {
    if b == [] {
      assert a + b == a;
    } else {
      var init := b[..|b| - 1];
      LastWinsAppend(a, init, has, key, val);
      assert (a + b)[..|a + b| - 1] == a + init;
    }
  }

  /** The map over `xs`: what its first element stores, overridden by what the rest store. */
  lemma LastWinsFirst<T, K, V>(xs: seq<T>, has: T -> bool, key: T -> K, val: T -> V)
    requires xs != []
    ensures LastWins(xs, has, key, val) ==
      (if has(xs[0]) then map[key(xs[0]) := val(xs[0])] else map[]) + LastWins(xs[1..], has, key, val)
  {
    LastWinsAppend([xs[0]], xs[1..], has, key, val);
    assert [xs[0]] + xs[1..] == xs;
    assert [xs[0]][..0] == [];
  }

  /** Laying the map of `xs` over `t` is laying the first element over `t`, then the rest. */
  lemma OverlayFirst<T, K, V>(t: map<K, V>, xs: seq<T>, has: T -> bool, key: T -> K, val: T -> V)
    requires xs != []
    ensures t + LastWins(xs, has, key, val) ==
      (if has(xs[0]) then t[key(xs[0]) := val(xs[0])] else t) + LastWins(xs[1..], has, key, val)
  {
    LastWinsFirst(xs, has, key, val);
    var m := LastWins(xs[1..], has, key, val);
    if has(xs[0]) {
      assert t[key(xs[0]) := val(xs[0])] + m == t + (map[key(xs[0]) := val(xs[0])] + m);
    } else {
      assert map[] + m == m;
    }
  }

  /** Element `j` is the last of `xs` that stores under key `k`. */
  ghost predicate LastFor<T, K>(xs: seq<T>, has: T -> bool, key: T -> K, j: int, k: K) {
    0 <= j < |xs| && has(xs[j]) && key(xs[j]) == k
    && forall i :: j < i < |xs| ==> !(has(xs[i]) && key(xs[i]) == k)
  }

  /** Every key some element stores under is in the map, with the value of the last such element. */
  lemma {:induction false} LastWinsSpec<T, K, V>(xs: seq<T>, has: T -> bool, key: T -> K, val: T -> V, k: K)
    ensures k in LastWins(xs, has, key, val) <==> exists j :: 0 <= j < |xs| && has(xs[j]) && key(xs[j]) == k
    ensures k in LastWins(xs, has, key, val) ==>
      exists j :: LastFor(xs, has, key, j, k) && LastWins(xs, has, key, val)[k] == val(xs[j])
  {
    if xs != [] {
      var init := xs[..|xs| - 1];
      var x := xs[|xs| - 1];
      LastWinsSpec(init, has, key, val, k);
      assert forall j :: 0 <= j < |init| ==> xs[j] == init[j];
      if has(x) && key(x) == k {
        assert LastFor(xs, has, key, |xs| - 1, k);
      } else if k in LastWins(init, has, key, val) {
        var j :| LastFor(init, has, key, j, k) && LastWins(init, has, key, val)[k] == val(init[j]);
        assert LastFor(xs, has, key, j, k);
      }
    }
  }

  // ---------------------------------------------------------------------
  // `m.setdefault(k, set()).add(val(x))` for every `x` with `key(x) == Some(k)`, in order

  function Collect<T, K, V>(xs: seq<T>, key: T -> Option<K>, val: T -> V): map<K, set<V>>
  {
    if xs == [] then map[]
    else
      var m := Collect(xs[..|xs| - 1], key, val);
      var x := xs[|xs| - 1];
      match key(x)
      case None => m
      case Some(k) => m[k := (if k in m then m[k] else {}) + {val(x)}]
  }

  /** One more element of `xs`, as the loop that builds the map takes it. */
  lemma CollectStep<T, K, V>(xs: seq<T>, i: int, key: T -> Option<K>, val: T -> V)
    requires 0 <= i < |xs|
    ensures var m := Collect(xs[..i], key, val);
      Collect(xs[..i + 1], key, val) ==
        match key(xs[i])
        case None => m
        case Some(k) => m[k := (if k in m then m[k] else {}) + {val(xs[i])}]
  {
    assert xs[..i + 1][..i] == xs[..i];
  }

  /** A key is present exactly when some element has it, and its set holds the values of
      exactly those elements. */
  lemma {:induction false} CollectSpec<T, K, V>(xs: seq<T>, key: T -> Option<K>, val: T -> V, k: K, v: V)
    ensures k in Collect(xs, key, val) <==> exists j :: 0 <= j < |xs| && key(xs[j]) == Some(k)
    ensures k in Collect(xs, key, val) ==>
      (v in Collect(xs, key, val)[k] <==> exists j :: 0 <= j < |xs| && key(xs[j]) == Some(k) && val(xs[j]) == v)
  {
    if xs != [] {
      var init := xs[..|xs| - 1];
      CollectSpec(init, key, val, k, v);
      assert forall j :: 0 <= j < |init| ==> xs[j] == init[j];
      assert 0 <= |xs| - 1 < |xs|;
    }
  }
}
