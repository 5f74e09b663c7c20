/**
  String operations the backend and the station scripts rely on, stated the way
  Python's `str` methods behave: `split` on one separator character, `join`,
  `strip`, `lower`/`upper`, prefix/suffix/infix tests, single-character
  replacement and the code-point order `<` on strings.
 */
module Text {

  /** Python's `str.isspace()` characters (the ones `strip()` removes). */
  predicate IsSpace(c: char) {
    c == ' ' || ('\t' <= c <= '\r') || ('\U{1c}' <= c <= '\U{1f}') || c == '\U{85}' || c == '\U{a0}'
    || c == '\U{1680}' || ('\U{2000}' <= c <= '\U{200a}') || c == '\U{2028}' || c == '\U{2029}'
    || c == '\U{202f}' || c == '\U{205f}' || c == '\U{3000}'
  }

  predicate IsBlank(s: string) {
    forall i :: 0 <= i < |s| ==> IsSpace(s[i])
  }

  /** `r` occurs in `s` starting at position `k`. */
  predicate InfixAt(s: string, r: string, k: int) {
    0 <= k <= |s| - |r| && s[k..k + |r|] == r
  }

  /** The number of leading whitespace characters of `s`. */
  function Lead(s: string): (n: nat)
    ensures n <= |s|
    ensures forall i :: 0 <= i < n ==> IsSpace(s[i])
    ensures n < |s| ==> !IsSpace(s[n])
  {
    if s != [] && IsSpace(s[0]) then 1 + Lead(s[1..]) else 0
  }

  /** The length of `s` without its trailing whitespace. */
  function Trail(s: string): (n: nat)
    ensures n <= |s|
    ensures forall i :: n <= i < |s| ==> IsSpace(s[i])
    ensures 0 < n ==> !IsSpace(s[n - 1])
  {
    if s != [] && IsSpace(s[|s| - 1]) then Trail(s[..|s| - 1]) else |s|
  }

  /** `s.strip()`: the longest infix of `s` that neither starts nor ends with whitespace. */
  function Strip(s: string): (r: string)
    ensures exists k :: InfixAt(s, r, k) && IsBlank(s[..k]) && IsBlank(s[k + |r|..])
    ensures r != [] ==> !IsSpace(r[0]) && !IsSpace(r[|r| - 1])
    ensures r == [] <==> IsBlank(s)
  {
    var a := Lead(s);
    if a == |s| then
      BlankEnds(s, 0, |s|);
      assert InfixAt(s, [], 0);
      []
    else
      var b := Trail(s);
      assert a < b by { assert !IsSpace(s[a]); }
      BlankEnds(s, a, b);
      assert InfixAt(s, s[a..b], a);
      s[a..b]
  }

  /** The slices before `a` and from `b` on are blank when their characters are spaces. */
  lemma BlankEnds(s: string, a: int, b: int)
    requires 0 <= a <= b <= |s|
    requires forall i :: 0 <= i < a ==> IsSpace(s[i])
    requires forall i :: b <= i < |s| ==> IsSpace(s[i])
    ensures IsBlank(s[..a]) && IsBlank(s[b..])
  {
  }

  /** A string that neither starts nor ends with whitespace is its own `strip()`. */
  lemma StripKeeps(x: string)
    requires x != [] ==> !IsSpace(x[0]) && !IsSpace(x[|x| - 1])
    ensures Strip(x) == x
  {
    if x != [] {
      assert Lead(x) == 0 && Trail(x) == |x|;
      assert x[0..|x|] == x;
    }
  }

  lemma StripIdempotent(s: string)
    ensures Strip(Strip(s)) == Strip(s)
  {
    StripKeeps(Strip(s));
  }

  /** `s.lower()` for the ASCII letters; other characters are left alone. */
  function LowerChar(c: char): char {
    if 'A' <= c <= 'Z' then (c as int + 32) as char else c
  }

  function UpperChar(c: char): char {
    if 'a' <= c <= 'z' then (c as int - 32) as char else c
  }

  function Lower(s: string): string {
    if s == [] then [] else [LowerChar(s[0])] + Lower(s[1..])
  }

  /** `s.lower()` keeps the length and lowers each character on its own. */
  lemma {:induction false} LowerEach(s: string)
    ensures |Lower(s)| == |s| && forall i :: 0 <= i < |s| ==> Lower(s)[i] == LowerChar(s[i])
  {
    if s != [] {
      LowerEach(s[1..]);
    }
  }

  function Upper(s: string): (r: string)
    ensures |r| == |s| && forall i :: 0 <= i < |s| ==> r[i] == UpperChar(s[i])
  {
    if s == [] then [] else [UpperChar(s[0])] + Upper(s[1..])
  }

  lemma LowerDistributes(a: string, b: string)
    ensures Lower(a + b) == Lower(a) + Lower(b)
  {
    LowerEach(a + b);
    LowerEach(a);
    LowerEach(b);
    assert forall i :: 0 <= i < |a + b| ==> Lower(a + b)[i] == (Lower(a) + Lower(b))[i];
  }

  predicate StartsWith(s: string, prefix: string) {
    prefix <= s
  }

  predicate EndsWith(s: string, suffix: string) {
    |suffix| <= |s| && s[|s| - |suffix|..] == suffix
  }

  /** Python's `needle in hay` for strings. */
  predicate Contains(hay: string, needle: string)
    decreases |hay|
  {
    needle <= hay || (hay != [] && Contains(hay[1..], needle))
  }

  lemma {:induction false} ContainsMeansInfix(hay: string, needle: string)
    ensures Contains(hay, needle) <==> exists k :: InfixAt(hay, needle, k)
    decreases |hay|
  {
    if needle <= hay {
      assert InfixAt(hay, needle, 0);
    } else if hay != [] {
      ContainsMeansInfix(hay[1..], needle);
      if exists k :: InfixAt(hay, needle, k) {
        var k :| InfixAt(hay, needle, k);
        assert k != 0;
        assert InfixAt(hay[1..], needle, k - 1);
      }
      if Contains(hay[1..], needle) {
        var k :| InfixAt(hay[1..], needle, k);
        assert InfixAt(hay, needle, k + 1);
      }
    }
  }

  /** `s.replace(from, to)` for single characters. */
  function ReplaceChar(s: string, from: char, to: char): (r: string)
    ensures |r| == |s|
    ensures forall i :: 0 <= i < |s| ==> r[i] == if s[i] == from then to else s[i]
  {
    if s == [] then [] else [if s[0] == from then to else s[0]] + ReplaceChar(s[1..], from, to)
  }

  /** `s.split(sep)` for a one-character separator: never empty, and no piece contains `sep`. */
  function Split(s: string, sep: char): (r: seq<string>)
    ensures |r| >= 1
    decreases |s|
  {
    if s == [] then [""]
    else
      var rest := Split(s[1..], sep);
      if s[0] == sep then [""] + rest else [[s[0]] + rest[0]] + rest[1..]
  }

  /** `sep.join(parts)` */
  function Join(parts: seq<string>, sep: string): string
  {
    if |parts| == 0 then "" else if |parts| == 1 then parts[0] else parts[0] + sep + Join(parts[1..], sep)
  }

  predicate NoneContains(parts: seq<string>, sep: char) {
    forall i, j :: 0 <= i < |parts| && 0 <= j < |parts[i]| ==> parts[i][j] != sep
  }

  lemma {:induction false} SplitPiecesAvoidSep(s: string, sep: char)
    ensures NoneContains(Split(s, sep), sep)
    decreases |s|
  {
    if s != [] {
      SplitPiecesAvoidSep(s[1..], sep);
    }
  }

  /** Joining the pieces of a split gives the original string back. */
  lemma {:induction false} JoinSplit(s: string, sep: char)
    ensures Join(Split(s, sep), [sep]) == s
    decreases |s|
  {
    if s != [] {
      var rest := Split(s[1..], sep);
      JoinSplit(s[1..], sep);
      if s[0] == sep {
        assert Split(s, sep) == [""] + rest;
      } else {
        var r := Split(s, sep);
        assert r == [[s[0]] + rest[0]] + rest[1..];
        if |rest| == 1 {
          assert Join(r, [sep]) == [s[0]] + rest[0];
        } else {
          assert r[1..] == rest[1..];
          assert Join(r, [sep]) == [s[0]] + rest[0] + [sep] + Join(rest[1..], [sep]);
        }
      }
    }
  }

  /** Splitting a join of separator-free pieces gives the pieces back. */
  lemma {:induction false} SplitJoin(parts: seq<string>, sep: char)
    requires |parts| >= 1 && NoneContains(parts, sep)
    ensures Split(Join(parts, [sep]), sep) == parts
    decreases |parts|, |parts[0]|
  {
    var p := parts[0];
    if p == [] {
      if |parts| > 1 {
        SplitJoin(parts[1..], sep);
        assert Join(parts, [sep]) == [sep] + Join(parts[1..], [sep]);
        assert Split(Join(parts, [sep]), sep) == [""] + parts[1..];
      }
    } else {
      var tail := [p[1..]] + parts[1..];
      assert NoneContains(tail, sep) by {
        forall i, j | 0 <= i < |tail| && 0 <= j < |tail[i]| ensures tail[i][j] != sep {
          if i == 0 { assert tail[0][j] == parts[0][j + 1]; } else { assert tail[i] == parts[i]; }
        }
      }
      SplitJoin(tail, sep);
      assert p[0] != sep;
      assert tail[1..] == parts[1..];
      if |parts| == 1 {
        assert Join(parts, [sep]) == p;
        assert Join(tail, [sep]) == p[1..];
        assert Join(parts, [sep])[1..] == p[1..];
      } else {
        assert Join(parts, [sep]) == p + [sep] + Join(parts[1..], [sep]);
        assert Join(tail, [sep]) == p[1..] + [sep] + Join(parts[1..], [sep]);
        assert Join(parts, [sep])[1..] == Join(tail, [sep]);
      }
      assert [p[0]] + p[1..] == p;
    }
  }

  /** Joining a concatenation puts one separator between the two joins. */
  lemma {:induction false} JoinAppend(a: seq<string>, b: seq<string>, sep: string)
    requires |a| >= 1 && |b| >= 1
    ensures Join(a + b, sep) == Join(a, sep) + sep + Join(b, sep)
    decreases |a|
  {
    if |a| == 1 {
      assert (a + b)[1..] == b;
    } else {
      JoinAppend(a[1..], b, sep);
      assert (a + b)[1..] == a[1..] + b;
    }
  }

  // ---------------------------------------------------------------------
  // Python's string order: code point by code point, a proper prefix first.

  predicate Below(a: string, b: string)
    decreases |a|
  {
    if a == [] then b != []
    else if b == [] then false
    else if a[0] == b[0] then Below(a[1..], b[1..])
    else a[0] < b[0]
  }

  lemma {:induction false} BelowIrreflexive(a: string)
    ensures !Below(a, a)
    decreases |a|
  {
    if a != [] { BelowIrreflexive(a[1..]); }
  }

  lemma {:induction false} BelowTransitive(a: string, b: string, c: string)
    requires Below(a, b) && Below(b, c)
    ensures Below(a, c)
    decreases |a|
  {
    if a != [] && b != [] && c != [] && a[0] == b[0] && b[0] == c[0] {
      BelowTransitive(a[1..], b[1..], c[1..]);
    }
  }

  lemma {:induction false} BelowTotal(a: string, b: string)
    ensures a == b || Below(a, b) || Below(b, a)
    decreases |a|
  {
    if a != [] && b != [] && a[0] == b[0] {
      BelowTotal(a[1..], b[1..]);
      if a[1..] == b[1..] {
        assert a == [a[0]] + a[1..] && b == [b[0]] + b[1..];
      }
    }
  }

  lemma {:induction false} BelowAsymmetric(a: string, b: string)
    requires Below(a, b)
    ensures !Below(b, a)
  {
    if Below(b, a) {
      BelowTransitive(a, b, a);
      BelowIrreflexive(a);
    }
  }

  /** A common prefix does not change the order. */
  lemma {:induction false} BelowCommonPrefix(p: string, a: string, b: string)
    ensures Below(p + a, p + b) <==> Below(a, b)
    decreases |p|
  {
    if p != [] {
      var pa, pb := p + a, p + b;
      assert pa != [] && pb != [] && pa[0] == pb[0];
      assert pa[1..] == p[1..] + a && pb[1..] == p[1..] + b;
      BelowCommonPrefix(p[1..], a, b);
    } else {
      assert p + a == a && p + b == b;
    }
  }

  /** For strings of equal length the order is decided by the first difference. */
  lemma {:induction false} BelowConcat(a: string, a': string, b: string, b': string)
    requires |a| == |b|
    ensures Below(a + a', b + b') <==> Below(a, b) || (a == b && Below(a', b'))
    decreases |a|
  {
    if a != [] {
      var aa, bb := a + a', b + b';
      assert aa != [] && bb != [] && aa[0] == a[0] && bb[0] == b[0];
      assert aa[1..] == a[1..] + a' && bb[1..] == b[1..] + b';
      BelowConcat(a[1..], a', b[1..], b');
      if a[0] == b[0] && a[1..] == b[1..] {
        assert a == [a[0]] + a[1..] && b == [b[0]] + b[1..];
      }
    } else {
      assert a + a' == a' && b + b' == b' && a == b;
    }
  }

  /** The name-last element of a non-empty set of names, as `sorted(names)[-1]` gives it. */
  method LastByName(names: set<string>) returns (m: string)
    requires names != {}
    ensures m in names && forall x :: x in names && x != m ==> Below(x, m)
  {
    m :| m in names;
    var rest := names - {m};
    while rest != {}
      invariant m in names && rest <= names
      invariant forall x :: x in names - rest && x != m ==> Below(x, m)
      decreases rest
    {
      var x :| x in rest;
      BelowTotal(x, m);
      if Below(m, x) {
        forall y | y in names - rest && y != x
          ensures Below(y, x)
        {
          if y != m { BelowTransitive(y, m, x); }
        }
        m := x;
      }
      rest := rest - {x};
    }
  }

  predicate StrictlySorted(s: seq<string>) {
    forall i, j :: 0 <= i < j < |s| ==> Below(s[i], s[j])
  }

  lemma SortedAppend(s: seq<string>, x: string)
    requires StrictlySorted(s) && forall y :: y in s ==> Below(y, x)
    ensures StrictlySorted(s + [x])
  {
    forall i, j | 0 <= i < j < |s| + 1
      ensures Below((s + [x])[i], (s + [x])[j])
    {
      if j == |s| {
        assert s[i] in s;
      }
    }
  }

  /** The name-first element of a non-empty set of names. */
  method FirstByName(names: set<string>) returns (m: string)
    requires names != {}
    ensures m in names && forall x :: x in names && x != m ==> Below(m, x)
  {
    m :| m in names;
    var rest := names - {m};
    while rest != {}
      invariant m in names && rest <= names
      invariant forall x :: x in names - rest && x != m ==> Below(m, x)
      decreases rest
    {
      var x :| x in rest;
      BelowTotal(x, m);
      if Below(x, m) {
        forall y | y in names - rest && y != x
          ensures Below(x, y)
        {
          if y != m { BelowTransitive(x, m, y); }
        }
        m := x;
      }
      rest := rest - {x};
    }
  }

  /** `sorted(names)`: the names in increasing order, each once. */
  method SortByName(names: set<string>) returns (r: seq<string>)
    ensures StrictlySorted(r)
    ensures |r| == |names| && forall x :: x in r <==> x in names
  {
    r := [];
    var rest := names;
    while rest != {}
      invariant rest <= names && StrictlySorted(r)
      invariant forall x :: x in r <==> x in names - rest
      invariant |r| + |rest| == |names|
      invariant forall i, y :: 0 <= i < |r| && y in rest ==> Below(r[i], y)
      decreases rest
    {
      var first := FirstByName(rest);
      r := r + [first];
      rest := rest - {first};
    }
  }
  /** The name-last element of a non-empty set of names, as a specification (`sorted(names)[-1]`). */
  ghost function LastName(names: set<string>): (m: string)
    requires names != {}
    ensures m in names && forall x :: x in names && x != m ==> Below(x, m)
  {
    LastNameExists(names);
    var m :| m in names && forall x :: x in names && x != m ==> Below(x, m); m
  }

  lemma {:induction false} LastNameExists(names: set<string>)
    requires names != {}
    ensures exists m :: m in names && forall x :: x in names && x != m ==> Below(x, m)
    decreases names
  {
    var y :| y in names;
    var rest := names - {y};
    if rest != {} {
      LastNameExists(rest);
      var m :| m in rest && forall x :: x in rest && x != m ==> Below(x, m);
      BelowTotal(y, m);
      if Below(m, y) {
        forall x | x in names && x != y
          ensures Below(x, y)
        {
          if x != m { BelowTransitive(x, m, y); }
        }
      } else {
        assert forall x :: x in names && x != m ==> Below(x, m);
      }
    } else {
      assert names == rest + {y};
    }
  }

  /** Only one element of a set can be name-last. */
  lemma LastNameUnique(names: set<string>, m: string)
    requires m in names && forall x :: x in names && x != m ==> Below(x, m)
    ensures m == LastName(names)
  {
    var l := LastName(names);
    if l != m {
      BelowAsymmetric(l, m);
    }
  }

  /** `s.lstrip(c)` for one character `c`. */
  function LStripChar(s: string, c: char): (r: string)
    ensures |r| <= |s| && r == s[|s| - |r|..]
    ensures r != [] ==> r[0] != c
    ensures forall i :: 0 <= i < |s| - |r| ==> s[i] == c
  {
    if s != [] && s[0] == c then LStripChar(s[1..], c) else s
  }

  /** A text without the separator splits into itself alone. */
  lemma {:induction false} SplitNone(s: string, sep: char)
    requires sep !in s
    ensures Split(s, sep) == [s]
    decreases |s|
  {
    if s != [] {
      assert sep !in s[1..];
      SplitNone(s[1..], sep);
      assert s == [s[0]] + s[1..];
    }
  }

  /** Splitting a text that starts with a separator-free piece and then the separator. */
  lemma {:induction false} SplitAfter(head: string, sep: char, rest: string)
    requires sep !in head
    ensures Split(head + [sep] + rest, sep) == [head] + Split(rest, sep)
    decreases |head|
  {
    if head == [] {
      assert head + [sep] + rest == [sep] + rest;
      assert ([sep] + rest)[1..] == rest;
    } else {
      assert sep !in head[1..];
      SplitAfter(head[1..], sep, rest);
      var s := head + [sep] + rest;
      assert s[0] == head[0] != sep;
      assert s[1..] == head[1..] + [sep] + rest;
      assert [head[0]] + head[1..] == head;
    }
  }

  /** A character the string lacks is in none of its pieces. */
  lemma {:induction false} SplitPiecesLack(s: string, sep: char, x: char)
    requires x !in s
    ensures NoneContains(Split(s, sep), x)
    decreases |s|
  {
    if s != [] {
      assert x !in s[1..];
      SplitPiecesLack(s[1..], sep, x);
    }
  }

  /** A character in neither the pieces nor the separator is not in their join. */
  lemma {:induction false} JoinLacks(parts: seq<string>, sep: string, x: char)
    requires NoneContains(parts, x) && x !in sep
    ensures x !in Join(parts, sep)
    decreases |parts|
  {
    if |parts| > 1 {
      JoinLacks(parts[1..], sep, x);
      assert x !in parts[0];
    } else if |parts| == 1 {
      assert x !in parts[0];
    }
  }
}
