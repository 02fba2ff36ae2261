/**
 * List operations shared by the editor and the dashboard: duplicate-free
 * lists, `[...new Set(s)]`, and `Array.prototype.filter`.
 */
module Seqs {
  /** No value occurs twice. */
  predicate Distinct<T(==)>(s: seq<T>) {
    forall i, j | 0 <= i < j < |s| :: s[i] != s[j]
  }

  /** Appending a value the list lacks keeps it duplicate-free. */
  lemma AppendDistinct<T>(s: seq<T>, x: T)
    requires Distinct(s) && x !in s
    ensures Distinct(s + [x])
  {
    forall i, j | 0 <= i < j < |s + [x]|
      ensures (s + [x])[i] != (s + [x])[j]
    {
      if j == |s| {
        assert (s + [x])[i] == s[i];
      }
    }
  }

  /** `[...new Set(s)]`: each value once, at its first occurrence. */
  function Dedupe<T(==)>(s: seq<T>): (r: seq<T>)
    ensures Distinct(r)
    ensures forall x | x in r :: x in s
    ensures forall x | x in s :: x in r
    ensures |r| <= |s|
    decreases |s|
  {
    if s == [] then []
    else
      var d := Dedupe(s[..|s| - 1]);
      var x := s[|s| - 1];
      assert s == s[..|s| - 1] + [x];
      if x in d then d else AppendDistinct(d, x); d + [x]
  }

  /** Values seen earlier keep their places in front of later ones. */
  lemma {:induction false} DedupePrefix<T>(a: seq<T>, b: seq<T>)
    ensures |Dedupe(a)| <= |Dedupe(a + b)| && Dedupe(a + b)[..|Dedupe(a)|] == Dedupe(a)
    decreases |b|
  {
    if b == [] {
      assert a + b == a;
    } else {
      var b' := b[..|b| - 1];
      assert (a + b)[..|a + b| - 1] == a + b';
      DedupePrefix(a, b');
    }
  }

  /** A list without repeats is kept as it is. */
  lemma {:induction false} DedupeDistinct<T>(s: seq<T>)
    requires Distinct(s)
    ensures Dedupe(s) == s
    decreases |s|
  {
    if s != [] {
      var p := s[..|s| - 1];
      assert Distinct(p);
      DedupeDistinct(p);
      assert s[|s| - 1] !in p;
      assert p + [s[|s| - 1]] == s;
    }
  }

  /** One more value extends the deduplicated list exactly when it is new. */
  lemma DedupeSnoc<T>(s: seq<T>, x: T)
    ensures Dedupe(s + [x]) == if x in s then Dedupe(s) else Dedupe(s) + [x]
  {
    assert (s + [x])[..|s|] == s;
  }

  /** `s.filter(f)`. */
  function Filter<T>(s: seq<T>, f: T -> bool): (r: seq<T>)
    ensures forall x | x in r :: x in s && f(x)
    ensures forall x | x in s && f(x) :: x in r
    ensures |r| <= |s|
    decreases |s|
  {
    if s == [] then []
    else
      var x := s[|s| - 1];
      assert s == s[..|s| - 1] + [x];
      Filter(s[..|s| - 1], f) + (if f(x) then [x] else [])
  }

  /** One more value joins the filtered list exactly when it passes. */
  lemma FilterSnoc<T>(s: seq<T>, x: T, f: T -> bool)
    ensures Filter(s + [x], f) == Filter(s, f) + (if f(x) then [x] else [])
  {
    assert (s + [x])[..|s|] == s;
  }

  /** Filtering works piecewise, so the kept values stay in their order. */
  lemma {:induction false} FilterAppend<T>(a: seq<T>, b: seq<T>, f: T -> bool)
    ensures Filter(a + b, f) == Filter(a, f) + Filter(b, f)
    decreases |b|
  {
    if b == [] {
      assert a + b == a;
    } else {
      var b' := b[..|b| - 1];
      var x := b[|b| - 1];
      assert a + b == (a + b') + [x] && b == b' + [x];
      FilterSnoc(a + b', x, f);
      FilterSnoc(b', x, f);
      FilterAppend(a, b', f);
    }
  }

  /** A test every value passes keeps the list as it is. */
  lemma {:induction false} FilterAll<T>(s: seq<T>, f: T -> bool)
    requires forall x | x in s :: f(x)
    ensures Filter(s, f) == s
    decreases |s|
  {
    if s != [] {
      var p := s[..|s| - 1];
      var x := s[|s| - 1];
      assert s == p + [x];
      assert f(x);
      forall y | y in p ensures f(y) {
        assert y in s;
      }
      FilterAll(p, f);
    }
  }

  /** Filtering by `f` and then by `g` is filtering by both. */
  lemma {:induction false} FilterThen<T>(s: seq<T>, f: T -> bool, g: T -> bool, h: T -> bool)
    requires forall x :: h(x) == (f(x) && g(x))
    ensures Filter(Filter(s, f), g) == Filter(s, h)
    decreases |s|
  {
    if s != [] {
      var p := s[..|s| - 1];
      var x := s[|s| - 1];
      FilterThen(p, f, g, h);
      assert Filter(s, f) == Filter(p, f) + (if f(x) then [x] else []);
      assert Filter(s, h) == Filter(p, h) + (if h(x) then [x] else []);
      assert h(x) == (f(x) && g(x));
      if f(x) {
        FilterSnoc(Filter(p, f), x, g);
        assert Filter(Filter(s, f), g) == Filter(Filter(p, f), g) + (if g(x) then [x] else []);
      } else {
        assert Filter(s, f) == Filter(p, f);
      }
    }
  }

  /** Tests that agree everywhere filter alike. */
  lemma {:induction false} FilterSame<T>(s: seq<T>, f: T -> bool, g: T -> bool)
    requires forall x :: f(x) == g(x)
    ensures Filter(s, f) == Filter(s, g)
    decreases |s|
  {
    if s != [] {
      FilterSame(s[..|s| - 1], f, g);
    }
  }

  /** What a test keeps and what its negation keeps add up to the list. */
  lemma {:induction false} FilterSplit<T>(s: seq<T>, f: T -> bool, g: T -> bool)
    requires forall x :: g(x) == !f(x)
    ensures |Filter(s, f)| + |Filter(s, g)| == |s|
    decreases |s|
  {
    if s != [] {
      FilterSplit(s[..|s| - 1], f, g);
    }
  }

  /** No value repeats and each is larger than the next. */
  predicate StrictlyDescending(s: seq<int>) {
    forall i, j | 0 <= i < j < |s| :: s[i] > s[j]
  }

  /** A value above every element of a strictly descending list heads it. */
  lemma ConsDescending(x: int, s: seq<int>)
    requires StrictlyDescending(s) && forall k | 0 <= k < |s| :: s[k] < x
    ensures StrictlyDescending([x] + s)
  {
    forall i, j | 0 <= i < j < |[x] + s| ensures ([x] + s)[i] > ([x] + s)[j] {
      if i > 0 {
        assert ([x] + s)[i] == s[i - 1];
      }
      assert ([x] + s)[j] == s[j - 1];
    }
  }

  /** The value put into its place in a strictly descending list, once. */
  function InsertDescending(y: int, s: seq<int>): (r: seq<int>)
    requires StrictlyDescending(s)
    ensures StrictlyDescending(r)
    ensures forall x | x in r :: x == y || x in s
    ensures y in r && forall x | x in s :: x in r
    decreases |s|
  {
    if s == [] then [y]
    else if y == s[0] then s
    else if y > s[0] then ConsDescending(y, s); [y] + s
    else
      var rest := InsertDescending(y, s[1..]);
      forall k | 0 <= k < |rest| ensures rest[k] < s[0] {
        assert rest[k] in rest;
        if rest[k] != y {
          var i :| 0 <= i < |s[1..]| && s[1..][i] == rest[k];
          assert s[i + 1] == rest[k];
        }
      }
      ConsDescending(s[0], rest);
      [s[0]] + rest
  }
}
