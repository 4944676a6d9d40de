/** Finite sets of strings kept as duplicate-free sequences, the way a JavaScript `Set`
    keeps its elements in insertion order. `new Set([...a, ...b])`,
    `[...a].filter(x => b.has(x))` and `[...a].filter(x => !b.has(x))` are
    `Union`, `Intersect` and `Minus` below. */
module SeqSet {

  /** No element occurs twice; stated element by element from the end, so that
      it unfolds one step at a time. */
  predicate NoDup(s: seq<string>) {
    s == [] || (NoDup(s[..|s| - 1]) && s[|s| - 1] !in s[..|s| - 1])
  }

  lemma NoDupSnoc(s: seq<string>, x: string)
    ensures NoDup(s + [x]) <==> NoDup(s) && x !in s
  {
    assert (s + [x])[..|s + [x]| - 1] == s;
  }

  /** The recursive definition means what it says: distinct positions hold
      distinct elements. */
  lemma {:induction false} NoDupIndices(s: seq<string>)
    requires NoDup(s)
    ensures forall i, j :: 0 <= i < j < |s| ==> s[i] != s[j]
  {
    if s != [] {
      var init := s[..|s| - 1];
      NoDupIndices(init);
      forall i, j | 0 <= i < j < |s|
        ensures s[i] != s[j]
      {
        if j == |s| - 1 {
          assert s[i] == init[i];
        } else {
          assert s[i] == init[i] && s[j] == init[j];
        }
      }
    }
  }

  /** `new Set(s)` read back in iteration order: the first occurrence of each
      element, in the order of `s`. */
  function Dedup(s: seq<string>): (r: seq<string>)
    ensures NoDup(r)
    ensures forall x :: x in r <==> x in s
    ensures |r| <= |s|
  {
    if s == [] then []
    else
      var d := Dedup(s[..|s| - 1]);
      var x := s[|s| - 1];
      assert s == s[..|s| - 1] + [x];
      NoDupSnoc(d, x);
      if x in d then d else d + [x]
  }

  /** A sequence that is already duplicate-free is its own `Set`. */
  lemma {:induction false} DedupOfNoDup(s: seq<string>)
    requires NoDup(s)
    ensures Dedup(s) == s
  {
    if s != [] {
      DedupOfNoDup(s[..|s| - 1]);
    }
  }

  /** The elements of `a` that are in `b`, in the order of `a`. */
  function Intersect(a: seq<string>, b: seq<string>): (r: seq<string>)
    ensures forall x :: x in r <==> x in a && x in b
    ensures NoDup(a) ==> NoDup(r)
    ensures |r| <= |a|
  {
    if a == [] then []
    else
      var x := a[|a| - 1];
      assert a == a[..|a| - 1] + [x];
      var d := Intersect(a[..|a| - 1], b);
      if x in b then d + [x] else d
  }

  /** The elements of `a` that are not in `b`, in the order of `a`. */
  function Minus(a: seq<string>, b: seq<string>): (r: seq<string>)
    ensures forall x :: x in r <==> x in a && x !in b
    ensures NoDup(a) ==> NoDup(r)
    ensures |r| <= |a|
  {
    if a == [] then []
    else
      var x := a[|a| - 1];
      assert a == a[..|a| - 1] + [x];
      var d := Minus(a[..|a| - 1], b);
      if x !in b then d + [x] else d
  }

  /** `new Set([...a, ...b])`. */
  function Union(a: seq<string>, b: seq<string>): (r: seq<string>)
    ensures NoDup(r)
    ensures forall x :: x in r <==> x in a || x in b
  {
    Dedup(a + b)
  }

  lemma DedupSnoc(s: seq<string>, x: string)
    ensures Dedup(s + [x]) == if x in s then Dedup(s) else Dedup(s) + [x]
  {
    assert (s + [x])[..|s + [x]| - 1] == s;
  }

  lemma IntersectSnoc(a: seq<string>, x: string, b: seq<string>)
    ensures Intersect(a + [x], b) == if x in b then Intersect(a, b) + [x] else Intersect(a, b)
  {
    assert (a + [x])[..|a + [x]| - 1] == a;
  }

  lemma MinusSnoc(a: seq<string>, x: string, b: seq<string>)
    ensures Minus(a + [x], b) == if x in b then Minus(a, b) else Minus(a, b) + [x]
  {
    assert (a + [x])[..|a + [x]| - 1] == a;
  }

  /** The union keeps `a` in place and appends the new elements of `b`, each
      once, in the order they first appear in `b`. */
  lemma {:induction false} UnionAppends(a: seq<string>, b: seq<string>)
    requires NoDup(a)
    ensures Union(a, b) == a + Dedup(Minus(b, a))
  {
    if b == [] {
      assert a + b == a;
      DedupOfNoDup(a);
    } else {
      var init, x := b[..|b| - 1], b[|b| - 1];
      assert b == init + [x];
      UnionAppends(a, init);
      UnionSnocStep(a, init, x);
    }
  }

  /** A duplicate-free `a` is a prefix of its union with anything. */
  lemma UnionPrefix(a: seq<string>, b: seq<string>)
    ensures NoDup(a) ==> a <= Union(a, b)
  {
    if NoDup(a) {
      UnionAppends(a, b);
    }
  }

  lemma UnionSnocStep(a: seq<string>, init: seq<string>, x: string)
    ensures Dedup(a + init) == a + Dedup(Minus(init, a))
            ==> Dedup(a + (init + [x])) == a + Dedup(Minus(init + [x], a))
  {
    ConcatAssoc(a, init, [x]);
    DedupSnoc(a + init, x);
    if x in a + init {
      UnionSnocOld(a, init, x);
    } else {
      UnionSnocNew(a, init, x);
    }
  }

  lemma UnionSnocOld(a: seq<string>, init: seq<string>, x: string)
    requires x in a + init
    ensures Dedup(Minus(init + [x], a)) == Dedup(Minus(init, a))
  {
    MinusSnoc(init, x, a);
    if x !in a {
      DedupSnoc(Minus(init, a), x);
    }
  }

  lemma UnionSnocNew(a: seq<string>, init: seq<string>, x: string)
    requires x !in a + init
    ensures Dedup(a + init) == a + Dedup(Minus(init, a))
            ==> Dedup(a + init) + [x] == a + Dedup(Minus(init + [x], a))
  {
    var m := Minus(init, a);
    MinusSnoc(init, x, a);
    DedupSnoc(m, x);
    ConcatAssoc(a, Dedup(m), [x]);
  }

  lemma ConcatAssoc<T>(a: seq<T>, b: seq<T>, c: seq<T>)
    ensures (a + b) + c == a + (b + c)
  {
  }

  /** `[...s].filter(f)`: the elements of `s` that pass `f`, in the order of `s`. */
  function Keep(s: seq<string>, f: string -> bool): (r: seq<string>)
    ensures forall x :: x in r <==> x in s && f(x)
    ensures NoDup(s) ==> NoDup(r)
    ensures |r| <= |s|
  {
    if s == [] then []
    else
      var x := s[|s| - 1];
      assert s == s[..|s| - 1] + [x];
      var d := Keep(s[..|s| - 1], f);
      NoDupSnoc(s[..|s| - 1], x);
      NoDupSnoc(d, x);
      if f(x) then d + [x] else d
  }

  lemma KeepSnoc(s: seq<string>, x: string, f: string -> bool)
    ensures Keep(s + [x], f) == if f(x) then Keep(s, f) + [x] else Keep(s, f)
  {
    assert (s + [x])[..|s + [x]| - 1] == s;
  }

  /** Filtering twice is filtering once by both tests. */
  lemma {:induction false} KeepKeep(s: seq<string>, f: string -> bool, g: string -> bool, h: string -> bool)
    requires forall x :: h(x) == (f(x) && g(x))
    ensures Keep(Keep(s, f), g) == Keep(s, h)
  {
    if s != [] {
      var init, x := s[..|s| - 1], s[|s| - 1];
      assert s == init + [x];
      KeepKeep(init, f, g, h);
      KeepSnoc(init, x, f);
      KeepSnoc(init, x, h);
      if f(x) {
        KeepSnoc(Keep(init, f), x, g);
      }
    }
  }

  /** The intersection is the filter by membership in `b`. */
  lemma {:induction false} IntersectIsKeep(a: seq<string>, b: seq<string>, f: string -> bool)
    requires forall x :: f(x) == (x in b)
    ensures Intersect(a, b) == Keep(a, f)
  {
    if a != [] {
      var init, x := a[..|a| - 1], a[|a| - 1];
      assert a == init + [x];
      IntersectIsKeep(init, b, f);
      KeepSnoc(init, x, f);
      IntersectSnoc(init, x, b);
    }
  }

  /** The difference is the filter by absence from `b`. */
  lemma {:induction false} MinusIsKeep(a: seq<string>, b: seq<string>, f: string -> bool)
    requires forall x :: f(x) == (x !in b)
    ensures Minus(a, b) == Keep(a, f)
  {
    if a != [] {
      var init, x := a[..|a| - 1], a[|a| - 1];
      assert a == init + [x];
      MinusIsKeep(init, b, f);
      KeepSnoc(init, x, f);
      MinusSnoc(init, x, b);
    }
  }

  /** A filter every element passes changes nothing. */
  lemma {:induction false} KeepAll(s: seq<string>, f: string -> bool)
    requires forall x :: x in s ==> f(x)
    ensures Keep(s, f) == s
  {
    if s != [] {
      var init, x := s[..|s| - 1], s[|s| - 1];
      assert s == init + [x];
      KeepAll(init, f);
    }
  }

  /** Filters that agree on every element give the same list. */
  lemma {:induction false} KeepSame(s: seq<string>, f: string -> bool, g: string -> bool)
    requires forall x :: f(x) == g(x)
    ensures Keep(s, f) == Keep(s, g)
  {
    if s != [] {
      KeepSame(s[..|s| - 1], f, g);
    }
  }

  /** Filters that agree on the elements of `s` give the same list. */
  lemma {:induction false} KeepSameOn(s: seq<string>, f: string -> bool, g: string -> bool)
    requires forall x :: x in s ==> f(x) == g(x)
    ensures Keep(s, f) == Keep(s, g)
  {
    if s != [] {
      var init, x := s[..|s| - 1], s[|s| - 1];
      assert s == init + [x];
      KeepSameOn(init, f, g);
    }
  }

  /** Building a `Set` from a `Set` followed by more elements is building it
      from the whole sequence. */
  lemma {:induction false} DedupAbsorb(x: seq<string>, y: seq<string>)
    ensures Dedup(Dedup(x) + y) == Dedup(x + y)
  {
    if y == [] {
      assert Dedup(x) + y == Dedup(x);
      assert x + y == x;
      DedupOfNoDup(Dedup(x));
    } else {
      var init, z := y[..|y| - 1], y[|y| - 1];
      assert y == init + [z];
      DedupAbsorb(x, init);
      ConcatAssoc(Dedup(x), init, [z]);
      ConcatAssoc(x, init, [z]);
      DedupSnoc(Dedup(x) + init, z);
      DedupSnoc(x + init, z);
    }
  }

  /** Being duplicate-free is a property of the multiset: no element is
      counted twice. */
  lemma {:induction false} NoDupMultiset(s: seq<string>)
    ensures NoDup(s) <==> forall y :: multiset(s)[y] <= 1
  {
    if s != [] {
      var init, x := s[..|s| - 1], s[|s| - 1];
      assert s == init + [x];
      NoDupMultiset(init);
      NoDupSnoc(init, x);
      assert multiset(s) == multiset(init) + multiset{x};
      assert forall y :: multiset(s)[y] == multiset(init)[y] + (if y == x then 1 else 0);
      assert x in init <==> multiset(init)[x] > 0;
      if forall y :: multiset(s)[y] <= 1 {
        assert forall y :: multiset(init)[y] <= 1;
        assert multiset(init)[x] == 0;
      }
    }
  }
}
