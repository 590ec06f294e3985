/** Shared vocabulary: optional values, and counting and flattening over sequences. */
module Prelude {
  datatype Option<+T> = None | Some(value: T)

  ghost predicate Distinct<T>(s: seq<T>) {
    forall i, j :: 0 <= i < j < |s| ==> s[i] != s[j]
  }

  /** How many elements of s satisfy p. */
  function Count<T>(p: T -> bool, s: seq<T>): (n: nat)
    ensures n <= |s|
  {
    if s == [] then 0 else (if p(s[0]) then 1 else 0) + Count(p, s[1..])
  }

  /** The concatenation of f over the elements of s, in order. */
  function FlatMap<T, U>(f: T -> seq<U>, s: seq<T>): seq<U> {
    if s == [] then [] else f(s[0]) + FlatMap(f, s[1..])
  }

  /** The sum of a real-valued weight over s. */
  function Total<T>(w: T -> real, s: seq<T>): real {
    if s == [] then 0.0 else w(s[0]) + Total(w, s[1..])
  }

  /** The sum of a natural-valued weight over s. */
  function Sum<T>(w: T -> nat, s: seq<T>): nat {
    if s == [] then 0 else w(s[0]) + Sum(w, s[1..])
  }

  lemma {:induction false} CountAppend<T>(p: T -> bool, a: seq<T>, b: seq<T>)
    ensures Count(p, a + b) == Count(p, a) + Count(p, b)
  {
    if a == [] {
      assert a + b == b;
    } else {
      assert (a + b)[1..] == a[1..] + b;
      CountAppend(p, a[1..], b);
    }
  }

  lemma {:induction false} TotalAppend<T>(w: T -> real, a: seq<T>, b: seq<T>)
    ensures Total(w, a + b) == Total(w, a) + Total(w, b)
  {
    if a == [] {
      assert a + b == b;
    } else {
      assert (a + b)[1..] == a[1..] + b;
      TotalAppend(w, a[1..], b);
    }
  }

  lemma {:induction false} FlatMapAppend<T, U>(f: T -> seq<U>, a: seq<T>, b: seq<T>)
    ensures FlatMap(f, a + b) == FlatMap(f, a) + FlatMap(f, b)
  {
    if a == [] {
      assert a + b == b;
    } else {
      assert (a + b)[1..] == a[1..] + b;
      FlatMapAppend(f, a[1..], b);
    }
  }

  lemma FlatMapCons<T, U>(f: T -> seq<U>, x: T, s: seq<T>)
    ensures FlatMap(f, [x] + s) == f(x) + FlatMap(f, s)
  {
    assert ([x] + s)[1..] == s;
  }

  lemma FlatMapOne<T, U>(f: T -> seq<U>, x: T)
    ensures FlatMap(f, [x]) == f(x)
  {
    assert FlatMap(f, [x][1..]) == [];
  }

  /** f(1) up to f(n), in order. */
  function Running<T>(f: nat -> T, n: nat): seq<T> {
    if n == 0 then [] else Running(f, n - 1) + [f(n)]
  }

  lemma {:induction false} InRunning<T>(x: T, f: nat -> T, n: nat)
    ensures x in Running(f, n) <==> exists k: nat :: 0 < k <= n && x == f(k)
  {
    if n > 0 {
      InRunning(x, f, n - 1);
    }
  }

  lemma {:induction false} SameRunning<T>(f: nat -> T, g: nat -> T, n: nat)
    requires forall k: nat :: 0 < k <= n ==> f(k) == g(k)
    ensures Running(f, n) == Running(g, n)
  {
    if n > 0 {
      SameRunning(f, g, n - 1);
    }
  }

  lemma Associate<T>(a: seq<T>, b: seq<T>, c: seq<T>)
    ensures (a + b) + c == a + (b + c)
  {
  }

  lemma HeadOfAppend<T>(a: seq<T>, b: seq<T>)
    requires a != []
    ensures (a + b)[0] == a[0] && (a + b)[1..] == a[1..] + b
  {
  }

  lemma TailAt<T>(s: seq<T>, k: nat)
    requires k < |s|
    ensures s[k..] == [s[k]] + s[k + 1..] && s[k..][0] == s[k] && s[k..][1..] == s[k + 1..]
  {
  }

  /** A function that gives one element for each gives them in order. */
  lemma {:induction false} FlatMapSingles<T, U>(f: T -> seq<U>, xs: seq<T>, ys: seq<U>)
    requires |xs| == |ys| && forall k :: 0 <= k < |xs| ==> f(xs[k]) == [ys[k]]
    ensures FlatMap(f, xs) == ys
  {
    if xs != [] {
      FlatMapSingles(f, xs[1..], ys[1..]);
    }
  }

  /** The step a loop over s takes: one more element flattens to one more piece. */
  lemma FlatMapStep<T, U>(f: T -> seq<U>, s: seq<T>, k: nat)
    requires k < |s|
    ensures FlatMap(f, s[..k + 1]) == FlatMap(f, s[..k]) + f(s[k])
  {
    assert s[..k + 1] == s[..k] + [s[k]];
    FlatMapAppend(f, s[..k], [s[k]]);
    FlatMapOne(f, s[k]);
  }

  /** A running concatenation that appends f of the next element stays a flattening. */
  lemma FlatMapRunning<T, U>(f: T -> seq<U>, s: seq<T>, k: nat, start: seq<U>, sofar: seq<U>, next: seq<U>)
    requires k < |s| && sofar == start + FlatMap(f, s[..k]) && next == sofar + f(s[k])
    ensures next == start + FlatMap(f, s[..k + 1])
  {
    FlatMapStep(f, s, k);
  }

  lemma CountSnoc<T>(p: T -> bool, s: seq<T>, x: T)
    ensures Count(p, s + [x]) == Count(p, s) + if p(x) then 1 else 0
  {
    CountAppend(p, s, [x]);
    assert [x][1..] == [];
  }

  /** A predicate that implies another never counts more. */
  lemma {:induction false} CountImplies<T>(p: T -> bool, q: T -> bool, s: seq<T>)
    requires forall x :: x in s && p(x) ==> q(x)
    ensures Count(p, s) <= Count(q, s)
  {
    if s != [] {
      CountImplies(p, q, s[1..]);
    }
  }

  lemma CountSame<T>(p: T -> bool, q: T -> bool, s: seq<T>)
    requires forall x :: x in s ==> (p(x) <==> q(x))
    ensures Count(p, s) == Count(q, s)
  {
    CountImplies(p, q, s);
    CountImplies(q, p, s);
  }

  /** Where f counts as g and h together for every element, it does over the whole. */
  lemma {:induction false} CountTwoParts<T, U, V, W>(p: U -> bool, f: T -> seq<U>, q: V -> bool, g: T -> seq<V>,
                                                     r: W -> bool, h: T -> seq<W>, xs: seq<T>)
    requires forall x :: x in xs ==> Count(p, f(x)) == Count(q, g(x)) + Count(r, h(x))
    ensures Count(p, FlatMap(f, xs)) == Count(q, FlatMap(g, xs)) + Count(r, FlatMap(h, xs))
  {
    if xs != [] {
      CountTwoParts(p, f, q, g, r, h, xs[1..]);
      CountAppend(p, f(xs[0]), FlatMap(f, xs[1..]));
      CountAppend(q, g(xs[0]), FlatMap(g, xs[1..]));
      CountAppend(r, h(xs[0]), FlatMap(h, xs[1..]));
    }
  }

  /** A predicate split in two disjoint parts counts as the sum of the parts. */
  lemma {:induction false} CountSplit<T>(p: T -> bool, q: T -> bool, r: T -> bool, s: seq<T>)
    requires forall x :: x in s ==> !(q(x) && r(x)) && (p(x) <==> q(x) || r(x))
    ensures Count(p, s) == Count(q, s) + Count(r, s)
  {
    if s != [] {
      CountSplit(p, q, r, s[1..]);
    }
  }

  lemma {:induction false} CountZero<T>(p: T -> bool, s: seq<T>)
    ensures Count(p, s) == 0 <==> forall x :: x in s ==> !p(x)
  {
    if s != [] {
      CountZero(p, s[1..]);
      assert forall x :: x in s <==> x == s[0] || x in s[1..];
    }
  }

  lemma {:induction false} CountAll<T>(p: T -> bool, s: seq<T>)
    requires forall x :: x in s ==> p(x)
    ensures Count(p, s) == |s|
  {
    if s != [] {
      CountAll(p, s[1..]);
    }
  }

  /** Piecewise comparison of two flattened sequences of the same shape. */
  lemma {:induction false} CountFlatMapLe<T, U>(p: U -> bool, f: T -> seq<U>, a: seq<T>,
                                                q: U -> bool, g: T -> seq<U>, b: seq<T>)
    requires |a| == |b|
    requires forall i :: 0 <= i < |a| ==> Count(p, f(a[i])) <= Count(q, g(b[i]))
    ensures Count(p, FlatMap(f, a)) <= Count(q, FlatMap(g, b))
  {
    if a != [] {
      CountAppend(p, f(a[0]), FlatMap(f, a[1..]));
      CountAppend(q, g(b[0]), FlatMap(g, b[1..]));
      assert Count(p, f(a[0])) <= Count(q, g(b[0]));
      forall i | 0 <= i < |a[1..]| ensures Count(p, f(a[1..][i])) <= Count(q, g(b[1..][i])) {
        assert a[1..][i] == a[i + 1] && b[1..][i] == b[i + 1];
      }
      CountFlatMapLe(p, f, a[1..], q, g, b[1..]);
    }
  }

  lemma {:induction false} InFlatMap<T, U>(f: T -> seq<U>, s: seq<T>, y: U)
    ensures y in FlatMap(f, s) <==> exists i :: 0 <= i < |s| && y in f(s[i])
  {
    if s != [] {
      InFlatMap(f, s[1..], y);
      if y in f(s[0]) {
        assert y in f(s[0]) && 0 <= 0 < |s|;
      }
      if y in FlatMap(f, s[1..]) {
        var i :| 0 <= i < |s[1..]| && y in f(s[1..][i]);
        assert y in f(s[i + 1]);
      }
      if i :| 0 <= i < |s| && y in f(s[i]) {
        if i > 0 {
          assert s[1..][i - 1] == s[i];
        }
      }
    }
  }

  /** Reordering keeps counts. */
  lemma {:induction false} CountReorder<T>(p: T -> bool, a: seq<T>, b: seq<T>)
    requires multiset(a) == multiset(b)
    ensures Count(p, a) == Count(p, b)
    decreases |a|
  {
    if a == [] {
      assert |multiset(b)| == 0;
    } else {
      var j := Locate(a, b);
      CountReorder(p, a[1..], b[..j] + b[j + 1..]);
      CountAppend(p, b[..j], b[j + 1..]);
      CutAt(b, j);
      CountAppend(p, b[..j], [b[j]] + b[j + 1..]);
      CountAppend(p, [b[j]], b[j + 1..]);
      assert [b[j]][1..] == [];
    }
  }

  /** Reordering a list reorders what it flattens to. */
  lemma {:induction false} FlatMapReorder<T, U>(f: T -> seq<U>, a: seq<T>, b: seq<T>)
    requires multiset(a) == multiset(b)
    ensures multiset(FlatMap(f, a)) == multiset(FlatMap(f, b))
    decreases |a|
  {
    if a == [] {
      assert |multiset(b)| == 0;
    } else {
      var j := Locate(a, b);
      FlatMapReorder(f, a[1..], b[..j] + b[j + 1..]);
      FlatMapTakeOut(f, b, j);
    }
  }

  lemma FlatMapTakeOut<T, U>(f: T -> seq<U>, b: seq<T>, j: nat)
    requires j < |b|
    ensures multiset(FlatMap(f, b)) == multiset(f(b[j])) + multiset(FlatMap(f, b[..j] + b[j + 1..]))
  {
    var x, z := b[..j], b[j + 1..];
    CutAt(b, j);
    FlatMapAppend(f, x, z);
    FlatMapAppend(f, x, [b[j]] + z);
    FlatMapCons(f, b[j], z);
    MiddleFirst(FlatMap(f, x), f(b[j]), FlatMap(f, z));
  }

  lemma CutAt<T>(s: seq<T>, j: nat)
    requires j < |s|
    ensures s == s[..j] + ([s[j]] + s[j + 1..])
  {
  }

  lemma MiddleFirst<T>(x: seq<T>, y: seq<T>, z: seq<T>)
    ensures multiset(x + (y + z)) == multiset(y) + multiset(x + z)
  {
  }

  lemma {:induction false} TotalReorder<T>(w: T -> real, a: seq<T>, b: seq<T>)
    requires multiset(a) == multiset(b)
    ensures Total(w, a) == Total(w, b)
    decreases |a|
  {
    if a == [] {
      assert |multiset(b)| == 0;
    } else {
      var j := Locate(a, b);
      TotalReorder(w, a[1..], b[..j] + b[j + 1..]);
      TotalAppend(w, b[..j], b[j + 1..]);
      CutAt(b, j);
      TotalAppend(w, b[..j], [b[j]] + b[j + 1..]);
      TotalAppend(w, [b[j]], b[j + 1..]);
      assert [b[j]][1..] == [];
    }
  }

  /** A reordering of a holds a's head somewhere; taking it out leaves a reordering of a's tail. */
  lemma Locate<T>(a: seq<T>, b: seq<T>) returns (j: nat)
    requires a != [] && multiset(a) == multiset(b)
    ensures j < |b| && b[j] == a[0]
    ensures multiset(a[1..]) == multiset(b[..j] + b[j + 1..])
  {
    assert a[0] in multiset(b);
    j :| j < |b| && b[j] == a[0];
    assert a == [a[0]] + a[1..];
    assert b == b[..j] + [b[j]] + b[j + 1..];
    assert multiset(a) == multiset{a[0]} + multiset(a[1..]);
    assert multiset(b[..j] + b[j + 1..]) == multiset(b) - multiset{a[0]} by {
      assert multiset(b) == multiset(b[..j]) + multiset{b[j]} + multiset(b[j + 1..]);
    }
  }
}
