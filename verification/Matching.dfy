/** Greedy one-to-one pairing over an arbitrary compatibility relation, which need be neither
    symmetric nor transitive, and how its result depends on the order of the two lists. */
module Matching {
  import opened Prelude

  datatype Pairing<T, E> = Pairing(hits: seq<(T, E)>, missing: seq<T>, remaining: seq<E>)

  /** The position of the first element compatible with t, or the length when there is none. */
  function FirstHit<T, E>(c: (T, E) -> bool, t: T, es: seq<E>): (j: nat)
    ensures j <= |es|
    ensures forall i :: 0 <= i < j ==> !c(t, es[i])
    ensures j < |es| ==> c(t, es[j])
  {
    if es == [] || c(t, es[0]) then 0 else 1 + FirstHit(c, t, es[1..])
  }

  function Without<E>(es: seq<E>, j: nat): seq<E>
    requires j < |es|
  {
    es[..j] + es[j + 1..]
  }

  lemma WithoutLess<E>(es: seq<E>, j: nat)
    requires j < |es| && Distinct(es)
    ensures Distinct(Without(es, j))
    ensures forall e :: e in Without(es, j) <==> e in es && e != es[j]
  {
    var less := Without(es, j);
    forall e | e in es && e != es[j] ensures e in less {
      var i :| 0 <= i < |es| && es[i] == e;
      assert less[if i < j then i else i - 1] == e;
    }
  }

  lemma TailLess<E>(es: seq<E>)
    requires es != [] && Distinct(es)
    ensures Distinct(es[1..])
    ensures forall e :: e in es[1..] <==> e in es && e != es[0]
  {
    assert Without(es, 0) == es[1..];
    WithoutLess(es, 0);
  }

  /** Each left element in turn takes the first compatible right element still available. */
  function Greedy<T, E>(c: (T, E) -> bool, ts: seq<T>, es: seq<E>): Pairing<T, E> {
    if ts == [] then Pairing([], [], es) else
      var j := FirstHit(c, ts[0], es);
      if j < |es| then
        var rest := Greedy(c, ts[1..], Without(es, j));
        rest.(hits := [(ts[0], es[j])] + rest.hits)
      else
        var rest := Greedy(c, ts[1..], es);
        rest.(missing := [ts[0]] + rest.missing)
  }

  /** The left and the right halves of the pairs. */
  function Lefts<T, E>(hits: seq<(T, E)>): seq<T> {
    if hits == [] then [] else [hits[0].0] + Lefts(hits[1..])
  }

  function Rights<T, E>(hits: seq<(T, E)>): seq<E> {
    if hits == [] then [] else [hits[0].1] + Rights(hits[1..])
  }

  lemma ConsHalves<T, E>(h: (T, E), hits: seq<(T, E)>)
    ensures Lefts([h] + hits) == [h.0] + Lefts(hits) && Rights([h] + hits) == [h.1] + Rights(hits)
  {
    assert ([h] + hits)[1..] == hits;
  }

  lemma ConsMultiset<T>(x: T, s: seq<T>)
    ensures multiset([x] + s) == multiset{x} + multiset(s)
  {
  }

  lemma WithoutMultiset<T>(s: seq<T>, j: nat)
    requires j < |s|
    ensures multiset(s) == multiset{s[j]} + multiset(Without(s, j))
  {
    assert s == s[..j] + [s[j]] + s[j + 1..];
  }

  /** Every element ends up in exactly one place: paired with its partner, or left over. */
  lemma {:induction false} GreedySharesOut<T, E>(c: (T, E) -> bool, ts: seq<T>, es: seq<E>)
    ensures var r := Greedy(c, ts, es);
            && multiset(Lefts(r.hits)) + multiset(r.missing) == multiset(ts)
            && multiset(Rights(r.hits)) + multiset(r.remaining) == multiset(es)
  {
    if ts != [] {
      var j := FirstHit(c, ts[0], es);
      WithoutMultiset(ts, 0);
      assert Without(ts, 0) == ts[1..];
      if j < |es| {
        var rest := Greedy(c, ts[1..], Without(es, j));
        GreedySharesOut(c, ts[1..], Without(es, j));
        HalvesShared((ts[0], es[j]), rest.hits);
        WithoutMultiset(es, j);
        OneMore(ts[0], multiset(Lefts(rest.hits)), multiset(rest.missing), multiset(ts[1..]));
        OneMore(es[j], multiset(Rights(rest.hits)), multiset(rest.remaining), multiset(Without(es, j)));
      } else {
        var rest := Greedy(c, ts[1..], es);
        GreedySharesOut(c, ts[1..], es);
        ConsMultiset(ts[0], rest.missing);
        OneMore(ts[0], multiset(Lefts(rest.hits)), multiset(rest.missing), multiset(ts[1..]));
      }
    }
  }

  lemma OneMore<T>(x: T, a: multiset<T>, b: multiset<T>, all: multiset<T>)
    requires a + b == all
    ensures (multiset{x} + a) + b == multiset{x} + all && a + (multiset{x} + b) == multiset{x} + all
  {
  }

  lemma HalvesShared<T, E>(h: (T, E), hits: seq<(T, E)>)
    ensures multiset(Lefts([h] + hits)) == multiset{h.0} + multiset(Lefts(hits))
    ensures multiset(Rights([h] + hits)) == multiset{h.1} + multiset(Rights(hits))
  {
    ConsHalves(h, hits);
    ConsMultiset(h.0, Lefts(hits));
    ConsMultiset(h.1, Rights(hits));
  }

  /** Both lists are shared out, every pair is compatible, and nothing left over on one side is
      compatible with anything left over on the other. */
  lemma GreedyIsMaximal<T, E>(c: (T, E) -> bool, ts: seq<T>, es: seq<E>)
    ensures var r := Greedy(c, ts, es);
            && multiset(Lefts(r.hits)) + multiset(r.missing) == multiset(ts)
            && multiset(Rights(r.hits)) + multiset(r.remaining) == multiset(es)
            && |r.hits| + |r.missing| == |ts|
            && |r.hits| + |r.remaining| == |es|
            && (forall h :: h in r.hits ==> c(h.0, h.1) && h.0 in ts && h.1 in es)
            && (forall t :: t in r.missing ==> t in ts)
            && (forall e :: e in r.remaining ==> e in es)
            && (forall t, e :: t in r.missing && e in r.remaining ==> !c(t, e))
  {
    GreedySharesOut(c, ts, es);
    GreedyLeavesNoPair(c, ts, es);
  }

  lemma {:induction false} GreedyLeavesNoPair<T, E>(c: (T, E) -> bool, ts: seq<T>, es: seq<E>)
    ensures var r := Greedy(c, ts, es);
            && |r.hits| + |r.missing| == |ts|
            && |r.hits| + |r.remaining| == |es|
            && (forall h :: h in r.hits ==> c(h.0, h.1) && h.0 in ts && h.1 in es)
            && (forall t :: t in r.missing ==> t in ts)
            && (forall e :: e in r.remaining ==> e in es)
            && (forall t, e :: t in r.missing && e in r.remaining ==> !c(t, e))
  {
    if ts != [] {
      var j := FirstHit(c, ts[0], es);
      if j < |es| {
        GreedyLeavesNoPair(c, ts[1..], Without(es, j));
      } else {
        GreedyLeavesNoPair(c, ts[1..], es);
      }
    }
  }

  /** m pairs some of ts one-to-one with compatible members of es. */
  ghost predicate IsMatching<T, E>(c: (T, E) -> bool, ts: seq<T>, es: seq<E>, m: map<T, E>) {
    && (forall t :: t in m ==> t in ts && m[t] in es && c(t, m[t]))
    && (forall t, u :: t in m && u in m && m[t] == m[u] ==> t == u)
  }

  /** t and u have no compatible element of es in common, or all of them. */
  ghost predicate ShareAllOrNone<T, E>(c: (T, E) -> bool, t: T, u: T, es: seq<E>) {
    (forall e :: e in es ==> !(c(t, e) && c(u, e))) || (forall e :: e in es ==> c(t, e) == c(u, e))
  }

  /** Two left elements that share one compatible right element share all of them. */
  ghost predicate Blocks<T, E>(c: (T, E) -> bool, ts: seq<T>, es: seq<E>) {
    forall t, u {:trigger ShareAllOrNone(c, t, u, es)} :: t in ts && u in ts ==> ShareAllOrNone(c, t, u, es)
  }

  /** The exchange argument: whatever a matching does with the first element and with the partner
      greedy gives it, at most two of its pairs are lost. */
  lemma {:induction false} GreedyBound<T, E>(c: (T, E) -> bool, ts: seq<T>, es: seq<E>, m: map<T, E>)
    requires Distinct(ts) && Distinct(es) && IsMatching(c, ts, es, m)
    ensures |m| <= 2 * |Greedy(c, ts, es).hits|
  {
    if ts == [] {
      assert m.Keys == {};
    } else {
      var t, j := ts[0], FirstHit(c, ts[0], es);
      TailLess(ts);
      if j == |es| {
        assert t !in m;
        GreedyBound(c, ts[1..], es, m);
      } else {
        WithoutLess(es, j);
        var m1 := Cut(m, t);
        if k :| k in m1 && m1[k] == es[j] {
          GreedyBound(c, ts[1..], Without(es, j), Cut(m1, k));
        } else {
          GreedyBound(c, ts[1..], Without(es, j), m1);
        }
      }
    }
  }

  /** Where blocks hold, the element displaced from the partner greedy gives away takes over the
      first element's partner, so only one pair is lost. */
  lemma Exchange<T, E>(c: (T, E) -> bool, ts: seq<T>, es: seq<E>, m: map<T, E>, t: T, e: E,
                       fewer: seq<T>, less: seq<E>) returns (r: map<T, E>)
    requires IsMatching(c, ts, es, m) && Blocks(c, ts, es)
    requires t in ts && e in es && c(t, e)
    requires forall x :: x in ts && x != t ==> x in fewer
    requires forall x :: x in es && x != e ==> x in less
    ensures IsMatching(c, fewer, less, r) && |m| <= |r| + 1
  {
    r := Cut(m, t);
    if k :| k in r && r[k] == e {
      r := Cut(r, k);
      if t in m {
        assert ShareAllOrNone(c, t, k, es);
        assert c(k, m[t]);
        assert forall u :: u in r ==> r[u] != m[t];
        r := r[k := m[t]];
      }
    }
  }

  lemma {:induction false} GreedyBoundOnBlocks<T, E>(c: (T, E) -> bool, ts: seq<T>, es: seq<E>, m: map<T, E>)
    requires Distinct(ts) && Distinct(es) && IsMatching(c, ts, es, m) && Blocks(c, ts, es)
    ensures |m| <= |Greedy(c, ts, es).hits|
  {
    if ts == [] {
      assert m.Keys == {};
    } else {
      TailLess(ts);
      var j := FirstHit(c, ts[0], es);
      if j == |es| {
        assert ts[0] !in m;
        GreedyBoundOnBlocks(c, ts[1..], es, m);
      } else {
        WithoutLess(es, j);
        var r := Exchange(c, ts, es, m, ts[0], es[j], ts[1..], Without(es, j));
        BlocksOnSublists(c, ts, es, ts[1..], Without(es, j));
        GreedyBoundOnBlocks(c, ts[1..], Without(es, j), r);
      }
    }
  }

  /** m without the pair of t, if it has one. */
  ghost function Cut<T, E>(m: map<T, E>, t: T): (r: map<T, E>)
    ensures r.Keys == m.Keys - {t} && forall u :: u in r ==> r[u] == m[u]
    ensures t in m ==> |r| == |m| - 1
    ensures t !in m ==> r == m
  {
    var r := m - {t};
    assert r.Keys == m.Keys - {t};
    r
  }

  lemma BlocksOnSublists<T, E>(c: (T, E) -> bool, ts: seq<T>, es: seq<E>, ts': seq<T>, es': seq<E>)
    requires Blocks(c, ts, es)
    requires (forall t :: t in ts' ==> t in ts) && (forall e :: e in es' ==> e in es)
    ensures Blocks(c, ts', es')
  {
    forall t, u | t in ts' && u in ts' ensures ShareAllOrNone(c, t, u, es') {
      assert ShareAllOrNone(c, t, u, es);
    }
  }

  // ------------------------------------------------------------------ pairing by position

  predicate Below(p: seq<nat>, n: nat) {
    forall k :: 0 <= k < |p| ==> p[k] < n
  }

  /** p lists each position below n exactly once. */
  ghost predicate IsOrder(p: seq<nat>, n: nat) {
    |p| == n && Distinct(p) && Below(p, n) && forall i: nat :: i < n ==> i in p
  }

  /** s listed in the order p. */
  function Arrange<T>(s: seq<T>, p: seq<nat>): (r: seq<T>)
    requires Below(p, |s|)
    ensures |r| == |p| && forall k :: 0 <= k < |p| ==> r[k] == s[p[k]]
  {
    seq(|p|, k requires 0 <= k < |p| => s[p[k]])
  }

  function Iota(n: nat): (p: seq<nat>)
    ensures IsOrder(p, n) && forall k :: 0 <= k < n ==> p[k] == k
  {
    var p := seq(n, k => k);
    assert forall i: nat :: i < n ==> i in p by {
      forall i: nat | i < n ensures i in p {
        assert p[i] == i;
      }
    }
    p
  }

  /** The relation between the positions of the two lists. */
  function OnPositions<T, E>(c: (T, E) -> bool, ts: seq<T>, es: seq<E>): (nat, nat) -> bool {
    (i: nat, j: nat) => i < |ts| && j < |es| && c(ts[i], es[j])
  }

  /** Greedy pairing of rearranged lists is greedy pairing of their positions. */
  lemma {:induction false} GreedyByPosition<T, E>(c: (T, E) -> bool, ts: seq<T>, es: seq<E>,
                                                  p: seq<nat>, q: seq<nat>)
    requires Below(p, |ts|) && Below(q, |es|)
    ensures |Greedy(c, Arrange(ts, p), Arrange(es, q)).hits| == |Greedy(OnPositions(c, ts, es), p, q).hits|
  {
    if p == [] {
      return;
    }
    var d := OnPositions(c, ts, es);
    var at, ae := Arrange(ts, p), Arrange(es, q);
    var j := FirstHit(d, p[0], q);
    SameFirstHit(c, at[0], ae, d, p[0], q);
    assert at[1..] == Arrange(ts, p[1..]);
    if j < |q| {
      assert Without(ae, j) == Arrange(es, Without(q, j));
      GreedyByPosition(c, ts, es, p[1..], Without(q, j));
    } else {
      GreedyByPosition(c, ts, es, p[1..], q);
    }
  }

  lemma SameFirstHit<T, E, U, F>(c: (T, E) -> bool, t: T, es: seq<E>, d: (U, F) -> bool, u: U, fs: seq<F>)
    requires |es| == |fs| && forall i :: 0 <= i < |es| ==> c(t, es[i]) == d(u, fs[i])
    ensures FirstHit(c, t, es) == FirstHit(d, u, fs)
  {
    var i, j := FirstHit(c, t, es), FirstHit(d, u, fs);
    assert j < |es| ==> c(t, es[j]);
    assert i < |es| ==> d(u, fs[i]);
  }

  /** The pairs of a greedy run over distinct elements, as a matching. */
  ghost function HitMap<T, E>(hits: seq<(T, E)>): map<T, E> {
    if hits == [] then map[] else HitMap(hits[1..])[hits[0].0 := hits[0].1]
  }

  lemma {:induction false} GreedyIsMatching<T, E>(c: (T, E) -> bool, ts: seq<T>, es: seq<E>)
    requires Distinct(ts) && Distinct(es)
    ensures var hits := Greedy(c, ts, es).hits;
            IsMatching(c, ts, es, HitMap(hits)) && |HitMap(hits)| == |hits|
  {
    if ts != [] {
      var j := FirstHit(c, ts[0], es);
      if j < |es| {
        var less := Without(es, j);
        assert es[j] !in less && Distinct(less) && forall f :: f in less ==> f in es;
        GreedyIsMatching(c, ts[1..], less);
        assert ts[0] !in ts[1..];
        var hits := Greedy(c, ts, es).hits;
        assert hits[1..] == Greedy(c, ts[1..], less).hits;
      } else {
        GreedyIsMatching(c, ts[1..], es);
      }
    }
  }

  lemma IotaArrange<T>(s: seq<T>)
    ensures Arrange(s, Iota(|s|)) == s
  {
  }

  /** Greedy pairing is a 2-approximation: no one-to-one compatible pairing of positions has more
      than twice as many pairs. */
  lemma GreedyIsHalfOptimal<T, E>(c: (T, E) -> bool, ts: seq<T>, es: seq<E>, m: map<nat, nat>)
    requires IsMatching(OnPositions(c, ts, es), Iota(|ts|), Iota(|es|), m)
    ensures |m| <= 2 * |Greedy(c, ts, es).hits|
  {
    GreedyBound(OnPositions(c, ts, es), Iota(|ts|), Iota(|es|), m);
    GreedyByPosition(c, ts, es, Iota(|ts|), Iota(|es|));
    IotaArrange(ts);
    IotaArrange(es);
  }

  /** Where blocks hold, greedy pairing is maximum. */
  lemma GreedyIsOptimalOnBlocks<T, E>(c: (T, E) -> bool, ts: seq<T>, es: seq<E>, m: map<nat, nat>)
    requires Blocks(c, ts, es)
    requires IsMatching(OnPositions(c, ts, es), Iota(|ts|), Iota(|es|), m)
    ensures |m| <= |Greedy(c, ts, es).hits|
  {
    BlocksByPosition(c, ts, es, Iota(|ts|), Iota(|es|));
    GreedyBoundOnBlocks(OnPositions(c, ts, es), Iota(|ts|), Iota(|es|), m);
    GreedyByPosition(c, ts, es, Iota(|ts|), Iota(|es|));
    IotaArrange(ts);
    IotaArrange(es);
  }

  lemma BlocksByPosition<T, E>(c: (T, E) -> bool, ts: seq<T>, es: seq<E>, p: seq<nat>, q: seq<nat>)
    requires Blocks(c, ts, es) && IsOrder(p, |ts|) && IsOrder(q, |es|)
    ensures Blocks(OnPositions(c, ts, es), p, q)
  {
    var d := OnPositions(c, ts, es);
    forall t, u | t in p && u in p ensures ShareAllOrNone(d, t, u, q) {
      assert ts[t] in ts && ts[u] in ts && ShareAllOrNone(c, ts[t], ts[u], es);
      assert forall e :: e in q ==> es[e] in es;
    }
  }

  /** Where blocks hold, the number of pairs is the same in every order of the two lists. */
  lemma BlocksMakeOrderIrrelevant<T, E>(c: (T, E) -> bool, ts: seq<T>, es: seq<E>, p: seq<nat>, q: seq<nat>)
    requires Blocks(c, ts, es) && IsOrder(p, |ts|) && IsOrder(q, |es|)
    ensures |Greedy(c, Arrange(ts, p), Arrange(es, q)).hits| == |Greedy(c, ts, es).hits|
  {
    var d, p0, q0 := OnPositions(c, ts, es), Iota(|ts|), Iota(|es|);
    GreedyByPosition(c, ts, es, p, q);
    GreedyByPosition(c, ts, es, p0, q0);
    IotaArrange(ts);
    IotaArrange(es);
    BlocksByPosition(c, ts, es, p, q);
    BlocksByPosition(c, ts, es, p0, q0);
    GreedyIsMatching(d, p, q);
    GreedyIsMatching(d, p0, q0);
    GreedyBoundOnBlocks(d, p, q, HitMap(Greedy(d, p0, q0).hits));
    GreedyBoundOnBlocks(d, p0, q0, HitMap(Greedy(d, p, q).hits));
  }

  // ------------------------------------------------------------------ when order cannot matter

  /** Both lists are used up. */
  predicate Perfect<T, E>(r: Pairing<T, E>) {
    r.missing == [] && r.remaining == []
  }

  /** Every order of the two lists leaves nothing over. */
  ghost predicate PerfectInEveryOrder<T, E>(c: (T, E) -> bool, ts: seq<T>, es: seq<E>) {
    forall p, q :: IsOrder(p, |ts|) && IsOrder(q, |es|) ==>
      Perfect(Greedy(c, Arrange(ts, p), Arrange(es, q)))
  }

  ghost predicate PerfectInSomeOrder<T, E>(c: (T, E) -> bool, ts: seq<T>, es: seq<E>) {
    exists p, q :: IsOrder(p, |ts|) && IsOrder(q, |es|) &&
      Perfect(Greedy(c, Arrange(ts, p), Arrange(es, q)))
  }

  /** Some one-to-one pairing of compatible positions uses up both lists. */
  ghost predicate HasPerfectPairing<T, E>(c: (T, E) -> bool, ts: seq<T>, es: seq<E>) {
    |ts| == |es| &&
    exists m: map<nat, nat> :: |m| == |ts| && IsMatching(OnPositions(c, ts, es), Iota(|ts|), Iota(|es|), m)
  }

  /** A matching of positions stays one when the positions are listed in another order. */
  lemma MatchingInAnyOrder(d: (nat, nat) -> bool, p: seq<nat>, q: seq<nat>, m: map<nat, nat>, n: nat, k: nat)
    requires IsOrder(p, n) && IsOrder(q, k) && IsMatching(d, p, q, m)
    ensures IsMatching(d, Iota(n), Iota(k), m)
  {
    forall t | t in m ensures t in Iota(n) && m[t] in Iota(k) {
      assert t in p && m[t] in q;
      var i :| 0 <= i < |p| && p[i] == t;
      var j :| 0 <= j < |q| && q[j] == m[t];
      assert Iota(n)[t] == t && Iota(k)[m[t]] == m[t];
    }
  }

  lemma SomeOrderGivesPairing<T, E>(c: (T, E) -> bool, ts: seq<T>, es: seq<E>, p: seq<nat>, q: seq<nat>)
    requires IsOrder(p, |ts|) && IsOrder(q, |es|) && Perfect(Greedy(c, Arrange(ts, p), Arrange(es, q)))
    ensures HasPerfectPairing(c, ts, es)
  {
    var d := OnPositions(c, ts, es);
    GreedyLeavesNoPair(c, Arrange(ts, p), Arrange(es, q));
    GreedyByPosition(c, ts, es, p, q);
    var m := HitMap(Greedy(d, p, q).hits);
    GreedyIsMatching(d, p, q);
    MatchingInAnyOrder(d, p, q, m, |ts|, |es|);
  }

  function FirstPositions(n: nat): (r: set<nat>)
    ensures |r| == n && forall i: nat :: i in r <==> i < n
  {
    if n == 0 then {} else FirstPositions(n - 1) + {n - 1}
  }

  function Elements(s: seq<nat>): (r: set<nat>)
    ensures forall x :: x in r <==> x in s
  {
    set x | x in s
  }

  lemma {:induction false} DistinctCounts(s: seq<nat>)
    requires Distinct(s)
    ensures |Elements(s)| == |s|
  {
    if s != [] {
      TailLess(s);
      DistinctCounts(s[1..]);
      assert Elements(s) == Elements(s[1..]) + {s[0]};
    }
  }

  /** Distinct positions below n, n of them, are all of them. */
  lemma FullIsOrder(s: seq<nat>, n: nat)
    requires |s| == n && Distinct(s) && Below(s, n)
    ensures IsOrder(s, n)
  {
    DistinctCounts(s);
    assert forall x :: x in Elements(s) ==> x in FirstPositions(n);
    SameSize(Elements(s), FirstPositions(n));
    assert forall i: nat :: i < n ==> i in FirstPositions(n);
  }

  lemma SameSize(a: set<nat>, b: set<nat>)
    requires a <= b && |a| == |b|
    ensures a == b
  {
    if x :| x in b - a {
      SubsetSize(a, b - {x});
      assert false;
    }
    assert b - a == {};
  }

  lemma {:induction false} SubsetSize(a: set<nat>, b: set<nat>)
    requires a <= b
    ensures |a| <= |b|
  {
    if x :| x in a {
      SubsetSize(a - {x}, b - {x});
    }
  }

  predicate MapsInto(m: map<nat, nat>, n: nat) {
    forall t :: t in m ==> t < n && m[t] < n
  }

  predicate MapsFrom(m: map<nat, nat>, n: nat) {
    forall i: nat :: i < n ==> i in m
  }

  predicate Injective(m: map<nat, nat>) {
    forall t, u :: t in m && u in m && m[t] == m[u] ==> t == u
  }

  predicate Follows(d: (nat, nat) -> bool, m: map<nat, nat>) {
    forall t :: t in m ==> d(t, m[t])
  }

  lemma MapsAll(m: map<nat, nat>, n: nat)
    requires |m| == n && forall t :: t in m ==> t < n
    ensures MapsFrom(m, n)
  {
    assert forall t :: t in m.Keys ==> t in FirstPositions(n);
    SameSize(m.Keys, FirstPositions(n));
    assert forall i: nat :: i < n ==> i in FirstPositions(n);
  }

  /** The partners of all positions, each once, are an order. */
  lemma PartnersAreOrder(m: map<nat, nat>, n: nat)
    requires |m| == n && MapsInto(m, n) && Injective(m)
    ensures MapsFrom(m, n) && IsOrder(Partners(m, n), n)
  {
    MapsAll(m, n);
    PartnersDiffer(m, n);
    FullIsOrder(Partners(m, n), n);
  }

  lemma PartnersDiffer(m: map<nat, nat>, n: nat)
    requires MapsFrom(m, n) && Injective(m)
    ensures Distinct(Partners(m, n))
  {
  }

  lemma MatchingOfPositions(d: (nat, nat) -> bool, m: map<nat, nat>, n: nat)
    requires IsMatching(d, Iota(n), Iota(n), m)
    ensures MapsInto(m, n) && Follows(d, m) && Injective(m)
  {
    forall t | t in m ensures t < n && m[t] < n && d(t, m[t]) {
      assert t in Iota(n) && m[t] in Iota(n);
    }
  }

  function Partners(m: map<nat, nat>, n: nat): (q: seq<nat>)
    requires MapsFrom(m, n)
    ensures |q| == n && forall k :: 0 <= k < n ==> q[k] == m[k]
  {
    seq(n, i requires 0 <= i < n => m[i])
  }

  lemma OrderOfPairing(d: (nat, nat) -> bool, m: map<nat, nat>, n: nat) returns (q: seq<nat>)
    requires |m| == n && IsMatching(d, Iota(n), Iota(n), m)
    ensures IsOrder(q, n) && Aligned(d, Iota(n), q)
  {
    MatchingOfPositions(d, m, n);
    PartnersAreOrder(m, n);
    q := Partners(m, n);
    forall k: nat | k < n ensures d(Iota(n)[k], q[k]) {
      assert k in m;
    }
  }

  lemma PerfectFromPositions<T, E>(c: (T, E) -> bool, ts: seq<T>, es: seq<E>, p: seq<nat>, q: seq<nat>)
    requires IsOrder(p, |ts|) && IsOrder(q, |es|) && Perfect(Greedy(OnPositions(c, ts, es), p, q))
    ensures Perfect(Greedy(c, Arrange(ts, p), Arrange(es, q)))
  {
    GreedyByPosition(c, ts, es, p, q);
    GreedyLeavesNoPair(OnPositions(c, ts, es), p, q);
    GreedyLeavesNoPair(c, Arrange(ts, p), Arrange(es, q));
  }

  lemma PairingGivesOrder<T, E>(c: (T, E) -> bool, ts: seq<T>, es: seq<E>, m: map<nat, nat>) returns (q: seq<nat>)
    requires |m| == |ts| == |es| && IsMatching(OnPositions(c, ts, es), Iota(|ts|), Iota(|es|), m)
    ensures IsOrder(q, |es|) && Perfect(Greedy(c, Arrange(ts, Iota(|ts|)), Arrange(es, q)))
  {
    var n, d := |ts|, OnPositions(c, ts, es);
    q := OrderOfPairing(d, m, n);
    AlignedIsPerfect(d, Iota(n), q);
    PerfectFromPositions(c, ts, es, Iota(n), q);
  }

  lemma AlignedIsPerfect(d: (nat, nat) -> bool, p: seq<nat>, q: seq<nat>)
    requires Aligned(d, p, q)
    ensures Perfect(Greedy(d, p, q))
  {
    GreedyFollowsAlignment(d, p, q, |p|);
    assert p[|p|..] == [] && q[|p|..] == [];
  }

  /** Some order leaves nothing over exactly when a perfect pairing exists at all. */
  lemma SomeOrderExactlyOnPairing<T, E>(c: (T, E) -> bool, ts: seq<T>, es: seq<E>)
    ensures PerfectInSomeOrder(c, ts, es) <==> HasPerfectPairing(c, ts, es)
  {
    if PerfectInSomeOrder(c, ts, es) {
      var p, q :| IsOrder(p, |ts|) && IsOrder(q, |es|) && Perfect(Greedy(c, Arrange(ts, p), Arrange(es, q)));
      SomeOrderGivesPairing(c, ts, es, p, q);
    }
    if HasPerfectPairing(c, ts, es) {
      var m: map<nat, nat> :| |m| == |ts| && IsMatching(OnPositions(c, ts, es), Iota(|ts|), Iota(|es|), m);
      var q := PairingGivesOrder(c, ts, es, m);
    }
  }

  lemma SomeOrderOnBlocksIsEvery<T, E>(c: (T, E) -> bool, ts: seq<T>, es: seq<E>)
    requires PerfectInSomeOrder(c, ts, es) && Blocks(c, ts, es)
    ensures PerfectInEveryOrder(c, ts, es)
  {
    var p0, q0 :| IsOrder(p0, |ts|) && IsOrder(q0, |es|) &&
      Perfect(Greedy(c, Arrange(ts, p0), Arrange(es, q0)));
    BlocksMakeOrderIrrelevant(c, ts, es, p0, q0);
    GreedyLeavesNoPair(c, Arrange(ts, p0), Arrange(es, q0));
    forall p, q | IsOrder(p, |ts|) && IsOrder(q, |es|)
      ensures Perfect(Greedy(c, Arrange(ts, p), Arrange(es, q)))
    {
      BlocksMakeOrderIrrelevant(c, ts, es, p, q);
      GreedyLeavesNoPair(c, Arrange(ts, p), Arrange(es, q));
    }
  }

  lemma EveryOrderForcesBlocks<T, E>(c: (T, E) -> bool, ts: seq<T>, es: seq<E>)
    requires PerfectInEveryOrder(c, ts, es)
    ensures Blocks(c, ts, es)
  {
    forall t, u | t in ts && u in ts ensures ShareAllOrNone(c, t, u, es) {
      var ti :| 0 <= ti < |ts| && ts[ti] == t;
      var ui :| 0 <= ui < |ts| && ts[ui] == u;
      if ei :| 0 <= ei < |es| && c(t, es[ei]) && c(u, es[ei]) {
        forall fi | 0 <= fi < |es| ensures c(t, es[fi]) == c(u, es[fi]) {
          if c(t, es[fi]) {
            PerfectForcesBlocks(c, ts, es, ti, ui, ei, fi);
          }
          if c(u, es[fi]) {
            PerfectForcesBlocks(c, ts, es, ui, ti, ei, fi);
          }
        }
      }
    }
  }

  /** Greedy pairing uses up both lists in every order exactly when a perfect pairing exists and
      compatibility falls into blocks. */
  lemma OrderIndependentExactlyOnBlocks<T, E>(c: (T, E) -> bool, ts: seq<T>, es: seq<E>)
    ensures PerfectInEveryOrder(c, ts, es) <==> HasPerfectPairing(c, ts, es) && Blocks(c, ts, es)
  {
    SomeOrderExactlyOnPairing(c, ts, es);
    if HasPerfectPairing(c, ts, es) && Blocks(c, ts, es) {
      SomeOrderOnBlocksIsEvery(c, ts, es);
    }
    if PerfectInEveryOrder(c, ts, es) {
      assert Perfect(Greedy(c, Arrange(ts, Iota(|ts|)), Arrange(es, Iota(|es|))));
      EveryOrderForcesBlocks(c, ts, es);
    }
  }

  ghost predicate Aligned(d: (nat, nat) -> bool, p: seq<nat>, q: seq<nat>) {
    |p| == |q| && forall k :: 0 <= k < |p| ==> d(p[k], q[k])
  }

  /** Greedy takes pairs that line up at the front of both lists as they come. */
  lemma {:induction false} GreedyFollowsAlignment(d: (nat, nat) -> bool, p: seq<nat>, q: seq<nat>, k: nat)
    requires k <= |p| && k <= |q| && forall i :: 0 <= i < k ==> d(p[i], q[i])
    ensures Greedy(d, p, q).missing == Greedy(d, p[k..], q[k..]).missing
    ensures Greedy(d, p, q).remaining == Greedy(d, p[k..], q[k..]).remaining
  {
    if k > 0 {
      assert FirstHit(d, p[0], q) == 0;
      assert Without(q, 0) == q[1..];
      GreedyFollowsAlignment(d, p[1..], q[1..], k - 1);
      assert p[1..][k - 1..] == p[k..] && q[1..][k - 1..] == q[k..];
    } else {
      assert p[0..] == p && q[0..] == q;
    }
  }

  /** A perfect run lines the right list up with the left one. */
  lemma {:induction false} PerfectRunAligns(d: (nat, nat) -> bool, p: seq<nat>, q: seq<nat>) returns (r: seq<nat>)
    requires Perfect(Greedy(d, p, q)) && Distinct(q)
    ensures Aligned(d, p, r) && Distinct(r) && |r| == |q|
    ensures forall j :: j in r <==> j in q
    ensures p != [] ==> q != [] && (d(p[0], q[0]) ==> r[0] == q[0])
  {
    if p == [] {
      r := [];
    } else {
      var j := FirstHit(d, p[0], q);
      assert j < |q|;
      var less := Without(q, j);
      var rest := PerfectRunAligns(d, p[1..], less);
      assert q[j] !in less && forall x :: x in q <==> x == q[j] || x in less;
      r := [q[j]] + rest;
    }
  }

  ghost function Swap(q: seq<nat>, i: nat, j: nat): seq<nat>
    requires i < |q| && j < |q|
  {
    q[i := q[j]][j := q[i]]
  }

  lemma SwapIsOrder(q: seq<nat>, i: nat, j: nat, n: nat)
    requires IsOrder(q, n) && i < n && j < n
    ensures IsOrder(Swap(q, i, j), n)
  {
    var s := Swap(q, i, j);
    forall x: nat | x < n ensures x in s {
      assert x in q;
      var k :| 0 <= k < n && q[k] == x;
      assert s[if k == i then j else if k == j then i else k] == x;
    }
  }

  /** If every order is perfect and all but one pair line up, so does the last. */
  lemma LastPairLinesUp<T, E>(c: (T, E) -> bool, ts: seq<T>, es: seq<E>, p: seq<nat>, q: seq<nat>, x: nat)
    requires PerfectInEveryOrder(c, ts, es) && |ts| == |es|
    requires IsOrder(p, |ts|) && IsOrder(q, |es|) && x < |ts|
    requires var d := OnPositions(c, ts, es); forall k :: 0 <= k < |p| && k != x ==> d(p[k], q[k])
    ensures OnPositions(c, ts, es)(p[x], q[x])
  {
    var d, last := OnPositions(c, ts, es), |ts| - 1;
    var p1, q1 := Swap(p, x, last), Swap(q, x, last);
    SwapIsOrder(p, x, last, |ts|);
    SwapIsOrder(q, x, last, |es|);
    PerfectByPosition(c, ts, es, p1, q1);
    GreedyFollowsAlignment(d, p1, q1, last);
    assert p1[last..] == [p[x]] && q1[last..] == [q[x]];
    assert Greedy(d, [p[x]], [q[x]]).missing == [];
  }

  lemma PerfectByPosition<T, E>(c: (T, E) -> bool, ts: seq<T>, es: seq<E>, p: seq<nat>, q: seq<nat>)
    requires PerfectInEveryOrder(c, ts, es) && IsOrder(p, |ts|) && IsOrder(q, |es|)
    ensures Perfect(Greedy(OnPositions(c, ts, es), p, q))
  {
    assert Perfect(Greedy(c, Arrange(ts, p), Arrange(es, q)));
    GreedyByPosition(c, ts, es, p, q);
    GreedyLeavesNoPair(c, Arrange(ts, p), Arrange(es, q));
    GreedyLeavesNoPair(OnPositions(c, ts, es), p, q);
  }

  /** Re-pairing three pairs of a perfect alignment forces a fourth compatibility. */
  lemma ThreeRepairings<T, E>(c: (T, E) -> bool, ts: seq<T>, es: seq<E>, p: seq<nat>, r: seq<nat>, a: nat, b: nat)
    requires PerfectInEveryOrder(c, ts, es) && |ts| == |es|
    requires IsOrder(p, |ts|) && IsOrder(r, |es|) && Aligned(OnPositions(c, ts, es), p, r)
    requires 0 < a < |ts| && 0 < b < |ts| && a != b
    requires var d := OnPositions(c, ts, es); d(p[a], r[0]) && d(p[0], r[b])
    ensures OnPositions(c, ts, es)(p[a], r[b])
  {
    SwapIsOrder(r, 0, b, |ts|);
    LastPairLinesUp(c, ts, es, p, Swap(r, 0, b), b);
    var q := Swap(r, 0, a);
    SwapIsOrder(r, 0, a, |ts|);
    LastPairLinesUp(c, ts, es, p, q, 0);
    SwapIsOrder(q, a, b, |ts|);
    LastPairLinesUp(c, ts, es, p, Swap(q, a, b), a);
  }

  /** A perfect alignment that starts with the given pair of positions. */
  lemma AlignFrom<T, E>(c: (T, E) -> bool, ts: seq<T>, es: seq<E>, t: nat, e: nat) returns (p: seq<nat>, r: seq<nat>)
    requires PerfectInEveryOrder(c, ts, es)
    requires t < |ts| && e < |es| && c(ts[t], es[e])
    ensures |ts| == |es| && IsOrder(p, |ts|) && IsOrder(r, |es|) && p[0] == t && r[0] == e
    ensures Aligned(OnPositions(c, ts, es), p, r)
  {
    var d := OnPositions(c, ts, es);
    SwapIsOrder(Iota(|ts|), 0, t, |ts|);
    SwapIsOrder(Iota(|es|), 0, e, |es|);
    p := Swap(Iota(|ts|), 0, t);
    var q := Swap(Iota(|es|), 0, e);
    PerfectByPosition(c, ts, es, p, q);
    GreedyLeavesNoPair(d, p, q);
    r := PerfectRunAligns(d, p, q);
    forall k | 0 <= k < |r| ensures r[k] < |es| {
      assert r[k] in q;
    }
  }

  lemma PerfectForcesBlocks<T, E>(c: (T, E) -> bool, ts: seq<T>, es: seq<E>, t: nat, u: nat, e: nat, f: nat)
    requires PerfectInEveryOrder(c, ts, es)
    requires t < |ts| && u < |ts| && e < |es| && f < |es|
    requires c(ts[t], es[e]) && c(ts[u], es[e]) && c(ts[t], es[f])
    ensures c(ts[u], es[f])
  {
    var p, r := AlignFrom(c, ts, es, t, e);
    assert u in p && f in r;
    var a :| 0 <= a < |p| && p[a] == u;
    var b :| 0 <= b < |r| && r[b] == f;
    if a != 0 && b != 0 && a != b {
      ThreeRepairings(c, ts, es, p, r, a, b);
    }
  }
}
