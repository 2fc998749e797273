/** Filters, maps and sums over rows, and how they behave under append and reordering. */
module Sequences {

  function Filter<T(!new)>(keep: T -> bool, s: seq<T>): (r: seq<T>)
    ensures |r| <= |s|
    ensures forall x :: x in r <==> x in s && keep(x)
  {
    if s == [] then []
    else if keep(s[0]) then [s[0]] + Filter(keep, s[1..])
    else Filter(keep, s[1..])
  }

  function Map<A, B>(f: A -> B, s: seq<A>): (r: seq<B>)
    ensures |r| == |s|
    ensures forall i :: 0 <= i < |s| ==> r[i] == f(s[i])
  {
    if s == [] then [] else [f(s[0])] + Map(f, s[1..])
  }

  function FlatMap<A, B>(f: A -> seq<B>, s: seq<A>): seq<B> {
    if s == [] then [] else f(s[0]) + FlatMap(f, s[1..])
  }

  function Sum<T>(value: T -> real, s: seq<T>): real {
    if s == [] then 0.0 else value(s[0]) + Sum(value, s[1..])
  }

  lemma AppendAssociative<T>(a: seq<T>, b: seq<T>, c: seq<T>)
    ensures (a + b) + c == a + (b + c)
  {
  }

  lemma {:induction false} FilterAppend<T(!new)>(keep: T -> bool, s: seq<T>, t: seq<T>)
    ensures Filter(keep, s + t) == Filter(keep, s) + Filter(keep, t)
  {
    if s == [] {
      assert s + t == t;
    } else {
      FilterAppend(keep, s[1..], t);
      assert (s + t)[1..] == s[1..] + t;
      if keep(s[0]) {
        AppendAssociative([s[0]], Filter(keep, s[1..]), Filter(keep, t));
      }
    }
  }

  lemma {:induction false} FilterAll<T(!new)>(keep: T -> bool, s: seq<T>)
    requires forall x :: x in s ==> keep(x)
    ensures Filter(keep, s) == s
  {
    if s == [] {
    } else {
      FilterAll(keep, s[1..]);
      assert s == [s[0]] + s[1..];
    }
  }

  lemma {:induction false} FilterNone<T(!new)>(keep: T -> bool, s: seq<T>)
    requires forall x :: x in s ==> !keep(x)
    ensures Filter(keep, s) == []
  {
    if s == [] {
    } else {
      FilterNone(keep, s[1..]);
    }
  }

  lemma {:induction false} FilterTwice<T(!new)>(p: T -> bool, q: T -> bool, both: T -> bool, s: seq<T>)
    requires forall x :: x in s ==> (both(x) <==> p(x) && q(x))
    ensures Filter(q, Filter(p, s)) == Filter(both, s)
  {
    if s == [] {
    } else {
      FilterTwice(p, q, both, s[1..]);
      assert s[0] in s;
      if p(s[0]) {
        var t := [s[0]] + Filter(p, s[1..]);
        assert t[1..] == Filter(p, s[1..]);
      }
    }
  }

  lemma {:induction false} FlatMapAppend<A, B>(f: A -> seq<B>, s: seq<A>, t: seq<A>)
    ensures FlatMap(f, s + t) == FlatMap(f, s) + FlatMap(f, t)
  {
    if s == [] {
      assert s + t == t;
    } else {
      FlatMapAppend(f, s[1..], t);
      assert (s + t)[1..] == s[1..] + t;
      AppendAssociative(f(s[0]), FlatMap(f, s[1..]), FlatMap(f, t));
    }
  }

  lemma FlatMapOneMore<A, B>(f: A -> seq<B>, s: seq<A>, x: A)
    ensures FlatMap(f, s + [x]) == FlatMap(f, s) + f(x)
  {
    FlatMapAppend(f, s, [x]);
    assert [x][1..] == [];
    assert FlatMap(f, [x]) == f(x) + [];
  }

  lemma {:induction false} SumAppend<T>(value: T -> real, s: seq<T>, t: seq<T>)
    ensures Sum(value, s + t) == Sum(value, s) + Sum(value, t)
  {
    if s == [] {
      assert s + t == t;
    } else {
      SumAppend(value, s[1..], t);
      assert (s + t)[1..] == s[1..] + t;
    }
  }

  lemma SumOneMore<T>(value: T -> real, s: seq<T>, x: T)
    ensures Sum(value, s + [x]) == Sum(value, s) + value(x)
  {
    SumAppend(value, s, [x]);
    assert [x][1..] == [];
  }

  /** A reordering contains the first row somewhere; what surrounds it reorders the rest. */
  lemma FindFirstRow<A>(s: seq<A>, t: seq<A>) returns (before: seq<A>, after: seq<A>)
    requires multiset(s) == multiset(t) && s != []
    ensures t == before + ([s[0]] + after)
    ensures multiset(before + after) == multiset(s[1..])
  {
    assert s[0] in multiset(t);
    var j :| 0 <= j < |t| && t[j] == s[0];
    before, after := t[..j], t[j + 1..];
    assert t == before + ([s[0]] + after);
    assert s == [s[0]] + s[1..];
    assert multiset(t) == multiset(before) + multiset([s[0]]) + multiset(after);
    assert multiset(s) == multiset([s[0]]) + multiset(s[1..]);
    assert multiset(before + after) == multiset(t) - multiset([s[0]]);
  }

  lemma EmptyReordering<A>(s: seq<A>, t: seq<A>)
    requires multiset(s) == multiset(t)
    ensures |s| == |t|
  {
    assert |multiset(s)| == |s| && |multiset(t)| == |t|;
  }

  lemma {:induction false} FlatMapReordered<A, B>(f: A -> seq<B>, s: seq<A>, t: seq<A>)
    requires multiset(s) == multiset(t)
    ensures multiset(FlatMap(f, s)) == multiset(FlatMap(f, t))
    decreases |s|
  {
    EmptyReordering(s, t);
    if s != [] {
      var before, after := FindFirstRow(s, t);
      FlatMapReordered(f, s[1..], before + after);
      FlatMapAppend(f, before, [s[0]] + after);
      FlatMapAppend(f, before, after);
      assert ([s[0]] + after)[1..] == after;
    }
  }

  lemma {:induction false} MapIsFlatMap<A, B>(f: A -> B, g: A -> seq<B>, s: seq<A>)
    requires forall x :: g(x) == [f(x)]
    ensures Map(f, s) == FlatMap(g, s)
  {
    if s != [] {
      MapIsFlatMap(f, g, s[1..]);
    }
  }

  lemma MapReordered<A, B>(f: A -> B, s: seq<A>, t: seq<A>)
    requires multiset(s) == multiset(t)
    ensures multiset(Map(f, s)) == multiset(Map(f, t))
  {
    var g := x => [f(x)];
    MapIsFlatMap(f, g, s);
    MapIsFlatMap(f, g, t);
    FlatMapReordered(g, s, t);
  }

  lemma {:induction false} FilterSame<T(!new)>(p: T -> bool, q: T -> bool, s: seq<T>)
    requires forall x :: x in s ==> p(x) == q(x)
    ensures Filter(p, s) == Filter(q, s)
  {
    if s != [] {
      FilterSame(p, q, s[1..]);
      assert s[0] in s;
    }
  }

  lemma {:induction false} FilterMultiplicity<T(!new)>(keep: T -> bool, s: seq<T>, x: T)
    ensures multiset(Filter(keep, s))[x] == if keep(x) then multiset(s)[x] else 0
  {
    if s != [] {
      FilterMultiplicity(keep, s[1..], x);
      assert s == [s[0]] + s[1..];
    }
  }

  lemma FilterReordered<T(!new)>(keep: T -> bool, s: seq<T>, t: seq<T>)
    requires multiset(s) == multiset(t)
    ensures multiset(Filter(keep, s)) == multiset(Filter(keep, t))
  {
    forall x: T ensures multiset(Filter(keep, s))[x] == multiset(Filter(keep, t))[x] {
      FilterMultiplicity(keep, s, x);
      FilterMultiplicity(keep, t, x);
    }
  }

  lemma {:induction false} SumReordered<T>(value: T -> real, s: seq<T>, t: seq<T>)
    requires multiset(s) == multiset(t)
    ensures Sum(value, s) == Sum(value, t)
    decreases |s|
  {
    EmptyReordering(s, t);
    if s != [] {
      var before, after := FindFirstRow(s, t);
      SumReordered(value, s[1..], before + after);
      SumAppend(value, before, [s[0]] + after);
      SumAppend(value, before, after);
      assert ([s[0]] + after)[1..] == after;
    }
  }

  // ----- Row updates -----

  function UpdateWhere<T>(p: T -> bool, f: T -> T, s: seq<T>): (r: seq<T>)
    ensures |r| == |s|
    ensures forall i :: 0 <= i < |s| ==> r[i] == if p(s[i]) then f(s[i]) else s[i]
  {
    if s == [] then [] else [if p(s[0]) then f(s[0]) else s[0]] + UpdateWhere(p, f, s[1..])
  }

  lemma {:induction false} FilterUpdate<T(!new)>(keep: T -> bool, p: T -> bool, f: T -> T, s: seq<T>)
    requires forall x :: x in s && p(x) ==> keep(f(x)) == keep(x)
    ensures Filter(keep, UpdateWhere(p, f, s)) == UpdateWhere(p, f, Filter(keep, s))
  {
    if s == [] {
    } else {
      FilterUpdate(keep, p, f, s[1..]);
      assert s[0] in s;
      var t := UpdateWhere(p, f, s);
      assert t[1..] == UpdateWhere(p, f, s[1..]);
      if keep(s[0]) {
        assert ([s[0]] + Filter(keep, s[1..]))[1..] == Filter(keep, s[1..]);
      }
    }
  }

  lemma {:induction false} UpdateNone<T>(p: T -> bool, f: T -> T, s: seq<T>)
    requires forall x :: x in s ==> !p(x)
    ensures UpdateWhere(p, f, s) == s
  {
    if s == [] {
    } else {
      UpdateNone(p, f, s[1..]);
      assert s == [s[0]] + s[1..];
    }
  }

  lemma FiltersCommute<T(!new)>(p: T -> bool, q: T -> bool, s: seq<T>)
    ensures Filter(p, Filter(q, s)) == Filter(q, Filter(p, s))
  {
    var both := x => p(x) && q(x);
    FilterTwice(p, q, both, s);
    FilterTwice(q, p, both, s);
  }

  // ----- Unique keys -----

  ghost predicate UniqueBy<T(!new)>(key: T -> nat, s: seq<T>) {
    forall i, j :: 0 <= i < j < |s| ==> key(s[i]) != key(s[j])
  }

  lemma UniqueMember<T(!new)>(key: T -> nat, s: seq<T>, x: T, y: T)
    requires UniqueBy(key, s) && x in s && y in s && key(x) == key(y)
    ensures x == y
  {
    var i :| 0 <= i < |s| && s[i] == x;
    var j :| 0 <= j < |s| && s[j] == y;
  }

  lemma {:induction false} FilterKeepsUnique<T(!new)>(key: T -> nat, keep: T -> bool, s: seq<T>)
    requires UniqueBy(key, s)
    ensures UniqueBy(key, Filter(keep, s))
  {
    if s == [] {
    } else {
      FilterKeepsUnique(key, keep, s[1..]);
      var rest := Filter(keep, s[1..]);
      forall k | 0 <= k < |rest| ensures key(rest[k]) != key(s[0]) {
        assert rest[k] in s[1..];
      }
    }
  }

  function Keys<T(!new)>(key: T -> nat, s: seq<T>): (r: set<nat>)
    ensures forall x :: x in s ==> key(x) in r
    ensures forall n :: n in r ==> exists x :: x in s && key(x) == n
  {
    if s == [] then {} else {key(s[0])} + Keys(key, s[1..])
  }

  lemma FirstKeyIsNew<T(!new)>(key: T -> nat, s: seq<T>)
    requires UniqueBy(key, s) && s != []
    ensures key(s[0]) !in Keys(key, s[1..])
  {
    forall x | x in s[1..] ensures key(x) != key(s[0]) {
      var k :| 0 <= k < |s[1..]| && s[1..][k] == x;
      assert s[k + 1] == x;
    }
  }

  lemma {:induction false} UniqueKeysCount<T(!new)>(key: T -> nat, s: seq<T>)
    requires UniqueBy(key, s)
    ensures |Keys(key, s)| == |s|
  {
    if s == [] {
    } else {
      assert UniqueBy(key, s[1..]);
      UniqueKeysCount(key, s[1..]);
      FirstKeyIsNew(key, s);
    }
  }

  lemma SubsetOfSameSize<T>(a: set<T>, b: set<T>)
    requires a <= b && |a| == |b|
    ensures a == b
  {
    assert |b - a| == |b| - |a|;
  }
}
