/** Greedy nearest-deadline-first allocation of a monthly pool across goal lines. */
module Allocation {
  import opened Decimals
  import opened Conversion
  import S = Sequences

  /** `goalId` stands for the id's rank in the order localeCompare gives to ids. */
  datatype CountedLine = CountedLine(
    goalId: int,
    name: string,
    goalCurrency: Currency,
    needInGoalCurrency: real,
    need: int,
    deadline: Option<int>)

  datatype AllocationLine = AllocationLine(goalId: int, name: string, amount: int, need: int, coveredFully: bool)

  function Min(x: int, y: int): int {
    if x <= y then x else y
  }

  /** The sort's comparator. Two missing deadlines subtract infinity from infinity;
      the comparator then returns NaN, which the sort reads as 0. */
  function Compare(a: CountedLine, b: CountedLine): int {
    if a.deadline.None? && b.deadline.None? then 0
    else if a.deadline.None? then 1
    else if b.deadline.None? then -1
    else if a.deadline != b.deadline then a.deadline.value - b.deadline.value
    else if a.need != b.need then a.need - b.need
    else a.goalId - b.goalId
  }

  predicate Leq(a: CountedLine, b: CountedLine) {
    Compare(a, b) <= 0
  }

  ghost predicate Sorted(s: seq<CountedLine>) {
    forall i, j :: 0 <= i < j < |s| ==> Leq(s[i], s[j])
  }

  /** The lines without a deadline, in order. */
  function Undated(s: seq<CountedLine>): seq<CountedLine> {
    if s == [] then [] else (if s[0].deadline.None? then [s[0]] else []) + Undated(s[1..])
  }

  ghost predicate DistinctIds(s: seq<CountedLine>) {
    forall i, j :: 0 <= i < j < |s| ==> s[i].goalId != s[j].goalId
  }

  // ----- The stable sort -----

  /** Puts x before the first line that is not strictly smaller, so an earlier equal line stays earlier. */
  function Insert(x: CountedLine, s: seq<CountedLine>): seq<CountedLine> {
    if s == [] || Leq(x, s[0]) then [x] + s else [s[0]] + Insert(x, s[1..])
  }

  function SortLines(s: seq<CountedLine>): seq<CountedLine> {
    if s == [] then [] else Insert(s[0], SortLines(s[1..]))
  }

  lemma {:induction false} InsertKeepsLines(x: CountedLine, s: seq<CountedLine>)
    ensures multiset(Insert(x, s)) == multiset([x]) + multiset(s)
  {
    if s == [] || Leq(x, s[0]) {
    } else {
      InsertKeepsLines(x, s[1..]);
      assert s == [s[0]] + s[1..];
    }
  }

  lemma {:induction false} InsertKeepsSorted(x: CountedLine, s: seq<CountedLine>)
    requires Sorted(s)
    ensures Sorted(Insert(x, s))
  {
    if s == [] {
    } else if Leq(x, s[0]) {
      assert forall j :: 0 <= j < |s| ==> Leq(x, s[j]);
    } else {
      var t := Insert(x, s[1..]);
      InsertKeepsSorted(x, s[1..]);
      InsertKeepsLines(x, s[1..]);
      forall j | 0 <= j < |t| ensures Leq(s[0], t[j]) {
        assert t[j] in multiset([x]) + multiset(s[1..]);
      }
    }
  }

  lemma UndatedCons(x: CountedLine, s: seq<CountedLine>)
    ensures Undated([x] + s) == if x.deadline.None? then [x] + Undated(s) else Undated(s)
  {
    assert ([x] + s)[1..] == s;
  }

  lemma {:induction false} InsertUndated(x: CountedLine, s: seq<CountedLine>)
    requires Sorted(s)
    ensures Undated(Insert(x, s)) == Undated([x] + s)
  {
    UndatedCons(x, s);
    if s != [] && !Leq(x, s[0]) {
      InsertUndated(x, s[1..]);
      UndatedCons(x, s[1..]);
      UndatedCons(s[0], Insert(x, s[1..]));
    }
  }

  lemma {:induction false} SortLinesSorts(s: seq<CountedLine>)
    ensures Sorted(SortLines(s))
  {
    if s == [] {
    } else {
      SortLinesSorts(s[1..]);
      InsertKeepsSorted(s[0], SortLines(s[1..]));
    }
  }

  lemma {:induction false} SortLinesKeepsLines(s: seq<CountedLine>)
    ensures multiset(SortLines(s)) == multiset(s)
  {
    if s == [] {
    } else {
      SortLinesKeepsLines(s[1..]);
      InsertKeepsLines(s[0], SortLines(s[1..]));
      assert s == [s[0]] + s[1..];
    }
  }

  lemma {:induction false} SortLinesIsStable(s: seq<CountedLine>)
    ensures Undated(SortLines(s)) == Undated(s)
  {
    if s == [] {
    } else {
      SortLinesIsStable(s[1..]);
      SortLinesSorts(s[1..]);
      InsertUndated(s[0], SortLines(s[1..]));
      UndatedSplit([s[0]], s[1..]);
      assert s == [s[0]] + s[1..];
    }
  }

  lemma SortLinesIsAStableSort(s: seq<CountedLine>)
    ensures Sorted(SortLines(s))
    ensures multiset(SortLines(s)) == multiset(s)
    ensures Undated(SortLines(s)) == Undated(s)
  {
    SortLinesSorts(s);
    SortLinesKeepsLines(s);
    SortLinesIsStable(s);
  }

  /** The order in plain words: dated before undated, nearest deadline first, then smaller need, then smaller id. */
  lemma NearestDeadlineFirst(s: seq<CountedLine>, i: nat, j: nat)
    requires i < j < |SortLines(s)|
    ensures var a, b := SortLines(s)[i], SortLines(s)[j];
            && (a.deadline.None? ==> b.deadline.None?)
            && (b.deadline.Some? ==>
                  a.deadline.value < b.deadline.value
                  || (a.deadline == b.deadline && (a.need < b.need || (a.need == b.need && a.goalId <= b.goalId))))
  {
    SortLinesIsAStableSort(s);
    assert Leq(SortLines(s)[i], SortLines(s)[j]);
  }

  lemma {:induction false} UndatedSplit(s: seq<CountedLine>, t: seq<CountedLine>)
    ensures Undated(s + t) == Undated(s) + Undated(t)
  {
    if s == [] {
      assert s + t == t;
    } else {
      UndatedSplit(s[1..], t);
      assert (s + t)[1..] == s[1..] + t;
      S.AppendAssociative(if s[0].deadline.None? then [s[0]] else [], Undated(s[1..]), Undated(t));
    }
  }

  /** Whatever algorithm the runtime uses: with distinct ids, a sorted rearrangement that keeps
      the undated lines in order is unique. */
  lemma {:induction false} StableSortIsUnique(t: seq<CountedLine>, u: seq<CountedLine>)
    requires Sorted(t) && Sorted(u) && multiset(t) == multiset(u)
    requires DistinctIds(t) && Undated(t) == Undated(u)
    ensures t == u
  {
    SameLength(t, u);
    if t == [] {
    } else {
      FirstsAgree(t, u);
      if t[0].deadline.None? {
        UndatedFirst(t);
        UndatedFirst(u);
      } else {
        TailMultiset(t);
        TailMultiset(u);
        DatedTail(t);
        DatedTail(u);
        assert DistinctIds(t[1..]);
        StableSortIsUnique(t[1..], u[1..]);
        assert t == [t[0]] + t[1..] && u == [u[0]] + u[1..];
      }
    }
  }

  lemma DatedTail(s: seq<CountedLine>)
    requires Sorted(s) && |s| > 0 && s[0].deadline.Some?
    ensures Sorted(s[1..]) && Undated(s[1..]) == Undated(s)
  {
    assert Undated(s) == [] + Undated(s[1..]);
  }

  lemma FirstsAgree(t: seq<CountedLine>, u: seq<CountedLine>)
    requires Sorted(t) && Sorted(u) && multiset(t) == multiset(u) && |t| == |u| > 0 && DistinctIds(t)
    ensures if t[0].deadline.None? then u[0].deadline.None? else t[0] == u[0]
  {
    assert t[0] in multiset(u) && u[0] in multiset(t);
    var i :| 0 <= i < |u| && u[i] == t[0];
    var j :| 0 <= j < |t| && t[j] == u[0];
    LeqReflexive(t[0]);
    LeqReflexive(u[0]);
    assert Leq(u[0], t[0]) && Leq(t[0], u[0]);
    if t[0].deadline.Some? {
      assert t[0].goalId == t[j].goalId;
    }
  }

  lemma UndatedFirst(s: seq<CountedLine>)
    requires Sorted(s) && |s| > 0 && s[0].deadline.None?
    ensures Undated(s) == s
  {
    forall k | 0 <= k < |s| ensures s[k].deadline.None? {
      LeqReflexive(s[0]);
      assert Leq(s[0], s[k]);
    }
    AllUndated(s);
  }

  lemma LeqReflexive(a: CountedLine)
    ensures Leq(a, a)
  {
  }

  lemma SameLength<T>(t: seq<T>, u: seq<T>)
    requires multiset(t) == multiset(u)
    ensures |t| == |u|
  {
    assert |multiset(t)| == |t| && |multiset(u)| == |u|;
  }

  lemma TailMultiset<T>(s: seq<T>)
    requires |s| > 0
    ensures multiset(s[1..]) == multiset(s) - multiset([s[0]])
  {
    assert s == [s[0]] + s[1..];
  }

  lemma {:induction false} AllUndated(s: seq<CountedLine>)
    requires forall k :: 0 <= k < |s| ==> s[k].deadline.None?
    ensures Undated(s) == s
  {
    if s == [] {
    } else {
      AllUndated(s[1..]);
      assert s == [s[0]] + s[1..];
    }
  }

  // ----- Handing out the pool -----

  /** What is left of the pool after the lines of s, each taking the smaller of its need and the rest. */
  function PoolLeft(pool: int, s: seq<CountedLine>): int {
    if s == [] then pool
    else
      var left := PoolLeft(pool, s[..|s| - 1]);
      left - Min(s[|s| - 1].need, left)
  }

  function GiveTo(line: CountedLine, left: int): AllocationLine {
    var give := Min(line.need, left);
    AllocationLine(line.goalId, line.name, give, line.need, give == line.need)
  }

  function Distribute(pool: int, s: seq<CountedLine>): (r: seq<AllocationLine>)
    ensures |r| == |s|
  {
    if s == [] then []
    else Distribute(pool, s[..|s| - 1]) + [GiveTo(s[|s| - 1], PoolLeft(pool, s[..|s| - 1]))]
  }

  function AllocationOf(pool: int, lines: seq<CountedLine>): seq<AllocationLine> {
    Distribute(pool, SortLines(lines))
  }

  method Allocate(pool: int, lines: seq<CountedLine>) returns (result: seq<AllocationLine>)
    ensures result == AllocationOf(pool, lines)
  {
    var sorted := SortLines(lines);
    var poolLeft := pool;
    result := [];
    for i := 0 to |sorted|
      invariant result == Distribute(pool, sorted[..i])
      invariant poolLeft == PoolLeft(pool, sorted[..i])
    {
      var line := sorted[i];
      var give := Min(line.need, poolLeft);
      assert sorted[..i + 1][..i] == sorted[..i];
      poolLeft := poolLeft - give;
      result := result + [AllocationLine(line.goalId, line.name, give, line.need, give == line.need)];
    }
    assert sorted[..|sorted|] == sorted;
  }

  // ----- Sums -----

  function SumNeeds(s: seq<CountedLine>): int {
    if s == [] then 0 else SumNeeds(s[..|s| - 1]) + s[|s| - 1].need
  }

  function SumAmounts(r: seq<AllocationLine>): int {
    if r == [] then 0 else SumAmounts(r[..|r| - 1]) + r[|r| - 1].amount
  }

  ghost predicate NeedsNonNegative(s: seq<CountedLine>) {
    forall i :: 0 <= i < |s| ==> s[i].need >= 0
  }

  lemma {:induction false} DistributePrefix(pool: int, s: seq<CountedLine>, k: nat)
    requires k <= |s|
    ensures Distribute(pool, s)[..k] == Distribute(pool, s[..k])
  {
    if k < |s| {
      DistributePrefix(pool, s[..|s| - 1], k);
      assert s[..|s| - 1][..k] == s[..k];
    } else {
      assert s[..k] == s;
    }
  }

  lemma DistributeAt(pool: int, s: seq<CountedLine>, i: nat)
    requires i < |s|
    ensures Distribute(pool, s)[i] == GiveTo(s[i], PoolLeft(pool, s[..i]))
  {
    DistributePrefix(pool, s, i + 1);
    assert Distribute(pool, s)[i] == Distribute(pool, s)[..i + 1][i];
    assert s[..i + 1][..i] == s[..i];
  }

  lemma {:induction false} PoolLeftValue(pool: int, s: seq<CountedLine>)
    requires pool >= 0 && NeedsNonNegative(s)
    ensures SumNeeds(s) >= 0
    ensures PoolLeft(pool, s) == pool - Min(pool, SumNeeds(s))
    ensures SumAmounts(Distribute(pool, s)) == Min(pool, SumNeeds(s))
  {
    if s == [] {
    } else {
      var init := s[..|s| - 1];
      PoolLeftValue(pool, init);
      var r := Distribute(pool, s);
      assert r[..|r| - 1] == Distribute(pool, init);
    }
  }

  lemma SumNeedsSingle(x: CountedLine)
    ensures SumNeeds([x]) == x.need
  {
    assert [x][..0] == [];
  }

  lemma {:induction false} SumNeedsInsert(x: CountedLine, s: seq<CountedLine>)
    ensures SumNeeds(Insert(x, s)) == x.need + SumNeeds(s)
  {
    SumNeedsSingle(x);
    if s == [] || Leq(x, s[0]) {
      SumNeedsSplit([x], s);
    } else {
      SumNeedsInsert(x, s[1..]);
      SumNeedsSplit([s[0]], Insert(x, s[1..]));
      SumNeedsSplit([s[0]], s[1..]);
      assert s == [s[0]] + s[1..];
    }
  }

  lemma {:induction false} SumNeedsSorted(s: seq<CountedLine>)
    ensures SumNeeds(SortLines(s)) == SumNeeds(s)
  {
    if s == [] {
    } else {
      SumNeedsSorted(s[1..]);
      SumNeedsInsert(s[0], SortLines(s[1..]));
      SumNeedsSingle(s[0]);
      SumNeedsSplit([s[0]], s[1..]);
      assert s == [s[0]] + s[1..];
    }
  }

  lemma {:induction false} SumNeedsSplit(s: seq<CountedLine>, t: seq<CountedLine>)
    ensures SumNeeds(s + t) == SumNeeds(s) + SumNeeds(t)
  {
    if t == [] {
      assert s + t == s;
    } else {
      SumNeedsSplit(s, t[..|t| - 1]);
      assert (s + t)[..|s + t| - 1] == s + t[..|t| - 1];
    }
  }

  // ----- What the allocation achieves -----

  ghost predicate AnswersLine(r: AllocationLine, line: CountedLine) {
    && r.goalId == line.goalId && r.name == line.name && r.need == line.need
    && 0 <= r.amount <= r.need
    && (r.coveredFully <==> r.amount == r.need)
  }

  lemma DistributeAnswersLine(pool: int, s: seq<CountedLine>, i: nat)
    requires pool >= 0 && NeedsNonNegative(s) && i < |s|
    ensures AnswersLine(Distribute(pool, s)[i], s[i])
  {
    DistributeAt(pool, s, i);
    PoolLeftValue(pool, s[..i]);
  }

  lemma AllocationTotal(pool: int, lines: seq<CountedLine>)
    requires pool >= 0 && NeedsNonNegative(lines)
    ensures SumAmounts(AllocationOf(pool, lines)) == Min(pool, SumNeeds(lines))
  {
    SortLinesKeepsLines(lines);
    NonNegativeOfMultiset(lines, SortLines(lines));
    SumNeedsSorted(lines);
    PoolLeftValue(pool, SortLines(lines));
  }

  /** Every line once, in sorted order, with its own need; the total handed out is exactly min(pool, total need). */
  lemma AllocationEmitsEveryLine(pool: int, lines: seq<CountedLine>)
    requires pool >= 0 && NeedsNonNegative(lines)
    ensures var sorted, r := SortLines(lines), AllocationOf(pool, lines);
            && multiset(sorted) == multiset(lines) && Sorted(sorted) && |r| == |sorted|
            && (forall i :: 0 <= i < |r| ==> AnswersLine(r[i], sorted[i]))
            && SumAmounts(r) == Min(pool, SumNeeds(lines))
  {
    var sorted := SortLines(lines);
    SortLinesIsAStableSort(lines);
    NonNegativeOfMultiset(lines, sorted);
    AllocationTotal(pool, lines);
    forall i | 0 <= i < |sorted| ensures AnswersLine(Distribute(pool, sorted)[i], sorted[i]) {
      DistributeAnswersLine(pool, sorted, i);
    }
  }

  lemma NonNegativeOfMultiset(s: seq<CountedLine>, t: seq<CountedLine>)
    requires multiset(s) == multiset(t) && NeedsNonNegative(s)
    ensures NeedsNonNegative(t)
  {
    forall i | 0 <= i < |t| ensures t[i].need >= 0 {
      assert t[i] in multiset(s);
    }
  }

  /** Full lines, then at most one partial line, then lines that get nothing. */
  lemma {:induction false} AllocationShape(pool: int, s: seq<CountedLine>) returns (k: nat)
    requires pool >= 0 && NeedsNonNegative(s)
    ensures k <= |s|
    ensures forall i :: 0 <= i < k ==> Distribute(pool, s)[i].coveredFully
    ensures forall i :: k < i < |s| ==> Distribute(pool, s)[i].amount == 0
    ensures k < |s| ==> PoolLeft(pool, s) == 0 && !Distribute(pool, s)[k].coveredFully
  {
    if s == [] {
      k := 0;
    } else {
      var init := s[..|s| - 1];
      k := AllocationShape(pool, init);
      PoolLeftValue(pool, init);
      if k == |init| && Distribute(pool, s)[k].coveredFully {
        k := |s|;
      }
    }
  }

  /** Every answer belongs to one of the lines, and stands where that line is sorted to. */
  lemma AnswerHasALine(pool: int, lines: seq<CountedLine>, i: nat) returns (k: nat)
    requires pool >= 0 && NeedsNonNegative(lines) && i < |AllocationOf(pool, lines)|
    ensures i < |SortLines(lines)| && k < |lines| && SortLines(lines)[i] == lines[k]
    ensures AnswersLine(AllocationOf(pool, lines)[i], lines[k])
  {
    AllocationEmitsEveryLine(pool, lines);
    var line := SortLines(lines)[i];
    assert line in multiset(lines);
    k :| 0 <= k < |lines| && lines[k] == line;
  }

  lemma LineHasAnAnswer(pool: int, lines: seq<CountedLine>, k: nat) returns (i: nat)
    requires pool >= 0 && NeedsNonNegative(lines) && k < |lines|
    ensures i < |AllocationOf(pool, lines)| && AnswersLine(AllocationOf(pool, lines)[i], lines[k])
  {
    AllocationEmitsEveryLine(pool, lines);
    assert lines[k] in multiset(SortLines(lines));
    i :| 0 <= i < |SortLines(lines)| && SortLines(lines)[i] == lines[k];
  }

  /** Nothing goes to a line while one sorted before it is not covered in full. */
  lemma EarlierIsCoveredFirst(pool: int, lines: seq<CountedLine>, i: nat, j: nat)
    requires pool >= 0 && NeedsNonNegative(lines) && i < j < |AllocationOf(pool, lines)|
    ensures AllocationOf(pool, lines)[j].amount > 0 ==> AllocationOf(pool, lines)[i].coveredFully
  {
    SortLinesKeepsLines(lines);
    NonNegativeOfMultiset(lines, SortLines(lines));
    var k := AllocationShape(pool, SortLines(lines));
  }

  // ----- Optimality against every feasible allocation, fractional ones included -----

  ghost function Sum(x: seq<real>): real {
    if x == [] then 0.0 else Sum(x[..|x| - 1]) + x[|x| - 1]
  }

  /** Amounts within the needs and, together, within the pool. */
  ghost predicate Feasible(x: seq<real>, pool: int, s: seq<CountedLine>) {
    && |x| == |s|
    && (forall i :: 0 <= i < |x| ==> 0.0 <= x[i] <= s[i].need as real)
    && Sum(x) <= pool as real
  }

  lemma {:induction false} SumPrefix(x: seq<real>, k: nat)
    requires k <= |x| && forall i :: 0 <= i < |x| ==> x[i] >= 0.0
    ensures 0.0 <= Sum(x[..k]) <= Sum(x)
  {
    if |x| == 0 {
    } else if k < |x| {
      SumPrefix(x[..|x| - 1], k);
      assert x[..|x| - 1][..k] == x[..k];
    } else {
      SumPrefix(x[..|x| - 1], |x| - 1);
      assert x[..k] == x;
    }
  }

  lemma {:induction false} SumWithinNeeds(x: seq<real>, s: seq<CountedLine>)
    requires |x| == |s| && forall i :: 0 <= i < |x| ==> x[i] <= s[i].need as real
    ensures Sum(x) <= SumNeeds(s) as real
  {
    if x == [] {
    } else {
      SumWithinNeeds(x[..|x| - 1], s[..|s| - 1]);
    }
  }

  /** For every prefix of the order, no feasible allocation gives that prefix more. */
  lemma EveryPrefixGetsTheMost(pool: int, s: seq<CountedLine>, x: seq<real>, k: nat)
    requires pool >= 0 && NeedsNonNegative(s) && Feasible(x, pool, s) && k <= |s|
    ensures Sum(x[..k]) <= SumAmounts(Distribute(pool, s)[..k]) as real
  {
    DistributePrefix(pool, s, k);
    PoolLeftValue(pool, s[..k]);
    SumPrefix(x, k);
    SumWithinNeeds(x[..k], s[..k]);
  }

  ghost function Covered(x: seq<real>, s: seq<CountedLine>): nat
    requires |x| == |s|
  {
    if x == [] then 0
    else Covered(x[..|x| - 1], s[..|s| - 1]) + if x[|x| - 1] >= s[|s| - 1].need as real then 1 else 0
  }

  function CountFull(r: seq<AllocationLine>): nat {
    if r == [] then 0 else CountFull(r[..|r| - 1]) + if r[|r| - 1].coveredFully then 1 else 0
  }

  ghost predicate NeedsAscend(s: seq<CountedLine>) {
    forall i, j :: 0 <= i < j < |s| ==> s[i].need <= s[j].need
  }

  /** The exchange argument: covering any c lines costs at least as much as covering the c smallest. */
  lemma {:induction false} SmallestAreCheapest(x: seq<real>, s: seq<CountedLine>)
    requires |x| == |s| && NeedsAscend(s)
    requires forall i :: 0 <= i < |x| ==> x[i] >= 0.0
    ensures Covered(x, s) <= |s|
    ensures SumNeeds(s[..Covered(x, s)]) as real <= Sum(x)
  {
    if x == [] {
    } else {
      var init := s[..|s| - 1];
      SmallestAreCheapest(x[..|x| - 1], init);
      var c, d := Covered(x[..|x| - 1], init), Covered(x, s);
      assert init[..c] == s[..c];
      if d == c + 1 {
        assert s[..d][..c] == s[..c];
      }
    }
  }

  lemma {:induction false} AffordablePrefixIsCovered(pool: int, s: seq<CountedLine>, c: nat)
    requires pool >= 0 && NeedsNonNegative(s) && c <= |s| && SumNeeds(s[..c]) <= pool
    ensures CountFull(Distribute(pool, s)) >= c
  {
    if c == |s| {
      assert s[..c] == s;
      AffordableLinesAreCovered(pool, s);
    } else {
      var init, last := s[..|s| - 1], s[|s| - 1];
      assert s == init + [last] && init[..c] == s[..c];
      OneMoreLineCovers(pool, init, last);
      AffordablePrefixIsCovered(pool, init, c);
    }
  }

  lemma {:induction false} AffordableLinesAreCovered(pool: int, s: seq<CountedLine>)
    requires pool >= 0 && NeedsNonNegative(s) && SumNeeds(s) <= pool
    ensures CountFull(Distribute(pool, s)) == |s|
  {
    if s != [] {
      var init, last := s[..|s| - 1], s[|s| - 1];
      assert s == init + [last];
      SumNeedsOneMore(init, last);
      OneMoreLineCovers(pool, init, last);
      AffordableLinesAreCovered(pool, init);
    }
  }

  lemma SumNeedsOneMore(init: seq<CountedLine>, last: CountedLine)
    ensures SumNeeds(init + [last]) == SumNeeds(init) + last.need
  {
    assert (init + [last])[..|init|] == init;
  }

  /** A further line takes no cover away, and is covered itself if all needs together fit the pool. */
  lemma OneMoreLineCovers(pool: int, init: seq<CountedLine>, last: CountedLine)
    requires pool >= 0 && NeedsNonNegative(init)
    ensures var before, after := CountFull(Distribute(pool, init)), CountFull(Distribute(pool, init + [last]));
            after >= before && (SumNeeds(init) + last.need <= pool && last.need >= 0 ==> after == before + 1)
  {
    DistributeOneMore(pool, init, last);
    CountFullOneMore(Distribute(pool, init), GiveTo(last, PoolLeft(pool, init)));
    PoolLeftValue(pool, init);
  }

  lemma CountFullOneMore(r: seq<AllocationLine>, x: AllocationLine)
    ensures CountFull(r + [x]) == CountFull(r) + if x.coveredFully then 1 else 0
  {
    assert (r + [x])[..|r|] == r;
  }

  lemma AscendingNeedsCoverTheMost(pool: int, s: seq<CountedLine>, x: seq<real>)
    requires pool >= 0 && NeedsNonNegative(s) && NeedsAscend(s) && Feasible(x, pool, s)
    ensures Covered(x, s) <= CountFull(Distribute(pool, s))
  {
    SmallestAreCheapest(x, s);
    AffordablePrefixIsCovered(pool, s, Covered(x, s));
  }

  lemma {:induction false} PoolLeftAppend(pool: int, s: seq<CountedLine>, t: seq<CountedLine>)
    ensures PoolLeft(pool, s + t) == PoolLeft(PoolLeft(pool, s), t)
  {
    if t == [] {
      assert s + t == s;
    } else {
      PoolLeftAppend(pool, s, t[..|t| - 1]);
      assert (s + t)[..|s + t| - 1] == s + t[..|t| - 1];
    }
  }

  lemma {:induction false} DistributeAppend(pool: int, s: seq<CountedLine>, t: seq<CountedLine>)
    ensures Distribute(pool, s + t) == Distribute(pool, s) + Distribute(PoolLeft(pool, s), t)
  {
    if t == [] {
      assert s + t == s;
    } else {
      var init, last := t[..|t| - 1], t[|t| - 1];
      DistributeAppend(pool, s, init);
      assert t == init + [last] && s + t == (s + init) + [last];
      DistributeBoth(pool, s, init, last);
    }
  }

  lemma DistributeBoth(pool: int, s: seq<CountedLine>, init: seq<CountedLine>, last: CountedLine)
    requires Distribute(pool, s + init) == Distribute(pool, s) + Distribute(PoolLeft(pool, s), init)
    ensures Distribute(pool, (s + init) + [last]) == Distribute(pool, s) + Distribute(PoolLeft(pool, s), init + [last])
  {
    var left := PoolLeft(pool, s);
    PoolLeftAppend(pool, s, init);
    DistributeOneMore(pool, s + init, last);
    DistributeOneMore(left, init, last);
    S.AppendAssociative(Distribute(pool, s), Distribute(left, init), [GiveTo(last, PoolLeft(left, init))]);
  }

  lemma DistributeOneMore(pool: int, s: seq<CountedLine>, x: CountedLine)
    ensures Distribute(pool, s + [x]) == Distribute(pool, s) + [GiveTo(x, PoolLeft(pool, s))]
  {
    assert (s + [x])[..|s|] == s;
  }

  lemma {:induction false} SumSplit(x: seq<real>, y: seq<real>)
    ensures Sum(x + y) == Sum(x) + Sum(y)
  {
    if y == [] {
      assert x + y == x;
    } else {
      SumSplit(x, y[..|y| - 1]);
      assert (x + y)[..|x + y| - 1] == x + y[..|y| - 1];
    }
  }

  /** Within any one deadline, the allocation fully covers the most goals that any feasible allocation can
      that leaves the earlier lines no worse off. With a = 0 this is the greatest number outright. */
  lemma OneDeadlineCoversTheMost(pool: int, s: seq<CountedLine>, a: nat, b: nat, d: int, x: seq<real>)
    requires pool >= 0 && NeedsNonNegative(s) && Sorted(s) && a <= b <= |s|
    requires forall i :: a <= i < b ==> s[i].deadline == Some(d)
    requires Feasible(x, pool, s) && Sum(x[..a]) >= SumAmounts(Distribute(pool, s)[..a]) as real
    ensures Covered(x[a..b], s[a..b]) <= CountFull(Distribute(pool, s)[a..b])
  {
    SliceIsFeasible(pool, s, a, b, x);
    OneDeadlineAscends(s, a, b, d);
    AscendingNeedsCoverTheMost(PoolLeft(pool, s[..a]), s[a..b], x[a..b]);
    DistributeSlice(pool, s, a, b);
  }

  /** Lines that all share one deadline: no allocation within the pool fully covers more of them. */
  lemma SharedDeadlineCoversTheMost(pool: int, lines: seq<CountedLine>, d: int, x: seq<real>)
    requires pool >= 0 && NeedsNonNegative(lines) && forall line :: line in lines ==> line.deadline == Some(d)
    requires Feasible(x, pool, SortLines(lines))
    ensures Covered(x, SortLines(lines)) <= CountFull(AllocationOf(pool, lines))
  {
    var s := SortLines(lines);
    SortLinesIsAStableSort(lines);
    NonNegativeOfMultiset(lines, s);
    forall i | 0 <= i < |s| ensures s[i].deadline == Some(d) {
      assert s[i] in multiset(lines);
    }
    assert x[0..|s|] == x && s[0..|s|] == s && Distribute(pool, s)[0..|s|] == Distribute(pool, s);
    assert x[..0] == [] && Distribute(pool, s)[..0] == [];
    OneDeadlineCoversTheMost(pool, s, 0, |s|, d, x);
  }

  lemma SliceIsFeasible(pool: int, s: seq<CountedLine>, a: nat, b: nat, x: seq<real>)
    requires pool >= 0 && NeedsNonNegative(s) && a <= b <= |s|
    requires Feasible(x, pool, s) && Sum(x[..a]) >= SumAmounts(Distribute(pool, s)[..a]) as real
    ensures Feasible(x[a..b], PoolLeft(pool, s[..a]), s[a..b])
    ensures PoolLeft(pool, s[..a]) >= 0 && NeedsNonNegative(s[a..b])
  {
    PoolLeftValue(pool, s[..a]);
    DistributePrefix(pool, s, a);
    SumSlice(x, a, b);
  }

  lemma DistributeSlice(pool: int, s: seq<CountedLine>, a: nat, b: nat)
    requires a <= b <= |s|
    ensures Distribute(pool, s)[a..b] == Distribute(PoolLeft(pool, s[..a]), s[a..b])
  {
    DistributePrefix(pool, s, b);
    assert s[..b] == s[..a] + s[a..b];
    DistributeAppend(pool, s[..a], s[a..b]);
    assert Distribute(pool, s)[a..b] == Distribute(pool, s)[..b][a..];
  }

  lemma SumSlice(x: seq<real>, a: nat, b: nat)
    requires a <= b <= |x| && forall i :: 0 <= i < |x| ==> x[i] >= 0.0
    ensures Sum(x[..a]) + Sum(x[a..b]) <= Sum(x)
  {
    SumPrefix(x, b);
    assert x[..b] == x[..a] + x[a..b];
    SumSplit(x[..a], x[a..b]);
  }

  lemma OneDeadlineAscends(s: seq<CountedLine>, a: nat, b: nat, d: int)
    requires Sorted(s) && a <= b <= |s| && forall i :: a <= i < b ==> s[i].deadline == Some(d)
    ensures NeedsAscend(s[a..b])
  {
    forall i, j | 0 <= i < j < b - a ensures s[a..b][i].need <= s[a..b][j].need {
      assert Leq(s[a + i], s[a + j]);
    }
  }

  // ----- Exactly when the most lines are covered -----

  /** For every pool, no allocation within it fully covers more lines. */
  ghost predicate AlwaysCoversTheMost(s: seq<CountedLine>) {
    forall pool, x :: pool >= 0 && Feasible(x, pool, s) ==> Covered(x, s) <= CountFull(Distribute(pool, s))
  }

  /** Apart from lines that need nothing, smaller needs are served first. */
  ghost predicate SmallerNeedsFirst(s: seq<CountedLine>) {
    forall i, j :: 0 <= i < j < |s| && s[j].need > 0 && s[i].need > 0 ==> s[i].need <= s[j].need
  }

  /** The lines that need something, and what x gives them. */
  function Needy(s: seq<CountedLine>): seq<CountedLine> {
    if s == [] then []
    else if s[|s| - 1].need > 0 then Needy(s[..|s| - 1]) + [s[|s| - 1]]
    else Needy(s[..|s| - 1])
  }

  ghost function NeedyShare(x: seq<real>, s: seq<CountedLine>): (y: seq<real>)
    requires |x| == |s|
    ensures |y| == |Needy(s)|
  {
    if s == [] then []
    else if s[|s| - 1].need > 0 then NeedyShare(x[..|x| - 1], s[..|s| - 1]) + [x[|x| - 1]]
    else NeedyShare(x[..|x| - 1], s[..|s| - 1])
  }

  lemma {:induction false} NeedyLines(s: seq<CountedLine>)
    requires SmallerNeedsFirst(s)
    ensures forall line :: line in Needy(s) ==> line in s && line.need > 0
    ensures NeedsAscend(Needy(s)) && NeedsNonNegative(Needy(s)) && |Needy(s)| <= |s|
  {
    if s != [] {
      var init, last := s[..|s| - 1], s[|s| - 1];
      NeedyLines(init);
      forall k | 0 <= k < |Needy(init)| && last.need > 0 ensures Needy(init)[k].need <= last.need {
        assert Needy(init)[k] in init;
      }
    }
  }

  /** Lines that need nothing take nothing and are always covered, so leaving them out shifts the count alike. */
  lemma {:induction false} IdleLinesDistribute(pool: int, s: seq<CountedLine>)
    requires pool >= 0 && NeedsNonNegative(s)
    ensures PoolLeft(pool, Needy(s)) == PoolLeft(pool, s)
    ensures CountFull(Distribute(pool, s)) == |s| - |Needy(s)| + CountFull(Distribute(pool, Needy(s)))
  {
    if s != [] {
      var init, last := s[..|s| - 1], s[|s| - 1];
      IdleLinesDistribute(pool, init);
      PoolLeftValue(pool, init);
      assert s == init + [last];
      OneMoreLine(pool, init, last);
      NeedyOneMore(init, last);
      if last.need > 0 {
        OneMoreLine(pool, Needy(init), last);
      }
    }
  }

  lemma NeedyOneMore(s: seq<CountedLine>, x: CountedLine)
    ensures Needy(s + [x]) == if x.need > 0 then Needy(s) + [x] else Needy(s)
  {
    assert (s + [x])[..|s|] == s;
  }

  lemma OneMoreLine(pool: int, s: seq<CountedLine>, x: CountedLine)
    ensures PoolLeft(pool, s + [x]) == PoolLeft(pool, s) - Min(x.need, PoolLeft(pool, s))
    ensures CountFull(Distribute(pool, s + [x]))
         == CountFull(Distribute(pool, s)) + if GiveTo(x, PoolLeft(pool, s)).coveredFully then 1 else 0
  {
    assert (s + [x])[..|s|] == s;
    DistributeOneMore(pool, s, x);
    CountFullOneMore(Distribute(pool, s), GiveTo(x, PoolLeft(pool, s)));
  }

  lemma CoveredOneMore(x: seq<real>, s: seq<CountedLine>, y: real, line: CountedLine)
    requires |x| == |s|
    ensures Covered(x + [y], s + [line]) == Covered(x, s) + if y >= line.need as real then 1 else 0
    ensures Sum(x + [y]) == Sum(x) + y
  {
    assert (x + [y])[..|x|] == x && (s + [line])[..|s|] == s;
  }

  lemma {:induction false} NeedyShareIsWithinNeed(x: seq<real>, s: seq<CountedLine>)
    requires |x| == |s| && forall i :: 0 <= i < |x| ==> 0.0 <= x[i] <= s[i].need as real
    ensures forall i :: 0 <= i < |Needy(s)| ==> 0.0 <= NeedyShare(x, s)[i] <= Needy(s)[i].need as real
  {
    if s != [] {
      NeedyShareIsWithinNeed(x[..|s| - 1], s[..|s| - 1]);
    }
  }

  lemma {:induction false} IdleLinesCovered(x: seq<real>, s: seq<CountedLine>)
    requires |x| == |s| && NeedsNonNegative(s) && forall i :: 0 <= i < |x| ==> x[i] >= 0.0
    ensures Covered(x, s) == |s| - |Needy(s)| + Covered(NeedyShare(x, s), Needy(s))
    ensures Sum(NeedyShare(x, s)) <= Sum(x)
  {
    if s != [] {
      var n := |s| - 1;
      IdleLinesCovered(x[..n], s[..n]);
      if s[n].need > 0 {
        CoveredOneMore(NeedyShare(x[..n], s[..n]), Needy(s[..n]), x[n], s[n]);
      }
    }
  }

  lemma SmallerNeedsFirstCoverTheMost(s: seq<CountedLine>, pool: int, x: seq<real>)
    requires NeedsNonNegative(s) && SmallerNeedsFirst(s) && pool >= 0 && Feasible(x, pool, s)
    ensures Covered(x, s) <= CountFull(Distribute(pool, s))
  {
    NeedyLines(s);
    IdleLinesDistribute(pool, s);
    IdleLinesCovered(x, s);
    NeedyShareIsWithinNeed(x, s);
    AscendingNeedsCoverTheMost(pool, Needy(s), NeedyShare(x, s));
  }

  /** Everything before line i, and line j in place of the larger line i. */
  function Instead(s: seq<CountedLine>, i: nat, j: nat): (x: seq<real>)
    ensures |x| == |s|
  {
    seq(|s|, k requires 0 <= k < |s| => if k < i || k == j then s[k].need as real else 0.0)
  }

  lemma {:induction false} InsteadCosts(s: seq<CountedLine>, i: nat, j: nat, m: nat)
    requires i < j < |s| && m <= |s|
    ensures Sum(Instead(s, i, j)[..m])
         == SumNeeds(s[..if m < i then m else i]) as real + if j < m then s[j].need as real else 0.0
  {
    if m > 0 {
      InsteadCosts(s, i, j, m - 1);
      var x := Instead(s, i, j);
      assert x[..m][..m - 1] == x[..m - 1];
      if m <= i {
        assert s[..m][..m - 1] == s[..m - 1];
      }
    }
  }

  lemma {:induction false} PrefixNeeds(s: seq<CountedLine>, k: nat, m: nat)
    requires NeedsNonNegative(s) && k <= m <= |s|
    ensures 0 <= SumNeeds(s[..k]) <= SumNeeds(s[..m])
    decreases m
  {
    if m > 0 {
      PrefixNeeds(s, if k == m then k - 1 else k, m - 1);
      assert s[..m][..m - 1] == s[..m - 1];
    }
  }

  /** With the pool just enough for everything before line i and for line j, greedy stops at line i. */
  lemma GreedyStopsAt(s: seq<CountedLine>, i: nat, j: nat, pool: int, k: nat)
    requires NeedsNonNegative(s) && i < j < |s| && s[i].need > s[j].need > 0 && i <= k < |s|
    requires pool == SumNeeds(s[..i]) + s[j].need
    ensures Distribute(pool, s)[k].coveredFully ==> s[k].need == 0
  {
    PrefixNeeds(s, 0, i);
    DistributeAt(pool, s, k);
    LeftAfterStop(s, i, j, pool, k);
  }

  lemma LeftAfterStop(s: seq<CountedLine>, i: nat, j: nat, pool: int, k: nat)
    requires NeedsNonNegative(s) && i < j < |s| && s[i].need > s[j].need > 0 && i <= k < |s|
    requires pool == SumNeeds(s[..i]) + s[j].need && pool >= 0
    ensures PoolLeft(pool, s[..k]) == if k == i then s[j].need else 0
  {
    PoolLeftValue(pool, s[..k]);
    if k > i {
      assert s[..i + 1][..i] == s[..i];
      PrefixNeeds(s, i + 1, k);
    }
  }

  lemma {:induction false} CoversMore(x: seq<real>, s: seq<CountedLine>, r: seq<AllocationLine>, j: nat)
    requires |x| == |s| == |r|
    requires forall k :: 0 <= k < |s| && r[k].coveredFully ==> x[k] >= s[k].need as real
    requires j < |s| ==> x[j] >= s[j].need as real && !r[j].coveredFully
    ensures CountFull(r) + (if j < |s| then 1 else 0) <= Covered(x, s)
  {
    if s != [] {
      CoversMore(x[..|s| - 1], s[..|s| - 1], r[..|s| - 1], j);
    }
  }

  /** A larger need served before a smaller one misses the maximum at some pool. */
  lemma {:induction false} LargerNeedFirstCoversFewer(s: seq<CountedLine>, i: nat, j: nat)
    requires NeedsNonNegative(s) && i < j < |s| && s[i].need > s[j].need > 0
    ensures var pool, x := SumNeeds(s[..i]) + s[j].need, Instead(s, i, j);
            pool >= 0 && Feasible(x, pool, s) && Covered(x, s) > CountFull(Distribute(pool, s))
  {
    var pool, x := SumNeeds(s[..i]) + s[j].need, Instead(s, i, j);
    PrefixNeeds(s, 0, i);
    InsteadCosts(s, i, j, |s|);
    assert x[..|s|] == x;
    forall k | 0 <= k < |s| && Distribute(pool, s)[k].coveredFully ensures x[k] >= s[k].need as real {
      if k >= i {
        GreedyStopsAt(s, i, j, pool, k);
      }
    }
    GreedyStopsAt(s, i, j, pool, j);
    CoversMore(x, s, Distribute(pool, s), j);
  }

  /** For any lines, whatever their deadlines: the allocation covers the most lines for every pool
      exactly when its order serves smaller needs first. */
  lemma CoversTheMostIff(lines: seq<CountedLine>)
    requires NeedsNonNegative(lines)
    ensures AlwaysCoversTheMost(SortLines(lines)) <==> SmallerNeedsFirst(SortLines(lines))
  {
    var s := SortLines(lines);
    SortLinesIsAStableSort(lines);
    NonNegativeOfMultiset(lines, s);
    if SmallerNeedsFirst(s) {
      forall pool, x | pool >= 0 && Feasible(x, pool, s) ensures Covered(x, s) <= CountFull(Distribute(pool, s)) {
        SmallerNeedsFirstCoverTheMost(s, pool, x);
      }
    } else {
      var i, j :| 0 <= i < j < |s| && s[j].need > 0 && s[i].need > 0 && s[i].need > s[j].need;
      LargerNeedFirstCoversFewer(s, i, j);
    }
  }

  /** Lines without a deadline keep their input order, so for them it is that order which decides. */
  lemma UndatedCoverTheMostIff(lines: seq<CountedLine>)
    requires NeedsNonNegative(lines) && Undated(lines) == lines
    ensures AlwaysCoversTheMost(SortLines(lines)) <==> SmallerNeedsFirst(lines)
  {
    CoversTheMostIff(lines);
    SortLinesIsAStableSort(lines);
    SameLength(SortLines(lines), lines);
    UndatedKeepsAll(SortLines(lines));
  }

  lemma {:induction false} UndatedKeepsAll(s: seq<CountedLine>)
    ensures |Undated(s)| <= |s|
    ensures |Undated(s)| == |s| ==> Undated(s) == s
  {
    if s != [] {
      UndatedKeepsAll(s[1..]);
      assert s == [s[0]] + s[1..];
    }
  }

  // ----- Independence of the input order -----

  ghost predicate OrderIndependent(pool: int, lines: seq<CountedLine>) {
    forall other :: multiset(other) == multiset(lines) ==> AllocationOf(pool, other) == AllocationOf(pool, lines)
  }

  lemma {:induction false} UndatedMultiplicity(s: seq<CountedLine>, x: CountedLine)
    ensures multiset(Undated(s))[x] == if x.deadline.None? then multiset(s)[x] else 0
  {
    if s == [] {
    } else {
      UndatedMultiplicity(s[1..], x);
      assert s == [s[0]] + s[1..];
    }
  }

  lemma UndatedOfMultiset(s: seq<CountedLine>, t: seq<CountedLine>)
    requires multiset(s) == multiset(t)
    ensures multiset(Undated(s)) == multiset(Undated(t))
  {
    forall x: CountedLine ensures multiset(Undated(s))[x] == multiset(Undated(t))[x] {
      UndatedMultiplicity(s, x);
      UndatedMultiplicity(t, x);
    }
  }

  lemma DistinctOfMultiset(s: seq<CountedLine>, t: seq<CountedLine>)
    requires multiset(s) == multiset(t) && DistinctIds(s)
    ensures DistinctIds(t)
  {
    forall i, j | 0 <= i < j < |t| ensures t[i].goalId != t[j].goalId {
      if t[i].goalId == t[j].goalId {
        assert t[i] in multiset(s) && t[j] in multiset(s);
        assert t[i] == t[j];
        assert t == t[..i] + [t[i]] + t[i + 1..j] + [t[j]] + t[j + 1..];
        assert multiset(t)[t[i]] >= 2;
        OccursOnce(s, t[i]);
        assert false;
      }
    }
  }

  lemma {:induction false} OccursOnce(s: seq<CountedLine>, x: CountedLine)
    requires DistinctIds(s)
    ensures multiset(s)[x] <= 1
  {
    if s == [] {
    } else {
      assert s == [s[0]] + s[1..];
      OccursOnce(s[1..], x);
      assert forall k :: 0 <= k < |s[1..]| ==> s[1..][k] == s[k + 1];
    }
  }

  lemma FewUndatedIsOrderIndependent(pool: int, lines: seq<CountedLine>, other: seq<CountedLine>)
    requires DistinctIds(lines) && |Undated(lines)| <= 1 && multiset(other) == multiset(lines)
    ensures SortLines(other) == SortLines(lines)
  {
    SortLinesIsAStableSort(lines);
    SortLinesIsAStableSort(other);
    UndatedOfMultiset(lines, other);
    ShortSequencesAgree(Undated(lines), Undated(other));
    DistinctOfMultiset(lines, SortLines(lines));
    StableSortIsUnique(SortLines(lines), SortLines(other));
  }

  lemma ShortSequencesAgree<T>(u: seq<T>, v: seq<T>)
    requires multiset(u) == multiset(v) && |u| <= 1
    ensures u == v
  {
    SameLength(u, v);
    if |u| == 1 {
      assert u[0] in multiset(v);
    }
  }

  /** Moving the second of two undated lines to the front changes the order of the result. */
  lemma ManyUndatedIsOrderDependent(pool: int, lines: seq<CountedLine>) returns (other: seq<CountedLine>)
    requires DistinctIds(lines) && |Undated(lines)| >= 2
    ensures multiset(other) == multiset(lines) && AllocationOf(pool, other) != AllocationOf(pool, lines)
  {
    var u := Undated(lines);
    UndatedAreLines(lines);
    assert u[1] in lines;
    var j :| 0 <= j < |lines| && lines[j] == u[1];
    var rest := lines[..j] + lines[j + 1..];
    other := [lines[j]] + rest;
    assert lines == lines[..j] + [lines[j]] + lines[j + 1..];
    UndatedSplit([lines[j]], rest);
    assert Undated(other)[0] == u[1];
    UndatedDistinct(lines);
    assert u[0] != u[1];
    DifferentUndatedOrderShows(pool, lines, other);
  }

  lemma DifferentUndatedOrderShows(pool: int, lines: seq<CountedLine>, other: seq<CountedLine>)
    requires DistinctIds(lines) && multiset(other) == multiset(lines) && Undated(other) != Undated(lines)
    ensures AllocationOf(pool, other) != AllocationOf(pool, lines)
  {
    SortLinesIsAStableSort(lines);
    SortLinesIsAStableSort(other);
    DistinctOfMultiset(lines, SortLines(lines));
    if AllocationOf(pool, other) == AllocationOf(pool, lines) {
      ResultDeterminesLines(pool, SortLines(lines), SortLines(other));
    }
  }

  lemma ResultDeterminesLines(pool: int, s: seq<CountedLine>, t: seq<CountedLine>)
    requires multiset(s) == multiset(t) && DistinctIds(s) && Distribute(pool, s) == Distribute(pool, t)
    ensures s == t
  {
    SameLength(s, t);
    forall i | 0 <= i < |s| ensures s[i] == t[i] {
      DistributeAt(pool, s, i);
      DistributeAt(pool, t, i);
      assert t[i] in multiset(s);
      var k :| 0 <= k < |s| && s[k] == t[i];
    }
  }

  lemma {:induction false} UndatedAreLines(s: seq<CountedLine>)
    ensures forall x :: x in Undated(s) ==> x in s && x.deadline.None?
  {
    if s == [] {
    } else {
      UndatedAreLines(s[1..]);
    }
  }

  lemma {:induction false} UndatedDistinct(s: seq<CountedLine>)
    requires DistinctIds(s)
    ensures DistinctIds(Undated(s))
  {
    if s == [] {
    } else {
      UndatedDistinct(s[1..]);
      UndatedAreLines(s[1..]);
      forall k | 0 <= k < |Undated(s[1..])| ensures Undated(s[1..])[k].goalId != s[0].goalId {
        assert Undated(s[1..])[k] in s[1..];
      }
    }
  }

  /** With distinct ids, the allocation is the same for every order of its input lines
      exactly when at most one line lacks a deadline. */
  lemma OrderIndependentIff(pool: int, lines: seq<CountedLine>)
    requires DistinctIds(lines)
    ensures OrderIndependent(pool, lines) <==> |Undated(lines)| <= 1
  {
    if |Undated(lines)| <= 1 {
      forall other | multiset(other) == multiset(lines)
        ensures AllocationOf(pool, other) == AllocationOf(pool, lines)
      {
        FewUndatedIsOrderIndependent(pool, lines, other);
      }
    } else {
      var other := ManyUndatedIsOrderDependent(pool, lines);
    }
  }
}
