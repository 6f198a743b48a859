/**
 * The analysis over the stored transactions: per-user income and expense totals,
 * the three most frequent categories, and the user with the lowest net total.
 * Grouping keeps groups in the order their keys are first seen, and the orderings
 * are stable, as LINQ's are.
 */
module Analysis {
  import opened Wrappers
  import opened Guids
  import opened Decimals
  import opened Transactions

  // ---------------------------------------------------------------------------
  // Grouping keys
  // ---------------------------------------------------------------------------

  /** Where `k` first occurs in `ks`; `|ks|` when it does not occur. */
  function FirstIndex<K(==)>(ks: seq<K>, k: K): (r: nat)
    ensures r <= |ks|
    ensures r == |ks| <==> k !in ks
    ensures r < |ks| ==> ks[r] == k
    ensures forall j :: 0 <= j < r ==> ks[j] != k
  {
    if |ks| == 0 then 0
    else if ks[0] == k then 0
    else 1 + FirstIndex(ks[1..], k)
  }

  /** The first occurrence is the only position holding `k` with no `k` before it. */
  lemma FirstIndexAt<K>(ks: seq<K>, k: K, p: nat)
    requires p < |ks| && ks[p] == k && forall j :: 0 <= j < p ==> ks[j] != k
    ensures FirstIndex(ks, k) == p
  {
  }

  /** `GroupBy` keys: every key once, in first-seen order. */
  function DistinctKeys<K(==)>(ks: seq<K>): (r: seq<K>)
    ensures forall i :: 0 <= i < |r| ==> r[i] in ks
    ensures forall i :: 0 <= i < |ks| ==> ks[i] in r
    ensures forall i, j :: 0 <= i < j < |r| ==> r[i] != r[j]
  {
    if |ks| == 0 then []
    else
      var init := ks[..|ks| - 1];
      assert ks == init + [ks[|ks| - 1]];
      var d := DistinctKeys(init);
      if ks[|ks| - 1] in d then d else d + [ks[|ks| - 1]]
  }

  /** A key already present in a prefix first occurs where it first occurs in the prefix. */
  lemma FirstIndexPrefix<K>(ks: seq<K>, n: nat, k: K)
    requires n <= |ks| && k in ks[..n]
    ensures FirstIndex(ks, k) == FirstIndex(ks[..n], k) < n
  {
    var p := FirstIndex(ks[..n], k);
    assert ks[..n][p] == ks[p];
    FirstIndexAt(ks, k, p);
  }

  predicate FirstSeenOrder<K(==)>(ks: seq<K>, r: seq<K>)
  {
    forall i, j :: 0 <= i < j < |r| ==> FirstIndex(ks, r[i]) < FirstIndex(ks, r[j])
  }

  /** Keys in first-seen order sit in the order they were first seen. */
  lemma FirstSeenPositions<K>(ks: seq<K>, r: seq<K>, a: nat, b: nat)
    requires FirstSeenOrder(ks, r)
    requires a < |r| && b < |r|
    requires FirstIndex(ks, r[a]) < FirstIndex(ks, r[b])
    ensures a < b
  {
  }

  lemma FirstSeenTransfer<K>(ks: seq<K>, init: seq<K>, d: seq<K>)
    requires FirstSeenOrder(init, d)
    requires forall i :: 0 <= i < |d| ==> FirstIndex(ks, d[i]) == FirstIndex(init, d[i])
    ensures FirstSeenOrder(ks, d)
  {
  }

  lemma AppendFirstSeen<K>(ks: seq<K>, d: seq<K>, x: K)
    requires FirstSeenOrder(ks, d)
    requires forall i :: 0 <= i < |d| ==> FirstIndex(ks, d[i]) < FirstIndex(ks, x)
    ensures FirstSeenOrder(ks, d + [x])
  {
    var r := d + [x];
    assert forall i :: 0 <= i < |d| ==> r[i] == d[i];
  }

  /** Groups appear in the order their keys first occur. */
  lemma {:induction false} DistinctKeysOrdered<K>(ks: seq<K>)
    ensures FirstSeenOrder(ks, DistinctKeys(ks))
  {
    if |ks| > 0 {
      var n := |ks| - 1;
      var init := ks[..n];
      DistinctKeysOrdered(init);
      var d := DistinctKeys(init);
      forall i | 0 <= i < |d|
        ensures FirstIndex(ks, d[i]) == FirstIndex(init, d[i]) < n
      {
        FirstIndexPrefix(ks, n, d[i]);
      }
      FirstSeenTransfer(ks, init, d);
      if ks[n] !in d {
        assert ks[n] !in init;
        FirstIndexAt(ks, ks[n], n);
        AppendFirstSeen(ks, d, ks[n]);
      }
    }
  }

  function UserIds(ts: seq<Transaction>): (r: seq<Guid>)
    ensures |r| == |ts|
    ensures forall i :: 0 <= i < |ts| ==> r[i] == ts[i].userId
  {
    if |ts| == 0 then [] else [ts[0].userId] + UserIds(ts[1..])
  }

  function Categories(ts: seq<Transaction>): (r: seq<string>)
    ensures |r| == |ts|
    ensures forall i :: 0 <= i < |ts| ==> r[i] == ts[i].category
  {
    if |ts| == 0 then [] else [ts[0].category] + Categories(ts[1..])
  }

  /** The users that have transactions, in first-seen order. */
  function Users(ts: seq<Transaction>): seq<Guid>
  {
    DistinctKeys(UserIds(ts))
  }

  // ---------------------------------------------------------------------------
  // Per-user totals
  // ---------------------------------------------------------------------------

  /** The sum of every amount of `u`: the key spenders are ranked by. */
  function NetOf(ts: seq<Transaction>, u: Guid): real
  {
    if |ts| == 0 then 0.0
    else (if ts[0].userId == u then Value(ts[0].amount) else 0.0) + NetOf(ts[1..], u)
  }

  /** `TotalIncome`: the sum of the positive amounts of `u`. */
  function IncomeOf(ts: seq<Transaction>, u: Guid): (r: real)
    ensures r >= 0.0
  {
    if |ts| == 0 then 0.0
    else
      ValueSign(ts[0].amount);
      (if ts[0].userId == u && ts[0].amount.mantissa > 0 then Value(ts[0].amount) else 0.0) + IncomeOf(ts[1..], u)
  }

  /** `TotalExpense`: the sum of the negative amounts of `u`. */
  function ExpenseOf(ts: seq<Transaction>, u: Guid): (r: real)
    ensures r <= 0.0
  {
    if |ts| == 0 then 0.0
    else
      ValueSign(ts[0].amount);
      (if ts[0].userId == u && ts[0].amount.mantissa < 0 then Value(ts[0].amount) else 0.0) + ExpenseOf(ts[1..], u)
  }

  /** Zero amounts fall in neither total, so income and expense together are the net total. */
  lemma {:induction false} IncomeExpenseNet(ts: seq<Transaction>, u: Guid)
    ensures IncomeOf(ts, u) + ExpenseOf(ts, u) == NetOf(ts, u)
  {
    if |ts| > 0 {
      IncomeExpenseNet(ts[1..], u);
      ValueSign(ts[0].amount);
    }
  }

  /** A user with no transactions has nothing in any total. */
  lemma {:induction false} AbsentUserTotals(ts: seq<Transaction>, u: Guid)
    requires u !in UserIds(ts)
    ensures IncomeOf(ts, u) == 0.0 && ExpenseOf(ts, u) == 0.0 && NetOf(ts, u) == 0.0
  {
    if |ts| > 0 {
      assert UserIds(ts[1..]) == UserIds(ts)[1..];
      AbsentUserTotals(ts[1..], u);
    }
  }

  /** One row of `UsersSummary`. */
  datatype UserSummary = UserSummary(userId: Guid, totalIncome: real, totalExpense: real)

  function SummariesFor(ts: seq<Transaction>, us: seq<Guid>): (r: seq<UserSummary>)
    ensures |r| == |us|
    ensures forall i :: 0 <= i < |us| ==>
      && r[i].userId == us[i]
      && r[i].totalIncome == IncomeOf(ts, us[i]) && r[i].totalExpense == ExpenseOf(ts, us[i])
      && r[i].totalIncome >= 0.0 && r[i].totalExpense <= 0.0
      && r[i].totalIncome + r[i].totalExpense == NetOf(ts, us[i])
  {
    if |us| == 0 then []
    else
      IncomeExpenseNet(ts, us[0]);
      [UserSummary(us[0], IncomeOf(ts, us[0]), ExpenseOf(ts, us[0]))] + SummariesFor(ts, us[1..])
  }

  /** Rows keyed by the users in order inherit the users' distinctness and order. */
  lemma RowsFollowUsers(ts: seq<Transaction>, r: seq<UserSummary>)
    requires |r| == |Users(ts)|
    requires forall i :: 0 <= i < |r| ==> r[i].userId == Users(ts)[i]
    ensures forall u :: u in UserIds(ts) <==> exists i :: 0 <= i < |r| && r[i].userId == u
    ensures forall i, j :: 0 <= i < j < |r| ==> r[i].userId != r[j].userId
    ensures forall i, j :: 0 <= i < j < |r| ==>
      FirstIndex(UserIds(ts), r[i].userId) < FirstIndex(UserIds(ts), r[j].userId)
  {
    DistinctKeysOrdered(UserIds(ts));
  }

  /**
   * `UsersSummary`: one row per user, in first-seen order; income is never negative,
   * expense never positive, and together they are the user's net total.
   */
  function UsersSummary(ts: seq<Transaction>): (r: seq<UserSummary>)
    ensures |r| == |Users(ts)|
    ensures forall u :: u in UserIds(ts) <==> exists i :: 0 <= i < |r| && r[i].userId == u
    ensures forall i, j :: 0 <= i < j < |r| ==> r[i].userId != r[j].userId
    ensures forall i :: 0 <= i < |r| ==>
      && r[i].userId == Users(ts)[i]
      && r[i].totalIncome == IncomeOf(ts, r[i].userId) && r[i].totalExpense == ExpenseOf(ts, r[i].userId)
    ensures forall i :: 0 <= i < |r| ==>
      && r[i].totalIncome >= 0.0 && r[i].totalExpense <= 0.0
      && r[i].totalIncome + r[i].totalExpense == NetOf(ts, r[i].userId)
    ensures forall i, j :: 0 <= i < j < |r| ==>
      FirstIndex(UserIds(ts), r[i].userId) < FirstIndex(UserIds(ts), r[j].userId)
  {
    var r := SummariesFor(ts, Users(ts));
    RowsFollowUsers(ts, r);
    r
  }

  // ---------------------------------------------------------------------------
  // Top categories
  // ---------------------------------------------------------------------------

  /** The number of the `GroupBy` group of `c`: how often `c` occurs. */
  function Count(cats: seq<string>, c: string): (r: nat)
    ensures r == 0 <==> c !in cats
  {
    if |cats| == 0 then 0 else (if cats[0] == c then 1 else 0) + Count(cats[1..], c)
  }

  /** `c` ranks before `d`: more frequent, or as frequent and seen first. */
  predicate Ahead(cats: seq<string>, c: string, d: string)
  {
    || Count(cats, c) > Count(cats, d)
    || (Count(cats, c) == Count(cats, d) && FirstIndex(cats, c) < FirstIndex(cats, d))
  }

  predicate Ranked(cats: seq<string>, s: seq<string>)
  {
    forall i, j :: 0 <= i < j < |s| ==> Ahead(cats, s[i], s[j])
  }

  /** One step of the stable `OrderByDescending(Count)`: `c` goes after every key at least as frequent. */
  function InsertByCount(cats: seq<string>, c: string, s: seq<string>): (r: seq<string>)
    ensures |r| == |s| + 1
    ensures forall x :: x in r <==> x == c || x in s
  {
    if |s| == 0 then [c]
    else if Count(cats, s[0]) >= Count(cats, c) then [s[0]] + InsertByCount(cats, c, s[1..])
    else [c] + s
  }

  /** The stable sort by descending count: keys are inserted in their given order. */
  function SortByCount(cats: seq<string>, ks: seq<string>): (r: seq<string>)
    ensures |r| == |ks|
    ensures forall x :: x in r <==> x in ks
  {
    if |ks| == 0 then []
    else InsertByCount(cats, ks[|ks| - 1], SortByCount(cats, ks[..|ks| - 1]))
  }

  /** A key seen after all the ranked ones is inserted where the ranking puts it. */
  lemma {:induction false} InsertRanked(cats: seq<string>, c: string, s: seq<string>)
    requires Ranked(cats, s)
    requires forall x :: x in s ==> FirstIndex(cats, x) < FirstIndex(cats, c)
    ensures Ranked(cats, InsertByCount(cats, c, s))
  {
    if |s| > 0 && Count(cats, s[0]) >= Count(cats, c) {
      InsertRanked(cats, c, s[1..]);
      var tail := InsertByCount(cats, c, s[1..]);
      forall j | 0 <= j < |tail|
        ensures Ahead(cats, s[0], tail[j])
      {
        if tail[j] != c {
          assert tail[j] in s[1..];
          var k :| 0 <= k < |s| - 1 && s[1..][k] == tail[j];
          assert s[k + 1] == tail[j];
        }
      }
      assert forall j :: 0 < j <= |tail| ==> ([s[0]] + tail)[j] == tail[j - 1];
    } else if |s| > 0 {
      assert forall j :: 0 < j <= |s| ==> ([c] + s)[j] == s[j - 1];
      assert forall j :: 0 <= j < |s| ==> Count(cats, s[j]) <= Count(cats, s[0]);
    }
  }

  /** Sorting keys given in first-seen order by count, stably, ranks them. */
  lemma {:induction false} SortRanked(cats: seq<string>, ks: seq<string>)
    requires FirstSeenOrder(cats, ks)
    ensures Ranked(cats, SortByCount(cats, ks))
  {
    if |ks| > 0 {
      var init := ks[..|ks| - 1];
      assert FirstSeenOrder(cats, init);
      SortRanked(cats, init);
      forall x | x in SortByCount(cats, init)
        ensures FirstIndex(cats, x) < FirstIndex(cats, ks[|ks| - 1])
      {
        var i :| 0 <= i < |init| && init[i] == x;
      }
      InsertRanked(cats, ks[|ks| - 1], SortByCount(cats, init));
    }
  }

  /** One row of `TopCategories`. */
  datatype CategoryCount = CategoryCount(category: string, transactionsCount: nat)

  /** `Take(3)`. */
  const TopCount: nat := 3

  function CountsOf(cats: seq<string>, cs: seq<string>): (r: seq<CategoryCount>)
    ensures |r| == |cs|
    ensures forall i :: 0 <= i < |cs| ==> r[i] == CategoryCount(cs[i], Count(cats, cs[i]))
  {
    if |cs| == 0 then [] else [CategoryCount(cs[0], Count(cats, cs[0]))] + CountsOf(cats, cs[1..])
  }

  /** Every category of the data, ranked. */
  function RankedCategories(ts: seq<Transaction>): (r: seq<string>)
    ensures Ranked(Categories(ts), r)
    ensures forall c :: c in r <==> c in Categories(ts)
    ensures |r| == |DistinctKeys(Categories(ts))|
  {
    var cats := Categories(ts);
    DistinctKeysOrdered(cats);
    SortRanked(cats, DistinctKeys(cats));
    SortByCount(cats, DistinctKeys(cats))
  }

  /** The count rows of the first `n` keys of a ranked list are ranked and count correctly. */
  lemma TakeRanked(cats: seq<string>, ranked: seq<string>, n: nat)
    requires Ranked(cats, ranked) && n <= |ranked|
    ensures var r := CountsOf(cats, ranked[..n]);
      && |r| == n
      && (forall i :: 0 <= i < |r| ==> r[i].category == ranked[i] && r[i].transactionsCount == Count(cats, ranked[i]))
      && (forall i :: 0 <= i < |r| ==> r[i].category in ranked)
      && (forall i, j :: 0 <= i < j < |r| ==> Ahead(cats, r[i].category, r[j].category))
  {
    var r := CountsOf(cats, ranked[..n]);
    assert forall i :: 0 <= i < n ==> ranked[..n][i] == ranked[i];
  }

  /** A key of a ranked list that is not among its first `n` ranks behind each of them. */
  lemma TakeLeavesBehind(cats: seq<string>, ranked: seq<string>, n: nat, c: string)
    requires Ranked(cats, ranked) && n <= |ranked|
    requires c in ranked && forall i :: 0 <= i < n ==> ranked[i] != c
    ensures n < |ranked| && forall i :: 0 <= i < n ==> Ahead(cats, ranked[i], c)
  {
    var k :| 0 <= k < |ranked| && ranked[k] == c;
    assert n <= k;
  }

  /** `TopCategories`: the first three groups after the stable sort by descending count. */
  function TopCategories(ts: seq<Transaction>): (r: seq<CategoryCount>)
    ensures |r| == if |DistinctKeys(Categories(ts))| < TopCount then |DistinctKeys(Categories(ts))| else TopCount
    ensures forall i :: 0 <= i < |r| ==>
      r[i].category in Categories(ts) && r[i].transactionsCount == Count(Categories(ts), r[i].category)
    ensures forall i, j :: 0 <= i < j < |r| ==> Ahead(Categories(ts), r[i].category, r[j].category)
  {
    var cats := Categories(ts);
    var ranked := RankedCategories(ts);
    var n := if |ranked| < TopCount then |ranked| else TopCount;
    TakeRanked(cats, ranked, n);
    CountsOf(cats, ranked[..n])
  }

  /** A category left out of the top three ranks behind all three of them. */
  lemma TopCategoriesComplete(ts: seq<Transaction>, c: string)
    requires c in Categories(ts)
    requires forall i :: 0 <= i < |TopCategories(ts)| ==> TopCategories(ts)[i].category != c
    ensures |TopCategories(ts)| == TopCount
    ensures forall i :: 0 <= i < TopCount ==> Ahead(Categories(ts), TopCategories(ts)[i].category, c)
  {
    var ranked := RankedCategories(ts);
    var n := if |ranked| < TopCount then |ranked| else TopCount;
    TakeRanked(Categories(ts), ranked, n);
    var r := TopCategories(ts);
    assert r == CountsOf(Categories(ts), ranked[..n]);
    TakeLeavesBehind(Categories(ts), ranked, n, c);
  }

  // ---------------------------------------------------------------------------
  // Highest spender
  // ---------------------------------------------------------------------------

  /**
   * The head of the stable `OrderBy(net)` over `us`: a user with the lowest net total,
   * the earliest one on a tie.
   */
  function LowestNet(ts: seq<Transaction>, us: seq<Guid>): (r: Option<Guid>)
    ensures r.None? <==> |us| == 0
    ensures r.Some? ==> r.value in us && forall v :: v in us ==> NetOf(ts, r.value) <= NetOf(ts, v)
    ensures r.Some? ==>
      exists p :: (0 <= p < |us| && us[p] == r.value && forall j :: 0 <= j < p ==> NetOf(ts, us[j]) > NetOf(ts, r.value))
  {
    if |us| == 0 then None
    else
      match LowestNet(ts, us[1..])
      case None => Some(us[0])
      case Some(u) =>
        if NetOf(ts, us[0]) <= NetOf(ts, u) then Some(us[0])
        else
          var p :| 0 <= p < |us[1..]| && us[1..][p] == u && forall j :: 0 <= j < p ==> NetOf(ts, us[1..][j]) > NetOf(ts, u);
          assert us[p + 1] == u;
          Some(u)
  }

  /** `HighestSpender`: the user whose amounts sum lowest, first-seen on a tie; none without data. */
  function HighestSpender(ts: seq<Transaction>): (r: Option<Guid>)
    ensures r.None? <==> |ts| == 0
    ensures r.Some? ==> r.value in UserIds(ts)
    ensures r.Some? ==> forall t :: t in ts ==> NetOf(ts, r.value) <= NetOf(ts, t.userId)
  {
    var us := Users(ts);
    assert |ts| > 0 ==> ts[0].userId in UserIds(ts);
    var r := LowestNet(ts, us);
    assert forall t :: t in ts ==> t.userId in UserIds(ts);
    r
  }

  /** Of two users with the same net total, `LowestNet` picks the earlier. */
  lemma LowestNetTie(ts: seq<Transaction>, us: seq<Guid>, a: nat, b: nat)
    requires a < b < |us|
    requires forall i, j :: 0 <= i < j < |us| ==> us[i] != us[j]
    requires NetOf(ts, us[a]) == NetOf(ts, us[b])
    ensures LowestNet(ts, us) != Some(us[b])
  {
  }

  /** Of two users with the same net total, the one seen first is chosen. */
  lemma SpenderTieFirstSeen(ts: seq<Transaction>, u: Guid, v: Guid)
    requires u in UserIds(ts) && v in UserIds(ts)
    requires FirstIndex(UserIds(ts), u) < FirstIndex(UserIds(ts), v)
    requires NetOf(ts, u) == NetOf(ts, v)
    ensures HighestSpender(ts) != Some(v)
  {
    var ks, us := UserIds(ts), Users(ts);
    DistinctKeysOrdered(ks);
    var a :| 0 <= a < |us| && us[a] == u;
    var b :| 0 <= b < |us| && us[b] == v;
    FirstSeenPositions(ks, us, a, b);
    LowestNetTie(ts, us, a, b);
  }

  /** The three parts of the report. */
  datatype Report = Report(usersSummary: seq<UserSummary>, topCategories: seq<CategoryCount>, highestSpender: Option<Guid>)

  /** `PerformAnalysisAsync` over the stored transactions. */
  function PerformAnalysis(ts: seq<Transaction>): (r: Report)
    ensures |r.usersSummary| == |Users(ts)|
    ensures |r.topCategories| <= TopCount
    ensures r.highestSpender.None? <==> |ts| == 0
    ensures r.highestSpender.Some? ==> exists i :: 0 <= i < |r.usersSummary| && r.usersSummary[i].userId == r.highestSpender.value
  {
    Report(UsersSummary(ts), TopCategories(ts), HighestSpender(ts))
  }

  lemma WholeValue(m: int)
    ensures Value(Decimal(m, 0)) == m as real
  {
  }

  /** The totals of the two-user example, one record at a time. */
  lemma TwoUserTotals(t1: Transaction, t2: Transaction, t3: Transaction, u1: Guid, u2: Guid)
    requires u1 != u2
    requires t1.userId == u1 && t1.amount == Decimal(100, 0)
    requires t2.userId == u1 && t2.amount == Decimal(-40, 0)
    requires t3.userId == u2 && t3.amount == Decimal(10, 0)
    ensures IncomeOf([t1, t2, t3], u1) == 100.0 && ExpenseOf([t1, t2, t3], u1) == -40.0
    ensures IncomeOf([t1, t2, t3], u2) == 10.0 && ExpenseOf([t1, t2, t3], u2) == 0.0
    ensures NetOf([t1, t2, t3], u1) == 60.0 && NetOf([t1, t2, t3], u2) == 10.0
  {
    WholeValue(100);
    WholeValue(-40);
    WholeValue(10);
    assert [t1, t2, t3][1..] == [t2, t3] && [t2, t3][1..] == [t3] && [t3][1..] == [];
    assert NetOf([t3], u1) == 0.0 && NetOf([t3], u2) == 10.0;
    assert NetOf([t2, t3], u1) == -40.0 && NetOf([t2, t3], u2) == 10.0;
    assert IncomeOf([t3], u1) == 0.0 && IncomeOf([t3], u2) == 10.0;
    assert IncomeOf([t2, t3], u1) == 0.0 && IncomeOf([t2, t3], u2) == 10.0;
    assert ExpenseOf([t3], u1) == 0.0 && ExpenseOf([t3], u2) == 0.0;
    assert ExpenseOf([t2, t3], u1) == -40.0 && ExpenseOf([t2, t3], u2) == 0.0;
  }

  /** The users of the two-user example, in first-seen order. */
  lemma TwoUserKeys(u1: Guid, u2: Guid)
    requires u1 != u2
    ensures DistinctKeys([u1, u1, u2]) == [u1, u2]
  {
    assert [u1][..0] == [];
    assert DistinctKeys([u1]) == [u1];
    assert [u1, u1][..1] == [u1];
    assert DistinctKeys([u1, u1]) == [u1];
    assert [u1, u1, u2][..2] == [u1, u1];
  }

  /** The summary of data with exactly two users lists each with its totals. */
  lemma SummaryOfTwo(ts: seq<Transaction>, a: Guid, b: Guid)
    requires Users(ts) == [a, b]
    ensures UsersSummary(ts)
      == [UserSummary(a, IncomeOf(ts, a), ExpenseOf(ts, a)), UserSummary(b, IncomeOf(ts, b), ExpenseOf(ts, b))]
  {
    var r := UsersSummary(ts);
    assert r[0].userId == a && r[1].userId == b;
    assert r == [r[0], r[1]];
  }

  /**
   * Two users, one with +100 and -40, the other with +10: the summary lists both in
   * first-seen order with their income and expense.
   */
  lemma TwoUserSummary(t1: Transaction, t2: Transaction, t3: Transaction, u1: Guid, u2: Guid)
    requires u1 != u2
    requires t1.userId == u1 && t1.amount == Decimal(100, 0)
    requires t2.userId == u1 && t2.amount == Decimal(-40, 0)
    requires t3.userId == u2 && t3.amount == Decimal(10, 0)
    ensures UsersSummary([t1, t2, t3]) == [UserSummary(u1, 100.0, -40.0), UserSummary(u2, 10.0, 0.0)]
  {
    var ts := [t1, t2, t3];
    assert UserIds(ts) == [u1, u1, u2];
    TwoUserKeys(u1, u2);
    TwoUserTotals(t1, t2, t3, u1, u2);
    assert Users(ts) == [u1, u2];
    SummaryOfTwo(ts, u1, u2);
  }

  /** In the same example the user with the lower net total, 10 against 60, is chosen. */
  lemma TwoUserSpender(t1: Transaction, t2: Transaction, t3: Transaction, u1: Guid, u2: Guid)
    requires u1 != u2
    requires t1.userId == u1 && t1.amount == Decimal(100, 0)
    requires t2.userId == u1 && t2.amount == Decimal(-40, 0)
    requires t3.userId == u2 && t3.amount == Decimal(10, 0)
    ensures HighestSpender([t1, t2, t3]) == Some(u2)
  {
    var ts := [t1, t2, t3];
    assert UserIds(ts) == [u1, u1, u2];
    TwoUserKeys(u1, u2);
    TwoUserTotals(t1, t2, t3, u1, u2);
    assert [u1, u2][1..] == [u2] && [u2][1..] == [];
    assert LowestNet(ts, [u2]) == Some(u2);
  }
}
