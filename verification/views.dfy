/** The read side of the store: the dashboard of the active IPO and the
    status column of the allotment results. */
module Views {
  import opened Base
  import opened Tables
  import opened Schema
  import opened Storage
  import AllotmentRun
  import RefundRun
  import Lifecycle

  // SQL aggregates as the dashboard reads them.

  /** SUM over a set of rows: NULL when there is no row. */
  function SqlSum(xs: seq<int>): (r: Option<int>)
    ensures r.None? <==> xs == []
  {
    if xs == [] then None else Some(Sum(xs))
  }

  /** `?.total || 0`: a NULL reads as 0; a number reads as itself (0 is falsy, but reads as 0 either way). */
  function OrZero(v: Option<int>): int {
    match v
    case None => 0
    case Some(n) => n
  }

  /** The amounts of the company's applications. */
  function Amounts(apps: seq<Row<Application>>): (r: seq<int>)
    ensures |r| == |apps|
    ensures forall i :: 0 <= i < |apps| ==> r[i] == apps[i].val.amount
  {
    if apps == [] then [] else [apps[0].val.amount] + Amounts(apps[1..])
  }

  // The refund total: refunds JOIN allotments ON allotment_id JOIN applications ON application_id.

  /** `n` copies of an amount: one JOIN row per matching pair. */
  function Repeat(amount: int, n: nat): (r: seq<int>)
    ensures |r| == n
    ensures forall i :: 0 <= i < n ==> r[i] == amount
  {
    seq(n, _ => amount)
  }

  /** The JOIN rows of one refund through the allotments `als` that carry its allotment id. */
  function PairAmounts(s: Store, cid: int, amount: int, als: seq<Row<Allotment>>): seq<int> {
    if als == [] then []
    else
      Repeat(amount, |Select(ApplicationsByCompany(s, cid), RowId, als[0].val.applicationId)|)
        + PairAmounts(s, cid, amount, als[1..])
  }

  function JoinedAmounts(s: Store, cid: int, refunds: seq<Row<Refund>>): seq<int> {
    if refunds == [] then []
    else
      PairAmounts(s, cid, refunds[0].val.amount, Select(s.allotments.rows, RowId, refunds[0].val.allotmentId))
        + JoinedAmounts(s, cid, refunds[1..])
  }

  /** The refunds whose allotment id is in `ids`, in store order. */
  function RefundsIn(rows: seq<Row<Refund>>, ids: set<int>): (r: seq<Row<Refund>>)
    ensures forall f :: f in r <==> f in rows && f.val.allotmentId in ids
  {
    if rows == [] then []
    else if rows[0].val.allotmentId in ids then [rows[0]] + RefundsIn(rows[1..], ids)
    else RefundsIn(rows[1..], ids)
  }

  function RefundAmounts(rows: seq<Row<Refund>>): seq<int> {
    if rows == [] then [] else [rows[0].val.amount] + RefundAmounts(rows[1..])
  }

  // The dashboard.

  datatype Dashboard = Dashboard(
    company: Row<Company>,
    totalApplications: int,
    totalSharesReq: int,
    totalAmount: int,
    totalRefunds: int,
    oversubscriptionRatio: real)

  /** The demand over the pool when the pool is positive, and 0 otherwise. */
  function Ratio(demand: int, pool: int): real {
    if pool > 0 then demand as real / pool as real else 0.0
  }

  /** getDashboardData(): nothing without a company; otherwise the totals of the active company. */
  function DashboardData(s: Store): (r: Option<Dashboard>)
    ensures r.None? <==> s.companies.rows == []
    ensures r.Some? ==>
      && r.value.company in s.companies.rows
      && (forall c :: c in s.companies.rows ==> c.id <= r.value.company.id)
    ensures r.Some? ==>
      var apps := ApplicationsByCompany(s, r.value.company.id);
      && r.value.totalApplications == |apps|
      && r.value.totalSharesReq == Sum(AllotmentRun.Requests(apps))
      && r.value.totalAmount == Sum(Amounts(apps))
      && r.value.totalRefunds == Sum(JoinedAmounts(s, r.value.company.id, s.refunds.rows))
    ensures r.Some? ==> r.value.oversubscriptionRatio == Ratio(r.value.totalSharesReq, r.value.company.val.totalShares)
  {
    match ActiveCompany(s)
    case None => None
    case Some(c) =>
      var apps := ApplicationsByCompany(s, c.id);
      var shares := OrZero(SqlSum(AllotmentRun.Requests(apps)));
      Some(Dashboard(
        c,
        |apps|,
        shares,
        OrZero(SqlSum(Amounts(apps))),
        OrZero(SqlSum(JoinedAmounts(s, c.id, s.refunds.rows))),
        Ratio(shares, c.val.totalShares)))
  }

  /** The ratio is the demand in units of the pool, and 0 for a pool that is not positive. */
  lemma RatioMeaning(demand: int, pool: int)
    ensures pool > 0 ==> Ratio(demand, pool) * pool as real == demand as real
    ensures pool <= 0 ==> Ratio(demand, pool) == 0.0
  {
  }

  /** The issue is oversubscribed exactly when the ratio exceeds 1. */
  lemma OversubscribedIffRatioAboveOne(demand: int, pool: int)
    requires pool > 0
    ensures Ratio(demand, pool) > 1.0 <==> demand > pool
  {
    var r := Ratio(demand, pool);
    assert r * pool as real == demand as real;
    if demand > pool {
      assert r > 1.0;
    }
    if r > 1.0 {
      assert r * pool as real > 1.0 * pool as real;
    }
  }

  /** In a well-keyed store the JOIN finds each refund of the company once, so the
      dashboard's refund total is the sum of the refunds on the company's allotments. */
  lemma {:induction false} JoinedAmountsOfCompany(s: Store, cid: int, refunds: seq<Row<Refund>>)
    requires WellKeyed(s.allotments) && WellKeyed(s.applications)
    ensures JoinedAmounts(s, cid, refunds)
            == RefundAmounts(RefundsIn(refunds, AllotmentRun.CompanyAllotmentIds(s, cid)))
  {
    if refunds != [] {
      JoinedAmountsOfCompany(s, cid, refunds[1..]);
      RefundJoinRows(s, cid, refunds[0]);
    }
  }

  /** One refund contributes one JOIN row when its allotment belongs to the company, and none otherwise. */
  lemma RefundJoinRows(s: Store, cid: int, f: Row<Refund>)
    requires WellKeyed(s.allotments) && WellKeyed(s.applications)
    ensures PairAmounts(s, cid, f.val.amount, Select(s.allotments.rows, RowId, f.val.allotmentId))
            == if f.val.allotmentId in AllotmentRun.CompanyAllotmentIds(s, cid) then [f.val.amount] else []
  {
    var als := Select(s.allotments.rows, RowId, f.val.allotmentId);
    SelectByIdAtMostOne(s.allotments.rows, f.val.allotmentId);
    if als == [] {
      assert f.val.allotmentId !in AllotmentRun.CompanyAllotmentIds(s, cid);
    } else {
      var al := als[0];
      assert al in als;
      assert PairAmounts(s, cid, f.val.amount, als[1..]) == [];
      AllotmentJoinRows(s, cid, al);
      if f.val.allotmentId in AllotmentRun.CompanyAllotmentIds(s, cid) {
        var al' :| al' in s.allotments.rows && al'.val.applicationId in AllotmentRun.CompanyApplicationIds(s, cid)
          && al'.id == f.val.allotmentId;
        SameIdSameRow(s.allotments, al, al');
      }
    }
  }

  /** An allotment joins to one application of the company when its application belongs to it, and to none otherwise. */
  lemma AllotmentJoinRows(s: Store, cid: int, al: Row<Allotment>)
    requires WellKeyed(s.applications)
    ensures |Select(ApplicationsByCompany(s, cid), RowId, al.val.applicationId)|
            == if al.val.applicationId in AllotmentRun.CompanyApplicationIds(s, cid) then 1 else 0
  {
    var apps := ApplicationsByCompany(s, cid);
    SelectIncreasing(s.applications.rows, CompanyOf, cid);
    SelectByIdAtMostOne(apps, al.val.applicationId);
    var m := Select(apps, RowId, al.val.applicationId);
    if al.val.applicationId in AllotmentRun.CompanyApplicationIds(s, cid) {
      var p :| p in s.applications.rows && p.val.companyId == cid && p.id == al.val.applicationId;
      assert p in apps;
      assert p in m;
    }
  }

  /** Ids are unique in increasing rows, so selecting by id finds at most one row. */
  lemma SelectByIdAtMostOne<T>(rows: seq<Row<T>>, id: int)
    requires Increasing(rows)
    ensures |Select(rows, RowId, id)| <= 1
  {
    IncreasingIsUnique(Table(rows, 0));
    SelectOfUnique(Table(rows, 0), RowId, id);
  }

  /** The dashboard's refund total is the sum of the refunds written on the active company's allotments. */
  lemma DashboardRefunds(s: Store)
    requires WellKeyed(s.allotments) && WellKeyed(s.applications)
    requires s.companies.rows != []
    ensures var d := DashboardData(s).value;
      d.totalRefunds == Sum(RefundAmounts(RefundsIn(s.refunds.rows, AllotmentRun.CompanyAllotmentIds(s, d.company.id))))
  {
    JoinedAmountsOfCompany(s, DashboardData(s).value.company.id, s.refunds.rows);
  }

  // The status column of getAllotmentResults.

  datatype Status = Pending | Allotted | Processed

  /** No allotment: Pending; an allotment without a refund: Allotted; both: Processed. */
  function StatusOf(s: Store, applicationId: int): (r: Status)
    ensures r == Pending <==> AllotmentByApplication(s, applicationId).None?
    ensures r == Processed <==>
      AllotmentByApplication(s, applicationId).Some?
      && RefundByAllotment(s, AllotmentByApplication(s, applicationId).value.id).Some?
  {
    match AllotmentByApplication(s, applicationId)
    case None => Pending
    case Some(al) => if RefundByAllotment(s, al.id).None? then Allotted else Processed
  }

  /** After an allotment run every application of the company is Allotted. */
  lemma StatusAfterAllotment(s: Store, cid: int, c: Row<Company>, i: int)
    requires Valid(s)
    requires GetCompany(s, cid) == Some(c) && c.val.totalShares >= 0
    requires 0 <= i < |ApplicationsByCompany(s, cid)|
    ensures StatusOf(AllotmentRun.CalculateAllotments(s, cid).store, ApplicationsByCompany(s, cid)[i].id) == Allotted
  {
    AllotmentRun.RunAllotsEveryApplication(s, cid, c, i);
  }

  /** After the allotment run and the refund run, an application allotted less
      than it requested is Processed and one allotted its whole request stays Allotted. */
  lemma StatusAfterRefunds(s: Store, cid: int, c: Row<Company>, a: Row<Application>, al: Row<Allotment>)
    requires Valid(s)
    requires GetCompany(s, cid) == Some(c) && c.val.totalShares >= 0
    requires a in ApplicationsByCompany(s, cid)
    requires AllotmentByApplication(AllotmentRun.CalculateAllotments(s, cid).store, a.id) == Some(al)
    ensures al.val.sharesAlloted < a.val.sharesReq
            ==> StatusOf(RefundRun.CalculateRefunds(AllotmentRun.CalculateAllotments(s, cid).store, cid).store, a.id) == Processed
    ensures al.val.sharesAlloted == a.val.sharesReq
            ==> StatusOf(RefundRun.CalculateRefunds(AllotmentRun.CalculateAllotments(s, cid).store, cid).store, a.id) == Allotted
  {
    var allotted := AllotmentRun.CalculateAllotments(s, cid).store;
    assert AllotmentByApplication(RefundRun.CalculateRefunds(allotted, cid).store, a.id) == Some(al) by {
      assert RefundRun.CalculateRefunds(allotted, cid).store.allotments == allotted.allotments;
    }
    Lifecycle.RefundsAfterAllotment(s, cid, c, a, al);
  }

  // getAllotmentResults: every application with its applicant, company, allotment and refund, newest first.

  /** The thirteen columns the query selects, in its order; `allotmentApplicationId`
      is `allot.application_id`, absent when the LEFT JOIN finds no allotment. */
  datatype ResultRow = ResultRow(
    applicationId: int,
    applicantId: int,
    companyId: int,
    sharesReq: int,
    amount: int,
    applicantName: string,
    pan: string,
    dematNo: string,
    price: int,
    allotmentApplicationId: Option<int>,
    sharesAlloted: Option<int>,
    refundAmount: Option<int>,
    status: Status)

  /** The amount refunded on an application's allotment, if it has both. */
  function RefundOf(s: Store, applicationId: int): (r: Option<int>)
    ensures r.Some? <==>
      AllotmentByApplication(s, applicationId).Some?
      && RefundByAllotment(s, AllotmentByApplication(s, applicationId).value.id).Some?
    ensures r.Some? ==>
      r.value == RefundByAllotment(s, AllotmentByApplication(s, applicationId).value.id).value.val.amount
  {
    match AllotmentByApplication(s, applicationId)
    case None => None
    case Some(al) =>
      match RefundByAllotment(s, al.id)
      case None => None
      case Some(f) => Some(f.val.amount)
  }

  /** The result row of one application, or nothing when its applicant or company is missing (the inner JOINs). */
  function ResultOf(s: Store, a: Row<Application>): (r: Option<ResultRow>)
    ensures r.Some? <==> a.val.applicantId in Ids(s.applicants) && a.val.companyId in Ids(s.companies)
    ensures r.Some? ==>
      var p := First(s.applicants.rows, RowId, a.val.applicantId).value;
      var c := GetCompany(s, a.val.companyId).value;
      && r.value.applicationId == a.id && r.value.sharesReq == a.val.sharesReq && r.value.amount == a.val.amount
      && r.value.applicantId == a.val.applicantId && r.value.companyId == a.val.companyId
      && r.value.applicantName == p.val.name && r.value.pan == p.val.pan && r.value.dematNo == p.val.dematNo
      && r.value.price == c.val.price
    ensures r.Some? ==> (r.value.allotmentApplicationId.Some? <==> AllotmentByApplication(s, a.id).Some?)
    ensures r.Some? && r.value.allotmentApplicationId.Some? ==> r.value.allotmentApplicationId.value == a.id
    ensures r.Some? ==> r.value.sharesAlloted == AllotmentRun.Allotted(s, a.id)
    ensures r.Some? ==> r.value.refundAmount == RefundOf(s, a.id)
    ensures r.Some? ==> r.value.status == StatusOf(s, a.id)
    ensures r.Some? ==> (r.value.status == Pending <==> r.value.sharesAlloted.None?)
    ensures r.Some? ==> (r.value.status == Processed <==> r.value.refundAmount.Some?)
    ensures r.Some? && r.value.refundAmount.Some? ==> r.value.sharesAlloted.Some?
  {
    match (First(s.applicants.rows, RowId, a.val.applicantId), First(s.companies.rows, RowId, a.val.companyId))
    case (Some(p), Some(c)) =>
      var allot := AllotmentByApplication(s, a.id);
      var refund := if allot.None? then None else RefundByAllotment(s, allot.value.id);
      Some(ResultRow(
        a.id, a.val.applicantId, a.val.companyId, a.val.sharesReq, a.val.amount,
        p.val.name, p.val.pan, p.val.dematNo, c.val.price,
        if allot.None? then None else Some(allot.value.val.applicationId),
        if allot.None? then None else Some(allot.value.val.sharesAlloted),
        if refund.None? then None else Some(refund.value.val.amount),
        StatusOf(s, a.id)))
    case _ => None
  }

  /** The images of `rows` under `f`, dropping the rows `f` rejects, last row first. */
  function ReverseFilterMap<T, B>(f: Row<T> -> Option<B>, rows: seq<Row<T>>): seq<B> {
    if rows == [] then []
    else
      var rest := ReverseFilterMap(f, rows[1..]);
      match f(rows[0])
      case None => rest
      case Some(b) => rest + [b]
  }

  /** The result rows of all applications, ordered by application id descending. */
  function AllotmentResults(s: Store): seq<ResultRow> {
    ReverseFilterMap(a => ResultOf(s, a), s.applications.rows)
  }

  ghost predicate Descending<B>(key: B -> int, xs: seq<B>) {
    forall i, j :: 0 <= i < j < |xs| ==> key(xs[i]) > key(xs[j])
  }

  /** When `f` keeps each row's id as the key of its image, increasing rows come out in descending key order. */
  lemma {:induction false} ReverseFilterMapDescending<T, B>(f: Row<T> -> Option<B>, key: B -> int, rows: seq<Row<T>>)
    requires Increasing(rows)
    requires forall a :: f(a).Some? ==> key(f(a).value) == a.id
    ensures forall b :: b in ReverseFilterMap(f, rows) ==> exists a :: a in rows && key(b) == a.id
    ensures Descending(key, ReverseFilterMap(f, rows))
  {
    if rows != [] {
      IncreasingTail(rows);
      ReverseFilterMapDescending(f, key, rows[1..]);
      var rest := ReverseFilterMap(f, rows[1..]);
      forall b | b in rest
        ensures key(b) > rows[0].id && exists a :: a in rows && key(b) == a.id
      {
        var a :| a in rows[1..] && key(b) == a.id;
        assert a in rows;
      }
    }
  }

  /** When `f` rejects no row, every row has its image, at the mirrored position. */
  lemma {:induction false} ReverseFilterMapTotal<T, B>(f: Row<T> -> Option<B>, rows: seq<Row<T>>)
    requires forall a :: a in rows ==> f(a).Some?
    ensures |ReverseFilterMap(f, rows)| == |rows|
    ensures forall i :: 0 <= i < |rows| ==> ReverseFilterMap(f, rows)[|rows| - 1 - i] == f(rows[i]).value
  {
    if rows != [] {
      assert rows[0] in rows;
      assert forall a :: a in rows[1..] ==> a in rows;
      ReverseFilterMapTotal(f, rows[1..]);
      var rest := ReverseFilterMap(f, rows[1..]);
      var whole := ReverseFilterMap(f, rows);
      assert whole == rest + [f(rows[0]).value];
      forall i | 0 <= i < |rows|
        ensures whole[|rows| - 1 - i] == f(rows[i]).value
      {
        if i > 0 {
          assert whole[|rows| - 1 - i] == rest[|rows[1..]| - 1 - (i - 1)];
          assert rows[i] == rows[1..][i - 1];
        }
      }
    }
  }

  function ResultId(r: ResultRow): int {
    r.applicationId
  }

  /** The results of a valid store list every application exactly once, newest first: no inner JOIN drops a row. */
  lemma ResultsOfValidStore(s: Store)
    requires Valid(s)
    ensures |AllotmentResults(s)| == |s.applications.rows|
    ensures Descending(ResultId, AllotmentResults(s))
    ensures forall i :: 0 <= i < |s.applications.rows| ==>
      && ResultOf(s, s.applications.rows[i]).Some?
      && AllotmentResults(s)[|s.applications.rows| - 1 - i] == ResultOf(s, s.applications.rows[i]).value
  {
    ResultsListApplications(s);
    ReverseFilterMapDescending(a => ResultOf(s, a), ResultId, s.applications.rows);
  }

  /** In a valid store the i-th application from the end has the i-th result row. */
  lemma ResultsListApplications(s: Store)
    requires Valid(s)
    ensures |AllotmentResults(s)| == |s.applications.rows|
    ensures forall i :: 0 <= i < |s.applications.rows| ==>
      && ResultOf(s, s.applications.rows[i]).Some?
      && AllotmentResults(s)[|s.applications.rows| - 1 - i] == ResultOf(s, s.applications.rows[i]).value
  {
    ReverseFilterMapTotal(a => ResultOf(s, a), s.applications.rows);
  }
}
