/** The HTTP handlers that drive the store: submitting an application,
    running the allotment and the refunds, creating an IPO, and the totals
    of the export reports. A handler's failure is the `Error` of its
    result; the JSON bodies and status codes are not modelled. */
module Routes {
  import opened Base
  import opened Tables
  import opened Schema
  import opened Storage
  import AllotmentRun
  import RefundRun
  import Views
  import Lifecycle

  // POST /api/applications

  function NewApplicant(f: ApplicationForm): Applicant {
    Applicant(f.name, f.pan, f.dematNo)
  }

  /** The application a valid form files against company `c`, for the applicant row `applicantId`. */
  function NewApplication(f: ApplicationForm, applicantId: int, c: Row<Company>): Application {
    Application(applicantId, c.id, f.sharesReq, Cost(f.sharesReq, c.val.price))
  }

  /** The checks run in order: the form, the PAN, the demat number, an active IPO;
      then the applicant and the application are inserted. */
  function SubmitApplication(s: Store, f: ApplicationForm): (r: Effect<Row<Application>>)
    ensures r.result.Ok? <==>
      && Validate(f).Ok?
      && ApplicantByPan(s, f.pan).None? && ApplicantByDemat(s, f.dematNo).None?
      && s.companies.rows != []
    ensures Validate(f).Err? ==> r == Effect(s, Err(ValidationFailed(Issues(f))))
    ensures Validate(f).Ok? && ApplicantByPan(s, f.pan).Some? ==> r == Effect(s, Err(PanExists))
    ensures Validate(f).Ok? && ApplicantByPan(s, f.pan).None? && ApplicantByDemat(s, f.dematNo).Some?
            ==> r == Effect(s, Err(DematExists))
    ensures Validate(f).Ok? && ApplicantByPan(s, f.pan).None? && ApplicantByDemat(s, f.dematNo).None? && s.companies.rows == []
            ==> r == Effect(s, Err(NoActiveIpo))
    ensures r.result.Err? ==> r.store == s
    ensures r.result.Ok? ==>
      && r.store.companies == s.companies && r.store.allotments == s.allotments && r.store.refunds == s.refunds
      && r.store.applicants == AppendAll(s.applicants, [NewApplicant(f)])
      && r.store.applications == AppendAll(s.applications, [r.result.value.val])
      && r.result.value.val == NewApplication(f, s.applicants.lastId + 1, ActiveCompany(s).value)
  {
    match Validate(f)
    case Err(e) => Effect(s, Err(e))
    case Ok(v) =>
      if ApplicantByPan(s, v.pan).Some? then Effect(s, Err(PanExists))
      else if ApplicantByDemat(s, v.dematNo).Some? then Effect(s, Err(DematExists))
      else
        match ActiveCompany(s)
        case None => Effect(s, Err(NoActiveIpo))
        case Some(c) =>
          var applicant := CreateApplicant(s, NewApplicant(v));
          AppendOne(s.applicants, NewApplicant(v));
          IdOfRow(applicant.store.applicants, Row(s.applicants.lastId + 1, NewApplicant(v)));
          IdOfRow(s.companies, c);
          CreateApplication(applicant.store, NewApplication(v, applicant.result.value.id, c))
  }

  /** The store after a successful submission: one applicant and one application appended. */
  function Submitted(s: Store, f: ApplicationForm, c: Row<Company>): Store {
    s.(applicants := AppendAll(s.applicants, [NewApplicant(f)]),
       applications := AppendAll(s.applications, [NewApplication(f, s.applicants.lastId + 1, c)]))
  }

  /** A submission that passes every check ends in `Submitted` and returns the application's new row. */
  lemma SubmitOutcome(s: Store, f: ApplicationForm, c: Row<Company>)
    requires ActiveCompany(s) == Some(c)
    requires SubmitApplication(s, f).result.Ok?
    ensures SubmitApplication(s, f)
            == Effect(Submitted(s, f, c), Ok(Row(s.applications.lastId + 1, NewApplication(f, s.applicants.lastId + 1, c))))
  {
  }

  /** A submission keeps the store's keys, UNIQUE columns and references intact, whatever its outcome. */
  lemma SubmitKeepsValid(s: Store, f: ApplicationForm)
    requires Valid(s)
    ensures Valid(SubmitApplication(s, f).store)
  {
    if SubmitApplication(s, f).result.Ok? {
      var c := ActiveCompany(s).value;
      SubmitOutcome(s, f, c);
      AppendKeepsKeys(s.applicants, [NewApplicant(f)]);
      AppendKeepsKeys(s.applications, [NewApplication(f, s.applicants.lastId + 1, c)]);
      SubmitKeepsUnique(s, f);
      SubmittedRefs(s, f, c);
    }
  }

  /** The new application references the new applicant and the active company; the old references still resolve. */
  lemma SubmittedRefs(s: Store, f: ApplicationForm, c: Row<Company>)
    requires RefsValid(s)
    requires c in s.companies.rows && f.sharesReq >= 1
    ensures RefsValid(Submitted(s, f, c))
  {
    var s' := Submitted(s, f, c);
    var ap := NewApplicant(f);
    var app := NewApplication(f, s.applicants.lastId + 1, c);
    AppendOne(s.applicants, ap);
    AppendOne(s.applications, app);
    assert s.applicants.lastId + 1 in Ids(s'.applicants) by {
      var added := Row(s.applicants.lastId + 1, ap);
      assert added in s'.applicants.rows;
      assert RowId(added) in ColumnValues(s'.applicants, RowId);
    }
    forall a | a in s'.applications.rows
      ensures a.val.applicantId in Ids(s'.applicants) && a.val.companyId in Ids(s'.companies) && a.val.sharesReq >= 1
    {
      if a in s.applications.rows {
        AppendKeepsColumn(s.applicants, [ap], RowId);
      } else {
        assert a.val == app;
        assert c.id in Ids(s.companies);
      }
    }
    forall al | al in s'.allotments.rows
      ensures al.val.applicationId in Ids(s'.applications)
    {
      AppendKeepsColumn(s.applications, [app], RowId);
    }
  }

  /** The new applicant's PAN and demat number are new to their UNIQUE columns. */
  lemma SubmitKeepsUnique(s: Store, f: ApplicationForm)
    requires Unique(s.applicants, PanOf) && Unique(s.applicants, DematOf)
    requires ApplicantByPan(s, f.pan).None? && ApplicantByDemat(s, f.dematNo).None?
    ensures Unique(AppendAll(s.applicants, [NewApplicant(f)]), PanOf)
    ensures Unique(AppendAll(s.applicants, [NewApplicant(f)]), DematOf)
  {
    AppendOneKeepsUnique(s.applicants, NewApplicant(f), PanOf);
    AppendOneKeepsUnique(s.applicants, NewApplicant(f), DematOf);
  }

  /** Once a submission succeeds, a second one with the same PAN is refused, whatever else it carries. */
  lemma DuplicatePanRefused(s: Store, f: ApplicationForm, g: ApplicationForm)
    requires SubmitApplication(s, f).result.Ok?
    requires g.pan == f.pan && Validate(g).Ok?
    ensures SubmitApplication(SubmitApplication(s, f).store, g) == Effect(SubmitApplication(s, f).store, Err(PanExists))
  {
    var s' := SubmitApplication(s, f).store;
    AppendRows(s.applicants, [NewApplicant(f)]);
    assert Row(s.applicants.lastId + 1, NewApplicant(f)) in s'.applicants.rows;
  }

  /** A successful submission adds one application, its shares and its amount to the active IPO's dashboard. */
  lemma SubmitGrowsDashboard(s: Store, f: ApplicationForm, c: Row<Company>)
    requires ActiveCompany(s) == Some(c)
    requires SubmitApplication(s, f).result.Ok?
    ensures Views.DashboardData(SubmitApplication(s, f).store).value.totalApplications
            == Views.DashboardData(s).value.totalApplications + 1
    ensures Views.DashboardData(SubmitApplication(s, f).store).value.totalSharesReq
            == Views.DashboardData(s).value.totalSharesReq + f.sharesReq
    ensures Views.DashboardData(SubmitApplication(s, f).store).value.totalAmount
            == Views.DashboardData(s).value.totalAmount + Cost(f.sharesReq, c.val.price)
  {
    SubmitOutcome(s, f, c);
    SubmittedDashboard(s, f, c);
  }

  /** The active company's applications after a submission: the old ones, then the new one. */
  lemma SubmittedDashboard(s: Store, f: ApplicationForm, c: Row<Company>)
    ensures ApplicationsByCompany(Submitted(s, f, c), c.id)
            == ApplicationsByCompany(s, c.id) + [Row(s.applications.lastId + 1, NewApplication(f, s.applicants.lastId + 1, c))]
    ensures Sum(AllotmentRun.Requests(ApplicationsByCompany(Submitted(s, f, c), c.id)))
            == Sum(AllotmentRun.Requests(ApplicationsByCompany(s, c.id))) + f.sharesReq
    ensures Sum(Views.Amounts(ApplicationsByCompany(Submitted(s, f, c), c.id)))
            == Sum(Views.Amounts(ApplicationsByCompany(s, c.id))) + Cost(f.sharesReq, c.val.price)
  {
    var row := Row(s.applications.lastId + 1, NewApplication(f, s.applicants.lastId + 1, c));
    AppendOne(s.applications, row.val);
    assert Submitted(s, f, c).applications.rows == s.applications.rows + [row];
    SelectSnoc(s.applications.rows, row, CompanyOf, c.id);
    assert CompanyOf(row) == c.id;
    SnocTotals(ApplicationsByCompany(s, c.id), row);
  }

  /** One more application adds its request and its amount to the totals. */
  lemma SnocTotals(apps: seq<Row<Application>>, row: Row<Application>)
    ensures Sum(AllotmentRun.Requests(apps + [row])) == Sum(AllotmentRun.Requests(apps)) + row.val.sharesReq
    ensures Sum(Views.Amounts(apps + [row])) == Sum(Views.Amounts(apps)) + row.val.amount
  {
    assert AllotmentRun.Requests(apps + [row]) == AllotmentRun.Requests(apps) + [row.val.sharesReq];
    assert Views.Amounts(apps + [row]) == Views.Amounts(apps) + [row.val.amount];
    SumSnoc(AllotmentRun.Requests(apps), row.val.sharesReq);
    SumSnoc(Views.Amounts(apps), row.val.amount);
  }

  // POST /api/allotment and POST /api/refunds

  /** The allotment runs for the active IPO, and only when it has applications. */
  function RunAllotment(s: Store): (r: Effect<()>)
    ensures s.companies.rows == [] ==> r == Effect(s, Err(NoActiveIpo))
    ensures s.companies.rows != [] && ApplicationsByCompany(s, ActiveCompany(s).value.id) == []
            ==> r == Effect(s, Err(NoApplications))
  {
    match ActiveCompany(s)
    case None => Effect(s, Err(NoActiveIpo))
    case Some(c) =>
      if |ApplicationsByCompany(s, c.id)| == 0 then Effect(s, Err(NoApplications))
      else AllotmentRun.CalculateAllotments(s, c.id)
  }

  /** The refunds are calculated for the active IPO. */
  function RunRefunds(s: Store): (r: Effect<()>)
    ensures s.companies.rows == [] ==> r == Effect(s, Err(NoActiveIpo))
    ensures r.store.applications == s.applications && r.store.allotments == s.allotments
  {
    match ActiveCompany(s)
    case None => Effect(s, Err(NoActiveIpo))
    case Some(c) => RefundRun.CalculateRefunds(s, c.id)
  }

  /** The allotment handler keeps the store valid, whatever its outcome. */
  lemma RunAllotmentKeepsValid(s: Store)
    requires Valid(s)
    ensures Valid(RunAllotment(s).store)
  {
    if s.companies.rows != [] {
      AllotmentRun.RunKeepsValid(s, ActiveCompany(s).value.id);
    }
  }

  /** The refund handler keeps the store valid, whatever its outcome. */
  lemma RunRefundsKeepsValid(s: Store)
    requires Valid(s)
    ensures Valid(RunRefunds(s).store)
  {
    var c := ActiveCompany(s);
    if c.Some? && GetCompany(s, c.value.id).Some? {
      var found := GetCompany(s, c.value.id).value;
      RefundRun.RefundLoopValid(s, RefundRun.AllottedApplications(s, c.value.id), found.val.price, "shares_req");
    }
  }

  /** The active company is found by its id. */
  lemma ActiveIsFound(s: Store, c: Row<Company>)
    requires WellKeyed(s.companies)
    requires ActiveCompany(s) == Some(c)
    ensures GetCompany(s, c.id) == Some(c)
  {
    IncreasingIsUnique(s.companies);
    FirstOfUnique(s.companies, RowId, c);
  }

  /** With applications filed against an active IPO whose pool is not negative, the
      allotment handler succeeds and leaves every one of them Allotted. */
  lemma AllotmentRouteAllotsAll(s: Store, c: Row<Company>, i: int)
    requires Valid(s)
    requires ActiveCompany(s) == Some(c) && c.val.totalShares >= 0
    requires 0 <= i < |ApplicationsByCompany(s, c.id)|
    ensures RunAllotment(s).result.Ok?
    ensures Views.StatusOf(RunAllotment(s).store, ApplicationsByCompany(s, c.id)[i].id) == Views.Allotted
  {
    ActiveIsFound(s, c);
    AllotmentRun.RunOutcome(s, c.id, c);
    Views.StatusAfterAllotment(s, c.id, c, i);
  }

  /** The allotment handler followed by the refund handler writes the refund of
      every short application: its unallotted shares at the IPO's price. */
  lemma RoutesRefundShortfall(s: Store, c: Row<Company>, a: Row<Application>, al: Row<Allotment>)
    requires Valid(s)
    requires ActiveCompany(s) == Some(c) && c.val.totalShares >= 0
    requires a in ApplicationsByCompany(s, c.id)
    requires AllotmentByApplication(RunAllotment(s).store, a.id) == Some(al)
    ensures RunRefunds(RunAllotment(s).store).result.Ok?
    ensures al.val.sharesAlloted < a.val.sharesReq ==>
      && RefundByAllotment(RunRefunds(RunAllotment(s).store).store, al.id).Some?
      && RefundByAllotment(RunRefunds(RunAllotment(s).store).store, al.id).value.val.amount
         == Cost(a.val.sharesReq - al.val.sharesAlloted, c.val.price)
    ensures al.val.sharesAlloted == a.val.sharesReq ==> RefundByAllotment(RunRefunds(RunAllotment(s).store).store, al.id).None?
  {
    ActiveIsFound(s, c);
    assert RunAllotment(s) == AllotmentRun.CalculateAllotments(s, c.id) by {
      assert a in s.applications.rows;
    }
    assert RunRefunds(RunAllotment(s).store) == RefundRun.CalculateRefunds(RunAllotment(s).store, c.id) by {
      AllotmentRun.RunKeepsValid(s, c.id);
    }
    Lifecycle.RefundsAfterAllotment(s, c.id, c, a, al);
  }

  // POST /api/companies

  /** The request body of a new IPO; a number field that is absent is None. */
  datatype CompanyForm = CompanyForm(
    name: string,
    totalShares: Option<int>,
    price: Option<int>,
    startDate: string,
    endDate: string)

  /** A JavaScript number is truthy unless it is absent or 0. */
  predicate Truthy(n: Option<int>) {
    n.Some? && n.value != 0
  }

  /** Every field is present and truthy. */
  predicate FormComplete(f: CompanyForm) {
    f.name != [] && Truthy(f.totalShares) && Truthy(f.price) && f.startDate != [] && f.endDate != []
  }

  /** A form with a falsy field is refused; any other is inserted as it stands,
      so a negative share count or price is accepted. */
  function CreateCompanyRoute(s: Store, f: CompanyForm): (r: Effect<Row<Company>>)
    ensures r.result.Ok? <==> FormComplete(f)
    ensures r.result.Err? ==> r == Effect(s, Err(MissingFields))
    ensures r.result.Ok? ==>
      && r.result.value.val == Company(f.name, f.totalShares.value, f.price.value, f.startDate, f.endDate)
      && r.store == s.(companies := AppendAll(s.companies, [r.result.value.val]))
  {
    if f.name == [] || !Truthy(f.totalShares) || !Truthy(f.price) || f.startDate == [] || f.endDate == [] then
      Effect(s, Err(MissingFields))
    else
      var (s', row) := CreateCompany(s, Company(f.name, f.totalShares.value, f.price.value, f.startDate, f.endDate));
      Effect(s', Ok(row))
  }

  /** Creating a company keeps the store valid, whatever its outcome. */
  lemma CreateCompanyKeepsValid(s: Store, f: CompanyForm)
    requires Valid(s)
    ensures Valid(CreateCompanyRoute(s, f).store)
  {
    if FormComplete(f) {
      var v := Company(f.name, f.totalShares.value, f.price.value, f.startDate, f.endDate);
      AppendKeepsKeys(s.companies, [v]);
      AppendKeepsColumn(s.companies, [v], RowId);
    }
  }

  /** The company just created becomes the active IPO, under a fresh id. */
  lemma CreatedCompanyRouteIsActive(s: Store, f: CompanyForm)
    requires WellKeyed(s.companies)
    requires FormComplete(f)
    ensures ActiveCompany(CreateCompanyRoute(s, f).store) == Some(CreateCompanyRoute(s, f).result.value)
    ensures CreateCompanyRoute(s, f).result.value.id !in Ids(s.companies)
  {
    CreatedCompanyIsActive(s, Company(f.name, f.totalShares.value, f.price.value, f.startDate, f.endDate));
  }

  // GET /api/export: the totals of the reports, folded as Array.prototype.reduce does.

  /** `xs.reduce((sum, x) => sum + x, acc)`. */
  function Reduce(xs: seq<int>, acc: int): int {
    if xs == [] then acc else Reduce(xs[1..], acc + xs[0])
  }

  /** The left fold from 0 is the sum. */
  lemma {:induction false} ReduceIsSum(xs: seq<int>, acc: int)
    ensures Reduce(xs, acc) == acc + Sum(xs)
  {
    if xs != [] {
      ReduceIsSum(xs[1..], acc + xs[0]);
    }
  }

  function AllottedColumn(rows: seq<Views.ResultRow>): (r: seq<int>)
    ensures |r| == |rows|
    ensures forall i :: 0 <= i < |rows| ==> r[i] == Views.OrZero(rows[i].sharesAlloted)
  {
    if rows == [] then [] else [Views.OrZero(rows[0].sharesAlloted)] + AllottedColumn(rows[1..])
  }

  function RequestedColumn(rows: seq<Views.ResultRow>): (r: seq<int>)
    ensures |r| == |rows|
    ensures forall i :: 0 <= i < |rows| ==> r[i] == rows[i].sharesReq
  {
    if rows == [] then [] else [rows[0].sharesReq] + RequestedColumn(rows[1..])
  }

  function RefundColumn(rows: seq<Views.ResultRow>): (r: seq<int>)
    ensures |r| == |rows|
    ensures forall i :: 0 <= i < |rows| ==> r[i] == Views.OrZero(rows[i].refundAmount)
  {
    if rows == [] then [] else [Views.OrZero(rows[0].refundAmount)] + RefundColumn(rows[1..])
  }

  datatype Summary = Summary(totalAllotted: int, totalRequested: int, totalRefunds: int)

  /** The summary of the allotment report. */
  function AllotmentSummary(rows: seq<Views.ResultRow>): (r: Summary)
    ensures r.totalAllotted == Sum(AllottedColumn(rows))
    ensures r.totalRequested == Sum(RequestedColumn(rows))
    ensures r.totalRefunds == Sum(RefundColumn(rows))
  {
    ReduceIsSum(AllottedColumn(rows), 0);
    ReduceIsSum(RequestedColumn(rows), 0);
    ReduceIsSum(RefundColumn(rows), 0);
    Summary(Reduce(AllottedColumn(rows), 0), Reduce(RequestedColumn(rows), 0), Reduce(RefundColumn(rows), 0))
  }

  datatype RefundReport = RefundReport(refunds: seq<Views.ResultRow>, totalRefundAmount: int)

  /** The rows whose refund reads as a positive amount. */
  function PositiveRefunds(rows: seq<Views.ResultRow>): (r: seq<Views.ResultRow>)
    ensures forall x :: x in r <==> x in rows && Views.OrZero(x.refundAmount) > 0
  {
    if rows == [] then []
    else if Views.OrZero(rows[0].refundAmount) > 0 then [rows[0]] + PositiveRefunds(rows[1..])
    else PositiveRefunds(rows[1..])
  }

  /** The listing keeps the rows in report order: listing two runs of rows one after
      the other lists each run in turn, and a single row is kept exactly when its refund is positive. */
  lemma {:induction false} PositiveRefundsConcat(a: seq<Views.ResultRow>, b: seq<Views.ResultRow>)
    ensures PositiveRefunds(a + b) == PositiveRefunds(a) + PositiveRefunds(b)
  {
    if a != [] {
      assert (a + b)[1..] == a[1..] + b;
      PositiveRefundsConcat(a[1..], b);
    } else {
      assert a + b == b;
    }
  }

  /** The refund report lists the positive refunds and totals the refund column of every row. */
  function RefundsReport(rows: seq<Views.ResultRow>): (r: RefundReport)
    ensures r.totalRefundAmount == Sum(RefundColumn(rows))
    ensures forall x :: x in r.refunds <==> x in rows && Views.OrZero(x.refundAmount) > 0
  {
    ReduceIsSum(RefundColumn(rows), 0);
    RefundReport(PositiveRefunds(rows), Reduce(RefundColumn(rows), 0))
  }

  /** The refund report's listing is the order-preserving filter of the rows: the
      report of two runs of rows lists the first run's refunds before the second's,
      and a single row is listed exactly when its refund is positive. */
  lemma RefundsReportInOrder(a: seq<Views.ResultRow>, b: seq<Views.ResultRow>, x: Views.ResultRow)
    ensures RefundsReport(a + b).refunds == RefundsReport(a).refunds + RefundsReport(b).refunds
    ensures RefundsReport([x]).refunds == if Views.OrZero(x.refundAmount) > 0 then [x] else []
  {
    PositiveRefundsConcat(a, b);
    assert [x][1..] == [];
    assert PositiveRefunds([x]) == (if Views.OrZero(x.refundAmount) > 0 then [x] else []) + PositiveRefunds([]);
  }

  /** With no negative refund, the report's total is the total of the rows it lists,
      and it agrees with the allotment report's refund total. */
  lemma {:induction false} ReportTotalIsListedTotal(rows: seq<Views.ResultRow>)
    requires forall i :: 0 <= i < |rows| ==> Views.OrZero(rows[i].refundAmount) >= 0
    ensures RefundsReport(rows).totalRefundAmount == Sum(RefundColumn(RefundsReport(rows).refunds))
    ensures RefundsReport(rows).totalRefundAmount == AllotmentSummary(rows).totalRefunds
  {
    if rows != [] {
      ReportTotalIsListedTotal(rows[1..]);
      assert RefundColumn(rows)[1..] == RefundColumn(rows[1..]);
      if Views.OrZero(rows[0].refundAmount) > 0 {
        assert RefundColumn([rows[0]] + PositiveRefunds(rows[1..]))[1..] == RefundColumn(PositiveRefunds(rows[1..]));
      }
    }
  }

  /** The totals of the allotment report of a valid store are the sums over every
      application ever filed: of its demand, of the shares allotted to it (0 before
      the run) and of the refund on its allotment (0 where there is none). */
  lemma ExportTotals(s: Store)
    requires Valid(s)
    ensures AllotmentSummary(Views.AllotmentResults(s)).totalRequested == Sum(AllotmentRun.Requests(s.applications.rows))
    ensures AllotmentSummary(Views.AllotmentResults(s)).totalAllotted == Sum(AllotmentRun.AllottedShares(s, s.applications.rows))
    ensures AllotmentSummary(Views.AllotmentResults(s)).totalRefunds == Sum(ApplicationRefunds(s, s.applications.rows))
  {
    var apps, results := s.applications.rows, Views.AllotmentResults(s);
    assert |results| == |apps| && forall i :: 0 <= i < |apps| ==>
      Views.ResultOf(s, apps[i]).Some? && results[|apps| - 1 - i] == Views.ResultOf(s, apps[i]).value
    by {
      Views.ResultsListApplications(s);
    }
    ResultColumns(s, apps, results);
    RequestedReversed(apps, results);
    AllottedReversed(s, apps, results);
    RefundsReversed(s, apps, results);
  }

  /** Rows that are the applications' result rows, newest first, carry each
      application's demand, allotted shares and refund. */
  lemma ResultColumns(s: Store, apps: seq<Row<Application>>, results: seq<Views.ResultRow>)
    requires |results| == |apps|
    requires forall i :: 0 <= i < |apps| ==>
      Views.ResultOf(s, apps[i]).Some? && results[|apps| - 1 - i] == Views.ResultOf(s, apps[i]).value
    ensures forall i :: 0 <= i < |apps| ==> results[|apps| - 1 - i].sharesReq == apps[i].val.sharesReq
    ensures forall i :: 0 <= i < |apps| ==> results[|apps| - 1 - i].sharesAlloted == AllotmentRun.Allotted(s, apps[i].id)
    ensures forall i :: 0 <= i < |apps| ==> results[|apps| - 1 - i].refundAmount == Views.RefundOf(s, apps[i].id)
  {
    forall i | 0 <= i < |apps|
      ensures results[|apps| - 1 - i].sharesReq == apps[i].val.sharesReq
      ensures results[|apps| - 1 - i].sharesAlloted == AllotmentRun.Allotted(s, apps[i].id)
      ensures results[|apps| - 1 - i].refundAmount == Views.RefundOf(s, apps[i].id)
    {
      var row := Views.ResultOf(s, apps[i]);
    }
  }

  lemma RequestedReversed(apps: seq<Row<Application>>, results: seq<Views.ResultRow>)
    requires |results| == |apps|
    requires forall i :: 0 <= i < |apps| ==> results[|apps| - 1 - i].sharesReq == apps[i].val.sharesReq
    ensures AllotmentSummary(results).totalRequested == Sum(AllotmentRun.Requests(apps))
  {
    SumReverse(AllotmentRun.Requests(apps), RequestedColumn(results));
  }

  lemma AllottedReversed(s: Store, apps: seq<Row<Application>>, results: seq<Views.ResultRow>)
    requires |results| == |apps|
    requires forall i :: 0 <= i < |apps| ==> results[|apps| - 1 - i].sharesAlloted == AllotmentRun.Allotted(s, apps[i].id)
    ensures AllotmentSummary(results).totalAllotted == Sum(AllotmentRun.AllottedShares(s, apps))
  {
    forall i | 0 <= i < |apps|
      ensures AllottedColumn(results)[|results| - 1 - i] == AllotmentRun.AllottedShares(s, apps)[i]
    {
      match results[|apps| - 1 - i].sharesAlloted
      case None =>
      case Some(n) =>
    }
    SumReverse(AllotmentRun.AllottedShares(s, apps), AllottedColumn(results));
  }

  /** The amount refunded on each application, 0 where there is none. */
  function ApplicationRefunds(s: Store, apps: seq<Row<Application>>): (r: seq<int>)
    ensures |r| == |apps|
    ensures forall i :: 0 <= i < |apps| ==> r[i] == Views.OrZero(Views.RefundOf(s, apps[i].id))
  {
    if apps == [] then [] else [Views.OrZero(Views.RefundOf(s, apps[0].id))] + ApplicationRefunds(s, apps[1..])
  }

  lemma RefundsReversed(s: Store, apps: seq<Row<Application>>, results: seq<Views.ResultRow>)
    requires |results| == |apps|
    requires forall i :: 0 <= i < |apps| ==> results[|apps| - 1 - i].refundAmount == Views.RefundOf(s, apps[i].id)
    ensures AllotmentSummary(results).totalRefunds == Sum(ApplicationRefunds(s, apps))
  {
    SumReverse(ApplicationRefunds(s, apps), RefundColumn(results));
  }
}
