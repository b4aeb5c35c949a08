/** Properties of the two runs together: what the refund run writes after
    a successful allotment run, and a store on which the refund run as
    written and the corrected one differ. */
module Lifecycle {
  import opened Base
  import opened Tables
  import opened Schema
  import opened Storage
  import opened AllotmentRun
  import opened RefundRun
  import Allocation

  /** Refunds after a successful allotment run: the refund run succeeds, and
      an application of the company whose allotment holds fewer shares than
      it requested is refunded (sharesReq - allotted) * price, while one
      allotted its whole request gets nothing. Every application of the
      company has such an allotment, holding its share of the plan
      (RunAllotsEveryApplication). */
  lemma RefundsAfterAllotment(s: Store, cid: int, c: Row<Company>, a: Row<Application>, al: Row<Allotment>)
    requires Valid(s)
    requires GetCompany(s, cid) == Some(c) && c.val.totalShares >= 0
    requires a in ApplicationsByCompany(s, cid)
    requires AllotmentByApplication(CalculateAllotments(s, cid).store, a.id) == Some(al)
    ensures CalculateRefunds(CalculateAllotments(s, cid).store, cid).result.Ok?
    ensures al.val.sharesAlloted < a.val.sharesReq ==>
              RefundByAllotment(CalculateRefunds(CalculateAllotments(s, cid).store, cid).store, al.id).Some?
              && RefundByAllotment(CalculateRefunds(CalculateAllotments(s, cid).store, cid).store, al.id).value.val.amount
                 == Cost(a.val.sharesReq - al.val.sharesAlloted, c.val.price)
    ensures al.val.sharesAlloted == a.val.sharesReq
            ==> RefundByAllotment(CalculateRefunds(CalculateAllotments(s, cid).store, cid).store, al.id).None?
  {
    var allotted := CalculateAllotments(s, cid).store;
    assert Valid(allotted) && GetCompany(allotted, cid) == Some(c) && Unrefunded(allotted, cid)
      && a in ApplicationsByCompany(allotted, cid) by {
      AllottedUnrefunded(s, cid, c);
    }
    RefundRunOk(allotted, cid, c);
    RefundPerApplication(allotted, cid, c, a, al, 0);
  }

  /** The refund run succeeds on a store whose company allotments are not yet refunded. */
  lemma RefundRunOk(s: Store, cid: int, c: Row<Company>)
    requires Valid(s)
    requires GetCompany(s, cid) == Some(c)
    requires Unrefunded(s, cid)
    ensures CalculateRefunds(s, cid).result.Ok?
  {
    RefundOutcome(s, cid, c);
  }

  // A store where the two readings differ.

  /** One company of 100 shares at price 10, with two applications of 100 shares each. */
  function OversubscribedStore(): Store {
    Store(
      Table([Row(1, Company("Acme", 100, 10, "2025-01-01", "2025-01-05"))], 1),
      Table([Row(1, Applicant("Asha", "ABCDE1234F", "1234567890123456")),
             Row(2, Applicant("Ravi", "PQRST6789Z", "6543210987654321"))], 2),
      Table([Row(1, Application(1, 1, 100, 1000)), Row(2, Application(2, 1, 100, 1000))], 2),
      EmptyTable(),
      EmptyTable())
  }

  lemma OversubscribedStoreValid(s: Store)
    requires s == OversubscribedStore()
    ensures Valid(s)
  {
    OversubscribedKeys(s);
    OversubscribedUnique(s);
    OversubscribedRefs(s);
  }

  lemma OversubscribedKeys(s: Store)
    requires s == OversubscribedStore()
    ensures KeysValid(s)
  {
    assert Increasing(s.applicants.rows) && Increasing(s.applications.rows);
  }

  lemma OversubscribedUnique(s: Store)
    requires s == OversubscribedStore()
    ensures UniqueValid(s)
  {
    assert PanOf(s.applicants.rows[0]) != PanOf(s.applicants.rows[1]);
    assert DematOf(s.applicants.rows[0]) != DematOf(s.applicants.rows[1]);
  }

  lemma OversubscribedRefs(s: Store)
    requires s == OversubscribedStore()
    ensures RefsValid(s)
  {
    assert RowId(s.companies.rows[0]) in Ids(s.companies);
    assert RowId(s.applicants.rows[0]) in Ids(s.applicants);
    assert RowId(s.applicants.rows[1]) in Ids(s.applicants);
  }

  /** The store's company, its two applications and the pro-rata plan of 50 shares each. */
  lemma OversubscribedFacts(s: Store)
    requires s == OversubscribedStore()
    ensures Valid(s) && GetCompany(s, 1) == Some(s.companies.rows[0])
    ensures s.companies.rows[0].val.totalShares == 100 && s.companies.rows[0].val.price == 10
    ensures var apps := ApplicationsByCompany(s, 1);
      && |apps| == 2
      && apps[0].id == 1 && apps[0].val.sharesReq == 100
      && apps[1].id == 2 && apps[1].val.sharesReq == 100
      && Allocation.Plan(Requests(apps), 100) == [50, 50]
  {
    OversubscribedStoreValid(s);
    OversubscribedApplications(s);
  }

  lemma OversubscribedApplications(s: Store)
    requires s == OversubscribedStore()
    ensures var apps := ApplicationsByCompany(s, 1);
      && apps == s.applications.rows
      && Allocation.Plan(Requests(apps), 100) == [50, 50]
  {
    var apps := ApplicationsByCompany(s, 1);
    assert apps == s.applications.rows by {
      assert CompanyOf(s.applications.rows[0]) == 1 && CompanyOf(s.applications.rows[1]) == 1;
    }
    assert Requests(apps) == [100, 100];
    PlanOfTwoHundred();
  }

  lemma PlanOfTwoHundred()
    ensures Allocation.Plan([100, 100], 100) == [50, 50]
  {
    assert Sum([100, 100]) == 200;
  }

  /** Each application receives 50 of its 100 shares, and the refund run as
      written then succeeds without writing a refund. */
  lemma OversubscribedRefunds(s: Store)
    requires s == OversubscribedStore()
    ensures var allotted := CalculateAllotments(s, 1).store;
      && Allotted(allotted, 1) == Some(50) && Allotted(allotted, 2) == Some(50)
      && allotted.refunds.rows == []
      && CalculateRefundsAsWritten(allotted, 1) == Effect(allotted, Ok(()))
  {
    OversubscribedFacts(s);
    HalfAllotted(s, s.companies.rows[0]);
  }

  /** On the same store the corrected run refunds 50 * 10 = 500 on each of the two allotments. */
  lemma OversubscribedCorrected(s: Store, id: int)
    requires s == OversubscribedStore()
    requires id == 1 || id == 2
    ensures var allotted := CalculateAllotments(s, 1).store;
      && AllotmentByApplication(allotted, id).Some?
      && RefundByAllotment(CalculateRefunds(allotted, 1).store, AllotmentByApplication(allotted, id).value.id).Some?
      && RefundByAllotment(CalculateRefunds(allotted, 1).store, AllotmentByApplication(allotted, id).value.id).value.val.amount == 500
  {
    OversubscribedFacts(s);
    var c := s.companies.rows[0];
    var allotted := CalculateAllotments(s, 1).store;
    assert AllotmentByApplication(allotted, id).Some? by {
      RunAllotsEveryApplication(s, 1, c, id - 1);
    }
    HalfRefunded(s, c, id - 1, AllotmentByApplication(allotted, id).value);
  }

  /** Two applications of 100 shares against a pool of 100, whatever else the store holds. */
  lemma HalfAllotted(s: Store, c: Row<Company>)
    requires Valid(s) && GetCompany(s, 1) == Some(c)
    requires c.val.totalShares == 100
    requires s.refunds.rows == []
    requires var apps := ApplicationsByCompany(s, 1);
      && |apps| == 2
      && apps[0].id == 1 && apps[1].id == 2
      && Allocation.Plan(Requests(apps), 100) == [50, 50]
    ensures var allotted := CalculateAllotments(s, 1).store;
      && Allotted(allotted, 1) == Some(50) && Allotted(allotted, 2) == Some(50)
      && allotted.refunds.rows == []
      && CalculateRefundsAsWritten(allotted, 1) == Effect(allotted, Ok(()))
  {
    var allotted := CalculateAllotments(s, 1).store;
    assert Allotted(allotted, 1) == Some(50) && Allotted(allotted, 2) == Some(50) by {
      RunAllotsEveryApplication(s, 1, c, 0);
      RunAllotsEveryApplication(s, 1, c, 1);
    }
    assert allotted.refunds.rows == [] by {
      RunOutcome(s, 1, c);
      ClearFacts(s, 1);
    }
    AllottedUnrefunded(s, 1, c);
    AsWrittenRefundsNothing(allotted, 1);
  }

  /** Application `i` of the two in the oversubscribed store is refunded 500. */
  lemma HalfRefunded(s: Store, c: Row<Company>, i: int, al: Row<Allotment>)
    requires Valid(s) && GetCompany(s, 1) == Some(c)
    requires c.val.totalShares == 100 && c.val.price == 10
    requires var apps := ApplicationsByCompany(s, 1);
      && |apps| == 2 && 0 <= i < 2
      && apps[i].id == i + 1 && apps[i].val.sharesReq == 100
      && Allocation.Plan(Requests(apps), 100) == [50, 50]
    requires AllotmentByApplication(CalculateAllotments(s, 1).store, i + 1) == Some(al)
    ensures RefundByAllotment(CalculateRefunds(CalculateAllotments(s, 1).store, 1).store, al.id).Some?
    ensures RefundByAllotment(CalculateRefunds(CalculateAllotments(s, 1).store, 1).store, al.id).value.val.amount == 500
  {
    var apps := ApplicationsByCompany(s, 1);
    HalfShares(s, c, i, al);
    assert apps[i] in apps;
    RefundsAfterAllotment(s, 1, c, apps[i], al);
    assert Cost(100 - 50, 10) == 500;
  }

  /** Application `i` of the two in the oversubscribed store is allotted 50 shares. */
  lemma HalfShares(s: Store, c: Row<Company>, i: int, al: Row<Allotment>)
    requires Valid(s) && GetCompany(s, 1) == Some(c) && c.val.totalShares == 100
    requires var apps := ApplicationsByCompany(s, 1);
      && |apps| == 2 && 0 <= i < 2 && apps[i].id == i + 1
      && Allocation.Plan(Requests(apps), 100) == [50, 50]
    requires AllotmentByApplication(CalculateAllotments(s, 1).store, i + 1) == Some(al)
    ensures al.val.sharesAlloted == 50
  {
    var apps := ApplicationsByCompany(s, 1);
    var fin := CalculateAllotments(s, 1).store;
    RunAllotsEveryApplication(s, 1, c, i);
    assert Allotted(fin, apps[i].id) == Some(Allocation.Plan(Requests(apps), 100)[i]);
    assert Allotted(fin, i + 1) == Some(50);
  }
}
