/** The allotment run of one company: clear the company's previous results,
    then insert one allotment per application as the allocation plan says. */
module AllotmentRun {
  import opened Base
  import opened Tables
  import opened Schema
  import opened Storage
  import Allocation

  /** The ids of the company's applications. */
  function CompanyApplicationIds(s: Store, cid: int): set<int> {
    set a | a in s.applications.rows && a.val.companyId == cid :: a.id
  }

  /** The ids of the allotments that join to an application of the company. */
  function CompanyAllotmentIds(s: Store, cid: int): set<int> {
    set al | al in s.allotments.rows && al.val.applicationId in CompanyApplicationIds(s, cid) :: al.id
  }

  /** The two DELETEs that open a run: the company's refunds first (they
      reference its allotments), then its allotments. */
  function ClearResults(s: Store, cid: int): Store {
    var s1 := s.(refunds := DeleteWhere(s.refunds, AllotmentOf, CompanyAllotmentIds(s, cid)));
    s1.(allotments := DeleteWhere(s1.allotments, ApplicationOf, CompanyApplicationIds(s1, cid)))
  }

  function Requests(apps: seq<Row<Application>>): (r: seq<int>)
    ensures |r| == |apps|
    ensures forall i :: 0 <= i < |apps| ==> r[i] == apps[i].val.sharesReq
  {
    if apps == [] then [] else [apps[0].val.sharesReq] + Requests(apps[1..])
  }

  /** The allotments a run means to insert: application i gets shares[i]. */
  function NewAllotments(apps: seq<Row<Application>>, shares: seq<int>): (r: seq<Allotment>)
    requires |apps| == |shares|
    ensures |r| == |apps|
    ensures forall i :: 0 <= i < |apps| ==> r[i] == Allotment(apps[i].id, shares[i])
  {
    seq(|apps|, i requires 0 <= i < |apps| => Allotment(apps[i].id, shares[i]))
  }

  /** createAllotment for each application in turn; the first failure stops the run. */
  function InsertAllotments(s: Store, apps: seq<Row<Application>>, shares: seq<int>): Effect<()>
    requires |apps| == |shares|
    decreases |apps|
  {
    if apps == [] then Effect(s, Ok(()))
    else
      var e := CreateAllotment(s, apps[0].id, Some(shares[0]));
      if e.result.Err? then Effect(e.store, Err(e.result.error))
      else InsertAllotments(e.store, apps[1..], shares[1..])
  }

  /** calculateAllotments(companyId). */
  function CalculateAllotments(s: Store, cid: int): (r: Effect<()>)
    ensures GetCompany(s, cid).None? ==> r == Effect(s, Err(CompanyNotFound))
  {
    match GetCompany(s, cid)
    case None => Effect(s, Err(CompanyNotFound))
    case Some(c) =>
      var cleared := ClearResults(s, cid);
      var apps := ApplicationsByCompany(cleared, cid);
      InsertAllotments(cleared, apps, Allocation.Plan(Requests(apps), c.val.totalShares))
  }

  /** The store a successful run of a company leaves behind. */
  function AllottedStore(s: Store, cid: int, pool: int): Store {
    var cleared := ClearResults(s, cid);
    var apps := ApplicationsByCompany(s, cid);
    cleared.(allotments := AppendAll(cleared.allotments, NewAllotments(apps, Allocation.Plan(Requests(apps), pool))))
  }

  // The inserts of a run.

  /** Applications that can each receive a new allotment without tripping the
      guard, the UNIQUE column or the foreign key. */
  ghost predicate Insertable(s: Store, apps: seq<Row<Application>>, shares: seq<int>) {
    && |apps| == |shares|
    && (forall i :: 0 <= i < |apps| ==> apps[i].id != 0 && shares[i] >= 0 && apps[i].id in Ids(s.applications))
    && (forall i :: 0 <= i < |apps| ==> AllotmentByApplication(s, apps[i].id).None?)
    && (forall i, j :: 0 <= i < j < |apps| ==> apps[i].id != apps[j].id)
  }

  lemma {:induction false} InsertAllotmentsOk(s: Store, apps: seq<Row<Application>>, shares: seq<int>)
    requires Insertable(s, apps, shares)
    ensures InsertAllotments(s, apps, shares)
         == Effect(s.(allotments := AppendAll(s.allotments, NewAllotments(apps, shares))), Ok(()))
    decreases |apps|
  {
    if apps == [] {
      AppendNone(s.allotments);
      assert NewAllotments(apps, shares) == [];
    } else {
      var v := Allotment(apps[0].id, shares[0]);
      var s1 := CreateAllotment(s, apps[0].id, Some(shares[0])).store;
      assert s1 == s.(allotments := AppendAll(s.allotments, [v]));
      forall i | 0 <= i < |apps[1..]| ensures AllotmentByApplication(s1, apps[1..][i].id).None? {
        assert apps[1..][i] == apps[i + 1];
        forall x | x in s1.allotments.rows ensures ApplicationOf(x) != apps[i + 1].id {
          if x !in s.allotments.rows {
            assert x == Row(s.allotments.lastId + 1, v);
          }
        }
      }
      InsertAllotmentsOk(s1, apps[1..], shares[1..]);
      AppendAppend(s.allotments, [v], NewAllotments(apps[1..], shares[1..]));
      assert [v] + NewAllotments(apps[1..], shares[1..]) == NewAllotments(apps, shares);
    }
  }

  lemma {:induction false} InsertAllotmentsRejects(s: Store, apps: seq<Row<Application>>, shares: seq<int>, k: int)
    requires |apps| == |shares|
    requires 0 <= k < |shares| && shares[k] < 0
    requires forall i :: 0 <= i < k ==> apps[i].id != 0 && shares[i] >= 0 && apps[i].id in Ids(s.applications)
    requires forall i :: 0 <= i < |apps| ==> AllotmentByApplication(s, apps[i].id).None?
    requires forall i, j :: 0 <= i < j < |apps| ==> apps[i].id != apps[j].id
    ensures InsertAllotments(s, apps, shares).result == Err(InvalidAllotmentData)
    ensures k == 0 ==> InsertAllotments(s, apps, shares).store == s
    decreases |apps|
  {
    if k > 0 {
      var v := Allotment(apps[0].id, shares[0]);
      var s1 := CreateAllotment(s, apps[0].id, Some(shares[0])).store;
      assert s1 == s.(allotments := AppendAll(s.allotments, [v]));
      forall i | 0 <= i < |apps[1..]| ensures AllotmentByApplication(s1, apps[1..][i].id).None? {
        assert apps[1..][i] == apps[i + 1];
        forall x | x in s1.allotments.rows ensures ApplicationOf(x) != apps[i + 1].id {
          if x !in s.allotments.rows {
            assert x == Row(s.allotments.lastId + 1, v);
          }
        }
      }
      InsertAllotmentsRejects(s1, apps[1..], shares[1..], k - 1);
    }
  }

  /** One new allotment for an application in the store, with no allotment yet, keeps the store valid. */
  lemma AddAllotmentValid(s: Store, app: Row<Application>, shares: int)
    requires Valid(s)
    requires app in s.applications.rows
    requires AllotmentByApplication(s, app.id).None?
    ensures Valid(s.(allotments := AppendAll(s.allotments, [Allotment(app.id, shares)])))
  {
    var v := Allotment(app.id, shares);
    var s1 := s.(allotments := AppendAll(s.allotments, [v]));
    AppendKeepsKeys(s.allotments, [v]);
    var row := Row(s.allotments.lastId + 1, v);
    assert ApplicationOf(row) !in ColumnValues(s.allotments, ApplicationOf);
    AppendOneKeepsUnique(s.allotments, v, ApplicationOf);
    AppendKeepsColumn(s.allotments, [v], RowId);
    assert KeysValid(s1);
    assert UniqueValid(s1);
    assert app.id in Ids(s.applications);
    forall a | a in s1.allotments.rows ensures a.val.applicationId in Ids(s1.applications) {
      if a !in s.allotments.rows {
        assert a == row;
      }
    }
    assert Ids(s.allotments) <= Ids(s1.allotments);
    assert s1.refunds == s.refunds && s1.applications == s.applications;
    assert RefsValid(s1);
  }

  /** Every insert of a run references an application in the store, so the store stays valid however the run ends. */
  lemma {:induction false} InsertAllotmentsValid(s: Store, apps: seq<Row<Application>>, shares: seq<int>)
    requires Valid(s)
    requires |apps| == |shares|
    requires forall a :: a in apps ==> a in s.applications.rows
    ensures Valid(InsertAllotments(s, apps, shares).store)
    ensures InsertAllotments(s, apps, shares).store.applications == s.applications
    ensures InsertAllotments(s, apps, shares).store.companies == s.companies
    decreases |apps|
  {
    if apps != [] {
      var e := CreateAllotment(s, apps[0].id, Some(shares[0]));
      if e.result.Ok? {
        assert apps[0] in apps;
        AddAllotmentValid(s, apps[0], shares[0]);
        forall a | a in apps[1..] ensures a in e.store.applications.rows {
          assert a in apps;
        }
        InsertAllotmentsValid(e.store, apps[1..], shares[1..]);
      }
    }
  }

  // Clearing.

  lemma ClearFacts(s: Store, cid: int)
    requires Valid(s)
    ensures Valid(ClearResults(s, cid))
    ensures ClearResults(s, cid).companies == s.companies
    ensures ClearResults(s, cid).applicants == s.applicants
    ensures ClearResults(s, cid).applications == s.applications
    ensures forall x :: x in ClearResults(s, cid).allotments.rows <==>
      x in s.allotments.rows && x.val.applicationId !in CompanyApplicationIds(s, cid)
    ensures forall x :: x in ClearResults(s, cid).refunds.rows <==>
      x in s.refunds.rows && x.val.allotmentId !in CompanyAllotmentIds(s, cid)
  {
    var c := ClearResults(s, cid);
    var appIds := CompanyApplicationIds(s, cid);
    var allotIds := CompanyAllotmentIds(s, cid);
    DeleteKeepsKeys(s.refunds, AllotmentOf, allotIds);
    DeleteKeepsUnique(s.refunds, AllotmentOf, allotIds, AllotmentOf);
    DeleteKeepsKeys(s.allotments, ApplicationOf, appIds);
    DeleteKeepsUnique(s.allotments, ApplicationOf, appIds, ApplicationOf);
    forall f | f in c.refunds.rows ensures f.val.allotmentId in Ids(c.allotments) {
      assert f.val.allotmentId in Ids(s.allotments);
      var al :| al in s.allotments.rows && RowId(al) == f.val.allotmentId;
      assert al.val.applicationId !in appIds;
      assert al in c.allotments.rows;
    }
  }

  /** The allotments the second DELETE removes are exactly those whose refunds
      the first one removed, so no remaining refund references a deleted
      allotment and the foreign key on refunds.allotment_id never refuses the deletion. */
  lemma ClearLeavesNoDanglingRefund(s: Store, cid: int)
    ensures forall f :: f in ClearResults(s, cid).refunds.rows && f.val.allotmentId in Ids(s.allotments)
                        ==> f.val.allotmentId in Ids(ClearResults(s, cid).allotments)
  {
    var cleared := ClearResults(s, cid);
    forall f | f in cleared.refunds.rows && f.val.allotmentId in Ids(s.allotments)
      ensures f.val.allotmentId in Ids(cleared.allotments)
    {
      var al :| al in s.allotments.rows && RowId(al) == f.val.allotmentId;
      assert f.val.allotmentId !in CompanyAllotmentIds(s, cid);
      assert al.val.applicationId !in CompanyApplicationIds(s, cid);
      assert al in cleared.allotments.rows;
      IdOfRow(cleared.allotments, al);
    }
  }

  // The run.

  lemma PlanNonNegative(apps: seq<Row<Application>>, pool: int)
    requires pool >= 0
    requires forall a :: a in apps ==> a.val.sharesReq >= 1
    ensures forall i :: 0 <= i < |apps| ==> Allocation.Plan(Requests(apps), pool)[i] >= 0
  {
    var reqs := Requests(apps);
    forall i | 0 <= i < |apps| ensures Allocation.Plan(reqs, pool)[i] >= 0 {
      assert apps[i] in apps;
      if Sum(reqs) > pool {
        Allocation.ProRataShare(reqs, pool, i);
      }
    }
  }

  /** The applications a run inserts for: distinct, non-zero ids with no
      allotment left after the deletions, each requesting at least one share. */
  lemma ClearedApplications(s: Store, cid: int)
    requires Valid(s)
    ensures var cleared := ClearResults(s, cid);
      var apps := ApplicationsByCompany(cleared, cid);
      && apps == ApplicationsByCompany(s, cid)
      && (forall i :: 0 <= i < |apps| ==> apps[i].id != 0 && apps[i].val.sharesReq >= 1)
      && (forall i :: 0 <= i < |apps| ==> apps[i].id in Ids(cleared.applications))
      && (forall i :: 0 <= i < |apps| ==> AllotmentByApplication(cleared, apps[i].id).None?)
      && (forall i, j :: 0 <= i < j < |apps| ==> apps[i].id != apps[j].id)
  {
    var cleared := ClearResults(s, cid);
    ClearFacts(s, cid);
    var apps := ApplicationsByCompany(cleared, cid);
    SelectIncreasing(s.applications.rows, CompanyOf, cid);
    forall i | 0 <= i < |apps| ensures AllotmentByApplication(cleared, apps[i].id).None? {
      assert apps[i] in apps;
      assert apps[i].id in CompanyApplicationIds(s, cid);
    }
    forall i | 0 <= i < |apps| ensures apps[i].id != 0 && apps[i].val.sharesReq >= 1 {
      assert apps[i] in s.applications.rows;
    }
    forall i | 0 <= i < |apps| ensures apps[i].id in Ids(cleared.applications) {
      assert apps[i] in cleared.applications.rows;
      assert RowId(apps[i]) in ColumnValues(cleared.applications, RowId);
    }
  }

  /** With a non-negative pool the run on a valid store succeeds and leaves exactly the cleared store plus the plan. */
  lemma RunOutcome(s: Store, cid: int, c: Row<Company>)
    requires Valid(s)
    requires GetCompany(s, cid) == Some(c) && c.val.totalShares >= 0
    ensures CalculateAllotments(s, cid) == Effect(AllottedStore(s, cid, c.val.totalShares), Ok(()))
  {
    var cleared := ClearResults(s, cid);
    ClearedApplications(s, cid);
    var apps := ApplicationsByCompany(cleared, cid);
    var shares := Allocation.Plan(Requests(apps), c.val.totalShares);
    forall a | a in apps ensures a.val.sharesReq >= 1 {
    }
    PlanNonNegative(apps, c.val.totalShares);
    InsertAllotmentsOk(cleared, apps, shares);
  }

  /** A valid store stays valid through a run, whatever the run ends with. */
  lemma RunKeepsValid(s: Store, cid: int)
    requires Valid(s)
    ensures Valid(CalculateAllotments(s, cid).store)
    ensures CalculateAllotments(s, cid).store.applications == s.applications
    ensures CalculateAllotments(s, cid).store.companies == s.companies
  {
    if GetCompany(s, cid).Some? {
      var cleared := ClearResults(s, cid);
      ClearFacts(s, cid);
      var c := GetCompany(s, cid).value;
      var apps := ApplicationsByCompany(cleared, cid);
      InsertAllotmentsValid(cleared, apps, Allocation.Plan(Requests(apps), c.val.totalShares));
    }
  }

  // What a successful run leaves in the store.

  /** The shares allotted to an application, if it has an allotment. */
  function Allotted(s: Store, applicationId: int): Option<int> {
    match AllotmentByApplication(s, applicationId)
    case None => None
    case Some(a) => Some(a.val.sharesAlloted)
  }

  /** The shares allotted to each application, zero where there is no allotment yet. */
  function AllottedShares(s: Store, apps: seq<Row<Application>>): (r: seq<int>)
    ensures |r| == |apps|
    ensures forall i :: 0 <= i < |apps| ==> r[i] == match Allotted(s, apps[i].id) case None => 0 case Some(n) => n
  {
    if apps == [] then []
    else [match Allotted(s, apps[0].id) case None => 0 case Some(n) => n] + AllottedShares(s, apps[1..])
  }

  lemma AllottedStoreRows(s: Store, cid: int, c: Row<Company>)
    requires Valid(s)
    requires GetCompany(s, cid) == Some(c) && c.val.totalShares >= 0
    ensures Valid(AllottedStore(s, cid, c.val.totalShares))
    ensures var fin := AllottedStore(s, cid, c.val.totalShares);
      && fin.companies == s.companies && fin.applicants == s.applicants && fin.applications == s.applications
      && (forall x :: x in fin.refunds.rows <==> x in s.refunds.rows && x.val.allotmentId !in CompanyAllotmentIds(s, cid))
      && (forall x :: x in fin.allotments.rows ==>
            (x in s.allotments.rows && x.val.applicationId !in CompanyApplicationIds(s, cid))
            || x.val.applicationId in CompanyApplicationIds(s, cid))
      && (forall x :: x in s.allotments.rows && x.val.applicationId !in CompanyApplicationIds(s, cid) ==> x in fin.allotments.rows)
  {
    assert Valid(AllottedStore(s, cid, c.val.totalShares)) by {
      RunOutcome(s, cid, c);
      RunKeepsValid(s, cid);
    }
    ClearFacts(s, cid);
    AllottedStoreNewRows(s, cid, c.val.totalShares);
  }

  /** The rows a successful run adds are allotments of the company's applications, after the rows the clearing kept. */
  lemma AllottedStoreNewRows(s: Store, cid: int, pool: int)
    ensures var cleared := ClearResults(s, cid);
      var fin := AllottedStore(s, cid, pool);
      && (forall x :: x in fin.allotments.rows ==>
            x in cleared.allotments.rows || x.val.applicationId in CompanyApplicationIds(s, cid))
      && (forall x :: x in cleared.allotments.rows ==> x in fin.allotments.rows)
  {
    var cleared := ClearResults(s, cid);
    var apps := ApplicationsByCompany(s, cid);
    var news := NewAllotments(apps, Allocation.Plan(Requests(apps), pool));
    AppendRows(cleared.allotments, news);
    forall v | v in news ensures v.applicationId in CompanyApplicationIds(s, cid) {
      var k :| 0 <= k < |news| && news[k] == v;
      assert apps[k] in apps;
    }
  }

  /** After a run each application of the company has exactly one allotment,
      holding its planned shares, and no refund. */
  lemma RunAllotsEveryApplication(s: Store, cid: int, c: Row<Company>, i: int)
    requires Valid(s)
    requires GetCompany(s, cid) == Some(c) && c.val.totalShares >= 0
    requires 0 <= i < |ApplicationsByCompany(s, cid)|
    ensures var fin := CalculateAllotments(s, cid).store;
      var app := ApplicationsByCompany(s, cid)[i];
      var plan := Allocation.Plan(Requests(ApplicationsByCompany(s, cid)), c.val.totalShares);
      && fin.applications == s.applications
      && |Select(fin.allotments.rows, ApplicationOf, app.id)| == 1
      && AllotmentByApplication(fin, app.id).Some?
      && Allotted(fin, app.id) == Some(plan[i])
      && RefundByAllotment(fin, AllotmentByApplication(fin, app.id).value.id).None?
  {
    RunOutcome(s, cid, c);
    AllottedStoreRows(s, cid, c);
    ClearFacts(s, cid);
    var fin := AllottedStore(s, cid, c.val.totalShares);
    var cleared := ClearResults(s, cid);
    var apps := ApplicationsByCompany(s, cid);
    var plan := Allocation.Plan(Requests(apps), c.val.totalShares);
    var news := NewAllotments(apps, plan);
    var row := NumberRows(cleared.allotments.lastId, news)[i];
    assert fin.allotments.rows[|cleared.allotments.rows| + i] == row;
    assert row in fin.allotments.rows;
    AllotmentLookup(fin, row);
    SelectOfUnique(fin.allotments, ApplicationOf, apps[i].id);
    assert row in Select(fin.allotments.rows, ApplicationOf, apps[i].id);
    forall f | f in fin.refunds.rows ensures AllotmentOf(f) != row.id {
      assert f.val.allotmentId in Ids(s.allotments);
    }
  }

  /** A run touches no other company's allotments or refunds, and no company, applicant or application. */
  lemma RunLeavesOthers(s: Store, cid: int, c: Row<Company>, id: int)
    requires Valid(s)
    requires GetCompany(s, cid) == Some(c) && c.val.totalShares >= 0
    ensures var fin := CalculateAllotments(s, cid).store;
      && fin.companies == s.companies && fin.applicants == s.applicants && fin.applications == s.applications
      && (id !in CompanyApplicationIds(s, cid) ==> AllotmentByApplication(fin, id) == AllotmentByApplication(s, id))
      && (id !in CompanyAllotmentIds(s, cid) ==> RefundByAllotment(fin, id) == RefundByAllotment(s, id))
  {
    RunOutcome(s, cid, c);
    AllottedStoreRows(s, cid, c);
    var fin := AllottedStore(s, cid, c.val.totalShares);
    if id !in CompanyApplicationIds(s, cid) {
      FirstSameMatches(s.allotments, fin.allotments, ApplicationOf, id);
    }
    if id !in CompanyAllotmentIds(s, cid) {
      FirstSameMatches(s.refunds, fin.refunds, AllotmentOf, id);
    }
  }

  /** Capacity: after a run the company's allotments sum to at most its pool;
      to exactly the demand when it fits, and otherwise to less than one share
      per application below the pool. */
  lemma RunCapacity(s: Store, cid: int, c: Row<Company>)
    requires Valid(s)
    requires GetCompany(s, cid) == Some(c) && c.val.totalShares >= 0
    ensures var fin := CalculateAllotments(s, cid).store;
      var apps := ApplicationsByCompany(fin, cid);
      var total := Sum(AllottedShares(fin, apps));
      var demand := Sum(Requests(apps));
      && apps == ApplicationsByCompany(s, cid)
      && total <= c.val.totalShares
      && (demand <= c.val.totalShares ==> total == demand)
      && (demand > c.val.totalShares ==> c.val.totalShares - |apps| < total)
  {
    RunAllotsPlan(s, cid, c);
    PlanCapacity(Requests(ApplicationsByCompany(s, cid)), c.val.totalShares);
  }

  /** After a run the shares allotted to the company's applications are the plan. */
  lemma RunAllotsPlan(s: Store, cid: int, c: Row<Company>)
    requires Valid(s)
    requires GetCompany(s, cid) == Some(c) && c.val.totalShares >= 0
    ensures var fin := CalculateAllotments(s, cid).store;
      && ApplicationsByCompany(fin, cid) == ApplicationsByCompany(s, cid)
      && AllottedShares(fin, ApplicationsByCompany(s, cid))
         == Allocation.Plan(Requests(ApplicationsByCompany(s, cid)), c.val.totalShares)
  {
    var apps := ApplicationsByCompany(s, cid);
    var fin := CalculateAllotments(s, cid).store;
    assert fin.applications == s.applications by {
      RunOutcome(s, cid, c);
    }
    RunAllotsEach(s, cid, c);
  }

  lemma RunAllotsEach(s: Store, cid: int, c: Row<Company>)
    requires Valid(s)
    requires GetCompany(s, cid) == Some(c) && c.val.totalShares >= 0
    ensures var apps := ApplicationsByCompany(s, cid);
      var plan := Allocation.Plan(Requests(apps), c.val.totalShares);
      forall i :: 0 <= i < |apps| ==> Allotted(CalculateAllotments(s, cid).store, apps[i].id) == Some(plan[i])
  {
    var apps := ApplicationsByCompany(s, cid);
    forall i | 0 <= i < |apps|
      ensures Allotted(CalculateAllotments(s, cid).store, apps[i].id)
              == Some(Allocation.Plan(Requests(apps), c.val.totalShares)[i])
    {
      RunAllotsEveryApplication(s, cid, c, i);
    }
  }

  /** The sum of a plan: at most the pool, the demand when it fits, and otherwise less than one share per request below the pool. */
  lemma PlanCapacity(reqs: seq<int>, pool: int)
    requires pool >= 0
    ensures Sum(Allocation.Plan(reqs, pool)) <= pool
    ensures Sum(reqs) <= pool ==> Sum(Allocation.Plan(reqs, pool)) == Sum(reqs)
    ensures Sum(reqs) > pool ==> pool - |reqs| < Sum(Allocation.Plan(reqs, pool))
  {
    Allocation.PlanWithinPool(reqs, pool);
    if Sum(reqs) <= pool {
      Allocation.FullAllotment(reqs, pool);
    } else {
      Allocation.TruncationLoss(reqs, pool);
    }
  }

  /** Demand within the pool: every application of the company is allotted exactly what it requested. */
  lemma RunFullAllotment(s: Store, cid: int, c: Row<Company>, i: int)
    requires Valid(s)
    requires GetCompany(s, cid) == Some(c)
    requires Sum(Requests(ApplicationsByCompany(s, cid))) <= c.val.totalShares
    requires 0 <= i < |ApplicationsByCompany(s, cid)|
    ensures var app := ApplicationsByCompany(s, cid)[i];
      Allotted(CalculateAllotments(s, cid).store, app.id) == Some(app.val.sharesReq)
  {
    CompanyDemandPositive(s, cid);
    RunAllotsEveryApplication(s, cid, c, i);
    Allocation.FullAllotment(Requests(ApplicationsByCompany(s, cid)), c.val.totalShares);
  }

  /** In a valid store a company with applications has a demand of at least one share per application. */
  lemma CompanyDemandPositive(s: Store, cid: int)
    requires Valid(s)
    ensures Sum(Requests(ApplicationsByCompany(s, cid))) >= |ApplicationsByCompany(s, cid)|
  {
    var apps := ApplicationsByCompany(s, cid);
    forall i | 0 <= i < |apps| ensures Requests(apps)[i] >= 1 {
      assert apps[i] in s.applications.rows;
    }
    Allocation.DemandOfPositive(Requests(apps));
  }

  /** Demand above the pool: each application gets floor(sharesReq * totalShares / demand),
      which lies between zero and its request. */
  lemma RunProRata(s: Store, cid: int, c: Row<Company>, i: int)
    requires Valid(s)
    requires GetCompany(s, cid) == Some(c) && c.val.totalShares >= 0
    requires Sum(Requests(ApplicationsByCompany(s, cid))) > c.val.totalShares
    requires 0 <= i < |ApplicationsByCompany(s, cid)|
    ensures var app := ApplicationsByCompany(s, cid)[i];
      var d := Sum(Requests(ApplicationsByCompany(s, cid)));
      var got := Allotted(CalculateAllotments(s, cid).store, app.id);
      && got.Some?
      && d * got.value <= app.val.sharesReq * c.val.totalShares < d * (got.value + 1)
      && 0 <= got.value <= app.val.sharesReq
  {
    var apps := ApplicationsByCompany(s, cid);
    var reqs := Requests(apps);
    RunAllotsEveryApplication(s, cid, c, i);
    assert apps[i] in apps;
    assert reqs[i] == apps[i].val.sharesReq >= 1;
    Allocation.ProRataShare(reqs, c.val.totalShares, i);
    var got := Allotted(CalculateAllotments(s, cid).store, apps[i].id);
    assert got == Some(Allocation.Plan(reqs, c.val.totalShares)[i]);
  }

  /** Running the allotment twice leaves every application with the shares of a single run. */
  lemma RunIdempotent(s: Store, cid: int, c: Row<Company>, id: int)
    requires Valid(s)
    requires GetCompany(s, cid) == Some(c)
    ensures var once := CalculateAllotments(s, cid).store;
      Allotted(CalculateAllotments(once, cid).store, id) == Allotted(once, id)
  {
    if c.val.totalShares >= 0 {
      RunIdempotentPool(s, cid, c, id);
    } else {
      var once := ClearResults(s, cid);
      NegativeRunClears(s, cid, c);
      assert Valid(once) && once.companies == s.companies by {
        ClearFacts(s, cid);
      }
      NegativeRunClears(once, cid, c);
      ClearTwice(s, cid);
    }
  }

  lemma RunIdempotentPool(s: Store, cid: int, c: Row<Company>, id: int)
    requires Valid(s)
    requires GetCompany(s, cid) == Some(c) && c.val.totalShares >= 0
    ensures var once := CalculateAllotments(s, cid).store;
      Allotted(CalculateAllotments(once, cid).store, id) == Allotted(once, id)
  {
    var once := CalculateAllotments(s, cid).store;
    RunKeepsValid(s, cid);
    RunLeavesOthers(s, cid, c, id);
    RunLeavesOthers(once, cid, c, id);
    assert CompanyApplicationIds(once, cid) == CompanyApplicationIds(s, cid);
    if id in CompanyApplicationIds(s, cid) {
      var apps := ApplicationsByCompany(s, cid);
      var a :| a in s.applications.rows && a.val.companyId == cid && a.id == id;
      assert a in apps;
      var i :| 0 <= i < |apps| && apps[i] == a;
      RunAllotsEveryApplication(s, cid, c, i);
      RunAllotsEveryApplication(once, cid, c, i);
    }
  }

  /** With a negative pool a run leaves exactly the cleared store: it fails at its
      first insert, or has no application to insert for. */
  lemma NegativeRunClears(s: Store, cid: int, c: Row<Company>)
    requires Valid(s)
    requires GetCompany(s, cid) == Some(c) && c.val.totalShares < 0
    ensures CalculateAllotments(s, cid).store == ClearResults(s, cid)
  {
    if ApplicationsByCompany(s, cid) != [] {
      RunNegativePool(s, cid, c);
    } else {
      assert ApplicationsByCompany(ClearResults(s, cid), cid) == [] by {
        ClearedApplications(s, cid);
      }
    }
  }

  /** Clearing a company's results a second time deletes nothing. */
  lemma ClearTwice(s: Store, cid: int)
    ensures ClearResults(ClearResults(s, cid), cid) == ClearResults(s, cid)
  {
    var once := ClearResults(s, cid);
    var s1 := once.(refunds := DeleteWhere(once.refunds, AllotmentOf, CompanyAllotmentIds(once, cid)));
    assert CompanyApplicationIds(once, cid) == CompanyApplicationIds(s, cid);
    assert CompanyAllotmentIds(once, cid) == {};
    DeleteNothing(once.refunds, AllotmentOf, {});
    assert s1 == once;
    DeleteNothing(once.allotments, ApplicationOf, CompanyApplicationIds(once, cid));
  }

  /** A company with a negative pool and at least one application fails the run
      at its first insert, after the deletions have been made. */
  lemma RunNegativePool(s: Store, cid: int, c: Row<Company>)
    requires Valid(s)
    requires GetCompany(s, cid) == Some(c) && c.val.totalShares < 0
    requires ApplicationsByCompany(s, cid) != []
    ensures CalculateAllotments(s, cid) == Effect(ClearResults(s, cid), Err(InvalidAllotmentData))
  {
    ClearedApplications(s, cid);
    NegativeRunRejects(s, cid, c);
  }

  /** The run with a negative pool, from the facts the deletions establish. */
  lemma NegativeRunRejects(s: Store, cid: int, c: Row<Company>)
    requires GetCompany(s, cid) == Some(c) && c.val.totalShares < 0
    requires var apps := ApplicationsByCompany(ClearResults(s, cid), cid);
      && apps != []
      && (forall i :: 0 <= i < |apps| ==> apps[i].val.sharesReq >= 1)
      && (forall i :: 0 <= i < |apps| ==> AllotmentByApplication(ClearResults(s, cid), apps[i].id).None?)
      && (forall i, j :: 0 <= i < j < |apps| ==> apps[i].id != apps[j].id)
    ensures CalculateAllotments(s, cid) == Effect(ClearResults(s, cid), Err(InvalidAllotmentData))
  {
    var cleared := ClearResults(s, cid);
    var apps := ApplicationsByCompany(cleared, cid);
    var reqs := Requests(apps);
    var plan := Allocation.Plan(reqs, c.val.totalShares);
    Allocation.NegativePool(reqs, c.val.totalShares, 0);
    InsertAllotmentsRejects(cleared, apps, plan, 0);
  }

  /** Every allotment lies between zero and the request of its application. */
  ghost predicate AllotmentsWithinRequests(s: Store) {
    forall al :: al in s.allotments.rows ==>
      && GetApplication(s, al.val.applicationId).Some?
      && 0 <= al.val.sharesAlloted <= GetApplication(s, al.val.applicationId).value.val.sharesReq
  }

  /** A run with a non-negative pool never allots more than was requested, nor less than nothing. */
  lemma RunKeepsWithinRequests(s: Store, cid: int, c: Row<Company>)
    requires Valid(s) && AllotmentsWithinRequests(s)
    requires GetCompany(s, cid) == Some(c) && c.val.totalShares >= 0
    ensures AllotmentsWithinRequests(CalculateAllotments(s, cid).store)
  {
    RunShape(s, cid, c);
    RunBounds(s, cid, c);
    WithinRequestsFromFacts(s, CalculateAllotments(s, cid).store, cid);
  }

  /** A run keeps the applications and writes allotments only for the company's applications. */
  lemma RunShape(s: Store, cid: int, c: Row<Company>)
    requires Valid(s)
    requires GetCompany(s, cid) == Some(c) && c.val.totalShares >= 0
    ensures var fin := CalculateAllotments(s, cid).store;
      && fin.applications == s.applications && Unique(fin.allotments, ApplicationOf)
      && forall x :: x in fin.allotments.rows ==>
           x in s.allotments.rows || x.val.applicationId in CompanyApplicationIds(s, cid)
  {
    RunOutcome(s, cid, c);
    AllottedStoreRows(s, cid, c);
  }

  /** With a non-negative pool a run allots each of the company's applications between zero and its request. */
  lemma RunBounds(s: Store, cid: int, c: Row<Company>)
    requires Valid(s)
    requires GetCompany(s, cid) == Some(c) && c.val.totalShares >= 0
    ensures var fin := CalculateAllotments(s, cid).store;
      forall a :: a in ApplicationsByCompany(s, cid) ==>
        && GetApplication(fin, a.id) == Some(a)
        && Allotted(fin, a.id).Some? && 0 <= Allotted(fin, a.id).value <= a.val.sharesReq
  {
    var apps := ApplicationsByCompany(s, cid);
    forall a | a in apps
      ensures var fin := CalculateAllotments(s, cid).store;
        && GetApplication(fin, a.id) == Some(a)
        && Allotted(fin, a.id).Some? && 0 <= Allotted(fin, a.id).value <= a.val.sharesReq
    {
      var k :| 0 <= k < |apps| && apps[k] == a;
      NewAllotmentWithinRequest(s, cid, c, k);
    }
  }

  /** The allotments of `fin` stay within their requests when each is either
      an allotment of `s` or the in-bounds allotment of one of the company's applications. */
  lemma WithinRequestsFromFacts(s: Store, fin: Store, cid: int)
    requires AllotmentsWithinRequests(s)
    requires fin.applications == s.applications && Unique(fin.allotments, ApplicationOf)
    requires forall x :: x in fin.allotments.rows ==>
      x in s.allotments.rows || x.val.applicationId in CompanyApplicationIds(s, cid)
    requires forall a :: a in ApplicationsByCompany(s, cid) ==>
      && GetApplication(fin, a.id) == Some(a)
      && Allotted(fin, a.id).Some? && 0 <= Allotted(fin, a.id).value <= a.val.sharesReq
    ensures AllotmentsWithinRequests(fin)
  {
    forall al | al in fin.allotments.rows
      ensures GetApplication(fin, al.val.applicationId).Some?
      ensures 0 <= al.val.sharesAlloted <= GetApplication(fin, al.val.applicationId).value.val.sharesReq
    {
      RowWithinRequest(s, fin, cid, al);
    }
  }

  lemma RowWithinRequest(s: Store, fin: Store, cid: int, al: Row<Allotment>)
    requires AllotmentsWithinRequests(s)
    requires fin.applications == s.applications && Unique(fin.allotments, ApplicationOf)
    requires al in fin.allotments.rows
    requires al in s.allotments.rows || al.val.applicationId in CompanyApplicationIds(s, cid)
    requires forall a :: a in ApplicationsByCompany(s, cid) ==>
      && GetApplication(fin, a.id) == Some(a)
      && Allotted(fin, a.id).Some? && 0 <= Allotted(fin, a.id).value <= a.val.sharesReq
    ensures GetApplication(fin, al.val.applicationId).Some?
    ensures 0 <= al.val.sharesAlloted <= GetApplication(fin, al.val.applicationId).value.val.sharesReq
  {
    if al !in s.allotments.rows {
      var a :| a in s.applications.rows && a.val.companyId == cid && a.id == al.val.applicationId;
      assert a in ApplicationsByCompany(s, cid);
      AllotmentLookup(fin, al);
    }
  }

  /** Every application in a store with valid references requests at least one share. */
  lemma CompanyRequestsPositive(s: Store, cid: int)
    requires RefsValid(s)
    ensures var reqs := Requests(ApplicationsByCompany(s, cid));
      forall j :: 0 <= j < |reqs| ==> reqs[j] >= 1
  {
    var apps := ApplicationsByCompany(s, cid);
    forall j | 0 <= j < |apps| ensures apps[j].val.sharesReq >= 1 {
      assert apps[j] in apps;
    }
  }

  /** The lookup by id finds each of a company's applications. */
  lemma CompanyApplicationLookup(s: Store, cid: int, k: int)
    requires WellKeyed(s.applications)
    requires 0 <= k < |ApplicationsByCompany(s, cid)|
    ensures GetApplication(s, ApplicationsByCompany(s, cid)[k].id) == Some(ApplicationsByCompany(s, cid)[k])
  {
    var a := ApplicationsByCompany(s, cid)[k];
    assert a in ApplicationsByCompany(s, cid);
    IncreasingIsUnique(s.applications);
    FirstOfUnique(s.applications, RowId, a);
  }

  /** With a non-negative pool the plan gives each of a company's applications between zero and its request. */
  lemma CompanyPlanWithinRequests(s: Store, cid: int, pool: int, k: int)
    requires RefsValid(s) && pool >= 0
    requires 0 <= k < |ApplicationsByCompany(s, cid)|
    ensures var apps := ApplicationsByCompany(s, cid);
      0 <= Allocation.Plan(Requests(apps), pool)[k] <= apps[k].val.sharesReq
  {
    CompanyRequestsPositive(s, cid);
    Allocation.PlanWithinRequests(Requests(ApplicationsByCompany(s, cid)), pool, k);
  }

  lemma NewAllotmentWithinRequest(s: Store, cid: int, c: Row<Company>, k: int)
    requires Valid(s)
    requires GetCompany(s, cid) == Some(c) && c.val.totalShares >= 0
    requires 0 <= k < |ApplicationsByCompany(s, cid)|
    ensures var fin := CalculateAllotments(s, cid).store;
      var a := ApplicationsByCompany(s, cid)[k];
      && GetApplication(fin, a.id) == Some(a)
      && Allotted(fin, a.id).Some?
      && 0 <= Allotted(fin, a.id).value <= a.val.sharesReq
  {
    var fin := CalculateAllotments(s, cid).store;
    var apps := ApplicationsByCompany(s, cid);
    var got := Allocation.Plan(Requests(apps), c.val.totalShares)[k];
    assert fin.applications == s.applications && Allotted(fin, apps[k].id) == Some(got) by {
      RunAllotsEveryApplication(s, cid, c, k);
    }
    assert GetApplication(s, apps[k].id) == Some(apps[k]) by {
      CompanyApplicationLookup(s, cid, k);
    }
    assert 0 <= got <= apps[k].val.sharesReq by {
      CompanyPlanWithinRequests(s, cid, c.val.totalShares, k);
    }
  }
}
