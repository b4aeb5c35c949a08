/** The refund run of one company: every application that has an allotment
    and received fewer shares than it requested is refunded the difference
    at the company's price.

    The run reads each JOIN row as an untyped object keyed by column name.
    `RefundLoop` takes the name of the column it reads the request from:
    the run as written reads `sharesReq`, which the row does not have, and
    the corrected run reads `shares_req`. */
module RefundRun {
  import opened Base
  import opened Tables
  import opened Schema
  import opened Storage
  import opened AllotmentRun
  import Allocation

  /** A row of the JOIN of the company's applications with their allotments. */
  datatype Joined = Joined(app: Row<Application>, sharesAlloted: int)

  function Join(s: Store, apps: seq<Row<Application>>): (r: seq<Joined>)
    ensures forall j :: j in r ==> j.app in apps && Allotted(s, j.app.id) == Some(j.sharesAlloted)
    ensures forall a :: a in apps && Allotted(s, a.id).Some? ==> Joined(a, Allotted(s, a.id).value) in r
  {
    if apps == [] then []
    else
      var rest := Join(s, apps[1..]);
      match Allotted(s, apps[0].id)
      case None => rest
      case Some(n) => [Joined(apps[0], n)] + rest
  }

  /** The company's applications that have an allotment, in store order. */
  function AllottedApplications(s: Store, cid: int): seq<Joined> {
    Join(s, ApplicationsByCompany(s, cid))
  }

  /** The JOIN keeps the applications' order, so distinct applications give rows with increasing ids. */
  lemma {:induction false} JoinIncreasing(s: Store, apps: seq<Row<Application>>)
    requires Increasing(apps)
    ensures forall i, k :: 0 <= i < k < |Join(s, apps)| ==> Join(s, apps)[i].app.id < Join(s, apps)[k].app.id
  {
    if apps != [] {
      IncreasingTail(apps);
      JoinIncreasing(s, apps[1..]);
      if Allotted(s, apps[0].id).Some? {
        JoinCons(Joined(apps[0], Allotted(s, apps[0].id).value), Join(s, apps[1..]));
      }
    }
  }

  lemma JoinCons(head: Joined, rest: seq<Joined>)
    requires forall i, k :: 0 <= i < k < |rest| ==> rest[i].app.id < rest[k].app.id
    requires forall j :: j in rest ==> head.app.id < j.app.id
    ensures var r := [head] + rest;
      forall i, k :: 0 <= i < k < |r| ==> r[i].app.id < r[k].app.id
  {
    var r := [head] + rest;
    forall i, k | 0 <= i < k < |r| ensures r[i].app.id < r[k].app.id {
      assert r[k] == rest[k - 1];
      if i == 0 {
        assert rest[k - 1] in rest;
      } else {
        assert r[i] == rest[i - 1];
      }
    }
  }

  // The JOIN row as the refund loop reads it.

  /** A JOIN row as an object: one property per selected column, under the column's name. */
  function Columns(j: Joined): map<string, int> {
    map["id" := j.app.id, "applicant_id" := j.app.val.applicantId, "company_id" := j.app.val.companyId,
        "shares_req" := j.app.val.sharesReq, "amount" := j.app.val.amount, "shares_alloted" := j.sharesAlloted]
  }

  /** A number of the refund computation: a value, or NaN. Reading a
      property the object does not have yields undefined, which arithmetic
      turns into NaN. */
  datatype Num = Num(n: int) | NaN

  function Property(row: map<string, int>, name: string): Num {
    if name in row then Num(row[name]) else NaN
  }

  function Minus(a: Num, b: Num): Num {
    if a.Num? && b.Num? then Num(a.n - b.n) else NaN
  }

  /** `x > 0`, which is false for NaN. */
  predicate Positive(x: Num) {
    x.Num? && x.n > 0
  }

  /** The shares to refund on a JOIN row, reading the request from `reqColumn`. */
  function RefundShares(j: Joined, reqColumn: string): Num {
    Minus(Property(Columns(j), reqColumn), Property(Columns(j), "shares_alloted"))
  }

  /** Requested but not allotted. */
  function Shortfall(j: Joined): int {
    j.app.val.sharesReq - j.sharesAlloted
  }

  /** Read from its own column the shortfall is a number; read as `sharesReq` it is NaN. */
  lemma RefundSharesColumn(j: Joined)
    ensures RefundShares(j, "shares_req") == Num(Shortfall(j))
    ensures RefundShares(j, "sharesReq") == NaN
  {
    assert "sharesReq" !in Columns(j);
  }

  /** The loop over the JOIN rows: a positive shortfall on an application
      that has an allotment inserts one refund of shortfall * price; the
      first failing insert ends the run, keeping the refunds already written. */
  function RefundLoop(s: Store, rows: seq<Joined>, price: int, reqColumn: string): (r: Effect<()>)
    ensures r.store.companies == s.companies && r.store.applicants == s.applicants
    ensures r.store.applications == s.applications && r.store.allotments == s.allotments
    ensures |s.refunds.rows| <= |r.store.refunds.rows| && r.store.refunds.rows[..|s.refunds.rows|] == s.refunds.rows
    decreases |rows|
  {
    if rows == [] then Effect(s, Ok(()))
    else
      var short := RefundShares(rows[0], reqColumn);
      if !Positive(short) then RefundLoop(s, rows[1..], price, reqColumn)
      else
        match AllotmentByApplication(s, rows[0].app.id)
        case None => RefundLoop(s, rows[1..], price, reqColumn)
        case Some(al) =>
          var e := CreateRefund(s, Refund(al.id, Cost(short.n, price)));
          if e.result.Err? then Effect(e.store, Err(e.result.error))
          else RefundLoop(e.store, rows[1..], price, reqColumn)
  }

  function CalculateRefundsReading(s: Store, cid: int, reqColumn: string): (r: Effect<()>)
    ensures GetCompany(s, cid).None? ==> r == Effect(s, Err(CompanyNotFound))
  {
    match GetCompany(s, cid)
    case None => Effect(s, Err(CompanyNotFound))
    case Some(c) => RefundLoop(s, AllottedApplications(s, cid), c.val.price, reqColumn)
  }

  /** calculateRefunds(companyId), reading the request from the column the JOIN returns. */
  function CalculateRefunds(s: Store, cid: int): (r: Effect<()>)
    ensures GetCompany(s, cid).None? ==> r == Effect(s, Err(CompanyNotFound))
    ensures r.store.allotments == s.allotments && r.store.applications == s.applications
  {
    CalculateRefundsReading(s, cid, "shares_req")
  }

  /** calculateRefunds(companyId) as written: the request is read as `sharesReq`. */
  function CalculateRefundsAsWritten(s: Store, cid: int): (r: Effect<()>)
    ensures GetCompany(s, cid).None? ==> r == Effect(s, Err(CompanyNotFound))
  {
    CalculateRefundsReading(s, cid, "sharesReq")
  }

  /** The refunds the JOIN rows are owed, in order. */
  function Owed(s: Store, rows: seq<Joined>, price: int): (r: seq<Refund>)
    ensures forall f :: f in r ==> exists j :: (j in rows && Shortfall(j) > 0 && AllotmentByApplication(s, j.app.id).Some?
                                                  && f == Refund(AllotmentByApplication(s, j.app.id).value.id, Cost(Shortfall(j), price)))
    ensures forall j :: (j in rows && Shortfall(j) > 0 && AllotmentByApplication(s, j.app.id).Some?
                         ==> Refund(AllotmentByApplication(s, j.app.id).value.id, Cost(Shortfall(j), price)) in r)
  {
    if rows == [] then []
    else
      var head := rows[0];
      (if Shortfall(head) > 0 && AllotmentByApplication(s, head.app.id).Some?
       then [Refund(AllotmentByApplication(s, head.app.id).value.id, Cost(Shortfall(head), price))]
       else [])
      + Owed(s, rows[1..], price)
  }

  /** The JOIN and the refunds owed depend on the allotments only. */
  lemma SameAllotments(s: Store, t: Store, apps: seq<Row<Application>>, rows: seq<Joined>, price: int)
    requires s.allotments == t.allotments
    ensures Join(s, apps) == Join(t, apps)
    ensures Owed(s, rows, price) == Owed(t, rows, price)
  {
    JoinSameAllotments(s, t, apps);
    OwedSameAllotments(s, t, rows, price);
  }

  lemma {:induction false} JoinSameAllotments(s: Store, t: Store, apps: seq<Row<Application>>)
    requires s.allotments == t.allotments
    ensures Join(s, apps) == Join(t, apps)
    decreases |apps|
  {
    if apps != [] {
      JoinSameAllotments(s, t, apps[1..]);
      assert Allotted(s, apps[0].id) == Allotted(t, apps[0].id);
    }
  }

  lemma {:induction false} OwedSameAllotments(s: Store, t: Store, rows: seq<Joined>, price: int)
    requires s.allotments == t.allotments
    ensures Owed(s, rows, price) == Owed(t, rows, price)
    decreases |rows|
  {
    if rows != [] {
      OwedSameAllotments(s, t, rows[1..], price);
      assert AllotmentByApplication(s, rows[0].app.id) == AllotmentByApplication(t, rows[0].app.id);
    }
  }

  /** With no refund yet for any row that is owed one, the loop succeeds and
      appends exactly the refunds owed. */
  lemma {:induction false} RefundLoopOk(s: Store, rows: seq<Joined>, price: int)
    requires WellKeyed(s.allotments)
    requires forall i, k :: 0 <= i < k < |rows| ==> rows[i].app.id != rows[k].app.id
    requires forall j :: (j in rows && Shortfall(j) > 0 && AllotmentByApplication(s, j.app.id).Some?
                          ==> RefundByAllotment(s, AllotmentByApplication(s, j.app.id).value.id).None?)
    ensures RefundLoop(s, rows, price, "shares_req")
         == Effect(s.(refunds := AppendAll(s.refunds, Owed(s, rows, price))), Ok(()))
    decreases |rows|
  {
    if rows == [] {
      AppendNone(s.refunds);
    } else {
      var head := rows[0];
      var tail := rows[1..];
      RefundSharesColumn(head);
      forall i, k | 0 <= i < k < |tail| ensures tail[i].app.id != tail[k].app.id {
        assert tail[i] == rows[i + 1] && tail[k] == rows[k + 1];
      }
      if Shortfall(head) > 0 && AllotmentByApplication(s, head.app.id).Some? {
        var al := AllotmentByApplication(s, head.app.id).value;
        var f := Refund(al.id, Cost(Shortfall(head), price));
        var s1 := s.(refunds := AppendAll(s.refunds, [f]));
        IdOfRow(s.allotments, al);
        assert CreateRefund(s, f).store == s1;
        forall k | 0 <= k < |tail| ensures tail[k].app.id != head.app.id {
          assert rows[k + 1] == tail[k];
        }
        OtherRowsStillUnrefunded(s, head, tail, f);
        assert RefundLoop(s, rows, price, "shares_req") == RefundLoop(s1, tail, price, "shares_req");
        assert Owed(s, rows, price) == [f] + Owed(s, tail, price);
        RefundLoopOk(s1, tail, price);
        SameAllotments(s, s1, [], tail, price);
        AppendAppend(s.refunds, [f], Owed(s, tail, price));
      } else {
        assert Owed(s, rows, price) == Owed(s, tail, price);
        RefundLoopOk(s, tail, price);
      }
    }
  }

  /** A refund for the allotment of one application leaves every other
      application's allotment without a refund. */
  lemma OtherRowsStillUnrefunded(s: Store, head: Joined, tail: seq<Joined>, f: Refund)
    requires WellKeyed(s.allotments)
    requires AllotmentByApplication(s, head.app.id).Some?
    requires f.allotmentId == AllotmentByApplication(s, head.app.id).value.id
    requires forall k :: 0 <= k < |tail| ==> tail[k].app.id != head.app.id
    requires forall j :: (j in tail && Shortfall(j) > 0 && AllotmentByApplication(s, j.app.id).Some?
                          ==> RefundByAllotment(s, AllotmentByApplication(s, j.app.id).value.id).None?)
    ensures var s1 := s.(refunds := AppendAll(s.refunds, [f]));
      forall j :: (j in tail && Shortfall(j) > 0 && AllotmentByApplication(s1, j.app.id).Some?
                   ==> RefundByAllotment(s1, AllotmentByApplication(s1, j.app.id).value.id).None?)
  {
    var s1 := s.(refunds := AppendAll(s.refunds, [f]));
    forall j | j in tail && Shortfall(j) > 0 && AllotmentByApplication(s1, j.app.id).Some?
      ensures RefundByAllotment(s1, AllotmentByApplication(s1, j.app.id).value.id).None?
    {
      var k :| 0 <= k < |tail| && tail[k] == j;
      AllotmentIdsDistinct(s, head.app.id, j.app.id);
      var other := AllotmentByApplication(s, j.app.id).value.id;
      forall x | x in s1.refunds.rows ensures AllotmentOf(x) != other {
        if x !in s.refunds.rows {
          assert x == Row(s.refunds.lastId + 1, f);
        }
      }
    }
  }

  /** Each insert of the loop references an existing allotment that has no
      refund, so the store stays valid however the loop ends. */
  lemma {:induction false} RefundLoopValid(s: Store, rows: seq<Joined>, price: int, reqColumn: string)
    requires Valid(s)
    ensures Valid(RefundLoop(s, rows, price, reqColumn).store)
    decreases |rows|
  {
    if rows != [] {
      var short := RefundShares(rows[0], reqColumn);
      if Positive(short) && AllotmentByApplication(s, rows[0].app.id).Some? {
        var al := AllotmentByApplication(s, rows[0].app.id).value;
        var e := CreateRefund(s, Refund(al.id, Cost(short.n, price)));
        if e.result.Ok? {
          AddRefundValid(s, al, Cost(short.n, price));
          RefundLoopValid(e.store, rows[1..], price, reqColumn);
        }
      } else {
        RefundLoopValid(s, rows[1..], price, reqColumn);
      }
    }
  }

  /** When every row that is owed a refund already has one, the loop fails
      at the first of them without writing anything, and succeeds without
      writing anything when no row is owed one. */
  lemma {:induction false} RefundLoopRerun(s: Store, rows: seq<Joined>, price: int)
    requires forall j :: (j in rows && Shortfall(j) > 0 && AllotmentByApplication(s, j.app.id).Some?
                          ==> RefundByAllotment(s, AllotmentByApplication(s, j.app.id).value.id).Some?)
    ensures RefundLoop(s, rows, price, "shares_req")
         == Effect(s, if Owed(s, rows, price) == [] then Ok(()) else Err(UniqueViolation(RefundAllotment)))
    decreases |rows|
  {
    if rows != [] {
      RefundSharesColumn(rows[0]);
      if !(Shortfall(rows[0]) > 0 && AllotmentByApplication(s, rows[0].app.id).Some?) {
        RefundLoopRerun(s, rows[1..], price);
      }
    }
  }

  // The refund run of a company.

  /** None of the company's allotments has a refund yet: the state a successful allotment run leaves. */
  ghost predicate Unrefunded(s: Store, cid: int) {
    forall a :: a in ApplicationsByCompany(s, cid) && AllotmentByApplication(s, a.id).Some?
      ==> RefundByAllotment(s, AllotmentByApplication(s, a.id).value.id).None?
  }

  /** The refunds a company's run is owed. */
  function OwedRefunds(s: Store, cid: int, price: int): seq<Refund> {
    Owed(s, AllottedApplications(s, cid), price)
  }

  lemma RefundOutcome(s: Store, cid: int, c: Row<Company>)
    requires Valid(s)
    requires GetCompany(s, cid) == Some(c)
    requires Unrefunded(s, cid)
    ensures CalculateRefunds(s, cid) == Effect(s.(refunds := AppendAll(s.refunds, OwedRefunds(s, cid, c.val.price))), Ok(()))
    ensures Valid(CalculateRefunds(s, cid).store)
  {
    var apps := ApplicationsByCompany(s, cid);
    var rows := AllottedApplications(s, cid);
    SelectIncreasing(s.applications.rows, CompanyOf, cid);
    JoinIncreasing(s, apps);
    RefundLoopOk(s, rows, c.val.price);
    RefundLoopValid(s, rows, c.val.price, "shares_req");
  }

  /** After the refund run each allotted application of the company has one
      refund of shortfall * price when its shortfall is positive and none
      otherwise, and no refund outside the company changes. */
  lemma RefundPerApplication(s: Store, cid: int, c: Row<Company>, a: Row<Application>, al: Row<Allotment>, id: int)
    requires Valid(s)
    requires GetCompany(s, cid) == Some(c)
    requires Unrefunded(s, cid)
    requires a in ApplicationsByCompany(s, cid) && AllotmentByApplication(s, a.id) == Some(al)
    ensures al.val.sharesAlloted < a.val.sharesReq ==>
              RefundByAllotment(CalculateRefunds(s, cid).store, al.id).Some?
              && RefundByAllotment(CalculateRefunds(s, cid).store, al.id).value.val.amount
                 == Cost(a.val.sharesReq - al.val.sharesAlloted, c.val.price)
    ensures a.val.sharesReq <= al.val.sharesAlloted ==> RefundByAllotment(CalculateRefunds(s, cid).store, al.id).None?
    ensures id !in CompanyAllotmentIds(s, cid)
            ==> RefundByAllotment(CalculateRefunds(s, cid).store, id) == RefundByAllotment(s, id)
  {
    assert CalculateRefunds(s, cid).store == Refunded(s, cid, c.val.price)
      && Unique(Refunded(s, cid, c.val.price).refunds, AllotmentOf) by {
      RefundOutcome(s, cid, c);
    }
    RefundedApplication(s, cid, c.val.price, a, al, id);
  }

  /** RefundPerApplication, stated on the store the run produces. */
  lemma RefundedApplication(s: Store, cid: int, price: int, a: Row<Application>, al: Row<Allotment>, id: int)
    requires WellKeyed(s.applications) && WellKeyed(s.allotments) && Unique(s.refunds, AllotmentOf)
    requires Unrefunded(s, cid) && Unique(Refunded(s, cid, price).refunds, AllotmentOf)
    requires a in ApplicationsByCompany(s, cid) && AllotmentByApplication(s, a.id) == Some(al)
    ensures al.val.sharesAlloted < a.val.sharesReq ==>
              RefundByAllotment(Refunded(s, cid, price), al.id).Some?
              && RefundByAllotment(Refunded(s, cid, price), al.id).value.val.amount
                 == Cost(a.val.sharesReq - al.val.sharesAlloted, price)
    ensures a.val.sharesReq <= al.val.sharesAlloted ==> RefundByAllotment(Refunded(s, cid, price), al.id).None?
    ensures id !in CompanyAllotmentIds(s, cid) ==> RefundByAllotment(Refunded(s, cid, price), id) == RefundByAllotment(s, id)
  {
    if a.val.sharesReq > al.val.sharesAlloted {
      OwedRefundWritten(s, cid, price, a, al);
    } else {
      UnowedRefundAbsent(s, cid, price, a);
    }
    if id !in CompanyAllotmentIds(s, cid) {
      OtherRefundsKept(s, cid, price, id);
    }
  }

  /** The store once the refunds owed to the company's applications are appended. */
  function Refunded(s: Store, cid: int, price: int): Store {
    s.(refunds := AppendAll(s.refunds, OwedRefunds(s, cid, price)))
  }

  /** Every row the refund run adds holds a refund that is owed. */
  lemma NewRefundsOwed(s: Store, cid: int, price: int)
    ensures forall x :: (x in Refunded(s, cid, price).refunds.rows && x !in s.refunds.rows
                         ==> x.val in OwedRefunds(s, cid, price))
  {
    AppendRows(s.refunds, OwedRefunds(s, cid, price));
  }

  /** An allotted application with a positive shortfall finds its refund of shortfall * price. */
  lemma OwedRefundWritten(s: Store, cid: int, price: int, a: Row<Application>, al: Row<Allotment>)
    requires Unique(Refunded(s, cid, price).refunds, AllotmentOf)
    requires a in ApplicationsByCompany(s, cid) && AllotmentByApplication(s, a.id) == Some(al)
    requires a.val.sharesReq > al.val.sharesAlloted
    ensures RefundByAllotment(Refunded(s, cid, price), al.id).Some?
    ensures RefundByAllotment(Refunded(s, cid, price), al.id).value.val.amount
            == Cost(a.val.sharesReq - al.val.sharesAlloted, price)
  {
    var f := Refund(al.id, Cost(a.val.sharesReq - al.val.sharesAlloted, price));
    OwedOfApplication(s, cid, price, a, al);
    OwedRefundFound(s, cid, price, f);
  }

  /** An allotted application of the company with a positive shortfall is owed its refund. */
  lemma OwedOfApplication(s: Store, cid: int, price: int, a: Row<Application>, al: Row<Allotment>)
    requires a in ApplicationsByCompany(s, cid) && AllotmentByApplication(s, a.id) == Some(al)
    requires a.val.sharesReq > al.val.sharesAlloted
    ensures Refund(al.id, Cost(a.val.sharesReq - al.val.sharesAlloted, price)) in OwedRefunds(s, cid, price)
  {
    var j := Joined(a, al.val.sharesAlloted);
    assert Allotted(s, a.id) == Some(al.val.sharesAlloted);
    assert j in AllottedApplications(s, cid);
    assert Shortfall(j) == a.val.sharesReq - al.val.sharesAlloted;
  }

  /** Each owed refund is found by its allotment after the run. */
  lemma OwedRefundFound(s: Store, cid: int, price: int, f: Refund)
    requires Unique(Refunded(s, cid, price).refunds, AllotmentOf)
    requires f in OwedRefunds(s, cid, price)
    ensures RefundByAllotment(Refunded(s, cid, price), f.allotmentId).Some?
    ensures RefundByAllotment(Refunded(s, cid, price), f.allotmentId).value.val == f
  {
    var owed := OwedRefunds(s, cid, price);
    var k :| 0 <= k < |owed| && owed[k] == f;
    var row := Row(s.refunds.lastId + 1 + k, f);
    AppendRows(s.refunds, owed);
    RefundLookup(Refunded(s, cid, price), row);
  }

  /** An allotted application without a positive shortfall gets no refund. */
  lemma UnowedRefundAbsent(s: Store, cid: int, price: int, a: Row<Application>)
    requires WellKeyed(s.applications) && WellKeyed(s.allotments) && Unrefunded(s, cid)
    requires a in ApplicationsByCompany(s, cid) && AllotmentByApplication(s, a.id).Some?
    requires a.val.sharesReq <= AllotmentByApplication(s, a.id).value.val.sharesAlloted
    ensures RefundByAllotment(Refunded(s, cid, price), AllotmentByApplication(s, a.id).value.id).None?
  {
    var fin := Refunded(s, cid, price);
    var rows := AllottedApplications(s, cid);
    var al := AllotmentByApplication(s, a.id).value;
    NewRefundsOwed(s, cid, price);
    forall x | x in fin.refunds.rows ensures AllotmentOf(x) != al.id {
      if x in s.refunds.rows {
        assert RefundByAllotment(s, al.id).None?;
      } else {
        var j' :| j' in rows && Shortfall(j') > 0 && AllotmentByApplication(s, j'.app.id).Some?
          && x.val == Refund(AllotmentByApplication(s, j'.app.id).value.id, Cost(Shortfall(j'), price));
        if j'.app.id != a.id {
          AllotmentIdsDistinct(s, a.id, j'.app.id);
        } else {
          SameIdSameRow(s.applications, a, j'.app);
        }
      }
    }
  }

  /** A refund of an allotment outside the company is the same before and after the run. */
  lemma OtherRefundsKept(s: Store, cid: int, price: int, id: int)
    requires Unique(s.refunds, AllotmentOf) && Unique(Refunded(s, cid, price).refunds, AllotmentOf)
    requires id !in CompanyAllotmentIds(s, cid)
    ensures RefundByAllotment(Refunded(s, cid, price), id) == RefundByAllotment(s, id)
  {
    var fin := Refunded(s, cid, price);
    AppendRows(s.refunds, OwedRefunds(s, cid, price));
    forall x | x in fin.refunds.rows && AllotmentOf(x) == id ensures x in s.refunds.rows {
    }
    FirstSameMatches(s.refunds, fin.refunds, AllotmentOf, id);
  }

  /** Running the refunds a second time fails on the UNIQUE allotment_id
      column as soon as one refund is owed, without writing anything; with
      none owed it succeeds, again without writing anything. */
  lemma RefundRerun(s: Store, cid: int, c: Row<Company>)
    requires Valid(s)
    requires GetCompany(s, cid) == Some(c)
    requires Unrefunded(s, cid)
    ensures var once := CalculateRefunds(s, cid).store;
      CalculateRefunds(once, cid)
        == Effect(once, if OwedRefunds(s, cid, c.val.price) == [] then Ok(()) else Err(UniqueViolation(RefundAllotment)))
  {
    RefundOutcome(s, cid, c);
    var once := CalculateRefunds(s, cid).store;
    var apps := ApplicationsByCompany(s, cid);
    var rows := AllottedApplications(s, cid);
    SameAllotments(s, once, apps, rows, c.val.price);
    assert AllottedApplications(once, cid) == rows;
    forall j | j in rows && Shortfall(j) > 0 && AllotmentByApplication(once, j.app.id).Some?
      ensures RefundByAllotment(once, AllotmentByApplication(once, j.app.id).value.id).Some?
    {
      RefundPerApplication(s, cid, c, j.app, AllotmentByApplication(s, j.app.id).value, 0);
    }
    RefundLoopRerun(once, rows, c.val.price);
  }

  /** A successful allotment run leaves the company's allotments without refunds. */
  lemma AllottedUnrefunded(s: Store, cid: int, c: Row<Company>)
    requires Valid(s)
    requires GetCompany(s, cid) == Some(c) && c.val.totalShares >= 0
    ensures var allotted := CalculateAllotments(s, cid).store;
      && Valid(allotted)
      && GetCompany(allotted, cid) == Some(c)
      && ApplicationsByCompany(allotted, cid) == ApplicationsByCompany(s, cid)
      && Unrefunded(allotted, cid)
  {
    var allotted := CalculateAllotments(s, cid).store;
    var apps := ApplicationsByCompany(s, cid);
    RunKeepsValid(s, cid);
    RunLeavesOthers(s, cid, c, 0);
    forall a | a in apps && AllotmentByApplication(allotted, a.id).Some?
      ensures RefundByAllotment(allotted, AllotmentByApplication(allotted, a.id).value.id).None?
    {
      var k :| 0 <= k < |apps| && apps[k] == a;
      RunAllotsEveryApplication(s, cid, c, k);
    }
  }

  // The run as written.

  /** Read as `sharesReq`, the shortfall of every row is NaN, so the loop writes nothing. */
  lemma {:induction false} AsWrittenLoopWritesNothing(s: Store, rows: seq<Joined>, price: int)
    ensures RefundLoop(s, rows, price, "sharesReq") == Effect(s, Ok(()))
    decreases |rows|
  {
    if rows != [] {
      RefundSharesColumn(rows[0]);
      AsWrittenLoopWritesNothing(s, rows[1..], price);
    }
  }

  /** The run as written never writes a refund, whatever the store holds. */
  lemma AsWrittenRefundsNothing(s: Store, cid: int)
    ensures CalculateRefundsAsWritten(s, cid)
         == Effect(s, if GetCompany(s, cid).None? then Err(CompanyNotFound) else Ok(()))
  {
    if GetCompany(s, cid).Some? {
      AsWrittenLoopWritesNothing(s, AllottedApplications(s, cid), GetCompany(s, cid).value.val.price);
    }
  }
}
