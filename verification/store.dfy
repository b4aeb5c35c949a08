/** The relational store: five tables, their lookups and their INSERTs with
    the constraints the store enforces (UNIQUE columns, the REFERENCES
    columns and the input guard of createAllotment). The bundled SQLite of
    the database driver enforces foreign keys by default; UNIQUE is checked
    while a row is written and a foreign key when the statement ends, so a
    row that breaks both reports the UNIQUE column. Every operation is a
    pure transition of the whole store. */
module Storage {
  import opened Base
  import opened Tables
  import opened Schema

  datatype Store = Store(
    companies: Table<Company>,
    applicants: Table<Applicant>,
    applications: Table<Application>,
    allotments: Table<Allotment>,
    refunds: Table<Refund>)

  function EmptyStore(): Store {
    Store(EmptyTable(), EmptyTable(), EmptyTable(), EmptyTable(), EmptyTable())
  }

  /** The store after an operation, with its return value or the error it
      threw. Rows written before a throw stay written: the operations write
      row by row, outside any transaction. */
  datatype Effect<T> = Effect(store: Store, result: Result<T>)

  // Lookups.

  function GetCompany(s: Store, id: int): Option<Row<Company>> {
    First(s.companies.rows, RowId, id)
  }

  /** The active company is the one with the highest id. */
  function ActiveCompany(s: Store): (r: Option<Row<Company>>)
    ensures r.None? <==> s.companies.rows == []
    ensures r.Some? ==> r.value in s.companies.rows
    ensures r.Some? ==> forall c :: c in s.companies.rows ==> c.id <= r.value.id
  {
    Newest(s.companies.rows)
  }

  function ApplicantByPan(s: Store, pan: string): Option<Row<Applicant>> {
    First(s.applicants.rows, PanOf, pan)
  }

  function ApplicantByDemat(s: Store, dematNo: string): Option<Row<Applicant>> {
    First(s.applicants.rows, DematOf, dematNo)
  }

  function GetApplication(s: Store, id: int): Option<Row<Application>> {
    First(s.applications.rows, RowId, id)
  }

  function ApplicationsByCompany(s: Store, companyId: int): seq<Row<Application>> {
    Select(s.applications.rows, CompanyOf, companyId)
  }

  function AllotmentByApplication(s: Store, applicationId: int): Option<Row<Allotment>> {
    First(s.allotments.rows, ApplicationOf, applicationId)
  }

  function RefundByAllotment(s: Store, allotmentId: int): Option<Row<Refund>> {
    First(s.refunds.rows, AllotmentOf, allotmentId)
  }

  // INSERTs.

  function CreateCompany(s: Store, c: Company): (r: (Store, Row<Company>))
    ensures r.1.val == c
    ensures r.0 == s.(companies := AppendAll(s.companies, [c]))
  {
    var (t, row) := Insert(s.companies, c);
    assert Insert(s.companies, c).0 == AppendAll(s.companies, [c]);
    (s.(companies := t), row)
  }

  /** INSERT INTO applicants: the PAN and the demat number are UNIQUE columns.
      When both are taken the PAN is reported; the order in which the store
      checks two UNIQUE indexes is an assumption here, and the submission
      handler never reaches it, as it looks both up beforehand. */
  function CreateApplicant(s: Store, a: Applicant): (r: Effect<Row<Applicant>>)
    ensures r.result.Ok? <==> ApplicantByPan(s, a.pan).None? && ApplicantByDemat(s, a.dematNo).None?
    ensures ApplicantByPan(s, a.pan).Some? ==> r == Effect(s, Err(UniqueViolation(ApplicantPan)))
    ensures ApplicantByPan(s, a.pan).None? && ApplicantByDemat(s, a.dematNo).Some?
            ==> r == Effect(s, Err(UniqueViolation(ApplicantDemat)))
    ensures r.result.Ok? ==> r.result.value.val == a && r.store == s.(applicants := AppendAll(s.applicants, [a]))
  {
    if ApplicantByPan(s, a.pan).Some? then Effect(s, Err(UniqueViolation(ApplicantPan)))
    else if ApplicantByDemat(s, a.dematNo).Some? then Effect(s, Err(UniqueViolation(ApplicantDemat)))
    else
      var (t, row) := Insert(s.applicants, a);
      assert t == AppendAll(s.applicants, [a]);
      Effect(s.(applicants := t), Ok(row))
  }

  /** INSERT INTO applications: applicant_id and company_id reference existing rows. */
  function CreateApplication(s: Store, a: Application): (r: Effect<Row<Application>>)
    ensures r.result.Ok? <==> a.applicantId in Ids(s.applicants) && a.companyId in Ids(s.companies)
    ensures r.result.Err? ==> r == Effect(s, Err(ForeignKeyViolation))
    ensures r.result.Ok? ==> r.result.value.val == a && r.store == s.(applications := AppendAll(s.applications, [a]))
  {
    if a.applicantId !in Ids(s.applicants) || a.companyId !in Ids(s.companies) then
      Effect(s, Err(ForeignKeyViolation))
    else
      var (t, row) := Insert(s.applications, a);
      assert t == AppendAll(s.applications, [a]);
      Effect(s.(applications := t), Ok(row))
  }

  /** The input guard of createAllotment: a falsy application id (0) or a
      missing or negative share count is refused; zero shares are accepted. */
  predicate AllotmentInputOk(applicationId: int, sharesAlloted: Option<int>) {
    applicationId != 0 && sharesAlloted.Some? && sharesAlloted.value >= 0
  }

  /** INSERT INTO allotments behind the input guard; application_id is UNIQUE
      and references an application. */
  function CreateAllotment(s: Store, applicationId: int, sharesAlloted: Option<int>): (r: Effect<Row<Allotment>>)
    ensures r.result.Ok? <==>
      && AllotmentInputOk(applicationId, sharesAlloted) && AllotmentByApplication(s, applicationId).None?
      && applicationId in Ids(s.applications)
    ensures !AllotmentInputOk(applicationId, sharesAlloted) ==> r == Effect(s, Err(InvalidAllotmentData))
    ensures AllotmentInputOk(applicationId, sharesAlloted) && AllotmentByApplication(s, applicationId).Some?
            ==> r == Effect(s, Err(UniqueViolation(AllotmentApplication)))
    ensures AllotmentInputOk(applicationId, sharesAlloted) && AllotmentByApplication(s, applicationId).None?
            && applicationId !in Ids(s.applications)
            ==> r == Effect(s, Err(ForeignKeyViolation))
    ensures r.result.Ok? ==>
      && r.result.value.val == Allotment(applicationId, sharesAlloted.value)
      && r.store == s.(allotments := AppendAll(s.allotments, [Allotment(applicationId, sharesAlloted.value)]))
  {
    if applicationId == 0 || sharesAlloted.None? || sharesAlloted.value < 0 then
      Effect(s, Err(InvalidAllotmentData))
    else if AllotmentByApplication(s, applicationId).Some? then
      Effect(s, Err(UniqueViolation(AllotmentApplication)))
    else if applicationId !in Ids(s.applications) then
      Effect(s, Err(ForeignKeyViolation))
    else
      var v := Allotment(applicationId, sharesAlloted.value);
      var (t, row) := Insert(s.allotments, v);
      assert t == AppendAll(s.allotments, [v]);
      Effect(s.(allotments := t), Ok(row))
  }

  /** INSERT INTO refunds; allotment_id is UNIQUE and references an allotment. */
  function CreateRefund(s: Store, f: Refund): (r: Effect<Row<Refund>>)
    ensures r.result.Ok? <==> RefundByAllotment(s, f.allotmentId).None? && f.allotmentId in Ids(s.allotments)
    ensures RefundByAllotment(s, f.allotmentId).Some? ==> r == Effect(s, Err(UniqueViolation(RefundAllotment)))
    ensures RefundByAllotment(s, f.allotmentId).None? && f.allotmentId !in Ids(s.allotments)
            ==> r == Effect(s, Err(ForeignKeyViolation))
    ensures r.result.Ok? ==> r.result.value.val == f && r.store == s.(refunds := AppendAll(s.refunds, [f]))
  {
    if RefundByAllotment(s, f.allotmentId).Some? then Effect(s, Err(UniqueViolation(RefundAllotment)))
    else if f.allotmentId !in Ids(s.allotments) then Effect(s, Err(ForeignKeyViolation))
    else
      var (t, row) := Insert(s.refunds, f);
      assert t == AppendAll(s.refunds, [f]);
      Effect(s.(refunds := t), Ok(row))
  }

  // The store's integrity: keys, UNIQUE columns and references.

  ghost predicate KeysValid(s: Store) {
    && WellKeyed(s.companies) && WellKeyed(s.applicants) && WellKeyed(s.applications)
    && WellKeyed(s.allotments) && WellKeyed(s.refunds)
  }

  ghost predicate UniqueValid(s: Store) {
    && Unique(s.applicants, PanOf) && Unique(s.applicants, DematOf)
    && Unique(s.allotments, ApplicationOf) && Unique(s.refunds, AllotmentOf)
  }

  /** Every reference points at an existing row, and every application was
      submitted through the form (at least one share). */
  ghost predicate RefsValid(s: Store) {
    && (forall a :: a in s.applications.rows ==>
          a.val.applicantId in Ids(s.applicants) && a.val.companyId in Ids(s.companies) && a.val.sharesReq >= 1)
    && (forall a :: a in s.allotments.rows ==> a.val.applicationId in Ids(s.applications))
    && (forall f :: f in s.refunds.rows ==> f.val.allotmentId in Ids(s.allotments))
  }

  ghost predicate Valid(s: Store) {
    KeysValid(s) && UniqueValid(s) && RefsValid(s)
  }

  /** A newly created company becomes the active one. */
  lemma CreatedCompanyIsActive(s: Store, c: Company)
    requires WellKeyed(s.companies)
    ensures ActiveCompany(CreateCompany(s, c).0) == Some(CreateCompany(s, c).1)
    ensures CreateCompany(s, c).1.id !in Ids(s.companies)
  {
    InsertKeepsKeys(s.companies, c);
    NewestIsLast(Insert(s.companies, c).0);
  }

  lemma EmptyStoreValid()
    ensures Valid(EmptyStore())
  {
  }

  /** Under the UNIQUE constraint the lookup finds a row exactly when it is in the table. */
  lemma AllotmentLookup(s: Store, x: Row<Allotment>)
    requires Unique(s.allotments, ApplicationOf)
    requires x in s.allotments.rows
    ensures AllotmentByApplication(s, x.val.applicationId) == Some(x)
  {
    FirstOfUnique(s.allotments, ApplicationOf, x);
  }

  lemma RefundLookup(s: Store, x: Row<Refund>)
    requires Unique(s.refunds, AllotmentOf)
    requires x in s.refunds.rows
    ensures RefundByAllotment(s, x.val.allotmentId) == Some(x)
  {
    FirstOfUnique(s.refunds, AllotmentOf, x);
  }

  /** Allotments of different applications are different rows, with different ids. */
  lemma AllotmentIdsDistinct(s: Store, a: int, b: int)
    requires WellKeyed(s.allotments)
    requires AllotmentByApplication(s, a).Some? && AllotmentByApplication(s, b).Some?
    requires a != b
    ensures AllotmentByApplication(s, a).value.id != AllotmentByApplication(s, b).value.id
  {
    var x := AllotmentByApplication(s, a).value;
    var y := AllotmentByApplication(s, b).value;
    if x.id == y.id {
      SameIdSameRow(s.allotments, x, y);
    }
  }

  /** Adding a refund for an existing allotment that has none keeps the store valid. */
  lemma AddRefundValid(s: Store, al: Row<Allotment>, amount: int)
    requires Valid(s)
    requires al in s.allotments.rows
    requires RefundByAllotment(s, al.id).None?
    ensures Valid(s.(refunds := AppendAll(s.refunds, [Refund(al.id, amount)])))
  {
    var f := Refund(al.id, amount);
    var s1 := s.(refunds := AppendAll(s.refunds, [f]));
    AppendKeepsKeys(s.refunds, [f]);
    var row := Row(s.refunds.lastId + 1, f);
    assert AllotmentOf(row) !in ColumnValues(s.refunds, AllotmentOf);
    AppendOneKeepsUnique(s.refunds, f, AllotmentOf);
    assert KeysValid(s1);
    assert UniqueValid(s1);
    assert al.id in Ids(s.allotments);
    forall x | x in s1.refunds.rows ensures x.val.allotmentId in Ids(s1.allotments) {
      if x !in s.refunds.rows {
        assert x == row;
      }
    }
    assert s1.allotments == s.allotments && s1.applications == s.applications;
    assert RefsValid(s1);
  }
}
