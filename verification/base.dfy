/** Shared result types: optional values (a SQL `.get()` that may find no row)
    and the outcomes of store operations and HTTP handlers. */
module Base {

  datatype Option<+T> = None | Some(value: T)

  /** The columns carrying a UNIQUE constraint in the relational store. */
  datatype Column =
    | ApplicantPan          // applicants.pan
    | ApplicantDemat        // applicants.demat_no
    | AllotmentApplication  // allotments.application_id
    | RefundAllotment       // refunds.allotment_id

  /** The fields of the application form that can fail validation. */
  datatype Field = NameField | PanField | DematField | SharesField

  /** Every way an operation of the system can fail. */
  datatype Error =
    | CompanyNotFound                   // "Company not found" thrown by the calculators
    | InvalidAllotmentData              // the input guard of createAllotment
    | UniqueViolation(column: Column)   // SQLITE_CONSTRAINT_UNIQUE from an INSERT
    | ForeignKeyViolation               // SQLITE_CONSTRAINT_FOREIGNKEY: a REFERENCES column names no row
    | ValidationFailed(issues: set<Field>)
    | PanExists                         // "PAN number already exists"
    | DematExists                       // "Demat number already exists"
    | NoActiveIpo                       // "No active IPO found"
    | NoApplications                    // "No applications found for allotment"
    | MissingFields                     // "All fields are required"

  datatype Result<+T> = Ok(value: T) | Err(error: Error)

  /** The sum of a sequence of integers; zero when it is empty. */
  function Sum(xs: seq<int>): int {
    if xs == [] then 0 else xs[0] + Sum(xs[1..])
  }

  /** Adding one more term at the end adds it to the sum. */
  lemma {:induction false} SumSnoc(xs: seq<int>, x: int)
    ensures Sum(xs + [x]) == Sum(xs) + x
  {
    if xs != [] {
      assert (xs + [x])[1..] == xs[1..] + [x];
      SumSnoc(xs[1..], x);
    }
  }

  /** Listing the terms in the opposite order keeps the sum. */
  lemma {:induction false} SumReverse(xs: seq<int>, ys: seq<int>)
    requires |xs| == |ys|
    requires forall i :: 0 <= i < |xs| ==> ys[|ys| - 1 - i] == xs[i]
    ensures Sum(xs) == Sum(ys)
  {
    if xs != [] {
      var n := |ys|;
      var init := ys[..n - 1];
      forall i | 0 <= i < |xs[1..]| ensures init[|init| - 1 - i] == xs[1..][i] {
        assert ys[n - 1 - (i + 1)] == xs[i + 1];
      }
      SumReverse(xs[1..], init);
      assert ys == init + [ys[n - 1]];
      SumSnoc(init, ys[n - 1]);
    }
  }
}
