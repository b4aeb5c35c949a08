/** The records of the store and the validation rules of the application form.

    Each entity is the insert shape of its table (no id); a stored row is a
    `Row<Entity>` whose id the table assigns. Prices and money amounts are
    whole numbers of the smallest currency unit, so that
    `shares * price` is exact (the store keeps them as REAL). */
module Schema {
  import opened Base
  import opened Tables

  datatype Company = Company(name: string, totalShares: int, price: int, startDate: string, endDate: string)

  datatype Applicant = Applicant(name: string, pan: string, dematNo: string)

  datatype Application = Application(applicantId: int, companyId: int, sharesReq: int, amount: int)

  datatype Allotment = Allotment(applicationId: int, sharesAlloted: int)

  datatype Refund = Refund(allotmentId: int, amount: int)

  /** The money value of `shares` shares at `price`: the amount of an
      application and of a refund. */
  function Cost(shares: int, price: int): int {
    shares * price
  }

  // Columns that queries and constraints refer to.

  function PanOf(r: Row<Applicant>): string { r.val.pan }

  function DematOf(r: Row<Applicant>): string { r.val.dematNo }

  function CompanyOf(r: Row<Application>): int { r.val.companyId }

  function ApplicationOf(r: Row<Allotment>): int { r.val.applicationId }

  function AllotmentOf(r: Row<Refund>): int { r.val.allotmentId }

  // The PAN pattern ^[A-Z]{5}[0-9]{4}[A-Z]{1}$, written as one character class per position.

  datatype CharClass = Upper | Digit

  predicate InClass(c: char, k: CharClass) {
    match k
    case Upper => 'A' <= c <= 'Z'
    case Digit => '0' <= c <= '9'
  }

  function PanPattern(): seq<CharClass> {
    [Upper, Upper, Upper, Upper, Upper, Digit, Digit, Digit, Digit, Upper]
  }

  /** Anchored match of a pattern of single-character classes, scanning left to right. */
  predicate Matches(p: seq<CharClass>, s: string) {
    if p == [] then s == []
    else s != [] && InClass(s[0], p[0]) && Matches(p[1..], s[1..])
  }

  predicate IsPan(s: string) {
    Matches(PanPattern(), s)
  }

  /** The PAN shape stated position by position: five letters, four digits, one letter. */
  ghost predicate PanShape(s: string) {
    && |s| == 10
    && (forall i :: 0 <= i < 5 ==> 'A' <= s[i] <= 'Z')
    && (forall i :: 5 <= i < 9 ==> '0' <= s[i] <= '9')
    && 'A' <= s[9] <= 'Z'
  }

  lemma {:induction false} MatchesAt(p: seq<CharClass>, s: string)
    ensures Matches(p, s) <==> |s| == |p| && forall i :: 0 <= i < |p| ==> InClass(s[i], p[i])
  {
    if p != [] && s != [] {
      MatchesAt(p[1..], s[1..]);
      if |s| == |p| && forall i :: 0 <= i < |p| ==> InClass(s[i], p[i]) {
        forall i | 0 <= i < |p[1..]| ensures InClass(s[1..][i], p[1..][i]) {
          assert InClass(s[i + 1], p[i + 1]);
        }
      }
      if Matches(p, s) {
        forall i | 0 <= i < |p| ensures InClass(s[i], p[i]) {
          if i > 0 {
            assert InClass(s[1..][i - 1], p[1..][i - 1]);
          }
        }
      }
    }
  }

  /** The pattern matcher accepts exactly the strings of the PAN shape. */
  lemma PanIffShape(s: string)
    ensures IsPan(s) <==> PanShape(s)
  {
    MatchesAt(PanPattern(), s);
    if PanShape(s) {
      forall i | 0 <= i < 10 ensures InClass(s[i], PanPattern()[i]) {
      }
    }
    if IsPan(s) {
      assert forall i :: 0 <= i < 10 ==> InClass(s[i], PanPattern()[i]);
    }
  }

  /** The length of a string as the form validator measures it: in UTF-16 code
      units, so a character outside the Basic Multilingual Plane counts twice. */
  function Utf16Length(s: string): (n: nat)
    ensures |s| <= n <= 2 * |s|
    ensures n == 0 <==> s == []
    ensures (forall i :: 0 <= i < |s| ==> s[i] as int < 0x1_0000) ==> n == |s|
  {
    if s == [] then 0
    else (if s[0] as int < 0x1_0000 then 1 else 2) + Utf16Length(s[1..])
  }

  /** Eight characters outside the Basic Multilingual Plane are sixteen code units:
      long enough for the demat-number minimum. */
  lemma AstralDematLength()
    ensures Utf16Length(seq(8, _ => '\U{1F600}')) == 16
  {
    var s: string := seq(8, _ => '\U{1F600}');
    assert forall k :: 0 <= k <= 8 ==> s[k..] == seq(8 - k, _ => '\U{1F600}');
    assert Utf16Length(s[8..]) == 0;
    assert Utf16Length(s[7..]) == 2;
    assert Utf16Length(s[6..]) == 4;
    assert Utf16Length(s[5..]) == 6;
    assert Utf16Length(s[4..]) == 8;
    assert Utf16Length(s[3..]) == 10;
    assert Utf16Length(s[2..]) == 12;
    assert Utf16Length(s[1..]) == 14;
  }

  /** The body of POST /api/applications as far as the handler reads it. */
  datatype ApplicationForm = ApplicationForm(name: string, pan: string, dematNo: string, sharesReq: int)

  const MinDematLength := 16
  const MinShares := 1

  /** The failing fields, all reported together as the form validator does. */
  function Issues(f: ApplicationForm): (r: set<Field>)
    ensures NameField in r <==> f.name == []
    ensures PanField in r <==> !PanShape(f.pan)
    ensures DematField in r <==> Utf16Length(f.dematNo) < 16
    ensures SharesField in r <==> f.sharesReq < 1
    ensures r <= {NameField, PanField, DematField, SharesField}
  {
    PanIffShape(f.pan);
    (if Utf16Length(f.name) < 1 then {NameField} else {})
      + (if !IsPan(f.pan) then {PanField} else {})
      + (if Utf16Length(f.dematNo) < MinDematLength then {DematField} else {})
      + (if f.sharesReq < MinShares then {SharesField} else {})
  }

  /** Parsing the form: it passes unchanged, or fails listing every failing field. */
  function Validate(f: ApplicationForm): (r: Result<ApplicationForm>)
    ensures r.Ok? <==> f.name != [] && PanShape(f.pan) && Utf16Length(f.dematNo) >= 16 && f.sharesReq >= 1
    ensures r.Ok? ==> r.value == f
    ensures r.Err? ==> r.error == ValidationFailed(Issues(f)) && Issues(f) != {}
  {
    var issues := Issues(f);
    if issues == {} then Ok(f) else Err(ValidationFailed(issues))
  }
}
