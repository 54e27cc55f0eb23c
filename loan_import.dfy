/**
 * Turning the rows of the first worksheet into loans (the row mapping inside
 * `processAndPotentiallyDistributeLoans`): header keys, the column-to-field
 * switch, validation and the derived fields (outstanding balance, maturity
 * date, past-due date).
 */
module LoanImport {
  import opened Wrappers
  import opened Text
  import opened Calendar
  import opened JsValues
  import opened DateUtils
  import opened Types

  // ---------------------------------------------------------------- header keys and fields

  /** `String(h).toLowerCase().replace(/\s+/g, '')`. */
  function HeaderKey(h: CellValue, host: Host): (k: string)
    ensures NoWhitespace(k)
    ensures forall i :: 0 <= i < |k| ==> !('A' <= k[i] <= 'Z')
  {
    var k := StripWhitespace(Lower(CellText(h, host)));
    StripKeepsLower(Lower(CellText(h, host)));
    k
  }

  lemma {:induction false} StripKeepsLower(s: string)
    requires forall i :: 0 <= i < |s| ==> !('A' <= s[i] <= 'Z')
    ensures forall i :: 0 <= i < |StripWhitespace(s)| ==> !('A' <= StripWhitespace(s)[i] <= 'Z')
  {
    if s != [] {
      StripKeepsLower(s[1..]);
    }
  }

  /** A lower-case key without white space is its own header key. */
  lemma HeaderKeyOfKey(k: string, host: Host)
    requires NoWhitespace(k)
    requires forall i :: 0 <= i < |k| ==> !('A' <= k[i] <= 'Z')
    ensures HeaderKey(Str(k), host) == k
  {
    assert Lower(k) == k;
  }

  /** Headers that differ only in letter case have the same key. */
  lemma HeaderKeyIgnoresCase(s: string, host: Host)
    ensures HeaderKey(Str(Lower(s)), host) == HeaderKey(Str(s), host)
  {
    LowerIdempotent(s);
  }

  /** Headers that differ only in a space have the same key. */
  lemma HeaderKeyIgnoresSpace(x: string, y: string, host: Host)
    ensures HeaderKey(Str(x + " " + y), host) == HeaderKey(Str(x + y), host)
  {
    LowerSpace(x, y);
    LowerAppend(x, y);
    StripSpace(Lower(x), Lower(y));
  }

  /** Two words without white space joined by a space give their lower-cased concatenation as key. */
  lemma HeaderKeyOfWords(a: string, b: string, host: Host)
    requires NoWhitespace(a) && NoWhitespace(b)
    ensures HeaderKey(Str(a + " " + b), host) == Lower(a + b)
  {
    HeaderKeyIgnoresSpace(a, b, host);
    var s := a + b;
    forall i | 0 <= i < |s| ensures !IsJsWhitespace(Lower(s)[i]) {
      if i < |a| {
        assert s[i] == a[i];
      } else {
        assert s[i] == b[i - |a|];
      }
    }
  }

  /** A `Loan Account Number` column is read as the account number. */
  lemma AccountNumberHeader(a: string, b: string, c: string, host: Host)
    requires a == "Loan" && b == "Account" && c == "Number"
    ensures HeaderKey(Str(a + " " + b + " " + c), host) == "loanaccountnumber"
    ensures FieldOf("loanaccountnumber") == Some(AccountNumber)
  {
    HeaderKeyIgnoresSpace(a + " " + b, c, host);
    assert (a + " " + b) + c == a + " " + (b + c);
    AccountNumberWords(a, b, c, "loanaccountnumber");
    HeaderKeyOfWords(a, b + c, host);
  }

  lemma AccountNumberWords(a: string, b: string, c: string, k: string)
    requires a == "Loan" && b == "Account" && c == "Number" && k == "loanaccountnumber"
    ensures NoWhitespace(a) && NoWhitespace(b + c) && Lower(a + (b + c)) == k
  {
    var s := a + (b + c);
    forall i | 0 <= i < |k| ensures Lower(s)[i] == k[i] {
      if i < 4 {
        assert s[i] == a[i];
      } else if i < 11 {
        assert s[i] == b[i - 4];
      } else {
        assert s[i] == c[i - 11];
      }
    }
  }

  /** The loan fields a column can fill. */
  datatype Field =
    | AccountNumber | Product | OriginalAmount | Term | StartDate | Client | Branch
    | PhoneNumber | TotalLiab | RepaymentAmount | RepaymentDate | Remark
    | InterestRepaid | InterestOutstanding

  /** The `switch (header)` of the importer: each recognised header key with the field it fills. */
  const HeaderFields: seq<(string, Field)> := [
    ("loanaccountnumber", AccountNumber), ("accountnumber", AccountNumber),
    ("product", Product),
    ("originalamount", OriginalAmount), ("loanamount", OriginalAmount),
    ("term", Term),
    ("startdate", StartDate), ("disburseddate", StartDate),
    ("client", Client),
    ("branch", Branch),
    ("phonenumber", PhoneNumber),
    ("totalliab", TotalLiab), ("totalliability", TotalLiab),
    ("repaymentamount", RepaymentAmount), ("expectedrepaymentamount", RepaymentAmount),
    ("repaymentdate", RepaymentDate), ("expectedrepaymentdate", RepaymentDate),
    ("remark", Remark),
    ("interestrepaid", InterestRepaid),
    ("interestoutstanding", InterestOutstanding)
  ]

  /** The field of the first entry of `table` whose key is `key`. */
  function LookupField(table: seq<(string, Field)>, key: string): Option<Field> {
    if table == [] then None
    else if table[0].0 == key then Some(table[0].1)
    else LookupField(table[1..], key)
  }

  function FieldOf(key: string): Option<Field> {
    LookupField(HeaderFields, key)
  }

  /** What a present cell stores in its field. */
  datatype FieldValue = Text(s: string) | Number(n: JsNum) | Amount(a: real) | Date(d: Option<CivilDate>)

  /** The conversion each field applies to a present cell. */
  function Convert(f: Field, v: CellValue, host: Host): FieldValue {
    var t := CellText(v, host);
    match f
    case AccountNumber => Text(t)
    case Product => Text(t)
    case Client => Text(t)
    case Branch => Text(t)
    case PhoneNumber => Text(t)
    case Remark => Text(t)
    case OriginalAmount => Number(host.parseFloat(t))
    case TotalLiab => Number(host.parseFloat(t))
    case InterestRepaid => Number(host.parseFloat(t))
    case InterestOutstanding => Number(host.parseFloat(t))
    case Term => Number(host.parseInt(t))
    // `parseFloat(...) || 0`: NaN and zero both become 0
    case RepaymentAmount => Amount(if host.parseFloat(t).Finite? then host.parseFloat(t).value else 0.0)
    case StartDate => Date(ParseDate(v, host))
    case RepaymentDate => Date(ParseDate(v, host))
  }

  // ---------------------------------------------------------------- filling the partial loan

  /** The fields set so far on the partial loan object. */
  type Draft = map<Field, FieldValue>

  /** `row[index]`: a row shorter than the header row reads as undefined. */
  function Cell(row: seq<CellValue>, i: nat): CellValue {
    if i < |row| then row[i] else Missing
  }

  /** One step of `headers.forEach`: a missing cell or an unknown header leaves the draft alone. */
  function ApplyCell(d: Draft, key: string, v: CellValue, host: Host): Draft {
    if v.Missing? then d
    else match FieldOf(key)
      case None => d
      case Some(f) => d[f := Convert(f, v, host)]
  }

  /** The draft after the first `n` columns. */
  function DraftOf(keys: seq<string>, row: seq<CellValue>, host: Host, n: nat): Draft
    requires n <= |keys|
  {
    if n == 0 then map[] else ApplyCell(DraftOf(keys, row, host, n - 1), keys[n - 1], Cell(row, n - 1), host)
  }

  /** Column `i` fills field `f`. */
  predicate Fills(keys: seq<string>, row: seq<CellValue>, i: nat, f: Field)
    requires i < |keys|
  {
    FieldOf(keys[i]) == Some(f) && !Cell(row, i).Missing?
  }

  /** The last of the first `n` columns that fills `f`. */
  function LastColumn(keys: seq<string>, row: seq<CellValue>, f: Field, n: nat): (r: Option<nat>)
    requires n <= |keys|
    ensures r.Some? ==>
      r.value < n && Fills(keys, row, r.value, f) && forall j :: r.value < j < n ==> !Fills(keys, row, j, f)
    ensures r.None? ==> forall j :: 0 <= j < n ==> !Fills(keys, row, j, f)
  {
    if n == 0 then None
    else if Fills(keys, row, n - 1, f) then Some(n - 1)
    else LastColumn(keys, row, f, n - 1)
  }

  /**
   * When several columns map to one field the last present cell wins; a field
   * no column fills is left unset.
   */
  lemma {:induction false} LastColumnWins(keys: seq<string>, row: seq<CellValue>, host: Host, f: Field, n: nat)
    requires n <= |keys|
    ensures f in DraftOf(keys, row, host, n) <==> LastColumn(keys, row, f, n).Some?
    ensures LastColumn(keys, row, f, n).Some? ==>
      DraftOf(keys, row, host, n)[f] == Convert(f, Cell(row, LastColumn(keys, row, f, n).value), host)
  {
    if n > 0 {
      LastColumnWins(keys, row, host, f, n - 1);
      DraftStep(keys, row, host, f, n);
      var fills := Fills(keys, row, n - 1, f);
      assert LastColumn(keys, row, f, n) == if fills then Some(n - 1) else LastColumn(keys, row, f, n - 1);
      WinnerStep(DraftOf(keys, row, host, n - 1), DraftOf(keys, row, host, n),
                 LastColumn(keys, row, f, n - 1), LastColumn(keys, row, f, n),
                 f, fills, n - 1, (i: nat) => Convert(f, Cell(row, i), host));
    }
  }

  /** The induction step above, over plain values: the winner either moves to column `i` or stays. */
  lemma WinnerStep(prev: Draft, next: Draft, before: Option<nat>, after: Option<nat>,
                   f: Field, fills: bool, i: nat, value: nat -> FieldValue)
    requires f in prev <==> before.Some?
    requires before.Some? ==> prev[f] == value(before.value)
    requires fills ==> next == prev[f := value(i)] && after == Some(i)
    requires !fills ==> (f in next <==> f in prev) && (f in prev ==> next[f] == prev[f]) && after == before
    ensures f in next <==> after.Some?
    ensures after.Some? ==> next[f] == value(after.value)
  {
  }

  /** One more column either fills `f` with its converted cell or leaves `f` as it was. */
  lemma DraftStep(keys: seq<string>, row: seq<CellValue>, host: Host, f: Field, n: nat)
    requires 0 < n <= |keys|
    ensures var prev, next := DraftOf(keys, row, host, n - 1), DraftOf(keys, row, host, n);
      if Fills(keys, row, n - 1, f) then next == prev[f := Convert(f, Cell(row, n - 1), host)]
      else (f in next <==> f in prev) && (f in prev ==> next[f] == prev[f])
  {
    var prev := DraftOf(keys, row, host, n - 1);
    var v := Cell(row, n - 1);
    if Fills(keys, row, n - 1, f) {
      ApplyCellFills(prev, keys[n - 1], v, host, f);
    } else {
      ApplyCellElsewhere(prev, keys[n - 1], v, host, f);
    }
  }

  /** A present cell under a header of `f` sets `f` to its converted value. */
  lemma ApplyCellFills(d: Draft, key: string, v: CellValue, host: Host, f: Field)
    requires FieldOf(key) == Some(f) && !v.Missing?
    ensures ApplyCell(d, key, v, host) == d[f := Convert(f, v, host)]
  {
  }

  /** A cell that does not fill `f` leaves `f` as it was. */
  lemma ApplyCellElsewhere(d: Draft, key: string, v: CellValue, host: Host, f: Field)
    requires !(FieldOf(key) == Some(f) && !v.Missing?)
    ensures f in ApplyCell(d, key, v, host) <==> f in d
    ensures f in d ==> ApplyCell(d, key, v, host)[f] == d[f]
  {
  }

  /** `headers.forEach(...)` over one data row. */
  method FillDraft(keys: seq<string>, row: seq<CellValue>, host: Host) returns (d: Draft)
    ensures d == DraftOf(keys, row, host, |keys|)
  {
    d := map[];
    var i := 0;
    while i < |keys|
      invariant 0 <= i <= |keys|
      invariant d == DraftOf(keys, row, host, i)
    {
      d := ApplyCell(d, keys[i], Cell(row, i), host);
      i := i + 1;
    }
  }

  function TextField(d: Draft, f: Field): Option<string> {
    if f in d && d[f].Text? then Some(d[f].s) else None
  }

  function NumberField(d: Draft, f: Field): Option<JsNum> {
    if f in d && d[f].Number? then Some(d[f].n) else None
  }

  function DateField(d: Draft, f: Field): Option<CivilDate> {
    if f in d && d[f].Date? then d[f].d else None
  }

  function AmountField(d: Draft, f: Field): Option<real> {
    if f in d && d[f].Amount? then Some(d[f].a) else None
  }

  // ---------------------------------------------------------------- derived fields

  /** The lower-cased product names that carry a term. */
  const ProductsWithTerm: set<string> :=
    {"small enterprise", "medium enterprise capital expenditure", "lease financing", "commercial product one"}

  /** Months to maturity by lower-cased product name; 0 for every other product. */
  function TermMonths(product: Option<string>): (m: nat)
    ensures m == 0 || m == 4 || m == 18 || m == 30
    ensures product.None? ==> m == 0
    ensures product.Some? && Lower(product.value) == "small enterprise" ==> m == 4
    ensures product.Some? && Lower(product.value) == "medium enterprise capital expenditure" ==> m == 30
    ensures product.Some? && Lower(product.value) == "lease financing" ==> m == 30
    ensures product.Some? && Lower(product.value) == "commercial product one" ==> m == 18
    ensures product.Some? && Lower(product.value) !in ProductsWithTerm ==> m == 0
  {
    match product
    case None => 0
    case Some(p) =>
      var l := Lower(p);
      if l == "small enterprise" then 4
      else if l == "medium enterprise capital expenditure" || l == "lease financing" then 30
      else if l == "commercial product one" then 18
      else 0
  }

  /**
   * `maturedOn`: the start date rebuilt with `new Date(year, month - 1, day)`
   * and moved forward by the product's months with `setMonth`; null without a
   * start date or for a product without a term.
   */
  function MaturityDate(start: Option<CivilDate>, product: Option<string>): (r: Option<CivilDate>)
    ensures r.Some? <==> start.Some? && TermMonths(product) > 0
    ensures r.Some? ==> Valid(r.value)
  {
    match start
    case None => None
    case Some(s) =>
      var months := TermMonths(product);
      if months > 0 then Some(AddMonths(ConstructDate(s.year, s.month - 1, s.day), months)) else None
  }

  /**
   * For a start date the parser can produce, maturity is the same day of the
   * month `months` later, or the overflow into the month after that when the
   * target month is too short.
   */
  lemma MaturityShiftsMonths(s: CivilDate, product: Option<string>)
    requires Valid(s) && s.year >= 100 && TermMonths(product) > 0
    ensures var f := TargetMonth(s, TermMonths(product));
      var len := DaysInMonth(f.year, f.month);
      MaturityDate(Some(s), product)
        == Some(if s.day <= len then f.(day := s.day) else NextMonth(f.year, f.month).(day := s.day - len))
  {
    var k := TermMonths(product);
    ConstructThenAddMonths(s, k);
    assert MaturityDate(Some(s), product) == Some(AddMonths(ConstructDate(s.year, s.month - 1, s.day), k));
  }

  lemma SmallEnterpriseTerm(product: string)
    requires product == "Small Enterprise"
    ensures TermMonths(Some(product)) == 4
  {
    assert Lower(product) == "small enterprise";
  }

  /** The term depends on the product name only up to case. */
  lemma TermIgnoresCase(product: string)
    ensures TermMonths(Some(Lower(product))) == TermMonths(Some(product))
  {
    LowerIdempotent(product);
  }

  /** A product outside the table has no maturity date, whatever the start. */
  lemma UnknownProductNoMaturity(start: Option<CivilDate>, product: Option<string>)
    requires product.None? || Lower(product.value) !in ProductsWithTerm
    ensures MaturityDate(start, product) == None
  {
  }

  lemma LeaseFinancingTerm(product: string)
    requires product == "Lease Financing"
    ensures TermMonths(Some(product)) == 30
  {
    assert Lower(product) == "lease financing";
  }

  lemma CommercialProductOneTerm(product: string)
    requires product == "COMMERCIAL Product One"
    ensures TermMonths(Some(product)) == 18
  {
    assert Lower(product) == "commercial product one";
  }

  /** A Small Enterprise loan started 2024-01-15 matures 2024-05-15. */
  lemma SmallEnterpriseMaturity(start: CivilDate, product: string)
    requires start == CivilDate(2024, 1, 15) && product == "Small Enterprise"
    ensures MaturityDate(Some(start), Some(product)) == Some(CivilDate(2024, 5, 15))
  {
    assert DaysInMonth(2024, 5) == 31;
    assert TargetMonth(start, 4) == CivilDate(2024, 5, 1);
    SmallEnterpriseTerm(product);
    MaturityShiftsMonths(start, Some(product));
  }

  /** A Lease Financing loan started 2022-06-01 matures 2024-12-01. */
  lemma LeaseFinancingMaturity(start: CivilDate, product: string)
    requires start == CivilDate(2022, 6, 1) && product == "Lease Financing"
    ensures MaturityDate(Some(start), Some(product)) == Some(CivilDate(2024, 12, 1))
  {
    assert DaysInMonth(2024, 12) == 31;
    assert TargetMonth(start, 30) == CivilDate(2024, 12, 1);
    LeaseFinancingTerm(product);
    MaturityShiftsMonths(start, Some(product));
  }

  /**
   * `passDueDate`: the expected repayment date when one is set, the balance
   * is positive and today (local midnight) is later than that date; otherwise null.
   */
  function PastDue(expected: Option<CivilDate>, balance: real, today: int): (r: Option<CivilDate>)
    requires expected.Some? ==> Valid(expected.value)
    ensures r.Some? <==> expected.Some? && balance > 0.0 && today > DaysFromCivil(expected.value)
    ensures r.Some? ==> r == expected
  {
    if expected.Some? && balance > 0.0 && today > DaysFromCivil(expected.value) then expected else None
  }

  // ---------------------------------------------------------------- whole loans

  /** A row is kept when it has a non-empty account number and a positive (non-NaN) original amount. */
  predicate Acceptable(d: Draft) {
    TextField(d, AccountNumber).Some? && TextField(d, AccountNumber).value != ""
    && NumberField(d, OriginalAmount).Some? && NumberField(d, OriginalAmount).value.Finite?
    && NumberField(d, OriginalAmount).value.value > 0.0
  }

  /** What every imported loan looks like before distribution. */
  predicate FreshImport(l: Loan) {
    l.accountNumber != "" && l.originalAmount > 0.0 && l.outstandingBalance == l.originalAmount
    && l.status == Outstanding && l.assignedAgentId.None?
    && l.paymentHistory == [] && l.communicationHistory == []
    && l.interestRate.None? && DatesValid(l)
  }

  predicate DatesValid(l: Loan) {
    (l.startDate.Some? ==> Valid(l.startDate.value))
    && (l.expectedRepaymentDate.Some? ==> Valid(l.expectedRepaymentDate.value))
    && (l.maturedOn.Some? ==> Valid(l.maturedOn.value))
    && (l.passDueDate.Some? ==> Valid(l.passDueDate.value))
  }

  /** Every loan's dates are valid calendar days. */
  predicate AllDatesValid(loans: seq<Loan>) {
    forall l :: l in loans ==> DatesValid(l)
  }

  /** Freshly imported loans hold only valid dates. */
  lemma FreshDatesValid(ls: seq<Loan>)
    requires forall k :: 0 <= k < |ls| ==> FreshImport(ls[k])
    ensures AllDatesValid(ls)
  {
    forall l | l in ls ensures DatesValid(l) {
      var k :| 0 <= k < |ls| && ls[k] == l;
      assert FreshImport(ls[k]);
    }
  }

  /** Every date a draft holds came from the date parser. */
  predicate DraftDatesParsed(d: Draft) {
    forall f :: f in d && d[f].Date? && d[f].d.Some? ==> Valid(d[f].d.value) && d[f].d.value.year >= 100
  }

  lemma {:induction false} DraftOfDatesParsed(keys: seq<string>, row: seq<CellValue>, host: Host, n: nat)
    requires n <= |keys|
    ensures DraftDatesParsed(DraftOf(keys, row, host, n))
  {
    if n > 0 {
      DraftOfDatesParsed(keys, row, host, n - 1);
    }
  }

  /** The loan a filled draft becomes, or None for a skipped row. */
  function BuildLoan(d: Draft, id: string, today: int): (r: Option<Loan>)
    requires DraftDatesParsed(d)
    ensures r.Some? <==> Acceptable(d)
    ensures r.Some? ==> FreshImport(r.value) && r.value.id == id
    ensures r.Some? ==> r.value.accountNumber == TextField(d, AccountNumber).value
    ensures r.Some? ==> r.value.originalAmount == NumberField(d, OriginalAmount).value.value
    ensures r.Some? ==> r.value.startDate == DateField(d, StartDate)
    ensures r.Some? ==>
      r.value.client == TextField(d, Client) && r.value.branch == TextField(d, Branch)
      && r.value.phoneNumber == TextField(d, PhoneNumber) && r.value.product == TextField(d, Product)
      && r.value.remark == TextField(d, Remark)
    ensures r.Some? ==>
      r.value.totalLiab == NumberField(d, TotalLiab) && r.value.term == NumberField(d, Term)
      && r.value.interestRepaid == NumberField(d, InterestRepaid)
      && r.value.interestOutstanding == NumberField(d, InterestOutstanding)
      && r.value.repaymentAmount == AmountField(d, RepaymentAmount)
    ensures r.Some? ==> r.value.expectedRepaymentDate == DateField(d, RepaymentDate)
    ensures r.Some? ==> r.value.maturedOn == MaturityDate(DateField(d, StartDate), TextField(d, Product))
    ensures r.Some? ==>
      r.value.passDueDate == PastDue(DateField(d, RepaymentDate), r.value.outstandingBalance, today)
  {
    if !Acceptable(d) then None
    else
      var amount := NumberField(d, OriginalAmount).value.value;
      var start := DateField(d, StartDate);
      var expected := DateField(d, RepaymentDate);
      Some(Loan(
        id := id,
        client := TextField(d, Client),
        branch := TextField(d, Branch),
        accountNumber := TextField(d, AccountNumber).value,
        phoneNumber := TextField(d, PhoneNumber),
        product := TextField(d, Product),
        originalAmount := amount,
        totalLiab := NumberField(d, TotalLiab),
        startDate := start,
        maturedOn := MaturityDate(start, TextField(d, Product)),
        expectedRepaymentDate := expected,
        repaymentAmount := AmountField(d, RepaymentAmount),
        remark := TextField(d, Remark),
        passDueDate := PastDue(expected, amount, today),
        interestRepaid := NumberField(d, InterestRepaid),
        outstandingBalance := amount,
        interestOutstanding := NumberField(d, InterestOutstanding),
        status := Outstanding,
        assignedAgentId := None,
        paymentHistory := [],
        communicationHistory := [],
        term := NumberField(d, Term),
        interestRate := None))
  }

  /** The loan one data row becomes, with its fresh id. */
  function RowLoan(keys: seq<string>, row: seq<CellValue>, id: string, host: Host, today: int): (r: Option<Loan>)
    ensures r.Some? ==> FreshImport(r.value) && r.value.id == id
  {
    DraftOfDatesParsed(keys, row, host, |keys|);
    BuildLoan(DraftOf(keys, row, host, |keys|), id, today)
  }

  /** The callback of `loanData.map`: fill the draft column by column, then build the loan. */
  method ImportRow(keys: seq<string>, row: seq<CellValue>, id: string, host: Host, today: int) returns (r: Option<Loan>)
    ensures r == RowLoan(keys, row, id, host, today)
    ensures r.Some? ==> FreshImport(r.value) && r.value.id == id
  {
    var d := FillDraft(keys, row, host);
    DraftOfDatesParsed(keys, row, host, |keys|);
    r := BuildLoan(d, id, today);
  }

  /** The header keys of the first row. */
  function HeaderKeys(header: seq<CellValue>, host: Host): (keys: seq<string>)
    ensures |keys| == |header|
    ensures forall i :: 0 <= i < |header| ==> keys[i] == HeaderKey(header[i], host)
  {
    seq(|header|, i requires 0 <= i < |header| => HeaderKey(header[i], host))
  }

  /** `.filter(loan => loan !== null)`: the present values, in order. */
  function Somes<T>(xs: seq<Option<T>>): (r: seq<T>)
    ensures |r| <= |xs|
    ensures r == [] <==> forall i :: 0 <= i < |xs| ==> xs[i].None?
    ensures forall i :: 0 <= i < |xs| && xs[i].Some? ==> xs[i].value in r
  {
    if xs == [] then []
    else
      var init := xs[..|xs| - 1];
      assert forall i :: 0 <= i < |init| ==> init[i] == xs[i];
      Somes(init) + (if xs[|xs| - 1].Some? then [xs[|xs| - 1].value] else [])
  }

  /** The slots the kept values come from, in order. */
  function SomeSlots<T>(xs: seq<Option<T>>): (idx: seq<nat>)
    ensures |idx| == |Somes(xs)|
    ensures forall k :: 0 <= k < |idx| ==> idx[k] < |xs|
  {
    if xs == [] then []
    else SomeSlots(xs[..|xs| - 1]) + (if xs[|xs| - 1].Some? then [|xs| - 1] else [])
  }

  /** Each kept value is the value held in its slot. */
  lemma {:induction false} SomesOrigin<T>(xs: seq<Option<T>>)
    ensures forall k :: 0 <= k < |SomeSlots(xs)| ==> xs[SomeSlots(xs)[k]] == Some(Somes(xs)[k])
  {
    if xs != [] {
      var init := xs[..|xs| - 1];
      SomesOrigin(init);
      var rest := SomeSlots(init);
      var ri := Somes(init);
      var idx := SomeSlots(xs);
      var r := Somes(xs);
      forall k | 0 <= k < |idx| ensures xs[idx[k]] == Some(r[k]) {
        if k < |rest| {
          assert idx[k] == rest[k] && r[k] == ri[k];
          assert xs[rest[k]] == init[rest[k]];
        }
      }
    }
  }

  /** The slots are strictly increasing: the kept values keep the order of the rows. */
  lemma {:induction false} SomesInOrder<T>(xs: seq<Option<T>>)
    ensures forall k, m :: 0 <= k < m < |SomeSlots(xs)| ==> SomeSlots(xs)[k] < SomeSlots(xs)[m]
  {
    if xs != [] {
      var init := xs[..|xs| - 1];
      SomesInOrder(init);
      var rest := SomeSlots(init);
      var idx := SomeSlots(xs);
      forall k, m | 0 <= k < m < |idx| ensures idx[k] < idx[m] {
        assert idx[k] == rest[k];
        if m < |rest| {
          assert idx[m] == rest[m];
        }
      }
    }
  }

  /** Every present value is kept, at the position whose slot it occupies. */
  lemma {:induction false} SomesComplete<T>(xs: seq<Option<T>>, i: nat)
    requires i < |xs| && xs[i].Some?
    ensures exists k :: 0 <= k < |SomeSlots(xs)| && SomeSlots(xs)[k] == i
  {
    var init := xs[..|xs| - 1];
    if i < |xs| - 1 {
      assert init[i] == xs[i];
      SomesComplete(init, i);
      var k :| 0 <= k < |SomeSlots(init)| && SomeSlots(init)[k] == i;
      assert SomeSlots(xs)[k] == i;
    } else {
      assert SomeSlots(xs)[|SomeSlots(init)|] == i;
    }
  }

  /** Loans kept from slots that all hold fresh imports are fresh imports. */
  lemma SomesFresh(xs: seq<Option<Loan>>)
    requires forall i :: 0 <= i < |xs| && xs[i].Some? ==> FreshImport(xs[i].value)
    ensures forall k :: 0 <= k < |Somes(xs)| ==> FreshImport(Somes(xs)[k])
  {
    SomesOrigin(xs);
  }

  /** What each data row becomes, row by row. */
  function RowLoans(keys: seq<string>, rows: seq<seq<CellValue>>, ids: seq<string>, host: Host, today: int): (xs: seq<Option<Loan>>)
    requires |ids| == |rows|
    ensures |xs| == |rows|
    ensures forall i :: 0 <= i < |rows| ==> xs[i] == RowLoan(keys, rows[i], ids[i], host, today)
  {
    seq(|rows|, i requires 0 <= i < |rows| => RowLoan(keys, rows[i], ids[i], host, today))
  }

  /**
   * `parsedLoansFromFile`: every data row mapped to a loan, the skipped rows
   * dropped; `ids` are the fresh ids drawn for the rows.
   */
  function ParseLoans(keys: seq<string>, rows: seq<seq<CellValue>>, ids: seq<string>, host: Host, today: int): (r: seq<Loan>)
    requires |ids| == |rows|
    ensures |r| <= |rows|
    ensures forall k :: 0 <= k < |r| ==> FreshImport(r[k])
    ensures r == [] <==> forall i :: 0 <= i < |rows| ==> RowLoan(keys, rows[i], ids[i], host, today).None?
    ensures forall i :: 0 <= i < |rows| && RowLoan(keys, rows[i], ids[i], host, today).Some? ==>
              RowLoan(keys, rows[i], ids[i], host, today).value in r
  {
    SomesFresh(RowLoans(keys, rows, ids, host, today));
    Somes(RowLoans(keys, rows, ids, host, today))
  }

  /** Distinct row ids give imported loans with distinct ids, each one of the drawn ids. */
  lemma ParsedIdsDistinct(keys: seq<string>, rows: seq<seq<CellValue>>, ids: seq<string>, host: Host, today: int)
    requires |ids| == |rows|
    requires forall i, j :: 0 <= i < j < |ids| ==> ids[i] != ids[j]
    ensures var r := ParseLoans(keys, rows, ids, host, today);
      (forall k :: 0 <= k < |r| ==> r[k].id in ids) && forall k, m :: 0 <= k < m < |r| ==> r[k].id != r[m].id
  {
    var xs := RowLoans(keys, rows, ids, host, today);
    var r := Somes(xs);
    var idx := SomeSlots(xs);
    SomesOrigin(xs);
    SomesInOrder(xs);
    forall k | 0 <= k < |r| ensures r[k].id == ids[idx[k]] {
      assert xs[idx[k]] == RowLoan(keys, rows[idx[k]], ids[idx[k]], host, today);
    }
    forall k, m | 0 <= k < m < |r| ensures r[k].id != r[m].id {
      assert idx[k] < idx[m];
    }
  }

  /**
   * Every accepted row's loan is in the result, at the position whose slot is
   * that row; with `SomesInOrder` the surviving rows keep their input order.
   */
  lemma ParseLoansKeepsAccepted(keys: seq<string>, rows: seq<seq<CellValue>>, ids: seq<string>, host: Host, today: int, i: nat)
    requires |ids| == |rows| && i < |rows|
    requires RowLoan(keys, rows[i], ids[i], host, today).Some?
    ensures var r := ParseLoans(keys, rows, ids, host, today);
      var idx := SomeSlots(RowLoans(keys, rows, ids, host, today));
      exists k :: 0 <= k < |r| && idx[k] == i && r[k] == RowLoan(keys, rows[i], ids[i], host, today).value
  {
    var xs := RowLoans(keys, rows, ids, host, today);
    SomesComplete(xs, i);
    SomesOrigin(xs);
    var k :| 0 <= k < |SomeSlots(xs)| && SomeSlots(xs)[k] == i;
    assert xs[i] == Some(Somes(xs)[k]);
  }
}
