/** The records the school dashboard reads: students (`silina.student`) and
    customer invoices (`account.move`), with the record store replaced by plain
    sequences. A student query is a domain, a conjunction of terms, and the
    dashboard narrows a base domain by appending one more term, as in
    `domain + [('gender', '=', 'male')]`. */
module SchoolRecords {

  type Id = nat

  /** A calendar date, as a day number. */
  type Date = int

  datatype Option<T> = None | Some(value: T)

  /** The `gender` selection; `Unspecified` stands for any other value,
      including an empty field. */
  datatype Gender = Male | Female | Unspecified

  datatype Student = Student(
    id: Id,
    active: bool,
    academicYear: Option<Id>,
    gender: Gender,
    state: string,
    level: Option<Id>,
    classroom: Option<Id>,
    partner: Option<Id>)

  const Enrolled := "enrolled"

  /** One term of a student domain. */
  datatype StudentTerm =
    | IsActive
    | InYear(year: Id)
    | HasGender(gender: Gender)
    | InState(state: string)
    | InLevel(level: Id)
    | InClassroom(classroom: Id)
    | PartnerIn(partners: set<Id>)

  /** A many2one equality term is false for an empty field, and so is `in`. */
  predicate Satisfies(s: Student, t: StudentTerm)
  {
    match t
    case IsActive => s.active
    case InYear(y) => s.academicYear == Some(y)
    case HasGender(g) => s.gender == g
    case InState(st) => s.state == st
    case InLevel(l) => s.level == Some(l)
    case InClassroom(c) => s.classroom == Some(c)
    case PartnerIn(ps) => s.partner.Some? && s.partner.value in ps
  }

  predicate Matches(s: Student, domain: seq<StudentTerm>)
  {
    forall i :: 0 <= i < |domain| ==> Satisfies(s, domain[i])
  }

  /** `search(domain)` over the student table, in table order. */
  function Search(students: seq<Student>, domain: seq<StudentTerm>): (r: seq<Student>)
    ensures |r| <= |students|
  {
    if students == [] then []
    else (if Matches(students[0], domain) then [students[0]] else []) + Search(students[1..], domain)
  }

  /** A search finds exactly the students of the table that match. */
  lemma {:induction false} SearchMembers(students: seq<Student>, domain: seq<StudentTerm>, s: Student)
    ensures s in Search(students, domain) <==> s in students && Matches(s, domain)
  {
    if students != [] {
      SearchMembers(students[1..], domain, s);
      assert s in students <==> s == students[0] || s in students[1..];
    }
  }

  lemma MatchesAppend(s: Student, d: seq<StudentTerm>, e: seq<StudentTerm>)
    ensures Matches(s, d + e) <==> Matches(s, d) && Matches(s, e)
  {
    if Matches(s, d) && Matches(s, e) {
      forall i | 0 <= i < |d + e| ensures Satisfies(s, (d + e)[i]) {
        if i >= |d| { assert (d + e)[i] == e[i - |d|]; }
      }
    }
    if Matches(s, d + e) {
      forall i | 0 <= i < |d| ensures Satisfies(s, d[i]) {
        assert (d + e)[i] == d[i];
      }
      forall i | 0 <= i < |e| ensures Satisfies(s, e[i]) {
        assert (d + e)[|d| + i] == e[i];
      }
    }
  }

  /** When every student of the table matches, the search finds them all. */
  lemma {:induction false} SearchAll(students: seq<Student>, domain: seq<StudentTerm>)
    requires forall s :: s in students ==> Matches(s, domain)
    ensures Search(students, domain) == students
  {
    if students != [] {
      assert students[0] in students;
      SearchAll(students[1..], domain);
      assert [students[0]] + students[1..] == students;
    }
  }

  /** Filtering the result of a search (`filtered`) is searching with the
      extended domain. */
  lemma {:induction false} SearchRefine(students: seq<Student>, d: seq<StudentTerm>, e: seq<StudentTerm>)
    ensures Search(Search(students, d), e) == Search(students, d + e)
  {
    if students != [] {
      var x, t := students[0], students[1..];
      MatchesAppend(x, d, e);
      SearchRefine(t, d, e);
      if Matches(x, d) {
        var sd := Search(students, d);
        assert sd == [x] + Search(t, d);
        assert sd[0] == x && sd[1..] == Search(t, d);
        calc {
          Search(sd, e);
          (if Matches(x, e) then [x] else []) + Search(Search(t, d), e);
          (if Matches(x, d + e) then [x] else []) + Search(t, d + e);
          Search(students, d + e);
        }
      } else {
        assert Search(students, d) == Search(t, d);
        assert !Matches(x, d + e);
        assert Search(students, d + e) == Search(t, d + e);
      }
    }
  }

  /** A domain that contains every term of another can only count fewer
      students. */
  lemma {:induction false} SearchSubdomain(students: seq<Student>, d: seq<StudentTerm>, e: seq<StudentTerm>)
    requires forall t :: t in e ==> t in d
    ensures |Search(students, d)| <= |Search(students, e)|
  {
    if students != [] {
      var x := students[0];
      if Matches(x, d) {
        forall i | 0 <= i < |e| ensures Satisfies(x, e[i]) {
          assert e[i] in e;
          var j :| 0 <= j < |d| && d[j] == e[i];
        }
      }
      SearchCount(students, d);
      SearchCount(students, e);
      SearchSubdomain(students[1..], d, e);
    }
  }

  /** A domain no student can match finds nothing. */
  lemma {:induction false} SearchNone(students: seq<Student>, d: seq<StudentTerm>)
    requires forall s :: !Matches(s, d)
    ensures Search(students, d) == []
  {
    if students != [] {
      SearchNone(students[1..], d);
    }
  }

  lemma SearchCount(students: seq<Student>, d: seq<StudentTerm>)
    requires students != []
    ensures |Search(students, d)| == (if Matches(students[0], d) then 1 else 0) + |Search(students[1..], d)|
  {
  }

  /** The male and female searches within a domain are disjoint parts of it. */
  lemma {:induction false} GenderSplit(students: seq<Student>, d: seq<StudentTerm>)
    ensures |Search(students, d + [HasGender(Male)])| + |Search(students, d + [HasGender(Female)])|
      <= |Search(students, d)|
  {
    if students != [] {
      var x := students[0];
      MatchesAppend(x, d, [HasGender(Male)]);
      MatchesAppend(x, d, [HasGender(Female)]);
      assert Matches(x, [HasGender(Male)]) ==> Satisfies(x, [HasGender(Male)][0]);
      assert Matches(x, [HasGender(Female)]) ==> Satisfies(x, [HasGender(Female)][0]);
      SearchCount(students, d);
      SearchCount(students, d + [HasGender(Male)]);
      SearchCount(students, d + [HasGender(Female)]);
      GenderSplit(students[1..], d);
    }
  }

  /** The move types of `account.move`. */
  datatype MoveType = Entry | OutInvoice | OutRefund | InInvoice | InRefund | OutReceipt | InReceipt

  datatype MoveState = MoveDraft | Posted | Cancelled

  /** An `account.move`; amounts are in minor currency units. */
  datatype Invoice = Invoice(
    id: Id,
    moveType: MoveType,
    state: MoveState,
    invoiceDate: Option<Date>,
    amountTotal: int,
    amountResidual: int,
    partner: Option<Id>)

  /** An academic year (`silina.academic.year`) with its inclusive date range. */
  datatype AcademicYear = AcademicYear(id: Id, dateStart: Date, dateEnd: Date)

  function YearId(year: Option<AcademicYear>): Option<Id>
  {
    if year.Some? then Some(year.value.id) else None
  }

  /** The dashboard's invoice domain: customer invoices that are not
      cancelled and, when a year is set, dated within it (an undated invoice
      fails a date comparison). */
  predicate InvoiceInDomain(year: Option<AcademicYear>, inv: Invoice)
  {
    && inv.moveType == OutInvoice
    && inv.state != Cancelled
    && (year.Some? ==>
          inv.invoiceDate.Some?
          && year.value.dateStart <= inv.invoiceDate.value <= year.value.dateEnd)
  }

  function SearchInvoices(invoices: seq<Invoice>, year: Option<AcademicYear>): (r: seq<Invoice>)
    ensures |r| <= |invoices|
  {
    if invoices == [] then []
    else (if InvoiceInDomain(year, invoices[0]) then [invoices[0]] else []) + SearchInvoices(invoices[1..], year)
  }

  /** The invoice search finds exactly the invoices in the domain. */
  lemma {:induction false} SearchInvoicesMembers(invoices: seq<Invoice>, year: Option<AcademicYear>, inv: Invoice)
    ensures inv in SearchInvoices(invoices, year) <==> inv in invoices && InvoiceInDomain(year, inv)
  {
    if invoices != [] {
      SearchInvoicesMembers(invoices[1..], year, inv);
      assert inv in invoices <==> inv == invoices[0] || inv in invoices[1..];
    }
  }

  /** `sum(invoices.mapped('amount_total'))`. */
  function SumTotal(invoices: seq<Invoice>): int
  {
    if invoices == [] then 0 else invoices[0].amountTotal + SumTotal(invoices[1..])
  }

  /** `sum(invoices.mapped('amount_residual'))`. */
  function SumResidual(invoices: seq<Invoice>): int
  {
    if invoices == [] then 0 else invoices[0].amountResidual + SumResidual(invoices[1..])
  }

  /** An invoice whose residual lies between nothing and its total. */
  predicate Settles(inv: Invoice)
  {
    0 <= inv.amountResidual <= inv.amountTotal
  }

  /** When every invoice owes between nothing and its total, so does the sum. */
  lemma {:induction false} SumsBounded(invoices: seq<Invoice>)
    requires forall inv :: inv in invoices ==> Settles(inv)
    ensures 0 <= SumResidual(invoices) <= SumTotal(invoices)
  {
    if invoices != [] {
      assert invoices[0] in invoices;
      SumsBounded(invoices[1..]);
    }
  }

  /** The partners of invoices with something left to pay
      (`filtered(amount_residual > 0).mapped('partner_id.id')`); an invoice
      without a partner contributes none. */
  function DebtPartners(invoices: seq<Invoice>): (r: set<Id>)
    ensures forall p :: p in r <==>
      exists inv :: inv in invoices && inv.amountResidual > 0 && inv.partner == Some(p)
  {
    if invoices == [] then {}
    else
      var inv := invoices[0];
      var rest := DebtPartners(invoices[1..]);
      assert forall x :: x in invoices[1..] ==> x in invoices;
      assert forall x :: x in invoices ==> x == inv || x in invoices[1..];
      if inv.amountResidual > 0 && inv.partner.Some? then rest + {inv.partner.value} else rest
  }

  /** A classroom (`silina.classroom`) and the academic year it belongs to. */
  datatype Classroom = Classroom(id: Id, academicYear: Option<Id>)

  /** A staff record (`silina.teacher`, `hr.employee`). */
  datatype StaffMember = StaffMember(id: Id, active: bool)

  function CountActive(staff: seq<StaffMember>): (n: nat)
    ensures n <= |staff|
    ensures n == 0 <==> forall i :: 0 <= i < |staff| ==> !staff[i].active
    ensures n == |staff| <==> forall i :: 0 <= i < |staff| ==> staff[i].active
  {
    if staff == [] then 0 else (if staff[0].active then 1 else 0) + CountActive(staff[1..])
  }

  /** Counting active records over two lists adds up, so the count is the
      number of active records, one by one. */
  lemma {:induction false} CountActiveAppend(a: seq<StaffMember>, b: seq<StaffMember>)
    ensures CountActive(a + b) == CountActive(a) + CountActive(b)
  {
    if a != [] {
      assert (a + b)[0] == a[0];
      assert (a + b)[1..] == a[1..] + b;
      CountActiveAppend(a[1..], b);
    } else {
      assert a + b == b;
    }
  }

  lemma CountActiveSingle(x: StaffMember)
    ensures CountActive([x]) == if x.active then 1 else 0
  {
  }
}
