/** The figures of the school dashboard (`silina.dashboard`) as functions of
    the records and of the dashboard's academic year: student counts,
    invoice aggregates, staff counts, and the per-level and per-classroom
    breakdown rows that a refresh regenerates. */
module DashboardStats {
  import opened SchoolRecords

  /** The base student domain: active, and in the dashboard's year when one
      is set. */
  function StudentDomain(year: Option<Id>): seq<StudentTerm>
  {
    [IsActive] + (if year.Some? then [InYear(year.value)] else [])
  }

  lemma StudentDomainMeaning(year: Option<Id>, s: Student)
    ensures Matches(s, StudentDomain(year)) <==> s.active && (year.Some? ==> s.academicYear == year)
  {
    var d := StudentDomain(year);
    if s.active && (year.Some? ==> s.academicYear == year) {
      assert forall i :: 0 <= i < |d| ==> Satisfies(s, d[i]);
    }
    if Matches(s, d) {
      assert Satisfies(s, d[0]);
      if year.Some? { assert Satisfies(s, d[1]); }
    }
  }

  datatype StudentStats = StudentStats(total: nat, male: nat, female: nat, enrolled: nat)

  /** `_compute_student_stats`: each count narrows the same base domain by
      one more term, so none exceeds the total and the two genders together
      do not either. */
  function ComputeStudentStats(students: seq<Student>, year: Option<Id>): (r: StudentStats)
    ensures r.male + r.female <= r.total
    ensures r.enrolled <= r.total
  {
    var d := StudentDomain(year);
    GenderSplit(students, d);
    SearchSubdomain(students, d + [InState(Enrolled)], d);
    StudentStats(
      |Search(students, d)|,
      |Search(students, d + [HasGender(Male)])|,
      |Search(students, d + [HasGender(Female)])|,
      |Search(students, d + [InState(Enrolled)])|)
  }

  /** The total counts exactly the active students of the year (of any year
      when none is set). */
  lemma StudentTotalMeaning(students: seq<Student>, year: Option<Id>, s: Student)
    ensures s in Search(students, StudentDomain(year)) <==>
      s in students && s.active && (year.Some? ==> s.academicYear == year)
  {
    StudentDomainMeaning(year, s);
    SearchMembers(students, StudentDomain(year), s);
  }

  /** `payment_rate`: the paid share of the expected amount, in percent, and
      exactly zero, with no division, when nothing positive is expected.
      When the paid amount lies between nothing and the expected one, the
      rate is a percentage, and everything paid is 100. */
  function PaymentRate(paid: int, expected: int): (rate: real)
    ensures expected <= 0 ==> rate == 0.0
    ensures 0 <= paid <= expected ==> 0.0 <= rate <= 100.0
    ensures 0 < paid == expected ==> rate == 100.0
  {
    if expected > 0 then
      PercentBounds(paid as real / expected as real, expected as real, paid as real);
      (paid as real / expected as real) * 100.0
    else 0.0
  }

  /** With something expected, the rate times the expected amount is a
      hundred times the paid amount. */
  lemma PaymentRateMeaning(paid: int, expected: int)
    requires expected > 0
    ensures PaymentRate(paid, expected) * expected as real == paid as real * 100.0
  {
    var e, p := expected as real, paid as real;
    assert (p / e) * e == p;
    assert (p / e) * 100.0 * e == (p / e) * e * 100.0;
  }

  /** `part / whole` lies in [0, 1] when `part` lies in [0, whole]. */
  lemma PercentBounds(ratio: real, whole: real, part: real)
    requires whole > 0.0 && ratio == part / whole
    ensures 0.0 <= part <= whole ==> 0.0 <= ratio * 100.0 <= 100.0
    ensures part == whole ==> ratio * 100.0 == 100.0
  {
    assert ratio * whole == part;
    if 0.0 <= part <= whole {
      assert 0.0 <= ratio <= 1.0;
    }
  }

  datatype FinancialStats = FinancialStats(
    expected: int,
    paid: int,
    debt: int,
    rate: real,
    studentsWithDebt: nat)

  /** The active students whose partner owes something on a selected
      invoice. */
  function Debtors(students: seq<Student>, invoices: seq<Invoice>): seq<Student>
  {
    Search(students, [PartnerIn(DebtPartners(invoices)), IsActive])
  }

  /** `_compute_financial_stats`: paid is what was expected less what is still
      owed, the rate is derived from the two, and debtors are active
      students. */
  function ComputeFinancialStats(invoices: seq<Invoice>, students: seq<Student>, year: Option<AcademicYear>)
    : (r: FinancialStats)
    ensures r.expected == SumTotal(SearchInvoices(invoices, year))
    ensures r.debt == SumResidual(SearchInvoices(invoices, year))
    ensures r.paid == r.expected - r.debt
    ensures r.rate == PaymentRate(r.paid, r.expected)
    ensures r.studentsWithDebt == |Debtors(students, SearchInvoices(invoices, year))|
    ensures r.studentsWithDebt <= |Search(students, [IsActive])|
  {
    var selected := SearchInvoices(invoices, year);
    var expected := SumTotal(selected);
    var paid := SumTotal(selected) - SumResidual(selected);
    var debt := SumResidual(selected);
    SearchSubdomain(students, [PartnerIn(DebtPartners(selected)), IsActive], [IsActive]);
    FinancialStats(expected, paid, debt, PaymentRate(paid, expected), |Debtors(students, selected)|)
  }

  /** When every selected invoice owes between nothing and its total, the
      payment rate is a percentage. */
  lemma PaymentRateIsPercentage(invoices: seq<Invoice>, students: seq<Student>, year: Option<AcademicYear>)
    requires forall inv :: inv in SearchInvoices(invoices, year) ==> Settles(inv)
    ensures 0.0 <= ComputeFinancialStats(invoices, students, year).rate <= 100.0
  {
    SumsBounded(SearchInvoices(invoices, year));
  }

  /** One customer invoice of 1000 with 250 still owed: 750 paid, a rate of 75%. */
  lemma PaymentRateExample()
    ensures var inv := Invoice(1, OutInvoice, Posted, None, 1000, 250, None);
      var r := ComputeFinancialStats([inv], [], None);
      r.expected == 1000 && r.debt == 250 && r.paid == 750 && r.rate == 75.0
  {
    var inv := Invoice(1, OutInvoice, Posted, None, 1000, 250, None);
    assert SearchInvoices([inv], None) == [inv];
  }

  /** Nothing expected: the rate is zero. */
  lemma PaymentRateNothingExpected(students: seq<Student>)
    ensures ComputeFinancialStats([], students, None).rate == 0.0
  {
  }

  lemma {:induction false} SearchInvoicesAppend(invoices: seq<Invoice>, inv: Invoice, year: Option<AcademicYear>)
    ensures SearchInvoices(invoices + [inv], year) ==
      SearchInvoices(invoices, year) + (if InvoiceInDomain(year, inv) then [inv] else [])
  {
    if invoices != [] {
      assert (invoices + [inv])[0] == invoices[0];
      assert (invoices + [inv])[1..] == invoices[1..] + [inv];
      SearchInvoicesAppend(invoices[1..], inv, year);
      var head := if InvoiceInDomain(year, invoices[0]) then [invoices[0]] else [];
      var tail := SearchInvoices(invoices[1..], year);
      var last := if InvoiceInDomain(year, inv) then [inv] else [];
      assert head + (tail + last) == (head + tail) + last;
    } else {
      assert [] + [inv] == [inv];
    }
  }

  /** A debtor is counted once however many unpaid invoices their partner
      has: another unpaid invoice for a partner already in debt does not
      change the count. */
  lemma DebtorCountedOnce(invoices: seq<Invoice>, students: seq<Student>, year: Option<AcademicYear>,
                          owing: Invoice, extra: Invoice)
    requires owing in SearchInvoices(invoices, year) && owing.amountResidual > 0
    requires extra.partner == owing.partner && extra.amountResidual > 0
    ensures ComputeFinancialStats(invoices + [extra], students, year).studentsWithDebt
         == ComputeFinancialStats(invoices, students, year).studentsWithDebt
  {
    var before := SearchInvoices(invoices, year);
    SearchInvoicesAppend(invoices, extra, year);
    var after := SearchInvoices(invoices + [extra], year);
    assert forall x :: x in after ==> x in before || x == extra;
    assert DebtPartners(after) == DebtPartners(before);
  }

  /** A partner is in debt exactly when one of its invoices in the domain has
      something left to pay. */
  lemma DebtPartnerMeaning(invoices: seq<Invoice>, year: Option<AcademicYear>, p: Id)
    ensures p in DebtPartners(SearchInvoices(invoices, year)) <==>
      exists inv :: inv in invoices && InvoiceInDomain(year, inv) && inv.amountResidual > 0 && inv.partner == Some(p)
  {
    var selected := SearchInvoices(invoices, year);
    if p in DebtPartners(selected) {
      var inv :| inv in selected && inv.amountResidual > 0 && inv.partner == Some(p);
      SearchInvoicesMembers(invoices, year, inv);
    }
    if exists inv :: inv in invoices && InvoiceInDomain(year, inv) && inv.amountResidual > 0 && inv.partner == Some(p) {
      var inv :| inv in invoices && InvoiceInDomain(year, inv) && inv.amountResidual > 0 && inv.partner == Some(p);
      SearchInvoicesMembers(invoices, year, inv);
    }
  }

  /** The debtor domain: an active student whose partner is one of `partners`. */
  lemma DebtorDomainMeaning(partners: set<Id>, s: Student)
    ensures Matches(s, [PartnerIn(partners), IsActive]) <==>
      s.active && s.partner.Some? && s.partner.value in partners
  {
    var d := [PartnerIn(partners), IsActive];
    assert Matches(s, d) <==> Satisfies(s, d[0]) && Satisfies(s, d[1]);
  }

  /** The debtors are exactly the active students of the table whose partner
      has an invoice in the domain with something left to pay. */
  lemma DebtorsMembers(students: seq<Student>, invoices: seq<Invoice>, year: Option<AcademicYear>, s: Student)
    ensures s in Debtors(students, SearchInvoices(invoices, year)) <==>
      s in students && s.active && s.partner.Some? &&
      exists inv :: inv in invoices && InvoiceInDomain(year, inv) && inv.amountResidual > 0 && inv.partner == s.partner
  {
    var partners := DebtPartners(SearchInvoices(invoices, year));
    SearchMembers(students, [PartnerIn(partners), IsActive], s);
    DebtorDomainMeaning(partners, s);
    if s.partner.Some? {
      DebtPartnerMeaning(invoices, year, s.partner.value);
    }
  }

  /** Every active student whose partner is in debt is counted, however many
      students share that partner: when all the students are such, all are
      counted. */
  lemma SharedPartnerCountsEachStudent(invoices: seq<Invoice>, students: seq<Student>, year: Option<AcademicYear>)
    requires forall s :: s in students ==>
      s.active && s.partner.Some? && s.partner.value in DebtPartners(SearchInvoices(invoices, year))
    ensures ComputeFinancialStats(invoices, students, year).studentsWithDebt == |students|
  {
    var d := [PartnerIn(DebtPartners(SearchInvoices(invoices, year))), IsActive];
    forall s | s in students ensures Matches(s, d) {
      assert Satisfies(s, d[0]) && Satisfies(s, d[1]);
    }
    SearchAll(students, d);
  }

  /** Two active students sharing one partner with an unpaid invoice are both
      counted. */
  lemma SharedPartnerExample()
    ensures var a := Student(1, true, None, Male, Enrolled, None, None, Some(9));
      var b := Student(2, true, None, Female, Enrolled, None, None, Some(9));
      var inv := Invoice(1, OutInvoice, Posted, None, 500, 500, Some(9));
      ComputeFinancialStats([inv], [a, b], None).studentsWithDebt == 2
  {
    var inv := Invoice(1, OutInvoice, Posted, None, 500, 500, Some(9));
    assert SearchInvoices([inv], None) == [inv];
    assert DebtPartners([inv]) == {9};
    SharedPartnerCountsEachStudent([inv], [Student(1, true, None, Male, Enrolled, None, None, Some(9)),
                                           Student(2, true, None, Female, Enrolled, None, None, Some(9))], None);
  }

  /** No selected invoice owes anything: nobody is in debt. */
  lemma NoResidualNoDebtors(invoices: seq<Invoice>, students: seq<Student>, year: Option<AcademicYear>)
    requires forall inv :: inv in SearchInvoices(invoices, year) ==> inv.amountResidual <= 0
    ensures ComputeFinancialStats(invoices, students, year).studentsWithDebt == 0
  {
    var selected := SearchInvoices(invoices, year);
    assert DebtPartners(selected) == {};
    var d := [PartnerIn(DebtPartners(selected)), IsActive];
    forall st ensures !Matches(st, d) {
      assert !Satisfies(st, d[0]);
    }
    SearchNone(students, d);
  }

  datatype StaffStats = StaffStats(teachers: nat, employees: nat, departments: nat)

  /** `_compute_staff_stats`: active teachers, active employees, and every
      department, independent of the academic year. */
  function ComputeStaffStats(teachers: seq<StaffMember>, employees: seq<StaffMember>, departments: seq<Id>)
    : (r: StaffStats)
    ensures r.teachers <= |teachers| && r.employees <= |employees| && r.departments == |departments|
  {
    StaffStats(CountActive(teachers), CountActive(employees), |departments|)
  }

  /** One more teacher record raises the teacher count by one exactly when
      the record is active, and changes no other figure. */
  lemma StaffStatsAddTeacher(teachers: seq<StaffMember>, employees: seq<StaffMember>, departments: seq<Id>, t: StaffMember)
    ensures var before := ComputeStaffStats(teachers, employees, departments);
      var after := ComputeStaffStats(teachers + [t], employees, departments);
      after.teachers == before.teachers + (if t.active then 1 else 0)
      && after.employees == before.employees && after.departments == before.departments
  {
    CountActiveAppend(teachers, [t]);
    CountActiveSingle(t);
  }

  /** The two breakdowns: by level within the dashboard's student domain, and
      by classroom among active students whatever their year. */
  datatype Grouping = ByLevel(year: Option<Id>) | ByClassroom

  /** The domain each breakdown row counts. */
  function GroupDomain(g: Grouping, group: Id): seq<StudentTerm>
  {
    match g
    case ByLevel(year) => StudentDomain(year) + [InLevel(group)]
    case ByClassroom => [InClassroom(group), IsActive]
  }

  /** The domain a breakdown refines. */
  function BaseDomain(g: Grouping): seq<StudentTerm>
  {
    match g
    case ByLevel(year) => StudentDomain(year)
    case ByClassroom => [IsActive]
  }

  function GroupOf(g: Grouping, s: Student): Option<Id>
  {
    if g.ByLevel? then s.level else s.classroom
  }

  lemma GroupDomainMeaning(g: Grouping, group: Id, s: Student)
    ensures Matches(s, GroupDomain(g, group)) <==> Matches(s, BaseDomain(g)) && GroupOf(g, s) == Some(group)
  {
    match g
    case ByLevel(year) =>
      MatchesAppend(s, StudentDomain(year), [InLevel(group)]);
      assert Matches(s, [InLevel(group)]) <==> Satisfies(s, [InLevel(group)][0]);
    case ByClassroom =>
      var d := [InClassroom(group), IsActive];
      assert Matches(s, d) <==> Satisfies(s, d[0]) && Satisfies(s, d[1]);
      assert Matches(s, [IsActive]) <==> Satisfies(s, [IsActive][0]);
  }

  /** A `silina.dashboard.level.stats` or `silina.dashboard.classroom.stats`
      row; `group` is its level or classroom. */
  datatype StatsRow = StatsRow(dashboard: Id, group: Id, total: nat, male: nat, female: nat)

  /** The row created for one group, if it has any student. */
  function RowFor(dashboard: Id, g: Grouping, students: seq<Student>, group: Id): seq<StatsRow>
  {
    var found := Search(students, GroupDomain(g, group));
    if found == [] then []
    else [StatsRow(dashboard, group, |found|,
                   |Search(found, [HasGender(Male)])|, |Search(found, [HasGender(Female)])|)]
  }

  /** The number of students of `group`. */
  function GroupSize(g: Grouping, students: seq<Student>, group: Id): nat
  {
    |Search(students, GroupDomain(g, group))|
  }

  /** `row` reports, for its dashboard, the students of its group: a
      positive total and the two gender counts within it. */
  predicate Reports(dashboard: Id, g: Grouping, students: seq<Student>, row: StatsRow)
  {
    && row.dashboard == dashboard
    && row.total == GroupSize(g, students, row.group) > 0
    && row.male == |Search(students, GroupDomain(g, row.group) + [HasGender(Male)])|
    && row.female == |Search(students, GroupDomain(g, row.group) + [HasGender(Female)])|
    && row.male + row.female <= row.total
  }

  /** The row of one group exists exactly when the group has students, and
      reports them. */
  lemma RowForReports(dashboard: Id, g: Grouping, students: seq<Student>, group: Id)
    ensures var added := RowFor(dashboard, g, students, group);
      && |added| <= 1
      && (added != [] <==> GroupSize(g, students, group) > 0)
      && (added != [] ==> added[0].group == group && Reports(dashboard, g, students, added[0]))
  {
    var d := GroupDomain(g, group);
    SearchRefine(students, d, [HasGender(Male)]);
    SearchRefine(students, d, [HasGender(Female)]);
    GenderSplit(students, d);
  }

  /** The rows a regeneration creates, one per non-empty group, in the order
      the groups are visited. */
  function Rows(dashboard: Id, g: Grouping, students: seq<Student>, groups: seq<Id>): (rows: seq<StatsRow>)
    ensures |rows| <= |groups|
    decreases |groups|
  {
    if groups == [] then []
    else
      var prefix := groups[..|groups| - 1];
      var last := groups[|groups| - 1];
      Rows(dashboard, g, students, prefix) + RowFor(dashboard, g, students, last)
  }

  /** Every row is for one of the visited groups. */
  lemma {:induction false} RowsGroupIn(dashboard: Id, g: Grouping, students: seq<Student>, groups: seq<Id>, i: nat)
    requires i < |Rows(dashboard, g, students, groups)|
    ensures Rows(dashboard, g, students, groups)[i].group in groups
  {
    var prefix := groups[..|groups| - 1];
    var last := groups[|groups| - 1];
    var before := Rows(dashboard, g, students, prefix);
    if i < |before| {
      RowsGroupIn(dashboard, g, students, prefix, i);
      var k :| 0 <= k < |prefix| && prefix[k] == before[i].group;
      assert groups[k] == prefix[k];
    } else {
      assert groups[|groups| - 1] == last;
    }
  }

  /** `RowFor` in terms of the search its caller has already run. */
  lemma RowForFound(dashboard: Id, g: Grouping, students: seq<Student>, group: Id, found: seq<Student>)
    requires found == Search(students, GroupDomain(g, group))
    ensures RowFor(dashboard, g, students, group) ==
      if found == [] then []
      else [StatsRow(dashboard, group, |found|, |Search(found, [HasGender(Male)])|, |Search(found, [HasGender(Female)])|)]
  {
  }

  /** Visiting one more group appends that group's row, if any. */
  lemma RowsStep(dashboard: Id, g: Grouping, students: seq<Student>, groups: seq<Id>, i: nat)
    requires i < |groups|
    ensures Rows(dashboard, g, students, groups[..i + 1])
         == Rows(dashboard, g, students, groups[..i]) + RowFor(dashboard, g, students, groups[i])
  {
    assert groups[..i + 1][..i] == groups[..i];
  }

  /** Every row reports, for this dashboard, a group that has students. */
  lemma {:induction false} RowsReport(dashboard: Id, g: Grouping, students: seq<Student>, groups: seq<Id>)
    ensures forall row :: row in Rows(dashboard, g, students, groups) ==> Reports(dashboard, g, students, row)
  {
    if groups != [] {
      var prefix := groups[..|groups| - 1];
      var last := groups[|groups| - 1];
      RowsReport(dashboard, g, students, prefix);
      RowForReports(dashboard, g, students, last);
      var before := Rows(dashboard, g, students, prefix);
      var added := RowFor(dashboard, g, students, last);
      assert Rows(dashboard, g, students, groups) == before + added;
      assert forall row :: row in added ==> row == added[0];
    }
  }

  /** An element other than the last lies in the sequence without its last. */
  lemma InPrefix(groups: seq<Id>, group: Id)
    requires group in groups && group != groups[|groups| - 1]
    ensures group in groups[..|groups| - 1]
  {
    var k :| 0 <= k < |groups| && groups[k] == group;
    assert groups[..|groups| - 1][k] == group;
  }

  /** A group gets a row exactly when it has students: no empty group is
      reported and no group with students is missed. */
  lemma RowsComplete(dashboard: Id, g: Grouping, students: seq<Student>, groups: seq<Id>, group: Id)
    requires group in groups
    ensures GroupSize(g, students, group) > 0 <==>
      exists row :: row in Rows(dashboard, g, students, groups) && row.group == group
  {
    RowsReport(dashboard, g, students, groups);
    var own := RowFor(dashboard, g, students, group);
    if GroupSize(g, students, group) > 0 {
      RowsCover(dashboard, g, students, groups, group);
      assert own[0].group == group;
    }
  }

  /** The row of every visited group with students is among the rows. */
  lemma {:induction false} RowsCover(dashboard: Id, g: Grouping, students: seq<Student>, groups: seq<Id>, group: Id)
    requires group in groups && RowFor(dashboard, g, students, group) != []
    ensures RowFor(dashboard, g, students, group)[0] in Rows(dashboard, g, students, groups)
  {
    var prefix := groups[..|groups| - 1];
    var last := groups[|groups| - 1];
    var before := Rows(dashboard, g, students, prefix);
    var added := RowFor(dashboard, g, students, last);
    assert Rows(dashboard, g, students, groups) == before + added;
    if group != last {
      InPrefix(groups, group);
      RowsCover(dashboard, g, students, prefix, group);
    }
  }

  /** The level rows of `_generate_level_stats`. */
  function LevelRows(dashboard: Id, year: Option<Id>, students: seq<Student>, levels: seq<Id>): seq<StatsRow>
  {
    Rows(dashboard, ByLevel(year), students, levels)
  }

  /** The classrooms `_generate_classroom_stats` visits: those of the
      dashboard's year when one is set, otherwise all. */
  function SelectClassrooms(classrooms: seq<Classroom>, year: Option<Id>): (r: seq<Id>)
    ensures |r| <= |classrooms|
  {
    if classrooms == [] then []
    else
      var c := classrooms[0];
      (if year.None? || c.academicYear == year then [c.id] else []) + SelectClassrooms(classrooms[1..], year)
  }

  /** A classroom is visited when it is in the table and, if the dashboard
      has a year, in that year. */
  lemma {:induction false} SelectClassroomsMembers(classrooms: seq<Classroom>, year: Option<Id>, id: Id)
    ensures id in SelectClassrooms(classrooms, year) <==>
      exists c :: c in classrooms && c.id == id && (year.None? || c.academicYear == year)
  {
    if classrooms != [] {
      SelectClassroomsMembers(classrooms[1..], year, id);
      assert forall x :: x in classrooms <==> x == classrooms[0] || x in classrooms[1..];
    }
  }

  /** The classroom rows of `_generate_classroom_stats`. */
  function ClassroomRows(dashboard: Id, year: Option<Id>, students: seq<Student>, classrooms: seq<Classroom>)
    : seq<StatsRow>
  {
    Rows(dashboard, ByClassroom, students, SelectClassrooms(classrooms, year))
  }

  predicate Distinct(ids: seq<Id>)
  {
    forall i, j :: 0 <= i < j < |ids| ==> ids[i] != ids[j]
  }

  predicate DistinctGroups(rows: seq<StatsRow>)
  {
    forall i, j :: 0 <= i < j < |rows| ==> rows[i].group != rows[j].group
  }

  /** Distinct groups give rows for distinct groups: no group is reported
      twice. */
  lemma {:induction false} RowsUnique(dashboard: Id, g: Grouping, students: seq<Student>, groups: seq<Id>)
    requires Distinct(groups)
    ensures DistinctGroups(Rows(dashboard, g, students, groups))
  {
    if groups != [] {
      var prefix := groups[..|groups| - 1];
      var last := groups[|groups| - 1];
      assert Distinct(prefix) by {
        forall i, j | 0 <= i < j < |prefix| ensures prefix[i] != prefix[j] {
          assert prefix[i] == groups[i] && prefix[j] == groups[j];
        }
      }
      assert last !in prefix by {
        forall k | 0 <= k < |prefix| ensures prefix[k] != last {
          assert prefix[k] == groups[k];
        }
      }
      RowsUnique(dashboard, g, students, prefix);
      var before := Rows(dashboard, g, students, prefix);
      var added := RowFor(dashboard, g, students, last);
      var rows := before + added;
      assert Rows(dashboard, g, students, groups) == rows;
      forall i, j | 0 <= i < j < |rows| ensures rows[i].group != rows[j].group {
        assert rows[i] == before[i];
        if j >= |before| {
          RowsGroupIn(dashboard, g, students, prefix, i);
          assert rows[j] == added[0] && added[0].group == last;
        } else {
          assert rows[j] == before[j];
          assert before[i].group != before[j].group;
        }
      }
    }
  }

  /** The number of students, summed over all rows. */
  function SumTotals(rows: seq<StatsRow>): nat
  {
    if rows == [] then 0 else SumTotals(rows[..|rows| - 1]) + rows[|rows| - 1].total
  }

  lemma SumTotalsAppend(a: seq<StatsRow>, b: seq<StatsRow>)
    requires |b| <= 1
    ensures SumTotals(a + b) == SumTotals(a) + SumTotals(b)
  {
    if b != [] {
      var ab := a + b;
      assert ab[..|ab| - 1] == a;
      assert ab[|ab| - 1] == b[0];
      assert SumTotals(ab) == SumTotals(a) + b[0].total;
      assert b[..0] == [];
      assert SumTotals(b) == SumTotals([]) + b[0].total;
    } else {
      assert a + b == a;
    }
  }

  /** How many of `groups` a student is counted in. */
  function Hits(s: Student, g: Grouping, groups: seq<Id>): nat
  {
    if groups == [] then 0
    else Hits(s, g, groups[..|groups| - 1]) + (if Matches(s, GroupDomain(g, groups[|groups| - 1])) then 1 else 0)
  }

  /** Per group, the number of students in it, summed over the groups. */
  function GroupCount(students: seq<Student>, g: Grouping, groups: seq<Id>): nat
  {
    if groups == [] then 0
    else GroupCount(students, g, groups[..|groups| - 1]) + |Search(students, GroupDomain(g, groups[|groups| - 1]))|
  }

  lemma {:induction false} GroupCountCons(students: seq<Student>, g: Grouping, groups: seq<Id>)
    requires students != []
    ensures GroupCount(students, g, groups) == Hits(students[0], g, groups) + GroupCount(students[1..], g, groups)
  {
    if groups != [] {
      GroupCountCons(students, g, groups[..|groups| - 1]);
      SearchCount(students, GroupDomain(g, groups[|groups| - 1]));
    }
  }

  lemma {:induction false} HitsNone(s: Student, g: Grouping, groups: seq<Id>)
    requires forall id :: id in groups ==> GroupOf(g, s) != Some(id)
    ensures Hits(s, g, groups) == 0
  {
    if groups != [] {
      var last := groups[|groups| - 1];
      assert last in groups;
      GroupDomainMeaning(g, last, s);
      HitsNone(s, g, groups[..|groups| - 1]);
    }
  }

  /** With distinct groups a student falls in at most one, and only if it
      matches the base domain. */
  lemma {:induction false} HitsAtMostOne(s: Student, g: Grouping, groups: seq<Id>)
    requires Distinct(groups)
    ensures Hits(s, g, groups) <= (if Matches(s, BaseDomain(g)) then 1 else 0)
  {
    if groups != [] {
      var prefix := groups[..|groups| - 1];
      var last := groups[|groups| - 1];
      GroupDomainMeaning(g, last, s);
      if Matches(s, GroupDomain(g, last)) {
        forall id | id in prefix ensures GroupOf(g, s) != Some(id) {
          var k :| 0 <= k < |prefix| && prefix[k] == id;
          assert groups[k] == prefix[k];
        }
        HitsNone(s, g, prefix);
      } else {
        HitsAtMostOne(s, g, prefix);
      }
    }
  }

  lemma {:induction false} GroupCountBound(students: seq<Student>, g: Grouping, groups: seq<Id>)
    requires Distinct(groups)
    ensures GroupCount(students, g, groups) <= |Search(students, BaseDomain(g))|
  {
    if students == [] {
      GroupCountEmpty(g, groups);
    } else {
      GroupCountCons(students, g, groups);
      HitsAtMostOne(students[0], g, groups);
      SearchCount(students, BaseDomain(g));
      GroupCountBound(students[1..], g, groups);
    }
  }

  lemma {:induction false} GroupCountEmpty(g: Grouping, groups: seq<Id>)
    ensures GroupCount([], g, groups) == 0
  {
    if groups != [] {
      GroupCountEmpty(g, groups[..|groups| - 1]);
    }
  }

  lemma {:induction false} RowsSumIsGroupCount(dashboard: Id, g: Grouping, students: seq<Student>, groups: seq<Id>)
    ensures SumTotals(Rows(dashboard, g, students, groups)) == GroupCount(students, g, groups)
  {
    if groups != [] {
      var prefix := groups[..|groups| - 1];
      var last := groups[|groups| - 1];
      RowsSumIsGroupCount(dashboard, g, students, prefix);
      SumTotalsAppend(Rows(dashboard, g, students, prefix), RowFor(dashboard, g, students, last));
    }
  }

  /** Over distinct levels, the level rows together count no more students
      than the dashboard's total: every counted student is in the year's
      domain and in one level only. */
  lemma LevelRowsWithinTotal(dashboard: Id, year: Option<Id>, students: seq<Student>, levels: seq<Id>)
    requires Distinct(levels)
    ensures SumTotals(LevelRows(dashboard, year, students, levels)) <= ComputeStudentStats(students, year).total
  {
    RowsSumIsGroupCount(dashboard, ByLevel(year), students, levels);
    GroupCountBound(students, ByLevel(year), levels);
  }

  /** Classrooms are chosen by year but their students are not: a classroom
      of this year counts an active student recorded in another year, whom
      the dashboard's total leaves out. */
  lemma ClassroomRowsIgnoreStudentYear()
    ensures var s := Student(1, true, Some(2), Male, Enrolled, None, Some(7), None);
      var rows := ClassroomRows(0, Some(1), [s], [Classroom(7, Some(1))]);
      SumTotals(rows) == 1 && ComputeStudentStats([s], Some(1)).total == 0
  {
    var s := Student(1, true, Some(2), Male, Enrolled, None, Some(7), None);
    var c := Classroom(7, Some(1));
    assert SelectClassrooms([c], Some(1)) == [7];
    GroupDomainMeaning(ByClassroom, 7, s);
    assert Matches(s, [IsActive]) by { assert Satisfies(s, [IsActive][0]); }
    assert Search([s], GroupDomain(ByClassroom, 7)) == [s];
    StudentDomainMeaning(Some(1), s);
    assert Search([s], StudentDomain(Some(1))) == [];
    var rows := ClassroomRows(0, Some(1), [s], [c]);
    assert |rows| == 1;
    assert rows == [rows[0]];
    assert SumTotals(rows) == SumTotals([]) + rows[0].total;
  }
}
