/** The dashboard records and their breakdown rows as a store updated in
    place: a refresh deletes a dashboard's level and classroom rows and
    creates them anew, and `get_dashboard` finds or creates the dashboard of
    the current academic year. */
module DashboardStore {
  import opened SchoolRecords
  import opened DashboardStats

  /** A `silina.dashboard` record: its identity and its academic year. */
  datatype Dashboard = Dashboard(id: Id, year: Option<AcademicYear>)

  /** The records a refresh reads. */
  datatype SchoolData = SchoolData(
    students: seq<Student>,
    invoices: seq<Invoice>,
    levels: seq<Id>,
    classrooms: seq<Classroom>,
    teachers: seq<StaffMember>,
    employees: seq<StaffMember>,
    departments: seq<Id>)

  /** The scalar figures a refresh recomputes. */
  datatype Figures = Figures(students: StudentStats, finance: FinancialStats, staff: StaffStats)

  function ComputeFigures(d: Dashboard, data: SchoolData): (f: Figures)
    ensures f.students.male + f.students.female <= f.students.total
    ensures f.students.enrolled <= f.students.total
    ensures f.finance.paid == f.finance.expected - f.finance.debt
    ensures f.finance.studentsWithDebt <= |Search(data.students, [IsActive])|
  {
    Figures(
      ComputeStudentStats(data.students, YearId(d.year)),
      ComputeFinancialStats(data.invoices, data.students, d.year),
      ComputeStaffStats(data.teachers, data.employees, data.departments))
  }

  /** The rows that belong to dashboard `dashboard`. */
  function OwnRows(rows: seq<StatsRow>, dashboard: Id): (r: seq<StatsRow>)
    ensures |r| <= |rows|
  {
    if rows == [] then []
    else (if rows[0].dashboard == dashboard then [rows[0]] else []) + OwnRows(rows[1..], dashboard)
  }

  /** The rows `unlink` of dashboard `dashboard`'s rows leaves behind. */
  function OtherRows(rows: seq<StatsRow>, dashboard: Id): (r: seq<StatsRow>)
    ensures |r| <= |rows|
  {
    if rows == [] then []
    else (if rows[0].dashboard != dashboard then [rows[0]] else []) + OtherRows(rows[1..], dashboard)
  }

  /** Together the two filters split the rows by owner. */
  lemma {:induction false} FilterMembers(rows: seq<StatsRow>, dashboard: Id, row: StatsRow)
    ensures row in OwnRows(rows, dashboard) <==> row in rows && row.dashboard == dashboard
    ensures row in OtherRows(rows, dashboard) <==> row in rows && row.dashboard != dashboard
    ensures |OwnRows(rows, dashboard)| + |OtherRows(rows, dashboard)| == |rows|
  {
    if rows != [] {
      FilterMembers(rows[1..], dashboard, row);
      assert row in rows <==> row == rows[0] || row in rows[1..];
    }
  }

  lemma {:induction false} FilterAppend(a: seq<StatsRow>, b: seq<StatsRow>, dashboard: Id)
    ensures OwnRows(a + b, dashboard) == OwnRows(a, dashboard) + OwnRows(b, dashboard)
    ensures OtherRows(a + b, dashboard) == OtherRows(a, dashboard) + OtherRows(b, dashboard)
  {
    if a != [] {
      assert (a + b)[0] == a[0];
      assert (a + b)[1..] == a[1..] + b;
      FilterAppend(a[1..], b, dashboard);
    } else {
      assert a + b == b;
    }
  }

  lemma {:induction false} FilterAll(rows: seq<StatsRow>, dashboard: Id)
    requires forall row :: row in rows ==> row.dashboard == dashboard
    ensures OwnRows(rows, dashboard) == rows && OtherRows(rows, dashboard) == []
  {
    if rows != [] {
      assert rows[0] in rows;
      FilterAll(rows[1..], dashboard);
    }
  }

  lemma {:induction false} FilterNone(rows: seq<StatsRow>, dashboard: Id)
    requires forall row :: row in rows ==> row.dashboard != dashboard
    ensures OwnRows(rows, dashboard) == [] && OtherRows(rows, dashboard) == rows
  {
    if rows != [] {
      assert rows[0] in rows;
      FilterNone(rows[1..], dashboard);
    }
  }

  lemma Regroup(a: seq<StatsRow>, b: seq<StatsRow>, c: seq<StatsRow>)
    ensures (a + b) + c == a + (b + c)
  {
  }

  /** One step of a row-generating loop: the rows created so far, after the
      rows kept, grow by the row of the next group. */
  lemma RowsLoopStep(kept: seq<StatsRow>, dashboard: Id, g: Grouping, students: seq<Student>,
                     groups: seq<Id>, i: nat)
    requires i < |groups|
    ensures kept + Rows(dashboard, g, students, groups[..i + 1]) ==
      (kept + Rows(dashboard, g, students, groups[..i])) + RowFor(dashboard, g, students, groups[i])
  {
    RowsStep(dashboard, g, students, groups, i);
    Regroup(kept, Rows(dashboard, g, students, groups[..i]), RowFor(dashboard, g, students, groups[i]));
  }

  /** The body of a row-generating loop: the group's students are searched
      and, when there are any, one row is made of their count and gender
      split. */
  method GroupRow(dashboard: Id, g: Grouping, students: seq<Student>, group: Id) returns (row: seq<StatsRow>)
    ensures row == RowFor(dashboard, g, students, group)
  {
    var found := Search(students, GroupDomain(g, group));
    RowForFound(dashboard, g, students, group, found);
    row := [];
    if found != [] {
      var male := |Search(found, [HasGender(Male)])|;
      var female := |Search(found, [HasGender(Female)])|;
      row := [StatsRow(dashboard, group, |found|, male, female)];
    }
  }

  /** After the rows of `dashboard` are replaced by `created`, its rows are
      exactly `created` (none of the previous ones survive) and the other
      dashboards' rows are as they were; replacing again with the same rows
      changes nothing, so repeated refreshes do not accumulate rows. */
  lemma Replace(rows: seq<StatsRow>, created: seq<StatsRow>, dashboard: Id)
    requires forall row :: row in created ==> row.dashboard == dashboard
    ensures OwnRows(OtherRows(rows, dashboard) + created, dashboard) == created
    ensures OtherRows(OtherRows(rows, dashboard) + created, dashboard) == OtherRows(rows, dashboard)
  {
    var kept := OtherRows(rows, dashboard);
    forall row | row in kept ensures row.dashboard != dashboard {
      FilterMembers(rows, dashboard, row);
    }
    FilterAppend(kept, created, dashboard);
    FilterNone(kept, dashboard);
    FilterAll(created, dashboard);
    assert kept + [] == kept;
    assert [] + created == created;
  }

  /** The dashboard `search([('current_academic_year_id', '=', year)],
      limit=1)` finds: the first, in id order, whose year is `year`. */
  function FindDashboard(dashboards: seq<Dashboard>, year: Option<Id>): (r: Option<Dashboard>)
    ensures r.Some? ==> r.value in dashboards && YearId(r.value.year) == year
    ensures r.None? <==> forall d :: d in dashboards ==> YearId(d.year) != year
  {
    if dashboards == [] then None
    else if YearId(dashboards[0].year) == year then Some(dashboards[0])
    else FindDashboard(dashboards[1..], year)
  }

  lemma {:induction false} FindDashboardAppend(dashboards: seq<Dashboard>, d: Dashboard)
    requires FindDashboard(dashboards, YearId(d.year)).None?
    ensures FindDashboard(dashboards + [d], YearId(d.year)) == Some(d)
  {
    if dashboards != [] {
      assert (dashboards + [d])[1..] == dashboards[1..] + [d];
      FindDashboardAppend(dashboards[1..], d);
    }
  }

  /** The dashboards and their breakdown rows. */
  class Store {
    var dashboards: seq<Dashboard>
    var levelRows: seq<StatsRow>
    var classroomRows: seq<StatsRow>
    var nextId: Id

    /** Dashboards are in id order, and every id handed out is below `nextId`. */
    ghost predicate Valid()
      reads this
    {
      && (forall i :: 0 <= i < |dashboards| ==> dashboards[i].id < nextId)
      && (forall i, j :: 0 <= i < j < |dashboards| ==> dashboards[i].id < dashboards[j].id)
    }

    constructor ()
      ensures Valid()
      ensures dashboards == [] && levelRows == [] && classroomRows == []
    {
      dashboards := [];
      levelRows := [];
      classroomRows := [];
      nextId := 1;
    }

    /** `_generate_level_stats`: the dashboard's level rows are deleted, then
        one row is created per level, in level order, that has a student in
        the dashboard's domain. */
    method GenerateLevelStats(d: Dashboard, students: seq<Student>, levels: seq<Id>)
      modifies this`levelRows
      ensures levelRows == OtherRows(old(levelRows), d.id) + LevelRows(d.id, YearId(d.year), students, levels)
    {
      levelRows := OtherRows(levelRows, d.id);
      ghost var kept := levelRows;
      var g := ByLevel(YearId(d.year));
      var i := 0;
      while i < |levels|
        invariant 0 <= i <= |levels|
        invariant levelRows == kept + Rows(d.id, g, students, levels[..i])
      {
        var row := GroupRow(d.id, g, students, levels[i]);
        RowsLoopStep(kept, d.id, g, students, levels, i);
        levelRows := levelRows + row;
        i := i + 1;
      }
      assert levels[..i] == levels;
    }

    /** `_generate_classroom_stats`: the dashboard's classroom rows are
        deleted, then one row is created per classroom of the dashboard's
        year that has an active student, of whatever year. */
    method GenerateClassroomStats(d: Dashboard, students: seq<Student>, classrooms: seq<Classroom>)
      modifies this`classroomRows
      ensures classroomRows ==
        OtherRows(old(classroomRows), d.id) + ClassroomRows(d.id, YearId(d.year), students, classrooms)
    {
      classroomRows := OtherRows(classroomRows, d.id);
      ghost var kept := classroomRows;
      var selected := SelectClassrooms(classrooms, YearId(d.year));
      var i := 0;
      while i < |selected|
        invariant 0 <= i <= |selected|
        invariant classroomRows == kept + Rows(d.id, ByClassroom, students, selected[..i])
      {
        var row := GroupRow(d.id, ByClassroom, students, selected[i]);
        RowsLoopStep(kept, d.id, ByClassroom, students, selected, i);
        classroomRows := classroomRows + row;
        i := i + 1;
      }
      assert selected[..i] == selected;
    }

    /** `action_refresh`: recomputes the figures and regenerates both
        breakdowns of dashboard `d`. */
    method Refresh(d: Dashboard, data: SchoolData) returns (figures: Figures)
      modifies this`levelRows, this`classroomRows
      ensures figures == ComputeFigures(d, data)
      ensures levelRows ==
        OtherRows(old(levelRows), d.id) + LevelRows(d.id, YearId(d.year), data.students, data.levels)
      ensures classroomRows ==
        OtherRows(old(classroomRows), d.id) + ClassroomRows(d.id, YearId(d.year), data.students, data.classrooms)
    {
      figures := ComputeFigures(d, data);
      GenerateLevelStats(d, data.students, data.levels);
      GenerateClassroomStats(d, data.students, data.classrooms);
    }

    /** The `create` of `get_dashboard`: a dashboard for `current` with a
        fresh id, added after the existing ones. */
    method AddDashboard(current: Option<AcademicYear>) returns (d: Dashboard)
      requires Valid()
      requires FindDashboard(dashboards, YearId(current)).None?
      modifies this`dashboards, this`nextId
      ensures Valid()
      ensures FindDashboard(dashboards, YearId(current)) == Some(d)
      ensures d == Dashboard(old(nextId), current)
      ensures forall i :: 0 <= i < |old(dashboards)| ==> old(dashboards)[i].id < d.id
      ensures dashboards == old(dashboards) + [d] && nextId == old(nextId) + 1
    {
      d := Dashboard(nextId, current);
      FindDashboardAppend(dashboards, d);
      dashboards := dashboards + [d];
      nextId := nextId + 1;
    }

    /** `get_dashboard`: the dashboard of the current year when there is one,
        with nothing changed; otherwise a new dashboard for that year, with a
        fresh id, which is then refreshed. Either way it is afterwards the one
        found for that year. */
    method GetDashboard(current: Option<AcademicYear>, data: SchoolData) returns (d: Dashboard)
      requires Valid()
      modifies this
      ensures Valid()
      ensures FindDashboard(dashboards, YearId(current)) == Some(d)
      ensures old(FindDashboard(dashboards, YearId(current))).Some? ==>
        && d == old(FindDashboard(dashboards, YearId(current))).value
        && dashboards == old(dashboards) && nextId == old(nextId)
        && levelRows == old(levelRows) && classroomRows == old(classroomRows)
      ensures old(FindDashboard(dashboards, YearId(current))).None? ==>
        && d == Dashboard(old(nextId), current)
        && (forall i :: 0 <= i < |old(dashboards)| ==> old(dashboards)[i].id < d.id)
        && dashboards == old(dashboards) + [d] && nextId == old(nextId) + 1
        && levelRows ==
             OtherRows(old(levelRows), d.id) + LevelRows(d.id, YearId(current), data.students, data.levels)
        && classroomRows ==
             OtherRows(old(classroomRows), d.id) + ClassroomRows(d.id, YearId(current), data.students, data.classrooms)
    {
      var found := FindDashboard(dashboards, YearId(current));
      if found.Some? {
        return found.value;
      }
      d := AddDashboard(current);
      var _ := Refresh(d, data);
    }

    /** Two calls of `get_dashboard` for the same year return the same
        dashboard, and at most one dashboard is created. */
    method GetDashboardTwice(current: Option<AcademicYear>, data: SchoolData) returns (first: Dashboard, second: Dashboard)
      requires Valid()
      modifies this
      ensures Valid()
      ensures first == second
      ensures |dashboards| <= |old(dashboards)| + 1
    {
      first := GetDashboard(current, data);
      second := GetDashboard(current, data);
    }

    /** Refreshing twice leaves exactly the rows of one refresh: the
        dashboard's rows are the regenerated ones, with no duplicates
        carried over. */
    method RefreshTwice(d: Dashboard, data: SchoolData)
      modifies this`levelRows, this`classroomRows
      ensures OwnRows(levelRows, d.id) == LevelRows(d.id, YearId(d.year), data.students, data.levels)
      ensures OwnRows(classroomRows, d.id) == ClassroomRows(d.id, YearId(d.year), data.students, data.classrooms)
      ensures OtherRows(levelRows, d.id) == OtherRows(old(levelRows), d.id)
      ensures OtherRows(classroomRows, d.id) == OtherRows(old(classroomRows), d.id)
    {
      var levels := LevelRows(d.id, YearId(d.year), data.students, data.levels);
      var rooms := ClassroomRows(d.id, YearId(d.year), data.students, data.classrooms);
      RowsReport(d.id, ByLevel(YearId(d.year)), data.students, data.levels);
      RowsReport(d.id, ByClassroom, data.students, SelectClassrooms(data.classrooms, YearId(d.year)));
      var _ := Refresh(d, data);
      Replace(old(levelRows), levels, d.id);
      Replace(old(classroomRows), rooms, d.id);
      var _ := Refresh(d, data);
      Replace(OtherRows(old(levelRows), d.id) + levels, levels, d.id);
      Replace(OtherRows(old(classroomRows), d.id) + rooms, rooms, d.id);
    }
  }
}
