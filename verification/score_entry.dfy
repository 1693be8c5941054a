/** The state rules of the score-entry page (pages/Grades.tsx): editing a score
    or an absence flag of the record keyed by (student, subject, term), the
    over-maximum check, the per-level histogram and the per-row display. */
module ScoreEntry {
  import opened Util
  import opened Types
  import opened Levels
  import opened Exemption
  import opened Grading

  // ---------------------------------------------------------------------------
  // Entered values

  /** Characters the score inputs keep (`/[^0-9.]/g` removes the rest). */
  function KeepsChar(): char -> bool
  {
    (c: char) => '0' <= c <= '9' || c == '.'
  }

  /** `value.replace(/[^0-9.]/g, '')`. */
  function Sanitize(value: string): (s: string)
    ensures forall k :: 0 <= k < |s| ==> KeepsChar()(s[k])
  {
    Filter(value, KeepsChar())
  }

  /** Sanitising keeps exactly the digits and dots, and a second
      pass changes nothing. */
  lemma SanitizeKeepsDigitsAndDots(value: string)
    ensures forall c :: c in Sanitize(value) <==> c in value && KeepsChar()(c)
    ensures Sanitize(Sanitize(value)) == Sanitize(value)
  {
    FilterMembers(value, KeepsChar());
    FilterOfSatisfying(Sanitize(value), KeepsChar());
  }

  /** Sanitising works character by character and keeps the input order: it
      distributes over concatenation and keeps a single character exactly when
      that character is a digit or a dot. */
  lemma SanitizeKeepsOrder(a: string, b: string, c: char)
    ensures Sanitize(a + b) == Sanitize(a) + Sanitize(b)
    ensures Sanitize([c]) == if KeepsChar()(c) then [c] else []
  {
    FilterAppend(a, b, KeepsChar());
    assert [c][1..] == [];
  }

  /** `sanitizedValue === '' ? 0 : parseFloat(sanitizedValue)`; number parsing
      is a parameter. */
  function EnteredNumber(value: string, parse: string -> real): (n: real)
    ensures (forall c :: c in value ==> !KeepsChar()(c)) ==> n == 0.0
    ensures (exists c :: c in value && KeepsChar()(c)) ==> n == parse(Sanitize(value))
  {
    var sanitized := Sanitize(value);
    FilterMembers(value, KeepsChar());
    if sanitized == [] then 0.0
    else assert sanitized[0] in sanitized; parse(sanitized)
  }

  // ---------------------------------------------------------------------------
  // Record edits

  datatype ScoreField = ContinuousField | ExamField

  /** `'continuous' | 'exam' | 'total'` of `toggleFieldAbsent`. */
  datatype AbsenceFlag = ContinuousFlag | ExamFlag | WholeTerm

  /** An edit of one record: set a score, or flip an absence flag. */
  datatype Edit = SetScore(field: ScoreField, value: real) | FlipAbsence(flag: AbsenceFlag)

  /** Flags that read the same: a missing component flag reads as false. */
  predicate SameFlags(a: GradeRecord, b: GradeRecord)
  {
    a.absent == b.absent && a.ContinuousAbsent() == b.ContinuousAbsent() && a.ExamAbsent() == b.ExamAbsent()
  }

  /** Two records that say the same thing. */
  predicate SameMeaning(a: GradeRecord, b: GradeRecord)
  {
    && a.studentId == b.studentId && a.subjectId == b.subjectId && a.term == b.term
    && a.continuous == b.continuous && a.exam == b.exam && SameFlags(a, b)
  }

  /** The flag an absence edit reads. */
  function FlagOf(g: GradeRecord, flag: AbsenceFlag): bool
  {
    match flag
    case ContinuousFlag => g.ContinuousAbsent()
    case ExamFlag => g.ExamAbsent()
    case WholeTerm => g.absent
  }

  /** `{ ...g, [field]: num }`, or `g[flag] = !g[flag]` (so a missing flag becomes true). */
  function Apply(e: Edit, g: GradeRecord): (r: GradeRecord)
    ensures r.studentId == g.studentId && r.subjectId == g.subjectId && r.term == g.term
    ensures e.SetScore? ==>
              && (e.field == ContinuousField ==> r == g.(continuous := e.value))
              && (e.field == ExamField ==> r == g.(exam := e.value))
    ensures e.FlipAbsence? ==>
              && r.continuous == g.continuous && r.exam == g.exam
              && (forall f :: FlagOf(r, f) == if f == e.flag then !FlagOf(g, f) else FlagOf(g, f))
  {
    match e
    case SetScore(ContinuousField, v) => g.(continuous := v)
    case SetScore(ExamField, v) => g.(exam := v)
    case FlipAbsence(ContinuousFlag) => g.(continuousAbsent := Some(!g.ContinuousAbsent()))
    case FlipAbsence(ExamFlag) => g.(examAbsent := Some(!g.ExamAbsent()))
    case FlipAbsence(WholeTerm) => g.(absent := !g.absent)
  }

  /** The record pushed when the key has none: the edited score (other score
      0, no flag), or 0 / 0 with only the flipped flag set. */
  function Fresh(e: Edit, student: string, subject: string, t: Term): (g: GradeRecord)
    ensures g.IsFor(student, subject, t)
    ensures e.SetScore? ==>
              && g.continuous == (if e.field == ContinuousField then e.value else 0.0)
              && g.exam == (if e.field == ExamField then e.value else 0.0)
              && !AnyAbsence(g)
    ensures e.FlipAbsence? ==>
              && g.continuous == 0.0 && g.exam == 0.0
              && forall f :: FlagOf(g, f) <==> f == e.flag
  {
    match e
    case SetScore(field, v) =>
      GradeRecord(student, subject, t,
                  if field == ContinuousField then v else 0.0,
                  if field == ExamField then v else 0.0,
                  false, Some(false), Some(false))
    case FlipAbsence(flag) =>
      GradeRecord(student, subject, t, 0.0, 0.0,
                  flag == WholeTerm, Some(flag == ContinuousFlag), Some(flag == ExamFlag))
  }

  /** Edit the first record keyed by the triple, or push a fresh one. */
  function Upsert(grades: seq<GradeRecord>, student: string, subject: string, t: Term, e: Edit): (r: seq<GradeRecord>)
    ensures var i := FindRecordIndex(grades, student, subject, t);
            && (i >= 0 ==> |r| == |grades| && r[i] == Apply(e, grades[i]))
            && (i == -1 ==> |r| == |grades| + 1 && r[|grades|] == Fresh(e, student, subject, t))
            && (forall k :: 0 <= k < |grades| && k != i ==> r[k] == grades[k])
  {
    var i := FindRecordIndex(grades, student, subject, t);
    if i > -1 then grades[i := Apply(e, grades[i])]
    else grades + [Fresh(e, student, subject, t)]
  }

  /** The record stored for the key, or the stand-in for a missing one. */
  function Current(grades: seq<GradeRecord>, student: string, subject: string, t: Term): GradeRecord
  {
    match FindRecord(grades, student, subject, t)
    case Some(g) => g
    case None => MissingRecord(student, subject, t)
  }

  /** `handleGradeChange(studentId, field, value)` once the value is parsed:
      afterwards the key has a record whose edited score is `num` and which
      otherwise reads as the record before (or the missing-record stand-in);
      the list grows by one exactly when the key had no record. */
  function HandleGradeChange(grades: seq<GradeRecord>, student: string, subject: string, t: Term,
                             field: ScoreField, num: real): (r: seq<GradeRecord>)
    ensures |r| == |grades| + (if FindRecord(grades, student, subject, t).Some? then 0 else 1)
    // every other record stays where it was, unchanged
    ensures forall k :: 0 <= k < |grades| && k != FindRecordIndex(grades, student, subject, t) ==> r[k] == grades[k]
    ensures var b := Current(grades, student, subject, t);
            var a := FindRecord(r, student, subject, t);
            && a.Some? && a.value.IsFor(student, subject, t) && SameFlags(a.value, b)
            && (field == ContinuousField ==> a.value.continuous == num && a.value.exam == b.exam)
            && (field == ExamField ==> a.value.exam == num && a.value.continuous == b.continuous)
  {
    UpsertReadsBack(grades, student, subject, t, SetScore(field, num));
    Upsert(grades, student, subject, t, SetScore(field, num))
  }

  /** `toggleFieldAbsent(studentId, field)`: afterwards the key has a record
      with the chosen flag flipped and the scores and other flags of the record
      before (or the missing-record stand-in). */
  function ToggleFieldAbsent(grades: seq<GradeRecord>, student: string, subject: string, t: Term,
                             flag: AbsenceFlag): (r: seq<GradeRecord>)
    ensures |r| == |grades| + (if FindRecord(grades, student, subject, t).Some? then 0 else 1)
    // every other record stays where it was, unchanged
    ensures forall k :: 0 <= k < |grades| && k != FindRecordIndex(grades, student, subject, t) ==> r[k] == grades[k]
    ensures var b := Current(grades, student, subject, t);
            var a := FindRecord(r, student, subject, t);
            && a.Some? && a.value.IsFor(student, subject, t)
            && a.value.continuous == b.continuous && a.value.exam == b.exam
            && forall f :: FlagOf(a.value, f) == if f == flag then !FlagOf(b, f) else FlagOf(b, f)
  {
    UpsertReadsBack(grades, student, subject, t, FlipAbsence(flag));
    Upsert(grades, student, subject, t, FlipAbsence(flag))
  }

  /** After an edit, the lookup of the edited key finds the edited record (or
      the fresh one). */
  lemma UpsertReadsBack(grades: seq<GradeRecord>, student: string, subject: string, t: Term, e: Edit)
    ensures FindRecord(Upsert(grades, student, subject, t, e), student, subject, t)
         == Some(match FindRecord(grades, student, subject, t)
                 case Some(g) => Apply(e, g)
                 case None => Fresh(e, student, subject, t))
  {
    var r := Upsert(grades, student, subject, t, e);
    var i := FindRecordIndex(grades, student, subject, t);
    if i >= 0 {
      FirstMatchIsFound(r, student, subject, t, i);
    } else {
      FirstMatchIsFound(r, student, subject, t, |grades|);
    }
  }

  /** An edit leaves the lookup of every other key as it was. */
  lemma UpsertLeavesOtherKeys(grades: seq<GradeRecord>, student: string, subject: string, t: Term, e: Edit,
                              student2: string, subject2: string, t2: Term)
    requires student2 != student || subject2 != subject || t2 != t
    ensures FindRecord(Upsert(grades, student, subject, t, e), student2, subject2, t2)
         == FindRecord(grades, student2, subject2, t2)
  {
    var r := Upsert(grades, student, subject, t, e);
    var i := FindRecordIndex(grades, student, subject, t);
    var j := FindRecordIndex(grades, student2, subject2, t2);
    assert forall k :: 0 <= k < |grades| ==> (r[k].IsFor(student2, subject2, t2) <==> grades[k].IsFor(student2, subject2, t2));
    if i == -1 {
      assert !r[|grades|].IsFor(student2, subject2, t2);
    }
    if j >= 0 {
      FirstMatchIsFound(r, student2, subject2, t2, j);
    } else {
      var jr := FindRecordIndex(r, student2, subject2, t2);
      assert jr == -1;
    }
  }

  /** An edit keeps the records unique per key. */
  lemma UpsertKeepsTriplesUnique(grades: seq<GradeRecord>, student: string, subject: string, t: Term, e: Edit)
    requires UniqueTriples(grades)
    ensures UniqueTriples(Upsert(grades, student, subject, t, e))
  {
    var r := Upsert(grades, student, subject, t, e);
    var i := FindRecordIndex(grades, student, subject, t);
    forall a, b | 0 <= a < b < |r|
      ensures !r[b].IsFor(r[a].studentId, r[a].subjectId, r[a].term)
    {
      if b == |grades| {
        assert i == -1;
        assert !grades[a].IsFor(student, subject, t);
      }
    }
  }

  /** Flipping the same flag twice restores what the records say; when the key
      had no record, the record left behind says the same as none (0 / 0, no flag). */
  lemma ToggleTwiceRestores(grades: seq<GradeRecord>, student: string, subject: string, t: Term, flag: AbsenceFlag)
    ensures var once := ToggleFieldAbsent(grades, student, subject, t, flag);
            var twice := ToggleFieldAbsent(once, student, subject, t, flag);
            var had := FindRecord(grades, student, subject, t).Some?;
            && |twice| == |grades| + (if had then 0 else 1)
            && (forall k :: 0 <= k < |grades| ==> SameMeaning(twice[k], grades[k]))
            && (!had ==> SameMeaning(twice[|grades|], MissingRecord(student, subject, t)))
  {
    var e := FlipAbsence(flag);
    var once := Upsert(grades, student, subject, t, e);
    var i := FindRecordIndex(grades, student, subject, t);
    UpsertReadsBack(grades, student, subject, t, e);
    var i1 := FindRecordIndex(once, student, subject, t);
    if i >= 0 {
      FirstMatchIsFound(once, student, subject, t, i);
    } else {
      FirstMatchIsFound(once, student, subject, t, |grades|);
    }
  }

  /** Records that say the same thing are evaluated the same way. */
  lemma SameMeaningSameEvaluation(sub: Subject, exempt: bool, a: GradeRecord, b: GradeRecord)
    requires SameMeaning(a, b)
    ensures EvaluateTerm(sub, exempt, a) == EvaluateTerm(sub, exempt, b)
  {
  }

  // ---------------------------------------------------------------------------
  // The page's derived values

  /** The page state the derived values read. `selectedSubject` is `""` when
      the grade has no subject. */
  datatype EntryView = EntryView(
    students: seq<Student>,
    subjects: seq<Subject>,
    grades: seq<GradeRecord>,
    selectedGrade: Grade,
    selectedSubject: string,
    selectedTerm: Term)
  {
    /** `currentStudents`. */
    function CurrentStudents(): seq<Student>
    {
      Filter(students, InGrade(selectedGrade))
    }

    /** `currentSubject`: the selected subject among the grade's subjects. */
    function CurrentSubject(): (s: Option<Subject>)
      ensures s.Some? ==> s.value in subjects && s.value.grade == selectedGrade && s.value.id == selectedSubject
    {
      FilterMembers(subjects, SubjectInGrade(selectedGrade));
      Find(Filter(subjects, SubjectInGrade(selectedGrade)), HasId(selectedSubject))
    }

    /** `student.religion === 'christian' && isSelectedIslamic`. */
    predicate RowExempt(student: Student)
    {
      student.religion == Some(Christian) && CurrentSubject().Some? && IsIslamicSubject(CurrentSubject().value.name)
    }

    /** The record of a row (`grades.find(...)` on the selected key). */
    function RecordOf(student: Student): Option<GradeRecord>
    {
      FindRecord(grades, student.id, selectedSubject, selectedTerm)
    }
  }

  function HasId(id: string): Subject -> bool
  {
    (s: Subject) => s.id == id
  }

  /** On the page, a row is exempt exactly when the engine would exempt the
      student from the selected subject. */
  lemma RowExemptIsEngineExemption(v: EntryView, student: Student)
    requires v.CurrentSubject().Some?
    ensures v.RowExempt(student) <==> IsExempt(student, v.CurrentSubject().value)
  {
  }

  /** One row of `hasErrors`: a sat component above its maximum. */
  predicate RowHasError(v: EntryView, sub: Subject, student: Student)
  {
    && !v.RowExempt(student)
    && match v.RecordOf(student)
       case None => false
       case Some(g) =>
         && !g.absent
         && ((!g.ContinuousAbsent() && g.continuous > sub.maxContinuous)
             || (!g.ExamAbsent() && g.exam > sub.maxExam))
  }

  /** `hasErrors`: no subject means no error; otherwise some row of the grade errs. */
  predicate HasErrors(v: EntryView)
  {
    match v.CurrentSubject()
    case None => false
    case Some(sub) =>
      var cs := v.CurrentStudents();
      exists k :: 0 <= k < |cs| && RowHasError(v, sub, cs[k])
  }

  /** `levelStats`: the default-tier histogram of the grade's non-exempt rows
      that have a record and are not absent for the whole term. */
  function LevelStats(v: EntryView): (c: LevelCounts)
    ensures v.CurrentSubject().None? ==> c == NoCounts
    ensures c.Total() <= |v.CurrentStudents()|
  {
    match v.CurrentSubject()
    case None => NoCounts
    case Some(sub) => TallyRows(v, sub, v.CurrentStudents())
  }

  /** The level a counted row lands in. */
  function RowLevel(sub: Subject, g: GradeRecord): string
  {
    var total := (if g.ContinuousAbsent() then 0.0 else g.continuous) + (if g.ExamAbsent() then 0.0 else g.exam);
    GetLevel(total, sub.maxContinuous + sub.maxExam, sub.levelScale).Name()
  }

  /** A row that `levelStats` counts. */
  predicate Counted(v: EntryView, sub: Subject, student: Student)
  {
    && !v.RowExempt(student)
    && v.RecordOf(student).Some?
    && !v.RecordOf(student).value.absent
    && IsDefaultName(RowLevel(sub, v.RecordOf(student).value))
  }

  /** The `forEach` of `levelStats` over the rows, in order. */
  function TallyRows(v: EntryView, sub: Subject, rows: seq<Student>): (c: LevelCounts)
    ensures c.Total() <= |rows|
  {
    if |rows| == 0 then NoCounts
    else
      var c := TallyRows(v, sub, rows[..|rows| - 1]);
      var student := rows[|rows| - 1];
      if v.RowExempt(student) then c
      else match v.RecordOf(student)
        case None => c
        case Some(g) => if g.absent then c else Tally(c, RowLevel(sub, g))
  }

  function CountedRow(v: EntryView, sub: Subject): Student -> bool
  {
    (s: Student) => Counted(v, sub, s)
  }

  /** The histogram holds exactly the counted rows: exempt rows, rows without
      a record, whole-term absences and levels outside the five default names
      are all left out. */
  lemma {:induction false} LevelStatsCountsCountedRows(v: EntryView, sub: Subject, rows: seq<Student>)
    ensures TallyRows(v, sub, rows).Total() == Count(rows, CountedRow(v, sub))
  {
    if |rows| > 0 {
      var n := |rows| - 1;
      LevelStatsCountsCountedRows(v, sub, rows[..n]);
      TallyRowsStep(v, sub, rows);
      assert rows == rows[..n] + [rows[n]];
      CountAppend(rows[..n], [rows[n]], CountedRow(v, sub));
    }
  }

  /** The last row adds one to the histogram exactly when it is counted. */
  lemma TallyRowsStep(v: EntryView, sub: Subject, rows: seq<Student>)
    requires |rows| > 0
    ensures TallyRows(v, sub, rows).Total()
         == TallyRows(v, sub, rows[..|rows| - 1]).Total() + (if Counted(v, sub, rows[|rows| - 1]) then 1 else 0)
  {
  }

  /** A counted row that lands in default tier `i`. */
  function CountedIn(v: EntryView, sub: Subject, i: nat): Student -> bool
  {
    (s: Student) => i < 5 && Counted(v, sub, s) && RowLevel(sub, v.RecordOf(s).value) == DefaultScale[i].name
  }

  /** Each bucket of the histogram counts the counted rows that land in its tier. */
  lemma {:induction false} LevelStatsByLevel(v: EntryView, sub: Subject, rows: seq<Student>)
    ensures forall i :: 0 <= i < 5 ==> TallyRows(v, sub, rows).Get(i) == Count(rows, CountedIn(v, sub, i))
  {
    if |rows| > 0 {
      var n := |rows| - 1;
      LevelStatsByLevel(v, sub, rows[..n]);
      assert rows == rows[..n] + [rows[n]];
      forall i | 0 <= i < 5
        ensures TallyRows(v, sub, rows).Get(i) == Count(rows, CountedIn(v, sub, i))
      {
        CountAppend(rows[..n], [rows[n]], CountedIn(v, sub, i));
      }
    }
  }

  /** A counted row lands in the level the engine gives that term. */
  lemma RowLevelIsEngineLevel(sub: Subject, g: GradeRecord)
    requires !g.absent
    ensures RowLevel(sub, g) == EvaluateTerm(sub, false, g).level
  {
  }

  // ---------------------------------------------------------------------------
  // Row display

  /** The numbers a row of the entry table shows. */
  datatype RowDisplay = RowDisplay(scoreC: real, scoreE: real, total: real, maxTotal: real,
                                   percentage: real, level: string, cErr: bool, eErr: bool)

  /** The display arithmetic of one row: a component counts 0 when the row is
      exempt, the component is absent or the whole term is absent. */
  function DisplayRow(v: EntryView, student: Student): (d: RowDisplay)
    // an exempt row, or a row with no record, shows zeros
    ensures v.RowExempt(student) || v.RecordOf(student).None? ==> d.scoreC == 0.0 && d.scoreE == 0.0
    // a non-exempt row with a record shows a component exactly when it was sat
    ensures !v.RowExempt(student) && v.RecordOf(student).Some? ==>
              var g := v.RecordOf(student).value;
              && d.scoreC == (if g.absent || g.ContinuousAbsent() then 0.0 else g.continuous)
              && d.scoreE == (if g.absent || g.ExamAbsent() then 0.0 else g.exam)
    ensures d.total == d.scoreC + d.scoreE
    ensures v.CurrentSubject().Some? ==> d.maxTotal == MaxTermTotal(v.CurrentSubject().value)
    ensures v.CurrentSubject().None? ==> d.maxTotal == 0.0 && !d.cErr && !d.eErr
    ensures d.percentage == Percentage(d.total, d.maxTotal)
    ensures v.CurrentSubject().Some? ==>
              d.level == GetLevel(d.total, d.maxTotal, v.CurrentSubject().value.levelScale).Name()
    // a component is flagged when it was sat (a missing record reads as 0)
    // and lies above its maximum
    ensures v.CurrentSubject().Some? ==>
              var sub := v.CurrentSubject().value;
              var g := Current(v.grades, student.id, v.selectedSubject, v.selectedTerm);
              && (d.cErr <==> !v.RowExempt(student) && !g.absent && !g.ContinuousAbsent() && g.continuous > sub.maxContinuous)
              && (d.eErr <==> !v.RowExempt(student) && !g.absent && !g.ExamAbsent() && g.exam > sub.maxExam)
  {
    var exempt := v.RowExempt(student);
    var rec := v.RecordOf(student);
    var cAbs := rec.Some? && rec.value.ContinuousAbsent();
    var eAbs := rec.Some? && rec.value.ExamAbsent();
    var tAbs := rec.Some? && rec.value.absent;
    var continuous := if rec.Some? then rec.value.continuous else 0.0;
    var exam := if rec.Some? then rec.value.exam else 0.0;
    var scoreC := if exempt || cAbs || tAbs then 0.0 else continuous;
    var scoreE := if exempt || eAbs || tAbs then 0.0 else exam;
    var total := scoreC + scoreE;
    var sub := v.CurrentSubject();
    var maxTotal := if sub.Some? then sub.value.maxContinuous + sub.value.maxExam else 0.0;
    var scale := if sub.Some? then sub.value.levelScale else None;
    RowDisplay(
      scoreC, scoreE, total, maxTotal,
      Percentage(total, maxTotal),
      GetLevel(total, maxTotal, scale).Name(),
      !exempt && !tAbs && !cAbs && sub.Some? && continuous > sub.value.maxContinuous,
      !exempt && !tAbs && !eAbs && sub.Some? && exam > sub.value.maxExam)
  }

  /** The row agrees with the engine's term score and level unless the whole
      term is absent, where the row shows 0 and the engine keeps the sat
      components. */
  lemma DisplayRowVersusEngine(v: EntryView, student: Student, g: GradeRecord)
    requires v.CurrentSubject().Some? && !v.RowExempt(student)
    requires v.RecordOf(student) == Some(g)
    ensures var d := DisplayRow(v, student);
            var e := EvaluateTerm(v.CurrentSubject().value, false, g);
            && (!g.absent ==> d.total == e.score && d.level == e.level)
            && (g.absent ==> d.total == 0.0)
  {
  }

  /** For subjects with non-negative maxima, `hasErrors` is exactly "some row
      of the grade shows an error flag". */
  lemma HasErrorsIffSomeRowFlagged(v: EntryView)
    requires v.CurrentSubject().Some? ==>
               v.CurrentSubject().value.maxContinuous >= 0.0 && v.CurrentSubject().value.maxExam >= 0.0
    ensures HasErrors(v) <==>
              exists k :: 0 <= k < |v.CurrentStudents()| &&
                (DisplayRow(v, v.CurrentStudents()[k]).cErr || DisplayRow(v, v.CurrentStudents()[k]).eErr)
  {
    var cs := v.CurrentStudents();
    if v.CurrentSubject().Some? {
      var sub := v.CurrentSubject().value;
      forall k | 0 <= k < |cs|
        ensures RowHasError(v, sub, cs[k]) <==> DisplayRow(v, cs[k]).cErr || DisplayRow(v, cs[k]).eErr
      {
      }
    }
  }
}
