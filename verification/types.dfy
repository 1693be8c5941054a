/** The records the core reads and writes (types.ts). JavaScript numbers are
    modelled as `real`; optional fields (`x?: T`) as `Option<T>`. */
module Types {
  import opened Util

  /** The twelve school years, each backed by its Arabic label. */
  datatype Grade = G1 | G2 | G3 | G4 | G5 | G6 | G7 | G8 | G9 | G10 | G11 | G12
  {
    function Label(): string
    {
      match this
      case G1 => "الصف الأول"
      case G2 => "الصف الثاني"
      case G3 => "الصف الثالث"
      case G4 => "الصف الرابع"
      case G5 => "الصف الخامس"
      case G6 => "الصف السادس"
      case G7 => "الصف السابع"
      case G8 => "الصف الثامن"
      case G9 => "الصف التاسع"
      case G10 => "الصف العاشر"
      case G11 => "الصف الحادي عشر"
      case G12 => "الصف الثاني عشر"
    }
  }

  /** The grades in declaration order (`Object.values(Grade)`). */
  const AllGrades: seq<Grade> := [G1, G2, G3, G4, G5, G6, G7, G8, G9, G10, G11, G12]

  /** `Grade` is a closed set of twelve values with pairwise distinct labels. */
  lemma GradesAreTwelveDistinctLabels()
    ensures |AllGrades| == 12
    ensures forall g: Grade :: g in AllGrades
    ensures forall i, j :: 0 <= i < j < |AllGrades| ==> AllGrades[i].Label() != AllGrades[j].Label()
  {
    forall g: Grade
      ensures g in AllGrades
    {
      var k := match g
        case G1 => 0 case G2 => 1 case G3 => 2 case G4 => 3 case G5 => 4 case G6 => 5
        case G7 => 6 case G8 => 7 case G9 => 8 case G10 => 9 case G11 => 10 case G12 => 11;
      assert AllGrades[k] == g;
    }
    forall i, j | 0 <= i < j < |AllGrades|
      ensures AllGrades[i].Label() != AllGrades[j].Label()
    {
      LabelsDiffer(AllGrades[i], AllGrades[j]);
    }
  }

  lemma LabelsDiffer(g: Grade, h: Grade)
    requires g != h
    ensures g.Label() != h.Label()
  {
    // The labels share the prefix "الصف ال" (7 characters); the
    // characters from index 7 on tell them apart.
    var a := g.Label();
    var b := h.Label();
    if |a| == |b| {
      assert a[7] != b[7] || a[8] != b[8] || a[9] != b[9] || a[|a| - 1] != b[|b| - 1];
    }
  }

  datatype Religion = Muslim | Christian

  /** One tier of a grading scale: `name` applies from `minPercent` upward. */
  datatype LevelRange = LevelRange(name: string, minPercent: real, color: Option<string>)

  datatype Student = Student(
    id: string,
    name: string,
    grade: Grade,
    section: string,
    religion: Option<Religion>,
    seatingNumber: Option<int>,
    photoUrl: Option<string>)

  /** `s => s.grade === grade`. */
  function InGrade(grade: Grade): Student -> bool
  {
    (s: Student) => s.grade == grade
  }

  /** `passPercentage` is declared as a required number, but the engine reads it
      as `passPercentage ?? 50`; the model keeps that fallback by making it optional. */
  datatype Subject = Subject(
    id: string,
    name: string,
    grade: Grade,
    maxContinuous: real,
    maxExam: real,
    passPercentage: Option<real>,
    levelScale: Option<seq<LevelRange>>)

  /** `s => s.grade === grade` on subjects. */
  function SubjectInGrade(grade: Grade): Subject -> bool
  {
    (s: Subject) => s.grade == grade
  }

  /** The two terms of a school year. */
  type Term = t: int | t == 1 || t == 2 witness 1

  /** A raw score entry. The component absence flags are optional; a missing
      flag reads as `false`, exactly as JavaScript's truthiness reads `undefined`. */
  datatype GradeRecord = GradeRecord(
    studentId: string,
    subjectId: string,
    term: Term,
    continuous: real,
    exam: real,
    absent: bool,
    continuousAbsent: Option<bool>,
    examAbsent: Option<bool>)
  {
    predicate ContinuousAbsent()
    {
      continuousAbsent == Some(true)
    }

    predicate ExamAbsent()
    {
      examAbsent == Some(true)
    }

    /** The record is keyed by this (student, subject, term) triple. */
    predicate IsFor(student: string, subject: string, t: Term)
    {
      studentId == student && subjectId == subject && term == t
    }
  }

  /** The 0 / 0 record with no flag that stands in for a missing one. */
  function MissingRecord(student: string, subject: string, t: Term): GradeRecord
  {
    GradeRecord(student, subject, t, 0.0, 0.0, false, None, None)
  }

  /** The index of the first record keyed by the triple, or -1
      (`grades.findIndex(g => g.studentId === ... && g.term === ...)`). */
  function FindRecordIndex(grades: seq<GradeRecord>, student: string, subject: string, t: Term): (i: int)
    ensures -1 <= i < |grades|
    ensures 0 <= i ==> grades[i].IsFor(student, subject, t)
    ensures 0 <= i ==> forall k :: 0 <= k < i ==> !grades[k].IsFor(student, subject, t)
    ensures i == -1 <==> forall k :: 0 <= k < |grades| ==> !grades[k].IsFor(student, subject, t)
  {
    FindIndex(grades, KeyedBy(student, subject, t))
  }

  function KeyedBy(student: string, subject: string, t: Term): GradeRecord -> bool
  {
    (g: GradeRecord) => g.IsFor(student, subject, t)
  }

  /** The first record keyed by the triple (`grades.find(...)`). */
  function FindRecord(grades: seq<GradeRecord>, student: string, subject: string, t: Term): Option<GradeRecord>
  {
    var i := FindRecordIndex(grades, student, subject, t);
    if i == -1 then None else Some(grades[i])
  }

  /** The lookup lands on any index that matches with no match before it. */
  lemma FirstMatchIsFound(grades: seq<GradeRecord>, student: string, subject: string, t: Term, i: int)
    requires 0 <= i < |grades| && grades[i].IsFor(student, subject, t)
    requires forall k :: 0 <= k < i ==> !grades[k].IsFor(student, subject, t)
    ensures FindRecordIndex(grades, student, subject, t) == i
  {
  }

  /** At most one record per (student, subject, term) triple. */
  ghost predicate UniqueTriples(grades: seq<GradeRecord>)
  {
    forall i, j :: 0 <= i < j < |grades| ==>
      !grades[j].IsFor(grades[i].studentId, grades[i].subjectId, grades[i].term)
  }

  /** Subject-level outcome of the two terms (types.ts, `ReportData.subjects[].status`). */
  datatype SubjectStatus = Pass | FailT1 | FailT2 | FailBoth | FailAbsent | Exempt

  /** One subject's row of a report. */
  datatype SubjectResult = SubjectResult(
    subject: Subject,
    t1: GradeRecord,
    t2: GradeRecord,
    total: real,
    status: SubjectStatus)

  /** `ReportData.finalStatus`. */
  datatype FinalStatus = Passed | SecondRound | Failed
  {
    function Label(): string
    {
      match this
      case Passed => "ناجح"
      case SecondRound => "دور ثاني"
      case Failed => "راسب"
    }
  }
}
