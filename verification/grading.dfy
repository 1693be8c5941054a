/** The result engine of logic/grading.ts (`calculateStudentStatus`): per-term
    evaluation of each subject, the subject-level status, the per-term and final
    percentages, and the final pass / second-round decision. */
module Grading {
  import opened Util
  import opened Types
  import opened Levels
  import opened Exemption

  /** The status of one subject in one term. */
  datatype TermVerdict = PassTerm | FailTerm | AbsentTerm | ExemptTerm

  /** `TermStatus`: one subject's evaluation for one term. */
  datatype TermStatus = TermStatus(
    subject: Subject,
    score: real,
    maxScore: real,
    status: TermVerdict,
    isAbsent: bool,
    percentage: real,
    level: string)

  /** The level label of an exempt term. */
  const ExemptLevel: string := "معفى"

  /** `sub.maxContinuous + sub.maxExam`. */
  function MaxTermTotal(sub: Subject): real
  {
    sub.maxContinuous + sub.maxExam
  }

  /** `sub.passPercentage ?? 50`. */
  function PassPercent(sub: Subject): real
  {
    match sub.passPercentage
    case Some(p) => p
    case None => 50.0
  }

  /** The score a term needs to pass. */
  function PassThreshold(sub: Subject): real
  {
    (MaxTermTotal(sub) * PassPercent(sub)) / 100.0
  }

  /** Some absence flag of the record is set. */
  predicate AnyAbsence(t: GradeRecord)
  {
    t.absent || t.ContinuousAbsent() || t.ExamAbsent()
  }

  /** `calcTerm(t)` for subject `sub`. An exempt term is all zeros. Otherwise
      the whole-term flag decides first, then a component flag, then the score;
      the whole-term flag changes the status but not the score. */
  function EvaluateTerm(sub: Subject, exempt: bool, t: GradeRecord): (r: TermStatus)
    ensures r.subject == sub
    ensures r.status == ExemptTerm <==> exempt
    ensures exempt ==> r == TermStatus(sub, 0.0, 0.0, ExemptTerm, false, 0.0, ExemptLevel)
    ensures !exempt ==> r.maxScore == MaxTermTotal(sub)
    // precedence: whole-term absence, then component absence, then the threshold
    ensures !exempt ==> (r.status == AbsentTerm <==> t.absent)
    ensures !exempt ==> (r.status == PassTerm <==>
              !AnyAbsence(t) && t.continuous + t.exam >= PassThreshold(sub))
    ensures !exempt ==> (r.status == FailTerm <==>
              !t.absent && (t.ContinuousAbsent() || t.ExamAbsent() || r.score < PassThreshold(sub)))
    ensures !exempt ==> (r.isAbsent <==> AnyAbsence(t))
    // the score counts the components that were sat, whatever the whole-term flag
    ensures !exempt && !t.ContinuousAbsent() && !t.ExamAbsent() ==> r.score == t.continuous + t.exam
    ensures !exempt && t.ContinuousAbsent() && !t.ExamAbsent() ==> r.score == t.exam
    ensures !exempt && !t.ContinuousAbsent() && t.ExamAbsent() ==> r.score == t.continuous
    ensures !exempt && t.ContinuousAbsent() && t.ExamAbsent() ==> r.score == 0.0
    // the percentage is the score's share of the maximum (`Levels.Percentage`)
    ensures r.percentage == Percentage(r.score, r.maxScore)
    ensures !exempt ==> r.level == GetLevel(r.score, r.maxScore, sub.levelScale).Name()
  {
    if exempt then TermStatus(sub, 0.0, 0.0, ExemptTerm, false, 0.0, ExemptLevel)
    else
      var maxTotal := MaxTermTotal(sub);
      var score := (if t.ContinuousAbsent() then 0.0 else t.continuous)
                 + (if t.ExamAbsent() then 0.0 else t.exam);
      var partial := t.ContinuousAbsent() || t.ExamAbsent();
      var status :=
        if t.absent then AbsentTerm
        else if partial then FailTerm
        else if score >= PassThreshold(sub) then PassTerm
        else FailTerm;
      TermStatus(
        sub, score, maxTotal, status, t.absent || partial,
        Percentage(score, maxTotal),
        GetLevel(score, maxTotal, sub.levelScale).Name())
  }

  /** `subjectAnalyses[k]`: a subject's two records, two evaluations and outcome. */
  datatype SubjectAnalysis = SubjectAnalysis(result: SubjectResult, t1Analysis: TermStatus, t2Analysis: TermStatus)

  /** `grades.filter(g => g.studentId === student.id)`. */
  function OfStudent(id: string): GradeRecord -> bool
  {
    (g: GradeRecord) => g.studentId == id
  }

  /** `g => g.subjectId === sub.id && g.term === t`. */
  function ForSubjectTerm(subjectId: string, t: Term): GradeRecord -> bool
  {
    (g: GradeRecord) => g.subjectId == subjectId && g.term == t
  }

  /** The record used for a term: the first match, or a 0/0 record with no flags. */
  function TermRecord(student: Student, sub: Subject, studentGrades: seq<GradeRecord>, t: Term): GradeRecord
  {
    match Find(studentGrades, ForSubjectTerm(sub.id, t))
    case Some(g) => g
    case None => MissingRecord(student.id, sub.id, t)
  }

  /** The subject-level status from the two records and their evaluations. */
  function CombineStatus(exempt: bool, t1: GradeRecord, t2: GradeRecord, a1: TermStatus, a2: TermStatus): SubjectStatus
  {
    if exempt then Exempt
    else if t1.absent || t2.absent || t1.ExamAbsent() || t2.ExamAbsent()
         || t1.ContinuousAbsent() || t2.ContinuousAbsent() then FailAbsent
    else if a1.status == FailTerm && a2.status == FailTerm then FailBoth
    else if a1.status == FailTerm then FailT1
    else if a2.status == FailTerm then FailT2
    else Pass
  }

  /** One element of `subjects.map(sub => ...)`. Exempt gives `exempt`; any of
      the six absence flags gives `fail_absent`; otherwise the term scores
      against the threshold decide; the total is the mean of the two scores. */
  function AnalyseSubject(student: Student, sub: Subject, studentGrades: seq<GradeRecord>): (a: SubjectAnalysis)
    ensures a.result.subject == sub
    ensures a.result.t1.subjectId == sub.id && a.result.t1.term == 1
    ensures a.result.t2.subjectId == sub.id && a.result.t2.term == 2
    // the records used are the first of the student's records for the subject
    // and term, or the 0/0 stand-in (see TermRecordIsFirstMatch)
    ensures a.result.t1 == TermRecord(student, sub, studentGrades, 1)
    ensures a.result.t2 == TermRecord(student, sub, studentGrades, 2)
    ensures a.t1Analysis == EvaluateTerm(sub, IsExempt(student, sub), a.result.t1)
    ensures a.t2Analysis == EvaluateTerm(sub, IsExempt(student, sub), a.result.t2)
    ensures a.result.status == Exempt <==> IsExempt(student, sub)
    ensures IsExempt(student, sub) ==> a.result.total == 0.0
    ensures !IsExempt(student, sub) ==>
              a.result.total * 2.0 == a.t1Analysis.score + a.t2Analysis.score
    ensures !IsExempt(student, sub) ==>
              (a.result.status == FailAbsent <==> AnyAbsence(a.result.t1) || AnyAbsence(a.result.t2))
    ensures !IsExempt(student, sub) && !AnyAbsence(a.result.t1) && !AnyAbsence(a.result.t2) ==>
              var th := PassThreshold(sub);
              var s1 := a.result.t1.continuous + a.result.t1.exam;
              var s2 := a.result.t2.continuous + a.result.t2.exam;
              && (a.result.status == Pass <==> s1 >= th && s2 >= th)
              && (a.result.status == FailBoth <==> s1 < th && s2 < th)
              && (a.result.status == FailT1 <==> s1 < th && s2 >= th)
              && (a.result.status == FailT2 <==> s1 >= th && s2 < th)
  {
    var exempt := IsExempt(student, sub);
    var t1 := TermRecord(student, sub, studentGrades, 1);
    var t2 := TermRecord(student, sub, studentGrades, 2);
    var a1 := EvaluateTerm(sub, exempt, t1);
    var a2 := EvaluateTerm(sub, exempt, t2);
    var status := CombineStatus(exempt, t1, t2, a1, a2);
    var total := if exempt then 0.0 else (a1.score + a2.score) / 2.0;
    SubjectAnalysis(SubjectResult(sub, t1, t2, total, status), a1, a2)
  }

  /** `DetailedReportData`. */
  datatype DetailedReport = DetailedReport(
    student: Student,
    subjects: seq<SubjectResult>,
    term1Results: seq<TermStatus>,
    term2Results: seq<TermStatus>,
    term1Percentage: real,
    term2Percentage: real,
    finalStatus: FinalStatus,
    finalPercentage: real,
    finalLevel: string)

  /** Sum of the scores of the non-exempt entries. */
  function NonExemptScore(rs: seq<TermStatus>): real
  {
    if |rs| == 0 then 0.0
    else (if rs[0].status != ExemptTerm then rs[0].score else 0.0) + NonExemptScore(rs[1..])
  }

  /** Sum of the maxima of the non-exempt entries. */
  function NonExemptMax(rs: seq<TermStatus>): real
  {
    if |rs| == 0 then 0.0
    else (if rs[0].status != ExemptTerm then rs[0].maxScore else 0.0) + NonExemptMax(rs[1..])
  }

  /** `calcTermTotalPercentage(results)`: the non-exempt score total as a
      percentage of the non-exempt maximum total, 0 when that total is not positive. */
  function TermPercentage(rs: seq<TermStatus>): (p: real)
    ensures NonExemptMax(rs) > 0.0 ==> p * NonExemptMax(rs) == 100.0 * NonExemptScore(rs)
    ensures NonExemptMax(rs) <= 0.0 ==> p == 0.0
  {
    Percentage(NonExemptScore(rs), NonExemptMax(rs))
  }

  /** A subject outcome that is neither `pass` nor `exempt`. */
  predicate IsFailing(s: SubjectStatus)
  {
    s != Pass && s != Exempt
  }

  /** The records of one student (`studentGrades`). */
  function StudentRecords(student: Student, grades: seq<GradeRecord>): seq<GradeRecord>
  {
    Filter(grades, OfStudent(student.id))
  }

  /** `subjectAnalyses`: one analysis per subject, in subject order. */
  function Analyses(student: Student, subjects: seq<Subject>, grades: seq<GradeRecord>): (an: seq<SubjectAnalysis>)
    ensures |an| == |subjects|
    ensures forall k :: 0 <= k < |subjects| ==>
              an[k] == AnalyseSubject(student, subjects[k], StudentRecords(student, grades))
  {
    var studentGrades := StudentRecords(student, grades);
    seq(|subjects|, k requires 0 <= k < |subjects| => AnalyseSubject(student, subjects[k], studentGrades))
  }

  function Results(an: seq<SubjectAnalysis>): (rs: seq<SubjectResult>)
    ensures |rs| == |an| && forall k :: 0 <= k < |an| ==> rs[k] == an[k].result
  {
    seq(|an|, k requires 0 <= k < |an| => an[k].result)
  }

  function Term1Results(an: seq<SubjectAnalysis>): (ts: seq<TermStatus>)
    ensures |ts| == |an| && forall k :: 0 <= k < |an| ==> ts[k] == an[k].t1Analysis
  {
    seq(|an|, k requires 0 <= k < |an| => an[k].t1Analysis)
  }

  function Term2Results(an: seq<SubjectAnalysis>): (ts: seq<TermStatus>)
    ensures |ts| == |an| && forall k :: 0 <= k < |an| ==> ts[k] == an[k].t2Analysis
  {
    seq(|an|, k requires 0 <= k < |an| => an[k].t2Analysis)
  }

  /** `subjectAnalyses.some(s => s.status !== 'pass' && s.status !== 'exempt')`. */
  predicate HasFailure(rs: seq<SubjectResult>)
  {
    exists k :: 0 <= k < |rs| && IsFailing(rs[k].status)
  }

  /** `calculateStudentStatus(student, subjects, grades)`. */
  function CalculateStudentStatus(student: Student, subjects: seq<Subject>, grades: seq<GradeRecord>): (r: DetailedReport)
    ensures r.student == student
    ensures |r.subjects| == |subjects| && |r.term1Results| == |subjects| && |r.term2Results| == |subjects|
    // row k of each list is the analysis of subject k over the student's records
    ensures forall k :: 0 <= k < |subjects| ==>
              var a := AnalyseSubject(student, subjects[k], StudentRecords(student, grades));
              r.subjects[k] == a.result && r.term1Results[k] == a.t1Analysis && r.term2Results[k] == a.t2Analysis
    ensures r.term1Percentage == TermPercentage(r.term1Results)
    ensures r.term2Percentage == TermPercentage(r.term2Results)
    ensures r.finalStatus != Failed
    ensures r.finalStatus == Passed <==> forall k :: 0 <= k < |r.subjects| ==> !IsFailing(r.subjects[k].status)
    ensures 2.0 * r.finalPercentage == r.term1Percentage + r.term2Percentage
    ensures r.finalLevel == PercentLevel(r.finalPercentage)
  {
    var analyses := Analyses(student, subjects, grades);
    var subjectResults := Results(analyses);
    var term1Percentage := TermPercentage(Term1Results(analyses));
    var term2Percentage := TermPercentage(Term2Results(analyses));
    var finalPercentage := (term1Percentage + term2Percentage) / 2.0;
    DetailedReport(
      student,
      subjectResults,
      Term1Results(analyses),
      Term2Results(analyses),
      term1Percentage,
      term2Percentage,
      if HasFailure(subjectResults) then SecondRound else Passed,
      finalPercentage,
      PercentLevel(finalPercentage))
  }

  // ---------------------------------------------------------------------------
  // Properties of the engine

  /** Row `k` of each of the report's three lists belongs to subject `k`, and a
      subject is reported `exempt` exactly when the student is exempt from it. */
  lemma ReportRowsFollowSubjects(student: Student, subjects: seq<Subject>, grades: seq<GradeRecord>)
    ensures var r := CalculateStudentStatus(student, subjects, grades);
            forall k :: 0 <= k < |subjects| ==>
              && r.subjects[k].subject == subjects[k]
              && r.term1Results[k].subject == subjects[k]
              && r.term2Results[k].subject == subjects[k]
              && (r.subjects[k].status == Exempt <==> IsExempt(student, subjects[k]))
  {
  }

  /** The records a report shows for subject `k` are the first records of the
      whole grade list keyed by (student, subject, term), or 0/0 stand-ins. */
  lemma ReportUsesFirstRecords(student: Student, subjects: seq<Subject>, grades: seq<GradeRecord>, k: int)
    requires 0 <= k < |subjects|
    ensures var row := CalculateStudentStatus(student, subjects, grades).subjects[k];
            && row.t1 == (match FindRecord(grades, student.id, subjects[k].id, 1)
                          case Some(g) => g
                          case None => MissingRecord(student.id, subjects[k].id, 1))
            && row.t2 == (match FindRecord(grades, student.id, subjects[k].id, 2)
                          case Some(g) => g
                          case None => MissingRecord(student.id, subjects[k].id, 2))
  {
    TermRecordIsFirstMatch(student, subjects[k], grades, 1);
    TermRecordIsFirstMatch(student, subjects[k], grades, 2);
  }

  /** The record a report uses for a term is the FIRST record of the grade list
      keyed by (student, subject, term), or a 0/0 record with no flags. */
  lemma {:induction false} TermRecordIsFirstMatch(student: Student, sub: Subject, grades: seq<GradeRecord>, t: Term)
    ensures TermRecord(student, sub, StudentRecords(student, grades), t)
         == match FindRecord(grades, student.id, sub.id, t)
            case Some(g) => g
            case None => MissingRecord(student.id, sub.id, t)
  {
    FindOfStudentRecords(grades, student.id, sub.id, t);
  }

  lemma {:induction false} FindOfStudentRecords(grades: seq<GradeRecord>, id: string, subjectId: string, t: Term)
    ensures Find(Filter(grades, OfStudent(id)), ForSubjectTerm(subjectId, t)) == FindRecord(grades, id, subjectId, t)
  {
    if |grades| > 0 {
      FindOfStudentRecords(grades[1..], id, subjectId, t);
      if !grades[0].IsFor(id, subjectId, t) {
        var j := FindRecordIndex(grades[1..], id, subjectId, t);
        assert FindIndex(grades, KeyedBy(id, subjectId, t)) == (if j == -1 then -1 else j + 1);
        if j != -1 {
          assert grades[j + 1] == grades[1..][j];
        }
      }
    }
  }

  /** A term with no record is evaluated as 0 out of the maximum, not absent:
      it passes only if the threshold is at most 0. */
  lemma MissingRecordScoresZero(student: Student, sub: Subject, grades: seq<GradeRecord>, t: Term)
    requires FindRecord(grades, student.id, sub.id, t).None?
    requires !IsExempt(student, sub)
    ensures var e := EvaluateTerm(sub, false, TermRecord(student, sub, StudentRecords(student, grades), t));
            && e.score == 0.0
            && !e.isAbsent
            && e.status != AbsentTerm
            && (e.status == PassTerm <==> PassThreshold(sub) <= 0.0)
  {
    TermRecordIsFirstMatch(student, sub, grades, t);
  }

  lemma {:induction false} NonExemptSumsAppend(xs: seq<TermStatus>, ys: seq<TermStatus>)
    ensures NonExemptScore(xs + ys) == NonExemptScore(xs) + NonExemptScore(ys)
    ensures NonExemptMax(xs + ys) == NonExemptMax(xs) + NonExemptMax(ys)
  {
    if |xs| == 0 {
      assert xs + ys == ys;
    } else {
      assert (xs + ys)[1..] == xs[1..] + ys;
      NonExemptSumsAppend(xs[1..], ys);
    }
  }

  /** Inserting an exempt entry anywhere leaves a term percentage unchanged. */
  lemma ExemptEntryIsNeutral(xs: seq<TermStatus>, e: TermStatus, ys: seq<TermStatus>)
    requires e.status == ExemptTerm
    ensures TermPercentage(xs + [e] + ys) == TermPercentage(xs + ys)
  {
    NonExemptSumsAppend(xs + [e], ys);
    NonExemptSumsAppend(xs, [e]);
    NonExemptSumsAppend(xs, ys);
  }

  lemma AnalysesAppend(student: Student, xs: seq<Subject>, ys: seq<Subject>, grades: seq<GradeRecord>)
    ensures Analyses(student, xs + ys, grades) == Analyses(student, xs, grades) + Analyses(student, ys, grades)
  {
    var a := Analyses(student, xs + ys, grades);
    var b := Analyses(student, xs, grades) + Analyses(student, ys, grades);
    forall k | 0 <= k < |a|
      ensures a[k] == b[k]
    {
      if k < |xs| {
        assert (xs + ys)[k] == xs[k];
      } else {
        assert (xs + ys)[k] == ys[k - |xs|];
      }
    }
  }

  lemma ProjectionsAppend(a: seq<SubjectAnalysis>, b: seq<SubjectAnalysis>)
    ensures Results(a + b) == Results(a) + Results(b)
    ensures Term1Results(a + b) == Term1Results(a) + Term1Results(b)
    ensures Term2Results(a + b) == Term2Results(a) + Term2Results(b)
  {
    assert Results(a + b) == Results(a) + Results(b);
    assert Term1Results(a + b) == Term1Results(a) + Term1Results(b);
    assert Term2Results(a + b) == Term2Results(a) + Term2Results(b);
  }

  lemma HasFailureAppend(a: seq<SubjectResult>, b: seq<SubjectResult>)
    ensures HasFailure(a + b) <==> HasFailure(a) || HasFailure(b)
  {
    if HasFailure(a + b) {
      var k :| 0 <= k < |a + b| && IsFailing((a + b)[k].status);
      if k < |a| {
        assert IsFailing(a[k].status);
      } else {
        assert IsFailing(b[k - |a|].status);
      }
    }
    if HasFailure(a) {
      var k :| 0 <= k < |a| && IsFailing(a[k].status);
      assert (a + b)[k] == a[k];
    }
    if HasFailure(b) {
      var k :| 0 <= k < |b| && IsFailing(b[k].status);
      assert (a + b)[|a| + k] == b[k];
    }
  }

  /** Inserting one all-exempt analysis between two lists of analyses changes
      neither term percentage nor whether some subject fails. */
  lemma ExemptAnalysisIsNeutral(b: seq<SubjectAnalysis>, e: SubjectAnalysis, a: seq<SubjectAnalysis>)
    requires e.t1Analysis.status == ExemptTerm && e.t2Analysis.status == ExemptTerm
    requires e.result.status == Exempt
    ensures TermPercentage(Term1Results(b + [e] + a)) == TermPercentage(Term1Results(b + a))
    ensures TermPercentage(Term2Results(b + [e] + a)) == TermPercentage(Term2Results(b + a))
    ensures HasFailure(Results(b + [e] + a)) <==> HasFailure(Results(b + a))
  {
    ProjectionsAppend(b + [e], a);
    ProjectionsAppend(b, [e]);
    ProjectionsAppend(b, a);
    assert Term1Results([e]) == [e.t1Analysis];
    assert Term2Results([e]) == [e.t2Analysis];
    ExemptEntryIsNeutral(Term1Results(b), e.t1Analysis, Term1Results(a));
    ExemptEntryIsNeutral(Term2Results(b), e.t2Analysis, Term2Results(a));
    HasFailureAppend(Results(b + [e]), Results(a));
    HasFailureAppend(Results(b), Results([e]));
    HasFailureAppend(Results(b), Results(a));
    assert !HasFailure(Results([e]));
  }

  /** Adding a subject the student is exempt from changes neither term
      percentage, nor the final percentage, level or status. */
  lemma ExemptSubjectIsNeutral(student: Student, before: seq<Subject>, s: Subject, after: seq<Subject>, grades: seq<GradeRecord>)
    requires IsExempt(student, s)
    ensures var r := CalculateStudentStatus(student, before + [s] + after, grades);
            var q := CalculateStudentStatus(student, before + after, grades);
            && r.term1Percentage == q.term1Percentage
            && r.term2Percentage == q.term2Percentage
            && r.finalPercentage == q.finalPercentage
            && r.finalLevel == q.finalLevel
            && r.finalStatus == q.finalStatus
  {
    var b := Analyses(student, before, grades);
    var m := Analyses(student, [s], grades);
    var a := Analyses(student, after, grades);
    AnalysesAppend(student, before + [s], after, grades);
    AnalysesAppend(student, before, [s], grades);
    AnalysesAppend(student, before, after, grades);
    assert m == [m[0]];
    ExemptAnalysisIsNeutral(b, m[0], a);
  }

  lemma {:induction false} NonExemptScoreNonNegative(rs: seq<TermStatus>)
    requires forall k :: 0 <= k < |rs| ==> rs[k].score >= 0.0
    ensures NonExemptScore(rs) >= 0.0
  {
    if |rs| > 0 {
      NonExemptScoreNonNegative(rs[1..]);
    }
  }

  lemma TermPercentageNonNegative(rs: seq<TermStatus>)
    requires forall k :: 0 <= k < |rs| ==> rs[k].score >= 0.0
    ensures TermPercentage(rs) >= 0.0
  {
    NonExemptScoreNonNegative(rs);
  }

  lemma TermScoreNonNegative(student: Student, sub: Subject, grades: seq<GradeRecord>, t: Term)
    requires forall k :: 0 <= k < |grades| ==> grades[k].continuous >= 0.0 && grades[k].exam >= 0.0
    ensures EvaluateTerm(sub, IsExempt(student, sub), TermRecord(student, sub, StudentRecords(student, grades), t)).score >= 0.0
  {
    FilterMembers(grades, OfStudent(student.id));
    var f := Find(StudentRecords(student, grades), ForSubjectTerm(sub.id, t));
    assert f.Some? ==> f.value in grades;
  }

  /** With no negative raw scores, the final percentage is non-negative and the
      final level is always one of the five default tiers, never a sentinel. */
  lemma NonNegativeScoresGetDefaultTier(student: Student, subjects: seq<Subject>, grades: seq<GradeRecord>)
    requires forall k :: 0 <= k < |grades| ==> grades[k].continuous >= 0.0 && grades[k].exam >= 0.0
    ensures var r := CalculateStudentStatus(student, subjects, grades);
            && r.finalPercentage >= 0.0
            && r.finalLevel == DefaultScale[DefaultTierIndex(r.finalPercentage)].name
            && IsDefaultName(r.finalLevel)
  {
    TermPercentagesNonNegative(student, subjects, grades);
  }

  lemma TermPercentagesNonNegative(student: Student, subjects: seq<Subject>, grades: seq<GradeRecord>)
    requires forall k :: 0 <= k < |grades| ==> grades[k].continuous >= 0.0 && grades[k].exam >= 0.0
    ensures var an := Analyses(student, subjects, grades);
            TermPercentage(Term1Results(an)) >= 0.0 && TermPercentage(Term2Results(an)) >= 0.0
  {
    var an := Analyses(student, subjects, grades);
    forall k | 0 <= k < |subjects|
      ensures an[k].t1Analysis.score >= 0.0 && an[k].t2Analysis.score >= 0.0
    {
      TermScoreNonNegative(student, subjects[k], grades, 1);
      TermScoreNonNegative(student, subjects[k], grades, 2);
    }
    TermPercentageNonNegative(Term1Results(an));
    TermPercentageNonNegative(Term2Results(an));
  }

  /** With the default pass mark (`passPercentage` missing or 50), a term
      with no absence passes exactly when its score is at least half the
      maximum: a score on the threshold passes, any score below it fails. */
  lemma HalfMarkIsInclusive(sub: Subject, t: GradeRecord)
    requires sub.passPercentage.None? || sub.passPercentage == Some(50.0)
    requires !AnyAbsence(t)
    ensures var e := EvaluateTerm(sub, false, t);
            && (e.status == PassTerm <==> 2.0 * (t.continuous + t.exam) >= MaxTermTotal(sub))
            && (e.status == FailTerm <==> 2.0 * (t.continuous + t.exam) < MaxTermTotal(sub))
  {
  }
}
