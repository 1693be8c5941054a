/** The result views of the reports page (pages/Reports.tsx): the ordinal rank
    labels, the per-term pass / retake status, the failure details of a report,
    the tie-sharing rank, the "top" and "failed" filters and the statistics. */
module Reports {
  import opened Util
  import opened Sorting
  import opened Text
  import opened Types
  import opened Levels
  import opened Exemption
  import opened Grading

  /** The period a report view looks at. */
  datatype ReportTerm = Term1 | Term2 | Final

  /** The percentage a view ranks and buckets by. */
  function Metric(r: DetailedReport, term: ReportTerm): real
  {
    match term
    case Term1 => r.term1Percentage
    case Term2 => r.term2Percentage
    case Final => r.finalPercentage
  }

  /** `allResults`: one report per student of the grade, in list order, each
      computed against the grade's subjects (`gradeSubjects`). */
  function GradeReports(students: seq<Student>, subjects: seq<Subject>, grades: seq<GradeRecord>, grade: Grade): (rs: seq<DetailedReport>)
    ensures |rs| == Count(students, InGrade(grade))
    ensures forall k :: 0 <= k < |rs| ==> rs[k].student.grade == grade && rs[k].student in students
    ensures forall k :: 0 <= k < |rs| ==> |rs[k].subjects| == Count(subjects, SubjectInGrade(grade))
    ensures forall k :: 0 <= k < |rs| ==>
              rs[k] == CalculateStudentStatus(Filter(students, InGrade(grade))[k], Filter(subjects, SubjectInGrade(grade)), grades)
  {
    var gradeStudents := Filter(students, InGrade(grade));
    var gradeSubjects := Filter(subjects, SubjectInGrade(grade));
    FilterMembers(students, InGrade(grade));
    seq(|gradeStudents|, k requires 0 <= k < |gradeStudents| => CalculateStudentStatus(gradeStudents[k], gradeSubjects, grades))
  }

  // ---------------------------------------------------------------------------
  // Rank labels

  /** The ordinal words for ranks 1 to 10. */
  const RankWords: seq<string> :=
    ["الأول", "الثاني", "الثالث", "الرابع", "الخامس", "السادس", "السابع", "الثامن", "التاسع", "العاشر"]

  /** `getRankArabic(rank)`: the ordinal word for ranks 1 to 10, the decimal
      numeral of the rank otherwise. */
  function RankText(rank: int): (t: string)
    ensures 1 <= rank <= 10 ==> t == RankWords[rank - 1]
    ensures !(1 <= rank <= 10) ==> IsNumeral(t) && DecimalValue(t) == rank
  {
    if 1 <= rank <= 10 then RankWords[rank - 1]
    else
      IntToDecimalRoundTrip(rank);
      IntToDecimal(rank)
  }

  /** Different ranks never share a label: the ten words are distinct, none of
      them starts like a numeral, and numerals are injective. */
  lemma RankTextIsInjective(a: int, b: int)
    requires RankText(a) == RankText(b)
    ensures a == b
  {
    var inRange := (r: int) => 1 <= r <= 10;
    if inRange(a) && inRange(b) {
      assert forall i, j :: 0 <= i < j < |RankWords| ==> RankWords[i] != RankWords[j];
    } else if !inRange(a) && !inRange(b) {
      IntToDecimalInjective(a, b);
    }
  }

  // ---------------------------------------------------------------------------
  // Failure details

  datatype FailureType = FailureT1 | FailureT2 | FailureBoth | FailureAbsent
  {
    /** The reason text shown for each kind of failure. */
    function Reason(): string
    {
      match this
      case FailureT1 => "فصل أول"
      case FailureT2 => "فصل ثاني"
      case FailureBoth => "الفصلين"
      case FailureAbsent => "غياب"
    }
  }

  /** One failed subject of a report: its name, the reason shown and the tag. */
  datatype FailureDetail = FailureDetail(subject: string, reason: string, kind: FailureType)

  /** The failure entry a subject row contributes, if it failed. */
  function FailureOf(s: SubjectResult): (d: Option<FailureDetail>)
    ensures d.Some? <==> IsFailing(s.status)
    ensures d.Some? ==> d.value.subject == s.subject.name
    // the tag names the failing status, and the reason is the tag's text
    ensures d.Some? ==> && (d.value.kind == FailureT1 <==> s.status == FailT1)
                        && (d.value.kind == FailureT2 <==> s.status == FailT2)
                        && (d.value.kind == FailureBoth <==> s.status == FailBoth)
                        && (d.value.kind == FailureAbsent <==> s.status == FailAbsent)
                        && d.value.reason == d.value.kind.Reason()
  {
    match s.status
    case FailT1 => Some(FailureDetail(s.subject.name, "فصل أول", FailureT1))
    case FailT2 => Some(FailureDetail(s.subject.name, "فصل ثاني", FailureT2))
    case FailBoth => Some(FailureDetail(s.subject.name, "الفصلين", FailureBoth))
    case FailAbsent => Some(FailureDetail(s.subject.name, "غياب", FailureAbsent))
    case Pass => None
    case Exempt => None
  }

  function Fails(): SubjectResult -> bool
  {
    (s: SubjectResult) => IsFailing(s.status)
  }

  /** `failureDetails`: the entries of the failed subjects, in subject order. */
  function FailureDetails(rs: seq<SubjectResult>): (ds: seq<FailureDetail>)
    ensures |ds| == Count(rs, Fails())
  {
    if |rs| == 0 then []
    else
      (match FailureOf(rs[0]) case Some(d) => [d] case None => []) + FailureDetails(rs[1..])
  }

  /** The k-th failure entry belongs to the k-th failed subject. */
  lemma {:induction false} FailureDetailsFollowFailedSubjects(rs: seq<SubjectResult>)
    ensures forall k :: 0 <= k < |FailureDetails(rs)| ==>
              FailureOf(Filter(rs, Fails())[k]) == Some(FailureDetails(rs)[k])
  {
    if |rs| > 0 {
      FailureDetailsFollowFailedSubjects(rs[1..]);
      var tail := FailureDetails(rs[1..]);
      var failedTail := Filter(rs[1..], Fails());
      if IsFailing(rs[0].status) {
        var d := FailureOf(rs[0]).value;
        assert FailureDetails(rs) == [d] + tail;
        assert Filter(rs, Fails()) == [rs[0]] + failedTail;
        forall k | 1 <= k < |FailureDetails(rs)|
          ensures FailureOf(Filter(rs, Fails())[k]) == Some(FailureDetails(rs)[k])
        {
          assert Filter(rs, Fails())[k] == failedTail[k - 1];
          assert FailureDetails(rs)[k] == tail[k - 1];
        }
      } else {
        assert FailureDetails(rs) == tail;
        assert Filter(rs, Fails()) == failedTail;
      }
    }
  }

  /** A subject list yields no failure entry exactly when no subject fails. */
  lemma NoFailureDetailsIffNoFailure(rs: seq<SubjectResult>)
    ensures FailureDetails(rs) == [] <==> !HasFailure(rs)
  {
    FilterMembers(rs, Fails());
    if HasFailure(rs) {
      var k :| 0 <= k < |rs| && IsFailing(rs[k].status);
      assert rs[k] in Filter(rs, Fails());
    } else {
      CountNone(rs, Fails());
    }
  }

  /** A report lists no failure exactly when its final status is a pass. */
  lemma NoFailureDetailsIffPassed(student: Student, subjects: seq<Subject>, grades: seq<GradeRecord>)
    ensures var r := CalculateStudentStatus(student, subjects, grades);
            FailureDetails(r.subjects) == [] <==> r.finalStatus == Passed
  {
    var r := CalculateStudentStatus(student, subjects, grades);
    NoFailureDetailsIffNoFailure(r.subjects);
  }

  // ---------------------------------------------------------------------------
  // Per-term status

  /** A term entry that sends the student to the second round. */
  predicate Retakes(t: TermStatus)
  {
    t.status == FailTerm || t.status == AbsentTerm
  }

  predicate SomeRetake(ts: seq<TermStatus>)
  {
    exists k :: 0 <= k < |ts| && Retakes(ts[k])
  }

  /** `termSpecificStatus`: a term view retakes on any failed or absent entry
      of that term; the final view copies the final status. */
  function TermSpecificStatus(r: DetailedReport, term: ReportTerm): (s: FinalStatus)
    ensures term == Final ==> s == r.finalStatus
    ensures term == Term1 ==> (s == Passed <==> !SomeRetake(r.term1Results))
    ensures term == Term2 ==> (s == Passed <==> !SomeRetake(r.term2Results))
    ensures term != Final ==> s != Failed
  {
    match term
    case Term1 => if SomeRetake(r.term1Results) then SecondRound else Passed
    case Term2 => if SomeRetake(r.term2Results) then SecondRound else Passed
    case Final => r.finalStatus
  }

  /** A subject row passes (or is exempt) exactly when neither of its term
      entries retakes. */
  lemma SubjectPassIffTermsPass(student: Student, sub: Subject, studentGrades: seq<GradeRecord>)
    ensures var a := AnalyseSubject(student, sub, studentGrades);
            !IsFailing(a.result.status) <==> !Retakes(a.t1Analysis) && !Retakes(a.t2Analysis)
  {
    var a := AnalyseSubject(student, sub, studentGrades);
    if !IsExempt(student, sub) {
      assert a.t1Analysis.status != ExemptTerm && a.t2Analysis.status != ExemptTerm;
      if AnyAbsence(a.result.t1) || AnyAbsence(a.result.t2) {
        assert a.t1Analysis.status != PassTerm || a.t2Analysis.status != PassTerm;
      }
    }
  }

  /** The final status is a pass exactly when both term views pass. */
  lemma FinalPassIffBothTermsPass(student: Student, subjects: seq<Subject>, grades: seq<GradeRecord>)
    ensures var r := CalculateStudentStatus(student, subjects, grades);
            r.finalStatus == Passed <==>
              TermSpecificStatus(r, Term1) == Passed && TermSpecificStatus(r, Term2) == Passed
  {
    var r := CalculateStudentStatus(student, subjects, grades);
    var an := Analyses(student, subjects, grades);
    forall k | 0 <= k < |subjects|
      ensures !IsFailing(r.subjects[k].status) <==> !Retakes(r.term1Results[k]) && !Retakes(r.term2Results[k])
    {
      SubjectPassIffTermsPass(student, subjects[k], StudentRecords(student, grades));
    }
    if r.finalStatus != Passed {
      var k :| 0 <= k < |r.subjects| && IsFailing(r.subjects[k].status);
      assert Retakes(r.term1Results[k]) || Retakes(r.term2Results[k]);
    }
    if SomeRetake(r.term1Results) {
      var k :| 0 <= k < |r.term1Results| && Retakes(r.term1Results[k]);
      assert IsFailing(r.subjects[k].status);
    }
    if SomeRetake(r.term2Results) {
      var k :| 0 <= k < |r.term2Results| && Retakes(r.term2Results[k]);
      assert IsFailing(r.subjects[k].status);
    }
  }

  // ---------------------------------------------------------------------------
  // Ranking

  /** `retakeCategory` is always `'none'` on the reports page. */
  datatype RetakeCategory = RetakeT1 | RetakeT2 | RetakeBoth | RetakeNone

  /** `ExtendedResult`: a report with its view status, failure details, and
      (once ranked) its rank and rank label. */
  datatype ExtendedResult = ExtendedResult(
    report: DetailedReport,
    termSpecificStatus: FinalStatus,
    failureDetails: seq<FailureDetail>,
    retakeCategory: RetakeCategory,
    rank: Option<int>,
    rankText: Option<string>)

  /** One element of the first `allResults.map(...)`, before ranking. */
  function Annotate(r: DetailedReport, term: ReportTerm): ExtendedResult
  {
    ExtendedResult(r, TermSpecificStatus(r, term), FailureDetails(r.subjects), RetakeNone, None, None)
  }

  function AnnotateAll(all: seq<DetailedReport>, term: ReportTerm): (rs: seq<ExtendedResult>)
    ensures |rs| == |all|
    ensures forall k :: 0 <= k < |all| ==> rs[k] == Annotate(all[k], term)
  {
    if |all| == 0 then [] else [Annotate(all[0], term)] + AnnotateAll(all[1..], term)
  }

  /** Sort key of `sortedForRank`: descending by the view's percentage. */
  function RankKey(term: ReportTerm): ExtendedResult -> real
  {
    (e: ExtendedResult) => -Metric(e.report, term)
  }

  /** `s => sPerc === perc`. */
  function SameMetric(term: ReportTerm, v: real): ExtendedResult -> bool
  {
    (e: ExtendedResult) => Metric(e.report, term) == v
  }

  /** `findIndex(...) + 1` in the descending order. */
  function RankIn(sorted: seq<ExtendedResult>, term: ReportTerm, v: real): int
  {
    FindIndex(sorted, SameMetric(term, v)) + 1
  }

  /** `termProcessedResults`: every report, in input order, annotated for the
      view and given the rank of the first report in descending order that has
      the same percentage. Nothing but the rank and its label is added. */
  function TermProcessedResults(all: seq<DetailedReport>, term: ReportTerm): (out: seq<ExtendedResult>)
    ensures |out| == |all|
    ensures forall k :: 0 <= k < |all| ==>
              && out[k].rank.Some?
              && out[k] == Annotate(all[k], term).(rank := out[k].rank, rankText := out[k].rankText)
              && out[k].rankText == Some(RankText(out[k].rank.value))
  {
    var results := AnnotateAll(all, term);
    var sorted := Sort(results, RankKey(term));
    seq(|results|, k requires 0 <= k < |results| =>
      var rank := RankIn(sorted, term, Metric(results[k].report, term));
      results[k].(rank := Some(rank), rankText := Some(RankText(rank))))
  }

  /** `r => perc(r) > v`. */
  function Above(term: ReportTerm, v: real): DetailedReport -> bool
  {
    (r: DetailedReport) => Metric(r, term) > v
  }

  /** The number of reports whose percentage is strictly greater than `v`. */
  function NumAbove(all: seq<DetailedReport>, term: ReportTerm, v: real): nat
  {
    Count(all, Above(term, v))
  }

  function AboveResult(term: ReportTerm, v: real): ExtendedResult -> bool
  {
    (e: ExtendedResult) => Metric(e.report, term) > v
  }

  lemma {:induction false} AnnotatedCount(all: seq<DetailedReport>, term: ReportTerm, v: real)
    ensures Count(AnnotateAll(all, term), AboveResult(term, v)) == NumAbove(all, term, v)
  {
    if |all| > 0 {
      AnnotatedCount(all[1..], term, v);
      assert AnnotateAll(all, term)[1..] == AnnotateAll(all[1..], term);
    }
  }

  /** In the descending order, the first result with percentage `v` sits
      after exactly the results with a greater percentage. */
  lemma RankInSorted(results: seq<ExtendedResult>, term: ReportTerm, k: int)
    requires 0 <= k < |results|
    ensures var v := Metric(results[k].report, term);
            RankIn(Sort(results, RankKey(term)), term, v) == 1 + Count(results, AboveResult(term, v))
  {
    var key := RankKey(term);
    var sorted := Sort(results, key);
    var v := Metric(results[k].report, term);
    SortSorts(results, key);
    SortedKeepsKey(results, term, k);
    RankInOrdered(sorted, term, v);
    SortCount(results, key, AboveResult(term, v));
  }

  lemma RankInOrdered(sorted: seq<ExtendedResult>, term: ReportTerm, v: real)
    requires SortedBy(sorted, RankKey(term))
    requires exists j :: 0 <= j < |sorted| && RankKey(term)(sorted[j]) == -v
    ensures RankIn(sorted, term, v) == 1 + Count(sorted, AboveResult(term, v))
  {
    KeyFacts(sorted, term, v);
    FirstIndexOfKey(sorted, RankKey(term), -v, SameMetric(term, v), AboveResult(term, v));
  }

  lemma SortedKeepsKey(results: seq<ExtendedResult>, term: ReportTerm, k: int)
    requires 0 <= k < |results|
    ensures exists j :: 0 <= j < |Sort(results, RankKey(term))|
              && RankKey(term)(Sort(results, RankKey(term))[j]) == -Metric(results[k].report, term)
  {
    var sorted := Sort(results, RankKey(term));
    SortPermutes(results, RankKey(term));
    assert results[k] in multiset(sorted);
    var j :| 0 <= j < |sorted| && sorted[j] == results[k];
    assert RankKey(term)(sorted[j]) == -Metric(results[k].report, term);
  }

  lemma KeyFacts(s: seq<ExtendedResult>, term: ReportTerm, v: real)
    ensures forall k :: 0 <= k < |s| ==> (SameMetric(term, v)(s[k]) <==> RankKey(term)(s[k]) == -v)
    ensures forall k :: 0 <= k < |s| ==> (AboveResult(term, v)(s[k]) <==> RankKey(term)(s[k]) < -v)
  {
  }

  /** The rank of a report is one more than the number of reports with a
      strictly greater percentage. */
  lemma RankIsOnePlusNumberAbove(all: seq<DetailedReport>, term: ReportTerm, k: int)
    requires 0 <= k < |all|
    ensures TermProcessedResults(all, term)[k].rank == Some(1 + NumAbove(all, term, Metric(all[k], term)))
  {
    var results := AnnotateAll(all, term);
    RankInSorted(results, term, k);
    AnnotatedCount(all, term, Metric(all[k], term));
  }

  /** Every rank lies between 1 and the number of reports. */
  lemma RankIsBetweenOneAndCount(all: seq<DetailedReport>, term: ReportTerm, k: int)
    requires 0 <= k < |all|
    ensures var r := TermProcessedResults(all, term)[k].rank.value;
            1 <= r <= |all|
  {
    RankIsOnePlusNumberAbove(all, term, k);
    CountMissesOne(all, Above(term, Metric(all[k], term)), k);
  }

  /** Equal percentages share a rank; a strictly higher percentage gets a
      strictly smaller rank. */
  lemma RankOrdersByPercentage(all: seq<DetailedReport>, term: ReportTerm, i: int, j: int)
    requires 0 <= i < |all| && 0 <= j < |all|
    ensures var out := TermProcessedResults(all, term);
            && (Metric(all[i], term) == Metric(all[j], term) ==> out[i].rank == out[j].rank)
            && (Metric(all[i], term) > Metric(all[j], term) ==> out[i].rank.value < out[j].rank.value)
  {
    RankIsOnePlusNumberAbove(all, term, i);
    RankIsOnePlusNumberAbove(all, term, j);
    var vi := Metric(all[i], term);
    var vj := Metric(all[j], term);
    if vi > vj {
      CountStrictlyMonotone(all, Above(term, vi), Above(term, vj), i);
    }
  }

  /** The index of a report with the greatest percentage. */
  function BestIndex(all: seq<DetailedReport>, term: ReportTerm): (b: nat)
    requires |all| > 0
    ensures b < |all|
    ensures forall k :: 0 <= k < |all| ==> Metric(all[k], term) <= Metric(all[b], term)
  {
    if |all| == 1 then 0
    else
      var b := BestIndex(all[1..], term) + 1;
      if Metric(all[0], term) >= Metric(all[b], term) then 0 else b
  }

  /** A non-empty cohort always has someone ranked first. */
  lemma SomeoneRanksFirst(all: seq<DetailedReport>, term: ReportTerm)
    requires |all| > 0
    ensures exists k :: 0 <= k < |all| && TermProcessedResults(all, term)[k].rank == Some(1)
  {
    var b := BestIndex(all, term);
    RankIsOnePlusNumberAbove(all, term, b);
    CountNone(all, Above(term, Metric(all[b], term)));
  }

  // ---------------------------------------------------------------------------
  // Views

  /** `viewMode`: all results, the top ten who passed, or those retaking. */
  datatype ViewMode = AllResults | TopTen | FailedOnly

  const TopCount: nat := 10

  function IsPassedResult(): ExtendedResult -> bool
  {
    (e: ExtendedResult) => e.termSpecificStatus == Passed
  }

  function IsRetakeResult(): ExtendedResult -> bool
  {
    (e: ExtendedResult) => e.termSpecificStatus == SecondRound
  }

  /** `(r.rank || 0)`. */
  function RankOrder(): ExtendedResult -> real
  {
    (e: ExtendedResult) => match e.rank case Some(r) => r as real case None => 0.0
  }

  /** `filteredResults`. */
  function FilteredResults(results: seq<ExtendedResult>, mode: ViewMode): (v: seq<ExtendedResult>)
    ensures mode == AllResults ==> v == results
    ensures mode == TopTen ==> |v| == Min(TopCount, Count(results, IsPassedResult()))
    ensures mode == FailedOnly ==>
              && |v| == Count(results, IsRetakeResult())
              && forall x :: x in v <==> x in results && x.termSpecificStatus == SecondRound
    // the failed view keeps the list order: it is the order-preserving filter
    ensures mode == FailedOnly ==> v == Filter(results, IsRetakeResult())
  {
    match mode
    case AllResults => results
    case TopTen =>
      var ranked := Sort(Filter(results, IsPassedResult()), RankOrder());
      ranked[..Min(TopCount, |ranked|)]
    case FailedOnly =>
      FilterMembers(results, IsRetakeResult());
      Filter(results, IsRetakeResult())
  }

  /** The top view holds only results that passed, ascending by rank, and
      every passed result it leaves out ranks no better than any it shows. */
  lemma TopTenShowsBestPassed(results: seq<ExtendedResult>)
    ensures var v := FilteredResults(results, TopTen);
            var passed := Filter(results, IsPassedResult());
            && (forall k :: 0 <= k < |v| ==> v[k].termSpecificStatus == Passed && v[k] in results)
            && SortedBy(v, RankOrder())
            && multiset(v) <= multiset(passed)
            && (forall x :: x in multiset(passed) - multiset(v) ==>
                  forall k :: 0 <= k < |v| ==> RankOrder()(v[k]) <= RankOrder()(x))
  {
    var passed := Filter(results, IsPassedResult());
    var v := FilteredResults(results, TopTen);
    SortedPrefix(passed, RankOrder(), Min(TopCount, |passed|));
    FilterMembers(results, IsPassedResult());
    forall k | 0 <= k < |v|
      ensures v[k].termSpecificStatus == Passed && v[k] in results
    {
      assert v[k] in multiset(passed);
    }
  }

  // ---------------------------------------------------------------------------
  // Statistics

  /** Among passed results sharing a rank, the top view keeps the ones that
      come first in the list: for each rank, the shown results of that rank are
      a prefix of the passed results of that rank, in list order. */
  lemma TopTenKeepsEarliestAmongTies(results: seq<ExtendedResult>, rank: real)
    ensures var shown := KeyClass(FilteredResults(results, TopTen), RankOrder(), rank);
            var group := KeyClass(Filter(results, IsPassedResult()), RankOrder(), rank);
            |shown| <= |group| && shown == group[..|shown|]
  {
    var passed := Filter(results, IsPassedResult());
    SortedPrefixKeepsEarliest(passed, RankOrder(), Min(TopCount, |passed|), rank);
  }

  /** The hard-coded 90 / 80 / 65 / 50 ladder of the statistics view. Its
      last rung has no lower bound, so a negative percentage lands in `ضعيف`. */
  function StatBucket(percent: real): (name: string)
    ensures IsDefaultName(name)
    ensures percent >= 0.0 ==> name == DefaultScale[DefaultTierIndex(percent)].name
    ensures percent < 0.0 ==> name == Weak
  {
    if percent >= 90.0 then Excellent
    else if percent >= 80.0 then VeryGood
    else if percent >= 65.0 then Good
    else if percent >= 50.0 then Acceptable
    else Weak
  }

  /** For a non-negative percentage the ladder agrees with the level
      classifier on the default scale out of 100. */
  lemma StatBucketAgreesWithGetLevel(percent: real)
    requires percent >= 0.0
    ensures StatBucket(percent) == PercentLevel(percent)
  {
  }

  /** Below zero the ladder and `getLevel` part ways: the ladder says `ضعيف`,
      `getLevel` finds no tier and says `غير محدد`. */
  lemma StatBucketDisagreesBelowZero(percent: real)
    requires percent < 0.0
    ensures StatBucket(percent) == Weak
    ensures PercentLevel(percent) == Unspecified.Name()
    ensures StatBucket(percent) != PercentLevel(percent)
  {
    assert Weak[0] != Unspecified.Name()[0];
  }

  function InBand(term: ReportTerm, i: nat): ExtendedResult -> bool
  {
    (e: ExtendedResult) => i < 5 && StatBucket(Metric(e.report, term)) == DefaultScale[i].name
  }

  /** `levelCounts`: one tally per result, in list order. */
  function BucketCounts(results: seq<ExtendedResult>, term: ReportTerm): (c: LevelCounts)
    ensures c.Total() == |results|
  {
    if |results| == 0 then NoCounts
    else
      var last := results[|results| - 1];
      Tally(BucketCounts(results[..|results| - 1], term), StatBucket(Metric(last.report, term)))
  }

  /** Each level count is the number of results whose percentage falls in that band. */
  lemma {:induction false} BucketCountsByBand(results: seq<ExtendedResult>, term: ReportTerm)
    ensures forall i :: 0 <= i < 5 ==> BucketCounts(results, term).Get(i) == Count(results, InBand(term, i))
  {
    if |results| > 0 {
      var n := |results| - 1;
      BucketCountsByBand(results[..n], term);
      assert results == results[..n] + [results[n]];
      forall i | 0 <= i < 5
        ensures BucketCounts(results, term).Get(i) == Count(results, InBand(term, i))
      {
        CountAppend(results[..n], [results[n]], InBand(term, i));
      }
    }
  }

  /** `statsData`. */
  datatype Stats = Stats(passed: nat, failed: int, total: nat, levelCounts: LevelCounts, passRate: real)

  /** `total > 0 ? (passed / total) * 100 : 0`. */
  function PassRate(passed: nat, total: nat): (rate: real)
    ensures total == 0 ==> rate == 0.0
    ensures total > 0 ==> rate * (total as real) == 100.0 * (passed as real)
    ensures passed <= total ==> 0.0 <= rate <= 100.0
  {
    Percentage(passed as real, total as real)
  }

  function StatsData(results: seq<ExtendedResult>, term: ReportTerm): (s: Stats)
    ensures s.total == |results|
    ensures s.passed == Count(results, IsPassedResult())
    ensures s.passed + s.failed == s.total
    ensures s.levelCounts == BucketCounts(results, term)
    ensures s.levelCounts.Total() == s.total
    ensures 0.0 <= s.passRate <= 100.0
    ensures s.passRate == PassRate(s.passed, s.total)
    ensures s.total == 0 ==> s.passRate == 0.0
  {
    var passed := Count(results, IsPassedResult());
    Stats(passed, |results| - passed, |results|, BucketCounts(results, term), PassRate(passed, |results|))
  }

  function IsNotPassedResult(): ExtendedResult -> bool
  {
    (e: ExtendedResult) => e.termSpecificStatus != Passed
  }

  /** The failed count is the number of results that did not pass. */
  lemma StatsCountNonPassedAsFailed(results: seq<ExtendedResult>, term: ReportTerm)
    ensures StatsData(results, term).failed == Count(results, IsNotPassedResult())
  {
    CountComplement(results, IsPassedResult(), IsNotPassedResult());
  }
}
