/** The exam-logistics rules of the control page (pages/Control.tsx): the
    seat-ordered student list of a grade, its split into committees, seat
    numbering, the committee-size clamp and the print-request guard. */
module Control {
  import opened Util
  import opened Sorting
  import opened Types

  /** `(s.seatingNumber || 0)`: a missing seat number sorts as 0. */
  function SeatKey(): Student -> real
  {
    (s: Student) => match s.seatingNumber case Some(n) => n as real case None => 0.0
  }

  /** `gradeStudents`: the grade's students, stably sorted by seat number. */
  function GradeStudents(students: seq<Student>, grade: Grade): (g: seq<Student>)
    ensures |g| == Count(students, InGrade(grade))
    ensures SortedBy(g, SeatKey())
  {
    SortSorts(Filter(students, InGrade(grade)), SeatKey());
    Sort(Filter(students, InGrade(grade)), SeatKey())
  }

  /** `gradeStudents` holds exactly the grade's students (with their
      multiplicities) and is ascending by seat number. */
  lemma GradeStudentsAreSortedGradeMembers(students: seq<Student>, grade: Grade)
    ensures var g := GradeStudents(students, grade);
            && multiset(g) == multiset(Filter(students, InGrade(grade)))
            && (forall s :: s in g <==> s in students && s.grade == grade)
            && SortedBy(g, SeatKey())
  {
    var f := Filter(students, InGrade(grade));
    var g := GradeStudents(students, grade);
    SortPermutes(f, SeatKey());
    SortSorts(f, SeatKey());
    FilterMembers(students, InGrade(grade));
    forall s
      ensures s in g <==> s in f
    {
      assert s in g <==> s in multiset(g);
      assert s in f <==> s in multiset(f);
    }
  }

  /** Students with equal seat numbers keep their order in the student list. */
  lemma GradeStudentsAreStable(students: seq<Student>, grade: Grade, k: real)
    ensures KeyClass(GradeStudents(students, grade), SeatKey(), k) == KeyClass(Filter(students, InGrade(grade)), SeatKey(), k)
  {
    SortStable(Filter(students, InGrade(grade)), SeatKey(), k);
  }

  /** `gradeStudents` is the only seat-ordered list of the grade's students
      that keeps students with equal seat numbers in list order. */
  lemma GradeStudentsIsTheStableOrder(students: seq<Student>, grade: Grade, other: seq<Student>)
    requires SortedBy(other, SeatKey())
    requires forall k :: KeyClass(other, SeatKey(), k) == KeyClass(Filter(students, InGrade(grade)), SeatKey(), k)
    ensures other == GradeStudents(students, grade)
  {
    SortSorts(Filter(students, InGrade(grade)), SeatKey());
    forall k
      ensures KeyClass(other, SeatKey(), k) == KeyClass(GradeStudents(students, grade), SeatKey(), k)
    {
      GradeStudentsAreStable(students, grade, k);
    }
    StableSortIsUnique(other, GradeStudents(students, grade), SeatKey());
  }

  // ---------------------------------------------------------------------------
  // Committees

  /** The concatenation of a list of chunks. */
  function Flatten<T>(chunks: seq<seq<T>>): seq<T>
  {
    if |chunks| == 0 then [] else Flatten(chunks[..|chunks| - 1]) + chunks[|chunks| - 1]
  }

  lemma FlattenAppend<T>(chunks: seq<seq<T>>, c: seq<T>)
    ensures Flatten(chunks + [c]) == Flatten(chunks) + c
  {
    assert (chunks + [c])[..|chunks|] == chunks;
  }

  /** `m / size` is `c` when `m` lies in `[c * size, (c + 1) * size)`. */
  lemma DivisionByRange(m: int, size: int, c: int)
    requires size >= 1 && c * size <= m < (c + 1) * size
    ensures m / size == c
  {
    var q := m / size;
    var r := m % size;
    assert m == q * size + r && 0 <= r < size;
    if q < c {
      MulMonotone(q + 1, c, size);
      assert false;
    } else if q > c {
      MulMonotone(c + 1, q, size);
      assert false;
    }
  }

  lemma MulMonotone(a: int, b: int, size: int)
    requires a <= b && size >= 0
    ensures a * size <= b * size
  {
  }

  lemma MulSucc(a: int, size: int)
    ensures (a + 1) * size == a * size + size
  {
  }

  /** `committees`: consecutive chunks of `size` students, the last one
      possibly shorter; the chunks concatenate back to the list and there are
      `ceil(n / size)` of them. */
  method Committees<T>(xs: seq<T>, size: int) returns (chunks: seq<seq<T>>)
    requires size >= 1
    ensures Flatten(chunks) == xs
    ensures forall k :: 0 <= k < |chunks| ==> 0 < |chunks[k]| <= size
    ensures forall k :: 0 <= k < |chunks| - 1 ==> |chunks[k]| == size
    ensures |chunks| == (|xs| + size - 1) / size
  {
    chunks := [];
    var i := 0;
    while i < |xs|
      invariant i == |chunks| * size
      invariant Flatten(chunks) == xs[..Min(i, |xs|)]
      invariant forall k :: 0 <= k < |chunks| ==> 0 < |chunks[k]| <= size
      invariant forall k :: 0 <= k < |chunks| - 1 ==> |chunks[k]| == size
      invariant |chunks| > 0 ==> i - size < |xs|
      invariant i < |xs| ==> forall k :: 0 <= k < |chunks| ==> |chunks[k]| == size
      decreases |xs| - i
    {
      var chunk := xs[i..Min(i + size, |xs|)];
      assert xs[..Min(i + size, |xs|)] == xs[..i] + chunk;
      FlattenAppend(chunks, chunk);
      MulSucc(|chunks|, size);
      chunks := chunks + [chunk];
      i := i + size;
    }
    MulSucc(|chunks|, size);
    if |chunks| == 0 {
      DivisionByRange(|xs| + size - 1, size, 0);
    } else {
      DivisionByRange(|xs| + size - 1, size, |chunks|);
    }
  }

  /** `Math.max(1, parseInt(value) || 1)`: an unparsable or zero entry reads
      as 1, and anything below 1 is raised to 1. */
  function ClampCommitteeSize(parsed: Option<int>): (size: int)
    ensures size >= 1
    ensures parsed.Some? && parsed.value >= 1 ==> size == parsed.value
    ensures parsed.None? || parsed.value < 1 ==> size == 1
  {
    var entered := match parsed case Some(p) => (if p == 0 then 1 else p) case None => 1;
    if entered < 1 then 1 else entered
  }

  // ---------------------------------------------------------------------------
  // Seat numbering

  /** `generateSeatingNumbers`: the grade's students, in list order, get the
      consecutive numbers from `start`; everybody else is left as is. */
  function AssignSeats(students: seq<Student>, grade: Grade, start: int): (r: seq<Student>)
    ensures |r| == |students|
  {
    if |students| == 0 then []
    else if students[0].grade == grade then
      [students[0].(seatingNumber := Some(start))] + AssignSeats(students[1..], grade, start + 1)
    else
      [students[0]] + AssignSeats(students[1..], grade, start)
  }

  /** Student `k` of the grade gets `start` plus the number of the grade's
      students before it; every other student is unchanged, and only the seat
      number of a student of the grade changes. */
  lemma {:induction false} AssignSeatsClosedForm(students: seq<Student>, grade: Grade, start: int, k: int)
    requires 0 <= k < |students|
    ensures AssignSeats(students, grade, start)[k]
         == if students[k].grade == grade
            then students[k].(seatingNumber := Some(start + Count(students[..k], InGrade(grade))))
            else students[k]
  {
    if k == 0 {
      assert students[..0] == [];
    } else {
      var next := if students[0].grade == grade then start + 1 else start;
      AssignSeatsClosedForm(students[1..], grade, next, k - 1);
      CountPrefixAfterHead(students, k, InGrade(grade));
      AssignSeatsStep(students, grade, start, k);
    }
  }

  /** Past the head, numbering a list is numbering its tail from the next number. */
  lemma AssignSeatsStep(students: seq<Student>, grade: Grade, start: int, k: int)
    requires 0 < k < |students|
    ensures AssignSeats(students, grade, start)[k]
         == AssignSeats(students[1..], grade, if students[0].grade == grade then start + 1 else start)[k - 1]
  {
  }

  lemma CountPrefixAfterHead<T>(xs: seq<T>, k: int, p: T -> bool)
    requires 0 < k <= |xs|
    ensures Count(xs[..k], p) == (if p(xs[0]) then 1 else 0) + Count(xs[1..][..k - 1], p)
  {
    assert xs[..k][1..] == xs[1..][..k - 1];
  }

  function Seats(xs: seq<Student>): (ns: seq<Option<int>>)
    ensures |ns| == |xs| && forall k :: 0 <= k < |xs| ==> ns[k] == xs[k].seatingNumber
  {
    seq(|xs|, k requires 0 <= k < |xs| => xs[k].seatingNumber)
  }

  /** The grade's students, read in list order, hold exactly the seats
      `start, start + 1, ..., start + count - 1`. */
  lemma {:induction false} AssignSeatsNumbersConsecutively(students: seq<Student>, grade: Grade, start: int)
    ensures var r := AssignSeats(students, grade, start);
            var n := Count(students, InGrade(grade));
            Seats(Filter(r, InGrade(grade))) == seq(n, i requires 0 <= i < n => Some(start + i))
  {
    if |students| > 0 {
      var r := AssignSeats(students, grade, start);
      assert r[1..] == AssignSeats(students[1..], grade, if students[0].grade == grade then start + 1 else start);
      AssignSeatsNumbersConsecutively(students[1..], grade, if students[0].grade == grade then start + 1 else start);
    }
  }

  /** Numbering again from the same start gives the same list: earlier
      numbers play no part. */
  lemma {:induction false} AssignSeatsIsIdempotent(students: seq<Student>, grade: Grade, start: int)
    ensures AssignSeats(AssignSeats(students, grade, start), grade, start) == AssignSeats(students, grade, start)
  {
    if |students| > 0 {
      var next := if students[0].grade == grade then start + 1 else start;
      AssignSeatsIsIdempotent(students[1..], grade, next);
      var r := AssignSeats(students, grade, start);
      assert r[1..] == AssignSeats(students[1..], grade, next);
    }
  }

  // ---------------------------------------------------------------------------
  // Print requests

  /** `PrintJobType`. */
  datatype PrintJob = NoJob | Calling | Cards | Minutes | CommitteeSheets

  /** The outcome of `handlePrintRequest`: the print type afterwards, and
      whether the request was refused with an alert. */
  datatype PrintOutcome = PrintOutcome(job: PrintJob, refused: bool)

  /** `handlePrintRequest(type)`: a grade with no students refuses every job
      but the minutes sheet, which needs no student list. */
  function HandlePrintRequest(gradeStudentCount: nat, current: PrintJob, requested: PrintJob): (o: PrintOutcome)
    ensures o.refused <==> gradeStudentCount == 0 && requested != Minutes
    ensures o.job == (if o.refused then current else requested)
  {
    if gradeStudentCount == 0 && requested != Minutes then PrintOutcome(current, true)
    else PrintOutcome(requested, false)
  }

  /** The print type after a run of `handlePrintRequest` clicks, in order. */
  function PrintRequests(gradeStudentCount: nat, current: PrintJob, requests: seq<PrintJob>): PrintJob
    decreases |requests|
  {
    if |requests| == 0 then current
    else PrintRequests(gradeStudentCount, HandlePrintRequest(gradeStudentCount, current, requests[0]).job, requests[1..])
  }

  /** Whatever is clicked, a grade without students only ever reaches the
      minutes sheet; a grade with students ends on the last request. A repeated
      request settles: asking again for the job just granted changes nothing. */
  lemma {:induction false} PrintRequestsOutcome(gradeStudentCount: nat, current: PrintJob, requests: seq<PrintJob>)
    ensures gradeStudentCount == 0 ==>
              PrintRequests(gradeStudentCount, current, requests) == (if Minutes in requests then Minutes else current)
    ensures gradeStudentCount > 0 && |requests| > 0 ==>
              PrintRequests(gradeStudentCount, current, requests) == requests[|requests| - 1]
    ensures forall r :: var o := HandlePrintRequest(gradeStudentCount, current, r);
              HandlePrintRequest(gradeStudentCount, o.job, r).job == o.job
    decreases |requests|
  {
    if |requests| > 0 {
      var next := HandlePrintRequest(gradeStudentCount, current, requests[0]).job;
      PrintRequestsOutcome(gradeStudentCount, next, requests[1..]);
      assert Minutes in requests <==> requests[0] == Minutes || Minutes in requests[1..] by {
        assert requests == [requests[0]] + requests[1..];
      }
    }
  }
}
