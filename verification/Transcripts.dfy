/** Transcript assembly and the grade point average (app/services/reports.py).
    Grade points are counted in tenths and the average in hundredths, so all arithmetic is exact. */
module Transcripts {
  import opened Entities

  datatype CourseRecord = CourseRecord(
    code: string, offeringId: int, grade: Option<int>, isActive: bool, isWithdrawn: bool)

  datatype Transcript = Transcript(
    studentId: int, name: string, email: string, departmentId: int,
    gpa: int, totalCourses: nat, courses: seq<CourseRecord>)

  /** Grade points, in tenths. */
  function GradePoints(g: int): (p: nat) {
    if g >= 90 then 40
    else if g >= 85 then 37
    else if g >= 80 then 33
    else if g >= 75 then 30
    else if g >= 70 then 27
    else if g >= 65 then 23
    else if g >= 60 then 20
    else 0
  }

  function Sum(points: seq<nat>): nat {
    if points == [] then 0 else Sum(points[..|points| - 1]) + points[|points| - 1]
  }

  /** num/den rounded to the nearest integer, an exact tie going to the even neighbour. */
  function RoundHalfEven(num: nat, den: nat): nat
    requires den > 0
  {
    var q, rest := num / den, num % den;
    if 2 * rest < den || (2 * rest == den && q % 2 == 0) then q else q + 1
  }

  function PointsOf(grades: seq<int>): (r: seq<nat>)
    ensures |r| == |grades|
  {
    seq(|grades|, i requires 0 <= i < |grades| => GradePoints(grades[i]))
  }

  function Gpa(grades: seq<int>): nat {
    if grades == [] then 0 else RoundHalfEven(10 * Sum(PointsOf(grades)), |grades|)
  }

  method CalculateGpa(grades: seq<int>) returns (gpa: nat)
    ensures gpa == Gpa(grades)
  {
    if grades == [] { return 0; }
    var gpas: seq<nat> := [];
    for i := 0 to |grades|
      invariant gpas == PointsOf(grades)[..i]
    {
      gpas := gpas + [GradePoints(grades[i])];
    }
    var total := 0;
    for i := 0 to |gpas|
      invariant total == Sum(gpas[..i])
    {
      assert gpas[..i + 1][..i] == gpas[..i];
      total := total + gpas[i];
    }
    assert gpas[..|gpas|] == gpas == PointsOf(grades);
    gpa := RoundHalfEven(10 * total, |grades|);
  }

  lemma {:induction false} SumMonotone(a: seq<nat>, b: seq<nat>)
    requires |a| == |b| && forall i | 0 <= i < |a| :: a[i] <= b[i]
    ensures Sum(a) <= Sum(b)
  {
    if a != [] {
      var n := |a| - 1;
      SumMonotone(a[..n], b[..n]);
    }
  }

  lemma {:induction false} SumBounded(a: seq<nat>, most: nat)
    requires forall i | 0 <= i < |a| :: a[i] <= most
    ensures Sum(a) <= most * |a|
  {
    if a != [] {
      var n := |a| - 1;
      SumBounded(a[..n], most);
      assert most * |a| == most * n + most;
    }
  }

  /** Twice the rounding error is at most one unit of the denominator. */
  lemma RoundNearest(num: nat, den: nat)
    requires den > 0
    ensures -(den as int) <= 2 * (num - RoundHalfEven(num, den) * den) <= den
    ensures var twice := 2 * (num - RoundHalfEven(num, den) * den);
            twice == den || twice == -(den as int) ==> RoundHalfEven(num, den) % 2 == 0
  {
    var q, rest := num / den, num % den;
    assert num == q * den + rest;
    assert (q + 1) * den == q * den + den;
  }

  lemma TimesGrows(d: int, den: nat)
    ensures d >= 1 ==> d * den >= den
  {
    if d >= 1 {
      assert d * den == (d - 1) * den + den;
    }
  }

  lemma QuotientMonotone(q1: nat, r1: nat, q2: nat, r2: nat, den: nat)
    requires r1 < den && r2 < den && q1 * den + r1 <= q2 * den + r2
    ensures q1 < q2 || (q1 == q2 && r1 <= r2)
  {
    var d := q1 as int - q2;
    assert d * den == q1 * den - q2 * den;
    TimesGrows(d, den);
  }

  lemma RoundMonotone(n1: nat, n2: nat, den: nat)
    requires den > 0 && n1 <= n2
    ensures RoundHalfEven(n1, den) <= RoundHalfEven(n2, den)
  {
    assert n1 == (n1 / den) * den + n1 % den && n2 == (n2 / den) * den + n2 % den;
    QuotientMonotone(n1 / den, n1 % den, n2 / den, n2 % den, den);
  }

  lemma RoundAtMost(num: nat, den: nat, most: nat)
    requires den > 0 && num <= most * den
    ensures RoundHalfEven(num, den) <= most
  {
    RoundNearest(num, den);
    var over := RoundHalfEven(num, den) - most;
    assert over * den == RoundHalfEven(num, den) * den - most * den;
    TimesGrows(over, den);
  }

  /** The average lies in [0.00, 4.00] and is within 0.005 of the exact mean. */
  lemma GpaAccurate(grades: seq<int>)
    requires grades != []
    ensures Gpa(grades) <= 400
    ensures var n, exact := |grades|, 10 * Sum(PointsOf(grades));
            -n <= 2 * (exact - Gpa(grades) * n) <= n
  {
    var n, exact := |grades|, 10 * Sum(PointsOf(grades));
    SumBounded(PointsOf(grades), 40);
    RoundNearest(exact, n);
    RoundAtMost(exact, n, 400);
  }

  function AtLeast(grades: seq<int>, least: int): nat {
    |set i | 0 <= i < |grades| && grades[i] >= least|
  }

  lemma AtLeastLast(grades: seq<int>, least: int)
    requires grades != []
    ensures var n := |grades| - 1;
            AtLeast(grades, least) == AtLeast(grades[..n], least) + (if grades[n] >= least then 1 else 0)
  {
    var n := |grades| - 1;
    var all, first := set i | 0 <= i < |grades| && grades[i] >= least, set i | 0 <= i < n && grades[..n][i] >= least;
    assert all == if grades[n] >= least then first + {n} else first;
  }

  /** The points of an average, counted by the bands the grades fall into. */
  lemma {:induction false} SumByBands(grades: seq<int>)
    ensures Sum(PointsOf(grades)) ==
            20 * AtLeast(grades, 60) + 3 * AtLeast(grades, 65) + 4 * AtLeast(grades, 70) + 3 * AtLeast(grades, 75)
            + 3 * AtLeast(grades, 80) + 4 * AtLeast(grades, 85) + 3 * AtLeast(grades, 90)
    decreases |grades|
  {
    if grades != [] {
      var n := |grades| - 1;
      SumByBands(grades[..n]);
      assert PointsOf(grades)[..n] == PointsOf(grades[..n]);
      AtLeastLast(grades, 60);
      AtLeastLast(grades, 65);
      AtLeastLast(grades, 70);
      AtLeastLast(grades, 75);
      AtLeastLast(grades, 80);
      AtLeastLast(grades, 85);
      AtLeastLast(grades, 90);
    }
  }

  /** The average in hundredths without recourse to points or rounding: from 60 on a grade is worth 2.0, at 65
      another 0.3, at 70 another 0.4, and so on up to 4.0 from 90 on; the average is nearest to the exact mean,
      and even if two hundredths are equally near. */
  lemma GpaByBands(grades: seq<int>)
    ensures grades == [] ==> Gpa(grades) == 0
    ensures var n := |grades|;
            var tenths :=
              20 * |set i | 0 <= i < n && grades[i] >= 60| + 3 * |set i | 0 <= i < n && grades[i] >= 65|
              + 4 * |set i | 0 <= i < n && grades[i] >= 70| + 3 * |set i | 0 <= i < n && grades[i] >= 75|
              + 3 * |set i | 0 <= i < n && grades[i] >= 80| + 4 * |set i | 0 <= i < n && grades[i] >= 85|
              + 3 * |set i | 0 <= i < n && grades[i] >= 90|;
            var twice := 2 * (10 * tenths - Gpa(grades) * n);
            n > 0 ==> -n <= twice <= n && (twice == n || twice == -n ==> Gpa(grades) % 2 == 0)
  {
    SumByBands(grades);
    if grades != [] {
      RoundNearest(10 * Sum(PointsOf(grades)), |grades|);
    }
  }

  /** Raising any grades never lowers the average. */
  lemma GpaMonotone(a: seq<int>, b: seq<int>)
    requires |a| == |b| && forall i | 0 <= i < |a| :: a[i] <= b[i]
    ensures Gpa(a) <= Gpa(b)
  {
    if a != [] {
      SumMonotone(PointsOf(a), PointsOf(b));
      RoundMonotone(10 * Sum(PointsOf(a)), 10 * Sum(PointsOf(b)), |a|);
    }
  }

  lemma {:induction false} SumWithout(a: seq<nat>, i: nat)
    requires i < |a|
    ensures Sum(a) == Sum(a[..i] + a[i + 1..]) + a[i]
  {
    var n := |a| - 1;
    if i < n {
      SumWithout(a[..n], i);
      var rest := a[..i] + a[i + 1..];
      assert rest[..n - 1] == a[..n][..i] + a[..n][i + 1..];
    } else {
      assert a[..i] + a[i + 1..] == a[..n];
    }
  }

  lemma WithoutOne(a: seq<int>, i: nat)
    requires i < |a|
    ensures multiset(a[..i] + a[i + 1..]) == multiset(a) - multiset{a[i]}
  {
    assert a == a[..i] + [a[i]] + a[i + 1..];
  }

  lemma PointsWithout(a: seq<int>, i: nat)
    requires i < |a|
    ensures PointsOf(a)[..i] + PointsOf(a)[i + 1..] == PointsOf(a[..i] + a[i + 1..])
  {
  }

  lemma {:induction false} SumIgnoresOrder(a: seq<int>, b: seq<int>)
    requires multiset(a) == multiset(b) && |a| == |b|
    ensures Sum(PointsOf(a)) == Sum(PointsOf(b))
  {
    if a != [] {
      var n := |a| - 1;
      var x := a[n];
      assert x in multiset(b);
      var i :| 0 <= i < |b| && b[i] == x;
      var b' := b[..i] + b[i + 1..];
      WithoutOne(a, n);
      WithoutOne(b, i);
      assert a[..n] + a[n + 1..] == a[..n];
      SumIgnoresOrder(a[..n], b');
      SumWithout(PointsOf(b), i);
      PointsWithout(b, i);
      PointsWithout(a, n);
      SumWithout(PointsOf(a), n);
    }
  }

  /** Grades in any order give the same average. */
  lemma GpaIgnoresOrder(a: seq<int>, b: seq<int>)
    requires multiset(a) == multiset(b)
    ensures |a| == |b| && Gpa(a) == Gpa(b)
  {
    assert |multiset(a)| == |a| && |multiset(b)| == |b|;
    SumIgnoresOrder(a, b);
  }

  function RecordOf(e: Enrollment): CourseRecord {
    CourseRecord(e.code, e.offeringId, e.grade, e.isActive, e.isWithdrawn)
  }

  /** The grades that are present, in row order. */
  function Graded(rows: seq<Enrollment>): seq<int> {
    if rows == [] then []
    else
      var last := rows[|rows| - 1];
      Graded(rows[..|rows| - 1]) + (if last.grade.Some? then [last.grade.value] else [])
  }

  lemma {:induction false} GradedAtLeast(rows: seq<Enrollment>, least: int)
    ensures |Graded(rows)| == |set i | 0 <= i < |rows| && rows[i].grade.Some?|
    ensures AtLeast(Graded(rows), least)
            == |set i | 0 <= i < |rows| && rows[i].grade.Some? && rows[i].grade.value >= least|
    decreases |rows|
  {
    if rows != [] {
      var n := |rows| - 1;
      var graded, first := Graded(rows), Graded(rows[..n]);
      GradedAtLeast(rows[..n], least);
      var some := set i | 0 <= i < n && rows[..n][i].grade.Some?;
      var high := set i | 0 <= i < n && rows[..n][i].grade.Some? && rows[..n][i].grade.value >= least;
      if rows[n].grade.Some? {
        AtLeastLast(graded, least);
        assert graded[..|graded| - 1] == first;
        assert (set i | 0 <= i < |rows| && rows[i].grade.Some?) == some + {n};
        assert (set i | 0 <= i < |rows| && rows[i].grade.Some? && rows[i].grade.value >= least)
               == if rows[n].grade.value >= least then high + {n} else high;
      } else {
        assert graded == first;
        assert (set i | 0 <= i < |rows| && rows[i].grade.Some?) == some;
        assert (set i | 0 <= i < |rows| && rows[i].grade.Some? && rows[i].grade.value >= least) == high;
      }
    }
  }

  /** The same for the transcript: the mean over the enrollments that have a grade, counted by bands. */
  lemma TranscriptAverage(rows: seq<Enrollment>)
    ensures var n := |set i | 0 <= i < |rows| && rows[i].grade.Some?|;
            var band := (least: int) =>
              |set i | 0 <= i < |rows| && rows[i].grade.Some? && rows[i].grade.value >= least|;
            var tenths := 20 * band(60) + 3 * band(65) + 4 * band(70) + 3 * band(75)
                          + 3 * band(80) + 4 * band(85) + 3 * band(90);
            var twice := 2 * (10 * tenths - Gpa(Graded(rows)) * n);
            && (n == 0 ==> Gpa(Graded(rows)) == 0)
            && (n > 0 ==> -n <= twice <= n && (twice == n || twice == -n ==> Gpa(Graded(rows)) % 2 == 0))
  {
    GpaByBands(Graded(rows));
    forall least {:trigger AtLeast(Graded(rows), least)}
      ensures |Graded(rows)| == |set i | 0 <= i < |rows| && rows[i].grade.Some?|
      ensures AtLeast(Graded(rows), least)
              == |set i | 0 <= i < |rows| && rows[i].grade.Some? && rows[i].grade.value >= least|
    {
      GradedAtLeast(rows, least);
    }
    assert AtLeast(Graded(rows), 60) + AtLeast(Graded(rows), 65) + AtLeast(Graded(rows), 70)
           + AtLeast(Graded(rows), 75) + AtLeast(Graded(rows), 80) + AtLeast(Graded(rows), 85)
           + AtLeast(Graded(rows), 90) >= 0;
  }

  /** A missing student has no transcript.  Otherwise every enrollment is listed once, in row order,
      and ungraded ones count as courses but not towards the average. */
  method GenerateTranscript(id: int, student: Option<Student>, rows: seq<Enrollment>) returns (r: Option<Transcript>)
    ensures student.None? <==> r.None?
    ensures r.Some? ==>
      && r.value.studentId == id && r.value.name == student.value.name
      && r.value.email == student.value.email && r.value.departmentId == student.value.departmentId
      && r.value.totalCourses == |rows| == |r.value.courses|
      && (forall i | 0 <= i < |rows| ::
            && r.value.courses[i] == RecordOf(rows[i])
            && r.value.courses[i].code == rows[i].code && r.value.courses[i].offeringId == rows[i].offeringId
            && r.value.courses[i].grade == rows[i].grade
            && r.value.courses[i].isActive == rows[i].isActive
            && r.value.courses[i].isWithdrawn == rows[i].isWithdrawn)
      && r.value.gpa == Gpa(Graded(rows))
  {
    if student.None? { return None; }
    var courses: seq<CourseRecord> := [];
    var valid: seq<int> := [];
    for i := 0 to |rows|
      invariant |courses| == i && forall k | 0 <= k < i :: courses[k] == RecordOf(rows[k])
      invariant valid == Graded(rows[..i])
    {
      assert rows[..i + 1][..i] == rows[..i];
      if rows[i].grade.Some? {
        valid := valid + [rows[i].grade.value];
      }
      courses := courses + [RecordOf(rows[i])];
    }
    assert rows[..|rows|] == rows;
    var gpa := CalculateGpa(valid);
    var s := student.value;
    r := Some(Transcript(id, s.name, s.email, s.departmentId, gpa, |rows|, courses));
  }
}
