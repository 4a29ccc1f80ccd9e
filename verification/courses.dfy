/** Course selection: the teacher's Canvas courses filtered by whether they are running (or over)
    at `now` and by a name substring, and the single course a command works on
    (kattis2canvas.py:197-228, main.py:179-210). */
module Courses {
  import opened Base
  import opened Text

  /** A Canvas course as listed: its name and, when Canvas has them, its start and end
      instants. */
  datatype Course = Course(name: string, startAt: Option<int>, endAt: Option<int>)

  /** A kept course with the `start` and `end` the filter attached to it (`now` for a missing
      date). */
  datatype SelectedCourse = SelectedCourse(course: Course, start: int, end: int)

  function StartOf(c: Course, now: int): int {
    if c.startAt.Some? then c.startAt.value else now
  }

  function EndOf(c: Course, now: int): int {
    if c.endAt.Some? then c.endAt.value else now
  }

  /** The two date tests of the course loop: not running (when `isActive`) and not over (when
      `isFinished`) skip the course. */
  predicate PassesDates(c: Course, now: int, isActive: bool, isFinished: bool) {
    && !(isActive && (StartOf(c, now) > now || EndOf(c, now) < now))
    && !(isFinished && EndOf(c, now) >= now)
  }

  /** All three tests of the course loop: the dates, then the name. */
  predicate Keeps(c: Course, name: string, now: int, isActive: bool, isFinished: bool) {
    PassesDates(c, now, isActive, isFinished) && Contains(c.name, name)
  }

  function Select(c: Course, now: int): SelectedCourse {
    SelectedCourse(c, StartOf(c, now), EndOf(c, now))
  }

  /** The list `get_courses` returns, in Canvas order. */
  function MatchingCourses(courses: seq<Course>, name: string, now: int, isActive: bool, isFinished: bool)
    : seq<SelectedCourse>
  {
    if |courses| == 0 then []
    else
      var before := MatchingCourses(courses[..|courses| - 1], name, now, isActive, isFinished);
      var c := courses[|courses| - 1];
      if Keeps(c, name, now, isActive, isFinished) then before + [Select(c, now)] else before
  }

  /** `get_courses`: walk the courses, skip those the date tests reject, and append those whose
      name contains `name`. */
  method GetCourses(courses: seq<Course>, name: string, now: int, isActive: bool, isFinished: bool)
    returns (list: seq<SelectedCourse>)
    ensures list == MatchingCourses(courses, name, now, isActive, isFinished)
  {
    list := [];
    var i := 0;
    while i < |courses|
      invariant 0 <= i <= |courses|
      invariant list == MatchingCourses(courses[..i], name, now, isActive, isFinished)
    {
      assert courses[..i + 1][..i] == courses[..i];
      var c := courses[i];
      var start := if c.startAt.Some? then c.startAt.value else now;
      var end := if c.endAt.Some? then c.endAt.value else now;
      if isActive && (start > now || end < now) {
        i := i + 1;
        continue;
      }
      if isFinished && end >= now {
        i := i + 1;
        continue;
      }
      if Contains(c.name, name) {
        list := list + [SelectedCourse(c, start, end)];
      }
      i := i + 1;
    }
    assert courses[..i] == courses;
  }

  /** A course is in the result exactly when one of the listed courses passes every test, and
      what the result holds for it are the dates the tests used. */
  lemma {:induction false} MatchingCoursesMembers(courses: seq<Course>, name: string, now: int,
                                                  isActive: bool, isFinished: bool, s: SelectedCourse)
    ensures s in MatchingCourses(courses, name, now, isActive, isFinished) <==>
              s.course in courses && Keeps(s.course, name, now, isActive, isFinished) && s == Select(s.course, now)
  {
    if |courses| > 0 {
      var init := courses[..|courses| - 1];
      MatchingCoursesMembers(init, name, now, isActive, isFinished, s);
      assert courses == init + [courses[|courses| - 1]];
    }
  }

  /** The filter keeps Canvas order: filtering a concatenation concatenates the results. */
  lemma {:induction false} MatchingCoursesOfConcat(a: seq<Course>, b: seq<Course>, name: string, now: int,
                                                   isActive: bool, isFinished: bool)
    ensures MatchingCourses(a + b, name, now, isActive, isFinished) ==
              MatchingCourses(a, name, now, isActive, isFinished) + MatchingCourses(b, name, now, isActive, isFinished)
  {
    if |b| == 0 {
      assert a + b == a;
    } else {
      assert (a + b)[..|a + b| - 1] == a + b[..|b| - 1];
      MatchingCoursesOfConcat(a, b[..|b| - 1], name, now, isActive, isFinished);
    }
  }

  /** A kept running course has started and not ended at `now`; a kept finished course ended
      before `now`. */
  lemma KeptCoursesDates(c: Course, name: string, now: int, isActive: bool, isFinished: bool)
    requires Keeps(c, name, now, isActive, isFinished)
    ensures isActive ==> Select(c, now).start <= now <= Select(c, now).end
    ensures isFinished ==> Select(c, now).end < now
  {
  }

  /** A course without dates counts as running and never as finished. */
  lemma UndatedCourse(c: Course, name: string, now: int)
    requires c.startAt.None? && c.endAt.None?
    ensures Keeps(c, name, now, true, false) <==> Contains(c.name, name)
    ensures !Keeps(c, name, now, false, true)
  {
  }

  /** A fact about the filter alone: its two date tests exclude each other, so asking for
      courses that are both running and finished finds none. (`get_course`, the only caller,
      never asks for finished courses.) */
  lemma {:induction false} RunningAndFinishedIsEmpty(courses: seq<Course>, name: string, now: int)
    ensures MatchingCourses(courses, name, now, true, true) == []
  {
    if |courses| > 0 {
      RunningAndFinishedIsEmpty(courses[..|courses| - 1], name, now);
    }
  }

  /** With the empty name the filter keeps exactly the courses that pass the date tests, so the
      list `get_course` offers when nothing matches is every running course. */
  lemma EmptyNameKeepsEveryDatedCourse(courses: seq<Course>, now: int, isActive: bool, isFinished: bool,
                                       s: SelectedCourse)
    ensures s in MatchingCourses(courses, "", now, isActive, isFinished) <==>
              s.course in courses && PassesDates(s.course, now, isActive, isFinished) && s == Select(s.course, now)
  {
    MatchingCoursesMembers(courses, "", now, isActive, isFinished, s);
    assert OccursAt(s.course.name, "", 0);
  }

  /** `get_course`: exactly one running course must match `name`; none, or several, stop the
      run. */
  method GetCourse(courses: seq<Course>, name: string, now: int, isActive: bool) returns (r: Result<SelectedCourse>)
    ensures var matches := MatchingCourses(courses, name, now, isActive, false);
            && (r == Err(NoMatchingCourse) <==> |matches| == 0)
            && (r.Err? && r.error.SeveralMatchingCourses? <==> |matches| > 1)
            && (r.Err? && r.error.SeveralMatchingCourses? ==> r.error.count == |matches|)
            && (r.Ok? <==> |matches| == 1)
            && (r.Ok? ==> r.value == matches[0])
  {
    var list := GetCourses(courses, name, now, isActive, false);
    if |list| == 0 {
      r := Err(NoMatchingCourse);
    } else if |list| > 1 {
      r := Err(SeveralMatchingCourses(|list|));
    } else {
      r := Ok(list[0]);
    }
  }

  /** The course `get_course` returns is one of the listed courses, passes the tests, and is
      the only one that does. */
  lemma GetCourseUnique(courses: seq<Course>, name: string, now: int, isActive: bool, s: SelectedCourse)
    requires MatchingCourses(courses, name, now, isActive, false) == [s]
    ensures s.course in courses && Keeps(s.course, name, now, isActive, false)
    ensures forall c :: c in courses && Keeps(c, name, now, isActive, false) ==> Select(c, now) == s
  {
    MatchingCoursesMembers(courses, name, now, isActive, false, s);
    forall c | c in courses && Keeps(c, name, now, isActive, false) ensures Select(c, now) == s {
      MatchingCoursesMembers(courses, name, now, isActive, false, Select(c, now));
    }
  }
}
