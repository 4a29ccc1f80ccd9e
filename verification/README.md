# kattis2canvas: the submission reconciliation core in Dafny

kattis2canvas copies Kattis judge results into Canvas. For each Kattis assignment it does
the following:

- reads the judge table of submissions and normalises each row: user, problem, score, date and url;
- keeps one best submission per user;
- links Kattis user names to Canvas students through the "kattis" link on each student's profile;
- posts a comment on a student's Canvas submission when the best Kattis submission is newer
  than every comment already there, or only reports it in a dry run.

Commands look up their Canvas course by a name substring among the teacher's running courses.

This project models that core, with the same branches, error cases and constants as the code.
Both copies of the program are covered: `kattis2canvas.py` and its earlier version `main.py`.
They share the logic. They differ in where the identity links come from:

- `kattis2canvas.py` takes users with a student enrollment and sorts their links by name;
- `main.py` walks the student enrollments in order.

Modules, one per file:

- `Base`: `Option`, `Result` and the run-aborting errors: a Python exception reaching the top, or `sys.exit`.
- `Text`:
  - `extract_last`;
  - `str.rindex`;
  - `str.split`;
  - ASCII `lower()`;
  - decimal digits.
- `Normalize`:
  - the two-format `Date` cell;
  - the `Test cases` score;
  - a whole row as a `Submission`.
- `Selection`:
  - the row loop of `get_best_submissions`, exactly as written;
  - the per-(user, problem) selection it evidently intends. See "Findings".
- `Identity`:
  - `find_kattis_link`;
  - `is_student_enrollment`;
  - `get_kattis_links`, including its stable sort by name;
  - the two identity dictionaries, built from links (`kattis2canvas.py`) or from enrollments (`main.py`).
- `Reconcile`:
  - `last_comment`, a running maximum from the year-1 sentinel;
  - `submissions_by_user`;
  - the four-way per-entry decision;
  - the decision loop with and without dry run.
- `Courses`: `get_courses` and `get_course`.

Representation choices:

- Instants are integers: microseconds since 0001-01-01T00:00:00 UTC, the instant
  `datetime.fromordinal(1)` denotes. So the year-1 sentinel is 0.
- `now` is a parameter, and it is UTC, so every day has 86 400 seconds. A short-form date keeps
  `now`'s microseconds, as `now.replace(hour=…, minute=…, second=…)` does.
- The full form `%Y-%m-%d %H:%M:%S` is read by `strptime` and the calendar. That reading is a
  parameter `parseFull` that yields whole seconds, or nothing for text it rejects.
- The short form `%H:%M:%S` is parsed in the model: one- or two-digit fields, hours below 24,
  minutes and seconds below 60.
- Scores are exact reals, `100·p/q`.
- Where the code raises, the model returns `Err`; the run stops there. A Canvas write is an
  `Edit` value in a returned set.
- A dictionary the code fills in a loop is a `map`. A method with that loop is proved equal to a
  recursive function over the input prefix. The lemmas about that function state the
  dictionary's properties.

Points where the code's behaviour is easy to misread, stated as the model has them:

- Selection: the row loop keeps only one problem per user, that of the user's last row
  (kattis2canvas.py:490-491). The rest of the code expects one entry per (user, problem): the
  decision loop walks every value of a user's dictionary (kattis2canvas.py:441), and the
  replacement test compares submissions of one problem (kattis2canvas.py:492-496). See "Findings".
- Identity conflicts: two Canvas users whose profiles name the same Kattis user are not rejected.
  The later link overwrites the earlier one (kattis2canvas.py:399-400, main.py:336-337). In
  `kattis2canvas.py` the links are sorted by name first, so the winner is a student whose name
  sorts last, and among students of that very name the last one in user order
  (`Identity.SortedLinksWinner`). In `main.py` it is the last student enrollment in enrollment
  order (`Identity.EnrollmentLinksLastWins`). That winner only names the student in the log
  text (kattis2canvas.py:449,454). The comment itself goes to the last Canvas submission, in
  `get_submissions` order, whose user is linked to the Kattis name (kattis2canvas.py:431,
  main.py:366; `Reconcile.SubmissionsByUserLastWins`). So it can land on a different student's
  submission.
- Comment times: the code keeps one latest-comment time per Canvas submission of the
  assignment (kattis2canvas.py:424-438), and every problem of the user is compared with it.
  With no comment, that time is the year-1 sentinel.
- Score range: the score is `100·p/q` with no check that `p <= q` (kattis2canvas.py:487), so
  "5/3" scores about 166.7, although the Canvas assignment is created with 100 points possible
  (kattis2canvas.py:287). `Normalize.ScoreWithinRange` proves the range [0, 100] only for
  `p <= q`.

## Model

| member | source | states |
|---|---|---|
| `Text.LastIndexOf` | kattis2canvas.py:73 | `rindex("/")` fails exactly when there is no slash. Otherwise it returns an index holding the slash with no slash after it. |
| `Text.ExtractLast` | kattis2canvas.py:72-76 | An input without '/' is an error. The input comes back unchanged exactly when its only slash is at index 0. Otherwise the result is the slash-free text after the last slash. Same code as main.py:59-63. |
| `Text.ExtractLastOfJoin` | main.py:59-63 | For a non-empty prefix and a slash-free segment, `prefix + "/" + segment` gives back exactly `segment`. |
| `Normalize.ParseClock` | kattis2canvas.py:480 | An accepted `%H:%M:%S` text denotes a second of the day below 86 400. |
| `Normalize.ParseClockOfFields` | kattis2canvas.py:480 | Three one- or two-digit fields joined by ":" are rejected exactly when the hour is 24 or more, or the minute or the second 60 or more. Otherwise they denote h·3600 + m·60 + s. |
| `Normalize.ParseClockCanonical` | main.py:413 | An accepted eight-character text is exactly the `HH:MM:SS` form of the time it denotes, so the clock and that form are in one-to-one correspondence. |
| `Normalize.ParseClockOfFormat` | main.py:413 | Every time of day written as `HH:MM:SS` reads back as itself. |
| `Normalize.ResolveShortDate` | kattis2canvas.py:481-485 | The resolved instant is at most `now` and later than `now` minus 24 hours. It has the row's time of day plus `now`'s microseconds. |
| `Normalize.ShortDateIsUnique` | main.py:414-418 | Exactly one instant in the 24 hours up to `now` has that time of day, and it is the resolved one. |
| `Normalize.ShortDateShiftsBackWhenLater` | kattis2canvas.py:484-485 | The date moves to the previous day exactly when the row's time of day is later than `now`'s, in whole seconds. |
| `Normalize.ResolveDate` | kattis2canvas.py:476-485 | A `Date` with '-' is the full UTC form, in whole seconds. Any other `Date` is the short form: its clock placed on `now`'s date and moved back a day when later than `now`, within the last 24 hours. It succeeds exactly when the chosen format parses, and fails with a date error otherwise. |
| `Normalize.ParseScore` | kattis2canvas.py:487 | "-/-" scores 0. Every accepted score is non-negative. A failure is a malformed fraction or a zero denominator. |
| `Normalize.ScoreOfFraction` | main.py:420 | "p/q" scores exactly 100·p/q, and "p/0" is a zero-denominator error. |
| `Normalize.ScoreWithinRange` | kattis2canvas.py:487 | For 0 < q and p <= q the score lies in [0, 100]. It is 100 exactly when p = q. |
| `Normalize.NormalizeRow` | kattis2canvas.py:476-489 | A row becomes a submission exactly when its date, score, user and problem all succeed, and the fields come from those parts. A bad date gives the date error, whatever the rest. A good date with a bad score gives the score's error. With both good, a failure is a missing slash. Same code as main.py:409-422. |
| `Selection.NormalizeRowsOk` | kattis2canvas.py:466-489 | A table that normalises gives one submission per row, in row order. |
| `Selection.NormalizeRowsFirstError` | main.py:399-422 | A table that fails carries the error of its first failing row. |
| `Selection.Record` | kattis2canvas.py:490-496 | One update of the dictionary for one row equals one step of the row loop. It mirrors `StepAsWritten` and only splits the loop's proof. |
| `Selection.GetBestSubmissions` | kattis2canvas.py:459-497 | Returns the first row error. Otherwise it returns the row loop over the normalised rows, one dictionary update per row. |
| `Selection.SelectAsWrittenKeepsLastProblem` | kattis2canvas.py:490-496 | A user is a key exactly when the user has rows. That user's dictionary then holds only the problem of the user's last row. The value is the first row with the greatest score, then the latest date, in the final run of rows on that problem. |
| `Selection.AsWrittenDropsEarlierProblem` | kattis2canvas.py:490-491 | Two rows of one user on two problems: the loop keeps only the second problem, and the result depends on row order. The intended selection keeps both. |
| `Selection.AsWrittenAgreesOnSingleProblem` | main.py:423-429 | For a user whose rows are all on one problem, the loop as written and the intended selection give the same entry. |
| `Selection.SelectPerProblemKeepsFirstBest` | kattis2canvas.py:492-496 | The intended selection has a slot for exactly the (user, problem) pairs with rows. Each slot holds the first row with the greatest score, then the latest date. |
| `Selection.SelectPerProblemIgnoresOrder` | main.py:426-429 | Any reordering of the rows fills the same slots, with the same best score and date. |
| `Identity.LastKattisLink` | kattis2canvas.py:325-330 | No result exactly when no lower-cased title contains "kattis". Otherwise the result is the url of the last such link in list order. |
| `Identity.FindKattisLink` | main.py:298-303 | The loop that reassigns the url on every matching link returns that last match. |
| `Identity.KattisUserOf` | kattis2canvas.py:349 | No Kattis name exactly when there is no matching link or its url is empty. An error exactly when a non-empty url has no slash. |
| `Identity.KattisUserOfProfilePage` | main.py:333 | A matching url `prefix/name`, with a slash-free name, yields `name`. |
| `Identity.LookUpLink` | kattis2canvas.py:346-350 | The per-user profile lookup yields the user with the Kattis name found. |
| `Identity.StudentLinksAreStudents` | kattis2canvas.py:342-354 | Only users with a student enrollment get links, each from that user's own profile. Every such user gets one. |
| `Identity.SortByNameSorted` | kattis2canvas.py:355 | The sorted links are ordered by name, compared by code point. |
| `Identity.SortByNameSameLinks` | kattis2canvas.py:355 | The sorted links are a permutation of the input. |
| `Identity.SortByNameStable` | kattis2canvas.py:355 | The sort is stable: the links of the users of any one name keep their input order. |
| `Identity.GetKattisLinks` | kattis2canvas.py:338-356 | Returns the first failing lookup's error. Otherwise it returns the students' links, sorted by name. |
| `Identity.EnrollmentLinksAreStudents` | main.py:327-333 | Only `StudentEnrollment` entries give links, each from the enrolled user's profile. Every `StudentEnrollment` entry gives its user's link. |
| `Identity.BuildIdentityMaps` | kattis2canvas.py:396-403 | The loop fills both dictionaries as the last-wins folds over the links. A link without a non-empty name enters neither. |
| `Identity.BuildIdentityMapsFromEnrollments` | main.py:325-339 | The same dictionaries built while walking the enrollments, in enrollment order. A failing lookup aborts. |
| `Identity.ToCanvasKeys` | kattis2canvas.py:399-400 | A Kattis name is a key exactly when some link carries it. |
| `Identity.ToCanvasLastWins` | kattis2canvas.py:400 | A Kattis name maps to the Canvas user of the last link carrying it. |
| `Identity.ToKattisLastWins` | main.py:337 | A Canvas id is a key exactly when some link of that id has a name. It maps to the name of that id's last link. |
| `Identity.ToKattisValuesAreKeys` | kattis2canvas.py:399-401 | Every name in the id-to-name dictionary is a key of the name-to-user dictionary. |
| `Identity.UnlinkedInNeither` | main.py:335-339 | A student with no usable link is in neither dictionary. |
| `Identity.SortedWinnerSortsLast` | kattis2canvas.py:355 | On the name-sorted list, a Kattis name claimed by several students goes to one whose name sorts last. |
| `Identity.ToCanvasWithinName` | kattis2canvas.py:399-400 | The user a Kattis name maps to is also the one it maps to among the links of the users with that user's name alone. |
| `Identity.SortedLinksWinner` | kattis2canvas.py:355-400 | After the sort, a Kattis name claimed by several students goes to one whose name sorts last, and among students of that name to the last one in user order. |
| `Identity.EnrollmentLinksKeys` | main.py:325-337 | A Kattis name is a key exactly when some student enrollment's profile names it. |
| `Identity.EnrollmentLinksLastWins` | main.py:325-337 | A Kattis name maps to the user of the last student enrollment, in enrollment order, whose profile names it. |
| `Reconcile.LatestComment` | kattis2canvas.py:432-438 | The result is at least the year-1 sentinel and at least every comment time. It is the sentinel or one of the comment times. |
| `Reconcile.CollapseComments` | main.py:367-373 | The strict-`>` running maximum from the sentinel computes that latest time. |
| `Reconcile.NewCommentRaisesLatest` | kattis2canvas.py:436-437 | A new comment at t makes the latest time at least t and never lowers it. A comment that is not later changes nothing. |
| `Reconcile.BuildSubmissionsByUser` | kattis2canvas.py:425-438 | The loop builds `submissions_by_user`: later submissions overwrite, each with its `last_comment`. |
| `Reconcile.SubmissionsByUserEntries` | kattis2canvas.py:427-431 | A key is exactly a Kattis name linked to a Canvas user with a submission. Its entry is one of that user's submissions, with its latest comment time. |
| `Reconcile.SubmissionsByUserLastWins` | kattis2canvas.py:427-431 | A Kattis name's entry is the last submission, in Canvas order, whose user is linked to that name. |
| `Reconcile.WriteIffNewerThanEveryComment` | kattis2canvas.py:442-456 | A comment is posted exactly when there is a submission and a Canvas user and the best date is strictly later than the sentinel and every comment. An equal date is up to date. |
| `Reconcile.UnknownUserNeverDecided` | kattis2canvas.py:444-445 | With the dictionaries built from the same links, the unknown-user branch is never taken. |
| `Reconcile.WriteThenUpToDate` | kattis2canvas.py:446 | After a comment no earlier than the best date is added, the same entry is up to date. |
| `Reconcile.ReconcileUser` | kattis2canvas.py:441-456 | The inner loop plans exactly the user's entries decided `Write`. It writes them, or nothing in dry run. |
| `Reconcile.Reconcile` | main.py:375-389 | The planned comments are exactly the entries decided `Write`. Writes equal the plan, and there are none in dry run. |
| `Reconcile.RerunPlansNothing` | kattis2canvas.py:446-452 | A second run plans nothing when every planned comment was posted no earlier than its submission and no comment was removed. |
| `Courses.GetCourses` | kattis2canvas.py:213-228 | The loop returns the kept courses in Canvas order, each with the start and end used. |
| `Courses.MatchingCoursesMembers` | main.py:195-210 | A course is returned exactly when it passes the running, finished and name tests. A missing date counts as `now`. |
| `Courses.MatchingCoursesOfConcat` | kattis2canvas.py:217-227 | The filter preserves order: filtering a concatenation concatenates the results. |
| `Courses.KeptCoursesDates` | kattis2canvas.py:218-223 | A kept running course has start <= now <= end. A kept finished course has end < now. |
| `Courses.UndatedCourse` | main.py:200-204 | A course without dates always counts as running, by name only, and never as finished. |
| `Courses.RunningAndFinishedIsEmpty` | kattis2canvas.py:220-223 | A fact about the filter alone, since no caller asks for finished courses: asking for running and finished courses at once finds none. |
| `Courses.EmptyNameKeepsEveryDatedCourse` | kattis2canvas.py:202 | With the empty name, the filter keeps exactly the courses that pass the date tests, so the list offered when nothing matches is every running course. |
| `Courses.GetCourse` | kattis2canvas.py:197-210 | No match gives one error and several matches another, with their count. Exactly one match is returned. |
| `Courses.GetCourseUnique` | main.py:179-192 | The course returned is listed, passes the tests, and is the only course that does. |

## Left out

- HTTP and login: `web_get`, `check_status`, `top`. A failed fetch would stop the run; no fetch is modelled.
- HTML scraping: `get_offerings`, `get_assignments`, and the header and cell extraction of
  `get_best_submissions` (kattis2canvas.py:461-475). The model starts from extracted rows.
- Skipped rows: rows without a `data-submission-id` or without cells are dropped before any
  modelled step.
- Offerings: finding the single offering and its assignments, and matching assignment titles to
  Canvas assignments (kattis2canvas.py:385-423), belong to scraping and Canvas queries. The
  model starts from one assignment's rows and Canvas submissions.
- Canvas library calls: fetching users, profiles, enrollments and submissions, the `edit` that
  posts a comment, and `course2canvas`. They are inputs, or an `Edit` value in the result.
- The comment text, and all console output and warnings. This includes the `kattislinks`
  listing and the list of course names printed when no course matches.
- The thread pool in `get_kattis_links`: lookups are modelled one user at a time, in user order.
  The first failing lookup's error is the one `f.result()` re-raises, so the outcome is the same.
- `main.py` fills the dictionaries while it looks up profiles. The model gets the same
  dictionaries, or the same error, since an error ends the run.
- The duplicate-submission warning (kattis2canvas.py:428-430, main.py:364-365). It looks up a
  Canvas id in dictionaries keyed by Kattis name. It has no effect other than output.
- `strptime` and the calendar for the full date form: the `parseFull` parameter.
- `extract_kattis_date` and `extract_canvas_date`: comment times are given as instants.
- Floating point:
  - Scores are exact; `float(Fraction(...)) * 100` may round, so two float scores can tie where
    the exact ones differ, and the reverse.
  - `Fraction` also accepts forms other than "p/q" with decimal digits, such as signs, spaces,
    decimals and a bare integer. The model rejects them.
- `lower()` is modelled for ASCII letters only.
- Digits are ASCII `0`-`9` only. Python's `strptime` fields, `int()` and `Fraction` also accept
  other Unicode decimal digits; the model rejects such text.
- Dictionary iteration order: the decision loop takes users and problems in any order. Its
  result is a set, because no decision depends on an earlier write.
- Configuration, globals, `introspect`, and `sendemail`.

## Findings

| source | as written | input that shows it | evidently intended | confidence | as-written member | corrected member |
|---|---|---|---|---|---|---|
| kattis2canvas.py:490-491 | A row whose problem is missing from the user's dictionary replaces the whole dictionary with that single problem. The same code is at main.py:423-424. | Two rows of one user on problems A then B: the result holds only B, and in the other order only A. | Add the problem beside the user's other problems: one best submission per (user, problem), whatever the row order. | high; not executed | `Selection.AsWrittenDropsEarlierProblem` | `Selection.SelectPerProblemIgnoresOrder` |

`GetBestSubmissions` keeps the code's behaviour. The corrected selection is
`SelectPerProblem`, described by `SelectPerProblemKeepsFirstBest`.
`Reconcile.Reconcile` and its lemmas accept any dictionary of that shape, so they apply to
either selection.
