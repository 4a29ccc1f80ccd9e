/** Identity linking: a Canvas student's Kattis identity is the last segment of the last profile
    link whose title mentions "kattis" (kattis2canvas.py:321-356, main.py:298-303), and two
    dictionaries tie Kattis user names to Canvas users and back, a later link overwriting an
    earlier one (kattis2canvas.py:396-403, main.py:325-339). */
module Identity {
  import opened Base
  import opened Text

  /** One entry of a Canvas profile's `links` list. */
  datatype ProfileLink = ProfileLink(title: string, url: string)

  /** A Canvas user with the enrollment types it was listed with and its profile's links. */
  datatype CanvasUser = CanvasUser(id: int, name: string, email: string,
                                   enrollmentTypes: seq<string>, links: seq<ProfileLink>)

  /** `KattisLink`: a Canvas user and the Kattis user name found on its profile, if any. */
  datatype KattisLink = KattisLink(canvasUser: CanvasUser, kattisUser: Option<string>)

  /** One entry of `course.get_enrollments()`: its type and the user it enrolls. */
  datatype Enrollment = Enrollment(kind: string, user: CanvasUser)

  const StudentEnrollment: string := "StudentEnrollment"

  /** `is_student_enrollment`: one of the user's enrollments is a student enrollment. */
  predicate IsStudentEnrollment(user: CanvasUser) {
    StudentEnrollment in user.enrollmentTypes
  }

  // ---------------------------------------------------------------------------------------
  // find_kattis_link

  /** The lower-cased title mentions "kattis". */
  predicate IsKattisTitle(title: string) {
    Contains(Lower(title), "kattis")
  }

  /** The url of the last link, in list order, whose title mentions "kattis". */
  function LastKattisLink(links: seq<ProfileLink>): (r: Option<string>)
    ensures r.None? <==> forall i :: 0 <= i < |links| ==> !IsKattisTitle(links[i].title)
    ensures r.Some? ==>
              exists i :: && 0 <= i < |links| && IsKattisTitle(links[i].title) && links[i].url == r.value
                          && forall j :: i < j < |links| ==> !IsKattisTitle(links[j].title)
  {
    if |links| == 0 then None
    else if IsKattisTitle(links[|links| - 1].title) then Some(links[|links| - 1].url)
    else LastKattisLink(links[..|links| - 1])
  }

  /** `find_kattis_link`: walk the links, remembering the url of each one whose title matches. */
  method FindKattisLink(links: seq<ProfileLink>) returns (url: Option<string>)
    ensures url == LastKattisLink(links)
  {
    url := None;
    var i := 0;
    while i < |links|
      invariant 0 <= i <= |links|
      invariant url == LastKattisLink(links[..i])
    {
      assert links[..i + 1][..i] == links[..i];
      if IsKattisTitle(links[i].title) {
        url := Some(links[i].url);
      }
      i := i + 1;
    }
    assert links[..i] == links;
  }

  /** The Kattis user name of a profile: the last segment of the matching url when that url is
      non-empty, else nothing; a url without '/' aborts the run. */
  function KattisUserOf(user: CanvasUser): (r: Result<Option<string>>)
    ensures r.Err? <==> LastKattisLink(user.links).Some? && LastKattisLink(user.links).value != []
                        && '/' !in LastKattisLink(user.links).value
    ensures r == Ok(None) <==> LastKattisLink(user.links).None? || LastKattisLink(user.links).value == []
  {
    match LastKattisLink(user.links)
    case None => Ok(None)
    case Some(url) =>
      if url == [] then Ok(None)
      else
        match ExtractLast(url)
        case Err(e) => Err(e)
        case Ok(name) => Ok(Some(name))
  }

  /** A profile whose matching link is a Kattis user page yields that user's name. */
  lemma KattisUserOfProfilePage(user: CanvasUser, prefix: string, name: string)
    requires LastKattisLink(user.links) == Some(prefix + "/" + name)
    requires prefix != [] && '/' !in name
    ensures KattisUserOf(user) == Ok(Some(name))
  {
    ExtractLastOfJoin(prefix, name);
  }

  /** The per-user step of the profile lookup: the user and the Kattis user name found. */
  function LinkOf(user: CanvasUser): Result<KattisLink> {
    match KattisUserOf(user)
    case Err(e) => Err(e)
    case Ok(name) => Ok(KattisLink(user, name))
  }

  /** The per-user profile lookup (`get_profile` in kattis2canvas.py, the loop body in main.py):
      find the matching link, and cut a non-empty url down to its last segment. */
  method LookUpLink(user: CanvasUser) returns (r: Result<KattisLink>)
    ensures r == LinkOf(user)
  {
    var url := FindKattisLink(user.links);
    var name: Option<string> := None;
    if url.Some? && url.value != [] {
      var last := ExtractLast(url.value);
      if last.Err? {
        return Err(last.error);
      }
      name := Some(last.value);
    }
    r := Ok(KattisLink(user, name));
  }

  // ---------------------------------------------------------------------------------------
  // The list of links (kattis2canvas.py)

  /** The links of the students among `users`, in user order; the first lookup that raises
      aborts the run. */
  function StudentLinks(users: seq<CanvasUser>): Result<seq<KattisLink>> {
    if |users| == 0 then Ok([])
    else
      match StudentLinks(users[..|users| - 1])
      case Err(e) => Err(e)
      case Ok(links) =>
        var user := users[|users| - 1];
        if !IsStudentEnrollment(user) then Ok(links)
        else
          match LinkOf(user)
          case Err(e) => Err(e)
          case Ok(link) => Ok(links + [link])
  }

  /** Every link is a student's, and every student gets exactly the link of its own profile. */
  lemma {:induction false} StudentLinksAreStudents(users: seq<CanvasUser>)
    requires StudentLinks(users).Ok?
    ensures forall l :: l in StudentLinks(users).value ==>
              IsStudentEnrollment(l.canvasUser) && l.canvasUser in users && LinkOf(l.canvasUser) == Ok(l)
    ensures forall u :: u in users && IsStudentEnrollment(u) ==> LinkOf(u).Ok? && LinkOf(u).value in StudentLinks(users).value
  {
    if |users| > 0 {
      var init := users[..|users| - 1];
      StudentLinksAreStudents(init);
      assert users == init + [users[|users| - 1]];
    }
  }

  /** Python's `<` on strings: code points compared left to right, a proper prefix first. */
  predicate NameLe(a: string, b: string) {
    if |a| == 0 then true
    else if |b| == 0 then false
    else if a[0] != b[0] then a[0] < b[0]
    else NameLe(a[1..], b[1..])
  }

  lemma {:induction false} NameLeTotal(a: string, b: string)
    ensures NameLe(a, b) || NameLe(b, a)
  {
    if |a| > 0 && |b| > 0 && a[0] == b[0] {
      NameLeTotal(a[1..], b[1..]);
    }
  }

  lemma {:induction false} NameLeTransitive(a: string, b: string, c: string)
    requires NameLe(a, b) && NameLe(b, c)
    ensures NameLe(a, c)
  {
    if |a| > 0 && |b| > 0 && |c| > 0 && a[0] == b[0] && b[0] == c[0] {
      NameLeTransitive(a[1..], b[1..], c[1..]);
    }
  }

  ghost predicate SortedByName(links: seq<KattisLink>) {
    forall i, j :: 0 <= i < j < |links| ==> NameLe(links[i].canvasUser.name, links[j].canvasUser.name)
  }

  /** `link` placed after every link whose name is not greater, so that equal names keep their
      order. */
  function InsertByName(link: KattisLink, sorted: seq<KattisLink>): seq<KattisLink> {
    if |sorted| == 0 then [link]
    else if NameLe(sorted[0].canvasUser.name, link.canvasUser.name) then [sorted[0]] + InsertByName(link, sorted[1..])
    else [link] + sorted
  }

  /** `list.sort(key=name)`: a stable sort by name. */
  function SortByName(links: seq<KattisLink>): seq<KattisLink> {
    if |links| == 0 then [] else InsertByName(links[|links| - 1], SortByName(links[..|links| - 1]))
  }

  lemma {:induction false} InsertByNameSameLinks(link: KattisLink, sorted: seq<KattisLink>)
    ensures multiset(InsertByName(link, sorted)) == multiset(sorted) + multiset{link}
  {
    if |sorted| > 0 && NameLe(sorted[0].canvasUser.name, link.canvasUser.name) {
      InsertByNameSameLinks(link, sorted[1..]);
      assert sorted == [sorted[0]] + sorted[1..];
    }
  }

  /** Putting a link in front of a sorted list whose first name is not smaller keeps it sorted. */
  lemma PrependSorted(link: KattisLink, sorted: seq<KattisLink>)
    requires SortedByName(sorted)
    requires |sorted| > 0 ==> NameLe(link.canvasUser.name, sorted[0].canvasUser.name)
    ensures SortedByName([link] + sorted)
  {
    var all := [link] + sorted;
    forall i, j | 0 <= i < j < |all| ensures NameLe(all[i].canvasUser.name, all[j].canvasUser.name) {
      if i == 0 {
        if j > 1 {
          NameLeTransitive(link.canvasUser.name, sorted[0].canvasUser.name, sorted[j - 1].canvasUser.name);
        }
      } else {
        assert all[i] == sorted[i - 1] && all[j] == sorted[j - 1];
      }
    }
  }

  lemma {:induction false} InsertByNameSorted(link: KattisLink, sorted: seq<KattisLink>)
    requires SortedByName(sorted)
    ensures SortedByName(InsertByName(link, sorted))
    ensures |sorted| > 0 ==> InsertByName(link, sorted)[0] == sorted[0] || InsertByName(link, sorted)[0] == link
  {
    if |sorted| > 0 {
      var head := sorted[0];
      if NameLe(head.canvasUser.name, link.canvasUser.name) {
        var tail := sorted[1..];
        SortedTail(sorted);
        InsertByNameSorted(link, tail);
        var rest := InsertByName(link, tail);
        if |tail| > 0 && rest[0] == tail[0] {
          assert tail[0] == sorted[1];
        }
        PrependSorted(head, rest);
      } else {
        NameLeTotal(head.canvasUser.name, link.canvasUser.name);
        PrependSorted(link, sorted);
      }
    } else {
      PrependSorted(link, []);
    }
  }

  /** The sorted list is ordered by name. */
  lemma {:induction false} SortByNameSorted(links: seq<KattisLink>)
    ensures SortedByName(SortByName(links))
  {
    if |links| > 0 {
      SortByNameSorted(links[..|links| - 1]);
      InsertByNameSorted(links[|links| - 1], SortByName(links[..|links| - 1]));
    }
  }

  /** The sorted list holds the same links as the unsorted one. */
  lemma {:induction false} SortByNameSameLinks(links: seq<KattisLink>)
    ensures multiset(SortByName(links)) == multiset(links)
  {
    if |links| > 0 {
      var init := links[..|links| - 1];
      SortByNameSameLinks(init);
      InsertByNameSameLinks(links[|links| - 1], SortByName(init));
      assert links == init + [links[|links| - 1]];
    }
  }

  /** The links of the users called `name`, in list order. */
  function WithName(links: seq<KattisLink>, name: string): seq<KattisLink> {
    if |links| == 0 then []
    else
      var before := WithName(links[..|links| - 1], name);
      if links[|links| - 1].canvasUser.name == name then before + [links[|links| - 1]] else before
  }

  lemma {:induction false} WithNameOfConcat(a: seq<KattisLink>, b: seq<KattisLink>, name: string)
    ensures WithName(a + b, name) == WithName(a, name) + WithName(b, name)
  {
    if |b| == 0 {
      assert a + b == a;
    } else {
      assert (a + b)[..|a + b| - 1] == a + b[..|b| - 1];
      WithNameOfConcat(a, b[..|b| - 1], name);
    }
  }

  lemma {:induction false} WithNameOfNone(links: seq<KattisLink>, name: string)
    requires forall i :: 0 <= i < |links| ==> links[i].canvasUser.name != name
    ensures WithName(links, name) == []
  {
    if |links| > 0 {
      WithNameOfNone(links[..|links| - 1], name);
    }
  }

  lemma SortedTail(sorted: seq<KattisLink>)
    requires SortedByName(sorted) && |sorted| > 0
    ensures SortedByName(sorted[1..])
  {
    var tail := sorted[1..];
    forall i, j | 0 <= i < j < |tail| ensures NameLe(tail[i].canvasUser.name, tail[j].canvasUser.name) {
      assert tail[i] == sorted[i + 1] && tail[j] == sorted[j + 1];
    }
  }

  /** Inserting into a sorted list puts the new link after every link of the same name. */
  lemma {:induction false} InsertByNameStable(link: KattisLink, sorted: seq<KattisLink>, name: string)
    requires SortedByName(sorted)
    ensures WithName(InsertByName(link, sorted), name) == WithName(sorted, name) + WithName([link], name)
  {
    if |sorted| == 0 {
      assert [] + WithName([link], name) == WithName([link], name);
    } else {
      var head, tail := sorted[0], sorted[1..];
      assert sorted == [head] + tail;
      if NameLe(head.canvasUser.name, link.canvasUser.name) {
        SortedTail(sorted);
        InsertByNameStable(link, tail, name);
        WithNameOfConcat([head], InsertByName(link, tail), name);
        WithNameOfConcat([head], tail, name);
      } else {
        InsertBeforeStable(link, sorted, name);
      }
    }
  }

  /** A link that sorts before the head of a sorted list shares its name with none of it. */
  lemma InsertBeforeStable(link: KattisLink, sorted: seq<KattisLink>, name: string)
    requires SortedByName(sorted) && |sorted| > 0
    requires !NameLe(sorted[0].canvasUser.name, link.canvasUser.name)
    ensures WithName([link] + sorted, name) == WithName(sorted, name) + WithName([link], name)
  {
    WithNameOfConcat([link], sorted, name);
    if link.canvasUser.name == name {
      forall i | 0 <= i < |sorted| ensures sorted[i].canvasUser.name != name {
        if i == 0 {
          NameLeReflexive(sorted[0].canvasUser.name);
        }
      }
      WithNameOfNone(sorted, name);
    } else {
      assert WithName([link], name) == [];
    }
  }

  /** The sort is stable: the links of any one name keep their list order. */
  lemma {:induction false} SortByNameStable(links: seq<KattisLink>, name: string)
    ensures WithName(SortByName(links), name) == WithName(links, name)
  {
    if |links| > 0 {
      var init, last := links[..|links| - 1], links[|links| - 1];
      SortByNameStable(init, name);
      InsertIntoSortStable(init, last, name);
      WithNameOfConcat(init, [last], name);
      assert links == init + [last];
    }
  }

  lemma InsertIntoSortStable(init: seq<KattisLink>, last: KattisLink, name: string)
    ensures WithName(InsertByName(last, SortByName(init)), name) == WithName(SortByName(init), name) + WithName([last], name)
  {
    SortByNameSorted(init);
    InsertByNameStable(last, SortByName(init), name);
  }

  /** `get_kattis_links`: the students' links, looked up one user at a time, then sorted by
      name. */
  method GetKattisLinks(users: seq<CanvasUser>) returns (r: Result<seq<KattisLink>>)
    ensures r == match StudentLinks(users)
                 case Ok(links) => Ok(SortByName(links))
                 case Err(e) => Err(e)
  {
    var links: seq<KattisLink> := [];
    var i := 0;
    while i < |users|
      invariant 0 <= i <= |users|
      invariant StudentLinks(users[..i]) == Ok(links)
    {
      assert users[..i + 1][..i] == users[..i];
      var user := users[i];
      if IsStudentEnrollment(user) {
        var link := LookUpLink(user);
        if link.Err? {
          StudentLinksFailEarly(users, i + 1);
          return Err(link.error);
        }
        links := links + [link.value];
      }
      i := i + 1;
    }
    assert users[..i] == users;
    r := Ok(SortByName(links));
  }

  lemma {:induction false} StudentLinksFailEarly(users: seq<CanvasUser>, k: nat)
    requires k <= |users| && StudentLinks(users[..k]).Err?
    ensures StudentLinks(users) == StudentLinks(users[..k])
  {
    if k < |users| {
      assert users[..|users| - 1][..k] == users[..k];
      StudentLinksFailEarly(users[..|users| - 1], k);
    } else {
      assert users[..k] == users;
    }
  }

  // ---------------------------------------------------------------------------------------
  // The list of links (main.py)

  /** The links of the student enrollments, in enrollment order. */
  function EnrollmentLinks(enrollments: seq<Enrollment>): Result<seq<KattisLink>> {
    if |enrollments| == 0 then Ok([])
    else
      match EnrollmentLinks(enrollments[..|enrollments| - 1])
      case Err(e) => Err(e)
      case Ok(links) =>
        var e := enrollments[|enrollments| - 1];
        if e.kind != StudentEnrollment then Ok(links)
        else
          match LinkOf(e.user)
          case Err(err) => Err(err)
          case Ok(link) => Ok(links + [link])
  }

  /** Only student enrollments give links, each the link of the enrolled user's profile, and
      every student enrollment gives its user's link. */
  lemma {:induction false} EnrollmentLinksAreStudents(enrollments: seq<Enrollment>)
    requires EnrollmentLinks(enrollments).Ok?
    ensures forall l :: l in EnrollmentLinks(enrollments).value ==>
              exists i :: 0 <= i < |enrollments| && enrollments[i].kind == StudentEnrollment
                          && enrollments[i].user == l.canvasUser && LinkOf(l.canvasUser) == Ok(l)
    ensures forall i :: 0 <= i < |enrollments| && enrollments[i].kind == StudentEnrollment ==>
              LinkOf(enrollments[i].user).Ok? && LinkOf(enrollments[i].user).value in EnrollmentLinks(enrollments).value
  {
    if |enrollments| > 0 {
      var init := enrollments[..|enrollments| - 1];
      EnrollmentLinksAreStudents(init);
      assert forall i :: 0 <= i < |init| ==> enrollments[i] == init[i];
      forall l | l in EnrollmentLinks(enrollments).value
        ensures exists i :: 0 <= i < |enrollments| && enrollments[i].kind == StudentEnrollment
                            && enrollments[i].user == l.canvasUser && LinkOf(l.canvasUser) == Ok(l)
      {
        if l in EnrollmentLinks(init).value {
          var i :| 0 <= i < |init| && init[i].kind == StudentEnrollment
                   && init[i].user == l.canvasUser && LinkOf(l.canvasUser) == Ok(l);
          assert enrollments[i] == init[i];
        }
      }
    }
  }

  // ---------------------------------------------------------------------------------------
  // The two identity dictionaries

  /** A link counts when its Kattis user name is present and non-empty. */
  predicate Linked(link: KattisLink) {
    link.kattisUser.Some? && link.kattisUser.value != []
  }

  /** `kattis_user2canvas_id` after the links loop: later links overwrite earlier ones. */
  function ToCanvas(links: seq<KattisLink>): map<string, CanvasUser> {
    if |links| == 0 then map[]
    else
      var link := links[|links| - 1];
      var before := ToCanvas(links[..|links| - 1]);
      if Linked(link) then before[link.kattisUser.value := link.canvasUser] else before
  }

  /** `canvas_id2kattis_user` after the links loop. */
  function ToKattis(links: seq<KattisLink>): map<int, string> {
    if |links| == 0 then map[]
    else
      var link := links[|links| - 1];
      var before := ToKattis(links[..|links| - 1]);
      if Linked(link) then before[link.canvasUser.id := link.kattisUser.value] else before
  }

  /** The links loop of `submissions2canvas` (kattis2canvas.py). */
  method BuildIdentityMaps(links: seq<KattisLink>) returns (toCanvas: map<string, CanvasUser>, toKattis: map<int, string>)
    ensures toCanvas == ToCanvas(links) && toKattis == ToKattis(links)
  {
    toCanvas, toKattis := map[], map[];
    var i := 0;
    while i < |links|
      invariant 0 <= i <= |links|
      invariant toCanvas == ToCanvas(links[..i]) && toKattis == ToKattis(links[..i])
    {
      assert links[..i + 1][..i] == links[..i];
      var link := links[i];
      if link.kattisUser.Some? && link.kattisUser.value != [] {
        toCanvas := toCanvas[link.kattisUser.value := link.canvasUser];
        toKattis := toKattis[link.canvasUser.id := link.kattisUser.value];
      }
      i := i + 1;
    }
    assert links[..i] == links;
  }

  /** The enrollments loop of `submissions2canvas` (main.py): look up each student's profile
      and record it in both dictionaries at once; a lookup that raises aborts the run. */
  method BuildIdentityMapsFromEnrollments(enrollments: seq<Enrollment>)
    returns (r: Result<(map<string, CanvasUser>, map<int, string>)>)
    ensures r == match EnrollmentLinks(enrollments)
                 case Ok(links) => Ok((ToCanvas(links), ToKattis(links)))
                 case Err(e) => Err(e)
  {
    var toCanvas: map<string, CanvasUser> := map[];
    var toKattis: map<int, string> := map[];
    ghost var links: seq<KattisLink> := [];
    var i := 0;
    while i < |enrollments|
      invariant 0 <= i <= |enrollments|
      invariant EnrollmentLinks(enrollments[..i]) == Ok(links)
      invariant toCanvas == ToCanvas(links) && toKattis == ToKattis(links)
    {
      EnrollmentLinksStep(enrollments, i);
      var e := enrollments[i];
      if e.kind == StudentEnrollment {
        var looked := LookUpLink(e.user);
        if looked.Err? {
          EnrollmentLinksFailEarly(enrollments, i + 1);
          return Err(looked.error);
        }
        var link := looked.value;
        IdentityFoldsStep(links, link);
        if link.kattisUser.Some? && link.kattisUser.value != [] {
          toCanvas := toCanvas[link.kattisUser.value := e.user];
          toKattis := toKattis[e.user.id := link.kattisUser.value];
        }
        links := links + [link];
      }
      i := i + 1;
    }
    assert enrollments[..i] == enrollments;
    r := Ok((toCanvas, toKattis));
  }

  /** One more enrollment: a student's adds its user's link, or the lookup's error. */
  lemma EnrollmentLinksStep(enrollments: seq<Enrollment>, i: nat)
    requires i < |enrollments| && EnrollmentLinks(enrollments[..i]).Ok?
    ensures EnrollmentLinks(enrollments[..i + 1]) ==
              if enrollments[i].kind != StudentEnrollment then EnrollmentLinks(enrollments[..i])
              else match LinkOf(enrollments[i].user)
                   case Err(err) => Err(err)
                   case Ok(link) => Ok(EnrollmentLinks(enrollments[..i]).value + [link])
  {
    assert enrollments[..i + 1][..i] == enrollments[..i];
  }

  /** One more link: both dictionaries gain its entry when it names a Kattis user. */
  lemma IdentityFoldsStep(links: seq<KattisLink>, link: KattisLink)
    ensures ToCanvas(links + [link]) ==
              if Linked(link) then ToCanvas(links)[link.kattisUser.value := link.canvasUser] else ToCanvas(links)
    ensures ToKattis(links + [link]) ==
              if Linked(link) then ToKattis(links)[link.canvasUser.id := link.kattisUser.value] else ToKattis(links)
  {
    assert (links + [link])[..|links|] == links;
  }

  lemma {:induction false} EnrollmentLinksFailEarly(enrollments: seq<Enrollment>, k: nat)
    requires k <= |enrollments| && EnrollmentLinks(enrollments[..k]).Err?
    ensures EnrollmentLinks(enrollments) == EnrollmentLinks(enrollments[..k])
  {
    if k < |enrollments| {
      assert enrollments[..|enrollments| - 1][..k] == enrollments[..k];
      EnrollmentLinksFailEarly(enrollments[..|enrollments| - 1], k);
    } else {
      assert enrollments[..k] == enrollments;
    }
  }

  /** The link names Kattis user `name`. */
  predicate Names(link: KattisLink, name: string) {
    Linked(link) && link.kattisUser.value == name
  }

  /** A Kattis user name is a key exactly when some link names it. */
  lemma {:induction false} ToCanvasKeys(links: seq<KattisLink>, name: string)
    ensures name in ToCanvas(links) <==> exists i :: 0 <= i < |links| && Names(links[i], name)
  {
    if |links| > 0 {
      var init := links[..|links| - 1];
      ToCanvasKeys(init, name);
      assert forall j :: 0 <= j < |init| ==> init[j] == links[j];
    }
  }

  /** Each Kattis user name maps to the Canvas user of the LAST link naming it. */
  lemma {:induction false} ToCanvasLastWins(links: seq<KattisLink>, name: string)
    requires name in ToCanvas(links)
    ensures exists i :: && 0 <= i < |links| && Names(links[i], name)
                        && ToCanvas(links)[name] == links[i].canvasUser
                        && forall j :: i < j < |links| ==> !Names(links[j], name)
  {
    var init, last := links[..|links| - 1], links[|links| - 1];
    if !Names(last, name) {
      ToCanvasLastWins(init, name);
      var i :| && 0 <= i < |init| && Names(init[i], name) && ToCanvas(init)[name] == init[i].canvasUser
               && forall j :: i < j < |init| ==> !Names(init[j], name);
      assert links[i] == init[i];
      assert forall j :: i < j < |links| - 1 ==> links[j] == init[j];
    }
  }

  /** Each Canvas id maps to the Kattis user name of the last link of that id, and an id is a
      key exactly when some link of that id names a Kattis user. */
  lemma {:induction false} ToKattisLastWins(links: seq<KattisLink>, id: int)
    ensures id in ToKattis(links) <==>
              exists i :: 0 <= i < |links| && Linked(links[i]) && links[i].canvasUser.id == id
    ensures id in ToKattis(links) ==>
              exists i :: && 0 <= i < |links| && Linked(links[i]) && links[i].canvasUser.id == id
                          && ToKattis(links)[id] == links[i].kattisUser.value
                          && forall j :: i < j < |links| ==> !(Linked(links[j]) && links[j].canvasUser.id == id)
  {
    if |links| > 0 {
      var n := |links| - 1;
      var init, last := links[..n], links[n];
      ToKattisLastWins(init, id);
      IdentityFoldsStep(init, last);
      assert links == init + [last];
      assert forall j :: 0 <= j < n ==> init[j] == links[j];
      if Linked(last) && last.canvasUser.id == id {
        assert ToKattis(links)[id] == links[n].kattisUser.value;
      } else if id in ToKattis(links) {
        var i :| && 0 <= i < n && Linked(init[i]) && init[i].canvasUser.id == id
                 && ToKattis(init)[id] == init[i].kattisUser.value
                 && forall j :: i < j < n ==> !(Linked(init[j]) && init[j].canvasUser.id == id);
        assert ToKattis(links)[id] == links[i].kattisUser.value;
      }
    }
  }

  /** Every Kattis user name the second dictionary yields is a key of the first. */
  lemma {:induction false} ToKattisValuesAreKeys(links: seq<KattisLink>)
    ensures forall id :: id in ToKattis(links) ==> ToKattis(links)[id] in ToCanvas(links)
  {
    if |links| > 0 {
      ToKattisValuesAreKeys(links[..|links| - 1]);
    }
  }

  /** A student none of whose links names a Kattis user is in neither dictionary. */
  lemma UnlinkedInNeither(links: seq<KattisLink>, user: CanvasUser)
    requires forall i :: 0 <= i < |links| && links[i].canvasUser.id == user.id ==> !Linked(links[i])
    ensures user.id !in ToKattis(links)
    ensures forall name :: name in ToCanvas(links) ==> ToCanvas(links)[name].id != user.id
  {
    ToKattisLastWins(links, user.id);
    forall name | name in ToCanvas(links) ensures ToCanvas(links)[name].id != user.id {
      ToCanvasLastWins(links, name);
    }
  }

  /** On a name-sorted list, a Kattis user name claimed by several Canvas users goes to the one
      whose name sorts last. */
  lemma SortedWinnerSortsLast(links: seq<KattisLink>, name: string)
    requires SortedByName(links)
    requires name in ToCanvas(links)
    ensures forall i :: 0 <= i < |links| && Names(links[i], name) ==>
              NameLe(links[i].canvasUser.name, ToCanvas(links)[name].name)
  {
    ToCanvasLastWins(links, name);
    var w :| && 0 <= w < |links| && Names(links[w], name) && ToCanvas(links)[name] == links[w].canvasUser
             && forall j :: w < j < |links| ==> !Names(links[j], name);
    forall i | 0 <= i < |links| && Names(links[i], name)
      ensures NameLe(links[i].canvasUser.name, ToCanvas(links)[name].name)
    {
      if i == w {
        NameLeReflexive(links[i].canvasUser.name);
      }
    }
  }

  lemma {:induction false} NameLeReflexive(a: string)
    ensures NameLe(a, a)
  {
    if |a| > 0 {
      NameLeReflexive(a[1..]);
    }
  }

  /** The user a Kattis user name maps to is also the one it maps to among the links of users
      with that user's name alone. */
  lemma {:induction false} ToCanvasWithinName(links: seq<KattisLink>, name: string)
    requires name in ToCanvas(links)
    ensures name in ToCanvas(WithName(links, ToCanvas(links)[name].name))
    ensures ToCanvas(WithName(links, ToCanvas(links)[name].name))[name] == ToCanvas(links)[name]
  {
    var init, last := links[..|links| - 1], links[|links| - 1];
    var winner := ToCanvas(links)[name];
    var before := WithName(init, winner.name);
    if Names(last, name) {
      assert WithName(links, winner.name) == before + [last];
      assert (before + [last])[..|before|] == before;
    } else {
      ToCanvasWithinName(init, name);
      if last.canvasUser.name == winner.name {
        assert (before + [last])[..|before|] == before;
      }
    }
  }

  /** kattis2canvas.py: when several students claim one Kattis user name, the dictionary gives
      it to a student whose name sorts last, and among students of that very name to the last
      one in user order. */
  lemma SortedLinksWinner(links: seq<KattisLink>, name: string)
    requires name in ToCanvas(SortByName(links))
    ensures forall l :: l in links && Names(l, name) ==>
              NameLe(l.canvasUser.name, ToCanvas(SortByName(links))[name].name)
    ensures name in ToCanvas(WithName(links, ToCanvas(SortByName(links))[name].name))
    ensures ToCanvas(WithName(links, ToCanvas(SortByName(links))[name].name))[name]
              == ToCanvas(SortByName(links))[name]
  {
    var sorted := SortByName(links);
    SortByNameSorted(links);
    SortByNameSameLinks(links);
    SortedWinnerSortsLast(sorted, name);
    forall l | l in links && Names(l, name)
      ensures NameLe(l.canvasUser.name, ToCanvas(sorted)[name].name)
    {
      assert l in multiset(sorted);
      var i :| 0 <= i < |sorted| && sorted[i] == l;
    }
    ToCanvasWithinName(sorted, name);
    SortByNameStable(links, ToCanvas(sorted)[name].name);
  }

  /** A student enrollment whose profile names Kattis user `name`. */
  predicate EnrollmentNames(e: Enrollment, name: string) {
    e.kind == StudentEnrollment && LinkOf(e.user).Ok? && Names(LinkOf(e.user).value, name)
  }

  lemma ToCanvasOfSnoc(before: seq<KattisLink>, link: KattisLink, name: string)
    ensures Names(link, name) ==> name in ToCanvas(before + [link]) && ToCanvas(before + [link])[name] == link.canvasUser
    ensures !Names(link, name) ==> (name in ToCanvas(before + [link]) <==> name in ToCanvas(before))
    ensures !Names(link, name) && name in ToCanvas(before) ==> ToCanvas(before + [link])[name] == ToCanvas(before)[name]
  {
    assert (before + [link])[..|before|] == before;
  }

  /** The last enrollment adds its user's link when it is a student's. */
  lemma EnrollmentLinksSnoc(enrollments: seq<Enrollment>)
    requires |enrollments| > 0 && EnrollmentLinks(enrollments).Ok?
    ensures var init, last := enrollments[..|enrollments| - 1], enrollments[|enrollments| - 1];
            && EnrollmentLinks(init).Ok?
            && (last.kind == StudentEnrollment ==> LinkOf(last.user).Ok?)
            && EnrollmentLinks(enrollments).value ==
                 if last.kind == StudentEnrollment then EnrollmentLinks(init).value + [LinkOf(last.user).value]
                 else EnrollmentLinks(init).value
  {
  }

  /** main.py: a Kattis user name is a key exactly when some student enrollment's profile names
      it. */
  lemma {:induction false} EnrollmentLinksKeys(enrollments: seq<Enrollment>, name: string)
    requires EnrollmentLinks(enrollments).Ok?
    ensures name in ToCanvas(EnrollmentLinks(enrollments).value) <==>
              exists i :: 0 <= i < |enrollments| && EnrollmentNames(enrollments[i], name)
  {
    if |enrollments| > 0 {
      var n := |enrollments| - 1;
      var init, last := enrollments[..n], enrollments[n];
      EnrollmentLinksSnoc(enrollments);
      var before, links := EnrollmentLinks(init).value, EnrollmentLinks(enrollments).value;
      if last.kind == StudentEnrollment {
        ToCanvasOfSnoc(before, LinkOf(last.user).value, name);
      }
      EnrollmentLinksKeys(init, name);
      assert forall j :: 0 <= j < n ==> enrollments[j] == init[j];
    }
  }

  /** main.py: a Kattis user name maps to the user of the last student enrollment whose profile
      names it. */
  lemma {:induction false} EnrollmentLinksLastWins(enrollments: seq<Enrollment>, name: string)
    requires EnrollmentLinks(enrollments).Ok?
    requires name in ToCanvas(EnrollmentLinks(enrollments).value)
    ensures exists i :: && 0 <= i < |enrollments| && EnrollmentNames(enrollments[i], name)
                        && ToCanvas(EnrollmentLinks(enrollments).value)[name] == enrollments[i].user
                        && NoneNamesAfter(enrollments, name, i)
  {
    if |enrollments| > 0 {
      var n := |enrollments| - 1;
      var init, last := enrollments[..n], enrollments[n];
      EnrollmentLinksSnoc(enrollments);
      var before := EnrollmentLinks(init).value;
      if last.kind == StudentEnrollment {
        ToCanvasOfSnoc(before, LinkOf(last.user).value, name);
      }
      if EnrollmentNames(last, name) {
        assert NoneNamesAfter(enrollments, name, n);
      } else {
        EnrollmentLinksLastWins(init, name);
        var i :| && 0 <= i < n && EnrollmentNames(init[i], name)
                 && ToCanvas(before)[name] == init[i].user
                 && NoneNamesAfter(init, name, i);
        NoneNamesAfterExtends(enrollments, name, i);
      }
    }
  }

  /** No enrollment after the `i`-th names Kattis user `name`. */
  predicate NoneNamesAfter(enrollments: seq<Enrollment>, name: string, i: nat) {
    forall j :: i < j < |enrollments| ==> !EnrollmentNames(enrollments[j], name)
  }

  lemma NoneNamesAfterExtends(enrollments: seq<Enrollment>, name: string, i: nat)
    requires 0 < |enrollments|
    requires NoneNamesAfter(enrollments[..|enrollments| - 1], name, i)
    requires !EnrollmentNames(enrollments[|enrollments| - 1], name)
    ensures NoneNamesAfter(enrollments, name, i)
  {
    var init := enrollments[..|enrollments| - 1];
    assert forall j :: 0 <= j < |init| ==> init[j] == enrollments[j];
  }
}
