/** Reconciliation: for one assignment, collapse each Canvas submission's comments to the time of
    the latest one, then decide for every best Kattis submission whether to post a comment
    (kattis2canvas.py:425-456, main.py:361-389). */
module Reconcile {
  import opened Normalize
  import opened Selection
  import opened Identity

  /** `datetime.fromordinal(1)` at UTC, the start of the running maximum: no instant is earlier. */
  const YearOne: int := 0

  /** A Canvas submission of the assignment: whose it is and when each of its comments was
      created. */
  datatype CanvasSubmission = CanvasSubmission(userId: int, commentTimes: seq<int>)

  /** A Canvas submission as `submissions_by_user` holds it, with `last_comment` attached. */
  datatype Held = Held(submission: CanvasSubmission, lastComment: int)

  // ---------------------------------------------------------------------------------------
  // last_comment

  /** The latest comment time, or the year-1 sentinel when no comment is later. */
  function LatestComment(times: seq<int>): (r: int)
    ensures YearOne <= r
    ensures forall i :: 0 <= i < |times| ==> times[i] <= r
    ensures r == YearOne || exists i :: 0 <= i < |times| && times[i] == r
  {
    if |times| == 0 then YearOne
    else
      var before := LatestComment(times[..|times| - 1]);
      assert forall i :: 0 <= i < |times| - 1 ==> times[..|times| - 1][i] == times[i];
      if times[|times| - 1] > before then times[|times| - 1] else before
  }

  /** The comment loop: start from the sentinel and keep any strictly later comment time. */
  method CollapseComments(times: seq<int>) returns (last: int)
    ensures last == LatestComment(times)
  {
    last := YearOne;
    var i := 0;
    while i < |times|
      invariant 0 <= i <= |times|
      invariant last == LatestComment(times[..i])
    {
      assert times[..i + 1][..i] == times[..i];
      if times[i] > last {
        last := times[i];
      }
      i := i + 1;
    }
    assert times[..i] == times;
  }

  /** A new comment at time `t` makes the latest comment time at least `t`, and changes
      nothing when it is not later. */
  lemma NewCommentRaisesLatest(times: seq<int>, t: int)
    ensures LatestComment(times + [t]) >= t
    ensures LatestComment(times + [t]) >= LatestComment(times)
    ensures t <= LatestComment(times) ==> LatestComment(times + [t]) == LatestComment(times)
  {
    assert (times + [t])[..|times|] == times;
  }

  // ---------------------------------------------------------------------------------------
  // submissions_by_user

  /** `submissions_by_user` after the Canvas submissions loop: keyed by the Kattis user name
      linked to the submission's Canvas user, a later submission overwriting an earlier one. */
  function SubmissionsByUser(subs: seq<CanvasSubmission>, toKattis: map<int, string>): map<string, Held> {
    if |subs| == 0 then map[]
    else
      var s := subs[|subs| - 1];
      var before := SubmissionsByUser(subs[..|subs| - 1], toKattis);
      if s.userId in toKattis then before[toKattis[s.userId] := Held(s, LatestComment(s.commentTimes))]
      else before
  }

  /** The Canvas submissions loop: keep the submissions of linked users, each with the time of
      its latest comment. */
  method BuildSubmissionsByUser(subs: seq<CanvasSubmission>, toKattis: map<int, string>)
    returns (byUser: map<string, Held>)
    ensures byUser == SubmissionsByUser(subs, toKattis)
  {
    byUser := map[];
    var i := 0;
    while i < |subs|
      invariant 0 <= i <= |subs|
      invariant byUser == SubmissionsByUser(subs[..i], toKattis)
    {
      assert subs[..i + 1][..i] == subs[..i];
      var s := subs[i];
      if s.userId in toKattis {
        var last := CollapseComments(s.commentTimes);
        byUser := byUser[toKattis[s.userId] := Held(s, last)];
      }
      i := i + 1;
    }
    assert subs[..i] == subs;
  }

  /** The keys are exactly the Kattis user names of the linked Canvas users that have a
      submission, and each entry is one of the submissions with its latest comment time. */
  lemma {:induction false} SubmissionsByUserEntries(subs: seq<CanvasSubmission>, toKattis: map<int, string>, user: string)
    ensures user in SubmissionsByUser(subs, toKattis) <==>
              exists i :: 0 <= i < |subs| && subs[i].userId in toKattis && toKattis[subs[i].userId] == user
    ensures user in SubmissionsByUser(subs, toKattis) ==>
              var held := SubmissionsByUser(subs, toKattis)[user];
              && held.submission in subs
              && held.submission.userId in toKattis && toKattis[held.submission.userId] == user
              && held.lastComment == LatestComment(held.submission.commentTimes)
  {
    if |subs| > 0 {
      var init := subs[..|subs| - 1];
      SubmissionsByUserEntries(init, toKattis, user);
      assert subs == init + [subs[|subs| - 1]];
    }
  }

  /** The submission belongs to a Canvas user linked to Kattis user `user`. */
  predicate KeyedTo(s: CanvasSubmission, toKattis: map<int, string>, user: string) {
    s.userId in toKattis && toKattis[s.userId] == user
  }

  /** No submission after the `i`-th belongs to a Canvas user linked to `user`. */
  predicate NoneKeyedAfter(subs: seq<CanvasSubmission>, toKattis: map<int, string>, user: string, i: nat) {
    forall j :: i < j < |subs| ==> !KeyedTo(subs[j], toKattis, user)
  }

  /** The entry of a Kattis user name is the LAST submission in Canvas order whose user is linked
      to that name: when several Canvas users are linked to one Kattis name, the comment goes to
      that submission, whichever user the name-to-user dictionary picked. */
  lemma {:induction false} SubmissionsByUserLastWins(subs: seq<CanvasSubmission>, toKattis: map<int, string>, user: string)
    requires user in SubmissionsByUser(subs, toKattis)
    ensures exists i: nat :: && i < |subs| && KeyedTo(subs[i], toKattis, user)
                             && SubmissionsByUser(subs, toKattis)[user].submission == subs[i]
                             && NoneKeyedAfter(subs, toKattis, user, i)
  {
    var n := |subs| - 1;
    var init, last := subs[..n], subs[n];
    if KeyedTo(last, toKattis, user) {
      assert NoneKeyedAfter(subs, toKattis, user, n);
    } else {
      SubmissionsByUserLastWins(init, toKattis, user);
      var i: nat :| && i < n && KeyedTo(init[i], toKattis, user)
                    && SubmissionsByUser(init, toKattis)[user].submission == init[i]
                    && NoneKeyedAfter(init, toKattis, user, i);
      assert subs[i] == init[i];
      NoneKeyedAfterExtends(subs, toKattis, user, i);
    }
  }

  lemma NoneKeyedAfterExtends(subs: seq<CanvasSubmission>, toKattis: map<int, string>, user: string, i: nat)
    requires 0 < |subs|
    requires NoneKeyedAfter(subs[..|subs| - 1], toKattis, user, i)
    requires !KeyedTo(subs[|subs| - 1], toKattis, user)
    ensures NoneKeyedAfter(subs, toKattis, user, i)
  {
    var init := subs[..|subs| - 1];
    assert forall j :: 0 <= j < |init| ==> init[j] == subs[j];
  }

  // ---------------------------------------------------------------------------------------
  // The per-entry decision

  /** What the reconciliation does with one best submission. */
  datatype Decision =
    | NoCanvasSubmission   // the Kattis user has no Canvas submission: warn
    | UnknownUser          // the Kattis user has no Canvas user: warn
    | Write                // the best submission is newer than every comment: post a comment
    | UpToDate             // nothing newer to report

  /** The branches of the per-entry test, in the order the code tries them. */
  function Decide(user: string, s: Submission, byUser: map<string, Held>, toCanvas: map<string, CanvasUser>): Decision {
    if user !in byUser then NoCanvasSubmission
    else if user !in toCanvas then UnknownUser
    else if s.date > byUser[user].lastComment then Write
    else UpToDate
  }

  /** A comment is posted exactly when the user has a Canvas submission and a Canvas user and
      the best submission is strictly later than the sentinel and than every comment already on
      that submission; an equal time is up to date. */
  lemma WriteIffNewerThanEveryComment(user: string, s: Submission, subs: seq<CanvasSubmission>,
                                      toKattis: map<int, string>, toCanvas: map<string, CanvasUser>)
    ensures var byUser := SubmissionsByUser(subs, toKattis);
            Decide(user, s, byUser, toCanvas) == Write <==>
              && user in byUser && user in toCanvas && YearOne < s.date
              && forall c :: c in byUser[user].submission.commentTimes ==> c < s.date
  {
    SubmissionsByUserEntries(subs, toKattis, user);
    var byUser := SubmissionsByUser(subs, toKattis);
    if user in byUser {
      var times := byUser[user].submission.commentTimes;
      if YearOne < s.date && forall c :: c in times ==> c < s.date {
        if LatestComment(times) != YearOne {
          var i :| 0 <= i < |times| && times[i] == LatestComment(times);
          assert times[i] in times;
        }
      }
      if s.date > byUser[user].lastComment {
        forall c | c in times ensures c < s.date {
          var i :| 0 <= i < |times| && times[i] == c;
        }
      }
    }
  }

  /** When the dictionaries come from the same links as `submissions_by_user`, the "unknown
      user" branch can never be taken. */
  lemma UnknownUserNeverDecided(links: seq<KattisLink>, subs: seq<CanvasSubmission>, user: string, s: Submission)
    ensures Decide(user, s, SubmissionsByUser(subs, ToKattis(links)), ToCanvas(links)) != UnknownUser
  {
    var toKattis := ToKattis(links);
    SubmissionsByUserEntries(subs, toKattis, user);
    ToKattisValuesAreKeys(links);
  }

  /** Posting the comment fixes the entry: once the submission carries a comment created no
      earlier than the best submission, the same entry is up to date. */
  lemma WriteThenUpToDate(user: string, s: Submission, byUser: map<string, Held>,
                          toCanvas: map<string, CanvasUser>, t: int)
    requires Decide(user, s, byUser, toCanvas) == Write
    requires s.date <= t
    ensures var held := byUser[user];
            var commented := CanvasSubmission(held.submission.userId, held.submission.commentTimes + [t]);
            Decide(user, s, byUser[user := Held(commented, LatestComment(commented.commentTimes))], toCanvas) == UpToDate
  {
    NewCommentRaisesLatest(byUser[user].submission.commentTimes, t);
  }

  // ---------------------------------------------------------------------------------------
  // The reconciliation loop

  /** A comment posted on a Canvas submission to report a Kattis submission. */
  datatype Edit = Edit(target: CanvasSubmission, reported: Submission)

  /** The comments the loop plans for user `user` over the problems in `problems`. */
  function PlannedFor(best: Best, user: string, problems: set<string>,
                      byUser: map<string, Held>, toCanvas: map<string, CanvasUser>): set<Edit>
    requires user in best
  {
    set p | p in problems && p in best[user] && Decide(user, best[user][p], byUser, toCanvas) == Write
      :: Edit(byUser[user].submission, best[user][p])
  }

  /** The comments the loop plans for the users in `users`. */
  function PlannedAmong(best: Best, users: set<string>,
                        byUser: map<string, Held>, toCanvas: map<string, CanvasUser>): set<Edit>
  {
    set u, p | u in users && u in best && p in best[u] && Decide(u, best[u][p], byUser, toCanvas) == Write
      :: Edit(byUser[u].submission, best[u][p])
  }

  /** Every comment the reconciliation plans for the assignment. */
  function PlannedWrites(best: Best, byUser: map<string, Held>, toCanvas: map<string, CanvasUser>): set<Edit> {
    PlannedAmong(best, best.Keys, byUser, toCanvas)
  }

  lemma PlannedForAddProblem(best: Best, user: string, problems: set<string>, p: string,
                             byUser: map<string, Held>, toCanvas: map<string, CanvasUser>)
    requires user in best && p in best[user]
    ensures PlannedFor(best, user, problems + {p}, byUser, toCanvas) ==
              PlannedFor(best, user, problems, byUser, toCanvas) +
              (if Decide(user, best[user][p], byUser, toCanvas) == Write
               then {Edit(byUser[user].submission, best[user][p])} else {})
  {
  }

  lemma PlannedAmongAddUser(best: Best, users: set<string>, user: string,
                            byUser: map<string, Held>, toCanvas: map<string, CanvasUser>)
    requires user in best
    ensures PlannedAmong(best, users + {user}, byUser, toCanvas) ==
              PlannedAmong(best, users, byUser, toCanvas) + PlannedFor(best, user, best[user].Keys, byUser, toCanvas)
  {
    var lhs := PlannedAmong(best, users + {user}, byUser, toCanvas);
    var rhs := PlannedAmong(best, users, byUser, toCanvas) + PlannedFor(best, user, best[user].Keys, byUser, toCanvas);
    forall e | e in lhs ensures e in rhs {
      var u, p :| && u in users + {user} && u in best && p in best[u]
                  && Decide(u, best[u][p], byUser, toCanvas) == Write && e == Edit(byUser[u].submission, best[u][p]);
      if u != user {
        assert e in PlannedAmong(best, users, byUser, toCanvas);
      }
    }
  }

  /** The inner loop over one user's best submissions: post (or with `dryRun` only report) a
      comment for every entry newer than the user's latest Canvas comment. */
  method ReconcileUser(best: Best, user: string, byUser: map<string, Held>, toCanvas: map<string, CanvasUser>,
                       dryRun: bool)
    returns (planned: set<Edit>, written: set<Edit>)
    requires user in best
    ensures planned == PlannedFor(best, user, best[user].Keys, byUser, toCanvas)
    ensures written == if dryRun then {} else planned
  {
    planned, written := {}, {};
    var problems := best[user].Keys;
    while problems != {}
      invariant problems <= best[user].Keys
      invariant planned == PlannedFor(best, user, best[user].Keys - problems, byUser, toCanvas)
      invariant written == if dryRun then {} else planned
      decreases problems
    {
      var p :| p in problems;
      var s := best[user][p];
      PlannedForAddProblem(best, user, best[user].Keys - problems, p, byUser, toCanvas);
      if user !in byUser {
        // no Canvas submission for this Kattis user: only a warning
      } else if user !in toCanvas {
        // unknown Kattis user: only a warning
      } else if s.date > byUser[user].lastComment {
        var edit := Edit(byUser[user].submission, s);
        planned := planned + {edit};
        if !dryRun {
          written := written + {edit};
        }
      }
      assert best[user].Keys - (problems - {p}) == (best[user].Keys - problems) + {p};
      problems := problems - {p};
    }
    assert best[user].Keys - problems == best[user].Keys;
  }

  /** The decision loop over `best_submissions`, one user at a time. */
  method Reconcile(best: Best, byUser: map<string, Held>, toCanvas: map<string, CanvasUser>, dryRun: bool)
    returns (planned: set<Edit>, written: set<Edit>)
    ensures planned == PlannedWrites(best, byUser, toCanvas)
    ensures written == if dryRun then {} else planned
  {
    planned, written := {}, {};
    var users := best.Keys;
    while users != {}
      invariant users <= best.Keys
      invariant planned == PlannedAmong(best, best.Keys - users, byUser, toCanvas)
      invariant written == if dryRun then {} else planned
      decreases users
    {
      var user :| user in users;
      var plannedForUser, writtenForUser := ReconcileUser(best, user, byUser, toCanvas, dryRun);
      PlannedAmongAddUser(best, best.Keys - users, user, byUser, toCanvas);
      planned := planned + plannedForUser;
      written := written + writtenForUser;
      assert best.Keys - (users - {user}) == (best.Keys - users) + {user};
      users := users - {user};
    }
    assert best.Keys - users == best.Keys;
  }

  /** A second run after every planned comment was posted (each no earlier than the submission
      it reports, no comment removed) plans nothing. */
  lemma RerunPlansNothing(best: Best, byUser: map<string, Held>, refreshed: map<string, Held>,
                          toCanvas: map<string, CanvasUser>)
    requires refreshed.Keys == byUser.Keys
    requires forall u :: u in byUser ==> byUser[u].lastComment <= refreshed[u].lastComment
    requires forall u, p :: u in best && p in best[u] && Decide(u, best[u][p], byUser, toCanvas) == Write ==>
               best[u][p].date <= refreshed[u].lastComment
    ensures PlannedWrites(best, refreshed, toCanvas) == {}
  {
    assert forall u, p :: u in best && p in best[u] ==> Decide(u, best[u][p], refreshed, toCanvas) != Write;
  }
}
