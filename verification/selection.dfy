/** Best-submission selection: the row loop of `get_best_submissions`
    (kattis2canvas.py:459-497, main.py:392-430), which folds the judge table into a
    user -> problem -> submission dictionary. */
module Selection {
  import opened Base
  import opened Text
  import opened Normalize

  /** `best_submissions`: per user, per problem, the submission held so far. */
  type Best = map<string, map<string, Submission>>

  /** The replacement test: a strictly higher score, or the same score and a strictly later date. */
  predicate Beats(challenger: Submission, held: Submission) {
    held.score < challenger.score || (held.score == challenger.score && held.date < challenger.date)
  }

  // ---------------------------------------------------------------------------------------
  // Row normalisation over the whole table

  /** Every row normalised in table order; the first row that raises stops the run. */
  function NormalizeRows(rows: seq<Row>, now: int, parseFull: string -> Option<int>): Result<seq<Submission>> {
    if |rows| == 0 then Ok([])
    else
      match NormalizeRows(rows[..|rows| - 1], now, parseFull)
      case Err(e) => Err(e)
      case Ok(prefix) =>
        match NormalizeRow(rows[|rows| - 1], now, parseFull)
        case Err(e) => Err(e)
        case Ok(s) => Ok(prefix + [s])
  }

  /** A table that normalises gives one submission per row, in row order. */
  lemma {:induction false} NormalizeRowsOk(rows: seq<Row>, now: int, parseFull: string -> Option<int>)
    requires NormalizeRows(rows, now, parseFull).Ok?
    ensures |NormalizeRows(rows, now, parseFull).value| == |rows|
    ensures forall i :: 0 <= i < |rows| ==>
              NormalizeRow(rows[i], now, parseFull) == Ok(NormalizeRows(rows, now, parseFull).value[i])
  {
    if |rows| > 0 {
      var init := rows[..|rows| - 1];
      NormalizeRowsOk(init, now, parseFull);
      var prefix := NormalizeRows(init, now, parseFull).value;
      var s := NormalizeRow(rows[|rows| - 1], now, parseFull).value;
      assert NormalizeRows(rows, now, parseFull).value == prefix + [s];
      forall i | 0 <= i < |rows| - 1
        ensures NormalizeRow(rows[i], now, parseFull) == Ok((prefix + [s])[i])
      {
        assert init[i] == rows[i];
      }
    }
  }

  /** Every row before the `i`-th normalises. */
  predicate RowsOkBefore(rows: seq<Row>, i: nat, now: int, parseFull: string -> Option<int>)
    requires i <= |rows|
  {
    forall j :: 0 <= j < i ==> NormalizeRow(rows[j], now, parseFull).Ok?
  }

  /** A table that fails, fails with the error of its first row that raises. */
  lemma {:induction false} NormalizeRowsFirstError(rows: seq<Row>, now: int, parseFull: string -> Option<int>)
    requires NormalizeRows(rows, now, parseFull).Err?
    ensures exists i :: && 0 <= i < |rows|
                        && NormalizeRow(rows[i], now, parseFull) == Err(NormalizeRows(rows, now, parseFull).error)
                        && RowsOkBefore(rows, i, now, parseFull)
  {
    var n := |rows| - 1;
    var init := rows[..n];
    var e := NormalizeRows(rows, now, parseFull).error;
    if NormalizeRows(init, now, parseFull).Err? {
      assert NormalizeRows(init, now, parseFull).error == e;
      NormalizeRowsFirstError(init, now, parseFull);
      var i :| && 0 <= i < n && NormalizeRow(init[i], now, parseFull) == Err(e)
               && RowsOkBefore(init, i, now, parseFull);
      assert rows[i] == init[i];
      RowsOkBeforeOfPrefix(rows, n, i, now, parseFull);
    } else {
      NormalizeRowsOk(init, now, parseFull);
      assert RowsOkBefore(init, n, now, parseFull);
      RowsOkBeforeOfPrefix(rows, n, n, now, parseFull);
      assert NormalizeRow(rows[n], now, parseFull) == Err(e);
    }
  }

  lemma RowsOkBeforeOfPrefix(rows: seq<Row>, k: nat, i: nat, now: int, parseFull: string -> Option<int>)
    requires i <= k <= |rows|
    requires RowsOkBefore(rows[..k], i, now, parseFull)
    ensures RowsOkBefore(rows, i, now, parseFull)
  {
    assert forall j :: 0 <= j < i ==> rows[..k][j] == rows[j];
  }

  /** Once a prefix of the table fails, the whole table fails with the same error. */
  lemma {:induction false} NormalizeRowsFailsEarly(rows: seq<Row>, k: nat, now: int, parseFull: string -> Option<int>)
    requires k <= |rows|
    requires NormalizeRows(rows[..k], now, parseFull).Err?
    ensures NormalizeRows(rows, now, parseFull) == NormalizeRows(rows[..k], now, parseFull)
  {
    if k < |rows| {
      assert rows[..|rows| - 1][..k] == rows[..k];
      NormalizeRowsFailsEarly(rows[..|rows| - 1], k, now, parseFull);
    } else {
      assert rows[..k] == rows;
    }
  }

  // ---------------------------------------------------------------------------------------
  // The selection as written

  /** One pass of the row loop: a problem the user's dictionary does not hold yet replaces the
      user's whole dictionary with that single problem. */
  function StepAsWritten(best: Best, s: Submission): Best {
    if s.user in best && s.problem in best[s.user] then
      if Beats(s, best[s.user][s.problem]) then best[s.user := best[s.user][s.problem := s]] else best
    else
      best[s.user := map[s.problem := s]]
  }

  /** The dictionary the row loop leaves behind, for normalised rows in table order. */
  function SelectAsWritten(subs: seq<Submission>): Best {
    if |subs| == 0 then map[] else StepAsWritten(SelectAsWritten(subs[..|subs| - 1]), subs[|subs| - 1])
  }

  lemma NormalizeRowsSnoc(rows: seq<Row>, i: nat, now: int, parseFull: string -> Option<int>)
    requires i < |rows|
    ensures NormalizeRows(rows[..i + 1], now, parseFull) ==
              match NormalizeRows(rows[..i], now, parseFull)
              case Err(e) => Err(e)
              case Ok(prefix) =>
                match NormalizeRow(rows[i], now, parseFull)
                case Err(e) => Err(e)
                case Ok(s) => Ok(prefix + [s])
  {
    assert rows[..i + 1][..i] == rows[..i];
  }

  lemma SelectAsWrittenSnoc(subs: seq<Submission>, s: Submission)
    ensures SelectAsWritten(subs + [s]) == StepAsWritten(SelectAsWritten(subs), s)
  {
    assert (subs + [s])[..|subs|] == subs;
  }

  /** The body of the row loop: the row's submission replaces the held one when it beats it;
      a problem the user's dictionary lacks replaces that whole dictionary. It follows
      `StepAsWritten` branch for branch and exists to keep the proof of the loop in
      `GetBestSubmissions` small. */
  method Record(best: Best, s: Submission) returns (updated: Best)
    ensures updated == StepAsWritten(best, s)
  {
    updated := best;
    if s.user in updated && s.problem in updated[s.user] {
      var current := updated[s.user][s.problem];
      if current.score < s.score || (current.score == s.score && current.date < s.date) {
        updated := updated[s.user := updated[s.user][s.problem := s]];
      }
    } else {
      updated := updated[s.user := map[s.problem := s]];
    }
  }

  /** `get_best_submissions` from the extracted rows: normalise each row, then update the
      dictionary once per row; a row that raises aborts the run. */
  method GetBestSubmissions(rows: seq<Row>, now: int, parseFull: string -> Option<int>) returns (r: Result<Best>)
    ensures r == match NormalizeRows(rows, now, parseFull)
                 case Ok(subs) => Ok(SelectAsWritten(subs))
                 case Err(e) => Err(e)
  {
    var best: Best := map[];
    ghost var subs: seq<Submission> := [];
    var i := 0;
    while i < |rows|
      invariant 0 <= i <= |rows|
      invariant NormalizeRows(rows[..i], now, parseFull) == Ok(subs)
      invariant best == SelectAsWritten(subs)
    {
      var normalized := NormalizeRow(rows[i], now, parseFull);
      NormalizeRowsSnoc(rows, i, now, parseFull);
      if normalized.Err? {
        NormalizeRowsFailsEarly(rows, i + 1, now, parseFull);
        return Err(normalized.error);
      }
      var s := normalized.value;
      best := Record(best, s);
      SelectAsWrittenSnoc(subs, s);
      subs := subs + [s];
      i := i + 1;
    }
    assert rows[..i] == rows;
    r := Ok(best);
  }

  // ---------------------------------------------------------------------------------------
  // What the as-written selection keeps

  /** The problem of the user's last row in table order. */
  function LastProblem(subs: seq<Submission>, u: string): (r: Option<string>)
    ensures r.None? <==> forall i :: 0 <= i < |subs| ==> subs[i].user != u
    ensures r.Some? ==> exists i :: 0 <= i < |subs| && subs[i].user == u && subs[i].problem == r.value &&
                                   forall j :: i < j < |subs| ==> subs[j].user != u
  {
    if |subs| == 0 then None
    else if subs[|subs| - 1].user == u then Some(subs[|subs| - 1].problem)
    else LastProblem(subs[..|subs| - 1], u)
  }

  /** Where the final run of user `u`'s rows on problem `p` begins: just after `u`'s last row on
      another problem, or at 0. */
  function RunStart(subs: seq<Submission>, u: string, p: string): (r: nat)
    ensures r <= |subs|
    ensures forall j :: r <= j < |subs| && subs[j].user == u ==> subs[j].problem == p
    ensures r > 0 ==> subs[r - 1].user == u && subs[r - 1].problem != p
  {
    if |subs| == 0 then 0
    else if subs[|subs| - 1].user == u && subs[|subs| - 1].problem != p then |subs|
    else RunStart(subs[..|subs| - 1], u, p)
  }

  /** Row `k` is the first row from index `lo` on with the greatest (score, date) among user `u`'s
      rows on problem `p`. */
  ghost predicate FirstBestFrom(subs: seq<Submission>, lo: nat, u: string, p: string, k: int) {
    && lo <= k < |subs| && subs[k].user == u && subs[k].problem == p
    && (forall j :: lo <= j < |subs| && subs[j].user == u && subs[j].problem == p ==> !Beats(subs[j], subs[k]))
    && (forall j :: lo <= j < k && subs[j].user == u && subs[j].problem == p ==> Beats(subs[k], subs[j]))
  }

  /** Appending a row of another slot leaves a slot's first best row where it was. */
  lemma FirstBestExtendOther(prefix: seq<Submission>, s: Submission, lo: nat, u: string, p: string, k: int)
    requires FirstBestFrom(prefix, lo, u, p, k)
    requires s.user != u || s.problem != p
    ensures FirstBestFrom(prefix + [s], lo, u, p, k)
  {
  }

  /** Appending a row of the slot that does not beat the held row keeps the held row. */
  lemma FirstBestExtendKeep(prefix: seq<Submission>, s: Submission, lo: nat, u: string, p: string, k: int)
    requires FirstBestFrom(prefix, lo, u, p, k)
    requires s.user == u && s.problem == p && !Beats(s, prefix[k])
    ensures FirstBestFrom(prefix + [s], lo, u, p, k)
  {
  }

  /** Appending a row of the slot that beats the held row makes it the first best. */
  lemma FirstBestExtendReplace(prefix: seq<Submission>, s: Submission, lo: nat, u: string, p: string, k: int)
    requires FirstBestFrom(prefix, lo, u, p, k)
    requires s.user == u && s.problem == p && Beats(s, prefix[k])
    ensures FirstBestFrom(prefix + [s], lo, u, p, |prefix|)
  {
    var subs := prefix + [s];
    forall j | lo <= j < |subs| && subs[j].user == u && subs[j].problem == p
      ensures !Beats(subs[j], s) && (j < |prefix| ==> Beats(s, subs[j]))
    {
      if j < |prefix| {
        assert !Beats(prefix[j], prefix[k]);
      }
    }
  }

  /** Appending the first row of a slot (from `lo` on) makes it the first best. */
  lemma FirstBestExtendFresh(prefix: seq<Submission>, s: Submission, lo: nat, u: string, p: string)
    requires lo <= |prefix|
    requires forall j :: lo <= j < |prefix| ==> prefix[j].user != u || prefix[j].problem != p
    requires s.user == u && s.problem == p
    ensures FirstBestFrom(prefix + [s], lo, u, p, |prefix|)
  {
  }

  /** If `u`'s last row before a new row is not on problem `q`, no row of `u` lies in the
      final run on `q`. */
  lemma {:induction false} RunStartAfterOtherProblem(subs: seq<Submission>, u: string, q: string)
    requires LastProblem(subs, u) != Some(q)
    ensures forall j :: RunStart(subs, u, q) <= j < |subs| ==> subs[j].user != u
  {
    if |subs| > 0 && subs[|subs| - 1].user != u {
      RunStartAfterOtherProblem(subs[..|subs| - 1], u, q);
    }
  }

  /** What the row loop as written leaves for user `u`: an entry exactly when `u` has rows; then
      only the problem of `u`'s last row, holding the first best row of the final run on it. */
  ghost predicate KeepsLastProblem(subs: seq<Submission>, best: Best, u: string) {
    && (u in best <==> LastProblem(subs, u).Some?)
    && (u in best ==>
          var p := LastProblem(subs, u).value;
          && best[u].Keys == {p}
          && exists k :: FirstBestFrom(subs, RunStart(subs, u, p), u, p, k) && best[u][p] == subs[k])
  }

  lemma StepAsWrittenOtherUser(prefix: seq<Submission>, s: Submission, before: Best, u: string)
    requires KeepsLastProblem(prefix, before, u) && s.user != u
    ensures KeepsLastProblem(prefix + [s], StepAsWritten(before, s), u)
  {
    var subs, after := prefix + [s], StepAsWritten(before, s);
    assert subs[..|prefix|] == prefix;
    assert LastProblem(subs, u) == LastProblem(prefix, u);
    assert u in after <==> u in before;
    if u in before {
      assert after[u] == before[u];
      var p := LastProblem(prefix, u).value;
      var lo := RunStart(prefix, u, p);
      assert RunStart(subs, u, p) == lo;
      var k :| FirstBestFrom(prefix, lo, u, p, k) && before[u][p] == prefix[k];
      FirstBestExtendOther(prefix, s, lo, u, p, k);
      assert FirstBestFrom(subs, lo, u, p, k) && after[u][p] == subs[k];
    }
  }

  lemma StepAsWrittenSameProblem(prefix: seq<Submission>, s: Submission, before: Best, u: string)
    requires KeepsLastProblem(prefix, before, u) && s.user == u && LastProblem(prefix, u) == Some(s.problem)
    ensures KeepsLastProblem(prefix + [s], StepAsWritten(before, s), u)
  {
    var subs := prefix + [s];
    assert subs[..|prefix|] == prefix;
    var p := s.problem;
    var lo := RunStart(prefix, u, p);
    assert RunStart(subs, u, p) == lo;
    var k :| FirstBestFrom(prefix, lo, u, p, k) && before[u][p] == prefix[k];
    if Beats(s, prefix[k]) {
      FirstBestExtendReplace(prefix, s, lo, u, p, k);
      assert StepAsWritten(before, s)[u] == before[u][p := s];
    } else {
      FirstBestExtendKeep(prefix, s, lo, u, p, k);
    }
  }

  lemma StepAsWrittenNewProblem(prefix: seq<Submission>, s: Submission, before: Best, u: string)
    requires KeepsLastProblem(prefix, before, u) && s.user == u && LastProblem(prefix, u) != Some(s.problem)
    ensures KeepsLastProblem(prefix + [s], StepAsWritten(before, s), u)
  {
    var subs := prefix + [s];
    assert subs[..|prefix|] == prefix;
    var q := s.problem;
    RunStartAfterOtherProblem(prefix, u, q);
    assert RunStart(subs, u, q) == RunStart(prefix, u, q);
    FirstBestExtendFresh(prefix, s, RunStart(prefix, u, q), u, q);
    assert StepAsWritten(before, s)[u] == map[q := s];
  }

  /** After the row loop each user seen holds exactly one problem, the one of that user's last
      row, and for it the first best row of the final run of rows on that problem. */
  lemma {:induction false} SelectAsWrittenKeepsLastProblem(subs: seq<Submission>, u: string)
    ensures u in SelectAsWritten(subs) <==> LastProblem(subs, u).Some?
    ensures u in SelectAsWritten(subs) ==>
              var p := LastProblem(subs, u).value;
              && SelectAsWritten(subs)[u].Keys == {p}
              && exists k :: FirstBestFrom(subs, RunStart(subs, u, p), u, p, k) && SelectAsWritten(subs)[u][p] == subs[k]
  {
    if |subs| > 0 {
      var prefix, s := subs[..|subs| - 1], subs[|subs| - 1];
      assert subs == prefix + [s];
      SelectAsWrittenKeepsLastProblem(prefix, u);
      var before := SelectAsWritten(prefix);
      assert KeepsLastProblem(prefix, before, u);
      if s.user != u {
        StepAsWrittenOtherUser(prefix, s, before, u);
      } else if LastProblem(prefix, u) == Some(s.problem) {
        StepAsWrittenSameProblem(prefix, s, before, u);
      } else {
        StepAsWrittenNewProblem(prefix, s, before, u);
      }
      assert KeepsLastProblem(subs, SelectAsWritten(subs), u);
    }
  }

  // ---------------------------------------------------------------------------------------
  // The evidently intended selection: one best submission per (user, problem)

  /** One pass of the row loop as intended: a new problem is added beside the user's others. */
  function StepPerProblem(best: Best, s: Submission): Best {
    if s.user in best && s.problem in best[s.user] then
      if Beats(s, best[s.user][s.problem]) then best[s.user := best[s.user][s.problem := s]] else best
    else
      best[s.user := (if s.user in best then best[s.user] else map[])[s.problem := s]]
  }

  function SelectPerProblem(subs: seq<Submission>): Best {
    if |subs| == 0 then map[] else StepPerProblem(SelectPerProblem(subs[..|subs| - 1]), subs[|subs| - 1])
  }

  /** What the intended selection holds for user `u` and problem `p`. */
  ghost predicate KeepsFirstBest(subs: seq<Submission>, best: Best, u: string, p: string) {
    && (u in best <==> exists i :: 0 <= i < |subs| && subs[i].user == u)
    && ((u in best && p in best[u]) <==> exists i :: 0 <= i < |subs| && subs[i].user == u && subs[i].problem == p)
    && (u in best && p in best[u] ==> exists k :: FirstBestFrom(subs, 0, u, p, k) && best[u][p] == subs[k])
  }

  lemma StepPerProblemKeeps(prefix: seq<Submission>, s: Submission, before: Best, u: string, p: string)
    requires KeepsFirstBest(prefix, before, u, p)
    ensures KeepsFirstBest(prefix + [s], StepPerProblem(before, s), u, p)
  {
    var subs, after := prefix + [s], StepPerProblem(before, s);
    assert subs[|prefix|] == s;
    assert forall i :: 0 <= i < |prefix| ==> subs[i] == prefix[i];
    if u in before && p in before[u] {
      var k :| FirstBestFrom(prefix, 0, u, p, k) && before[u][p] == prefix[k];
      if s.user == u && s.problem == p && Beats(s, prefix[k]) {
        FirstBestExtendReplace(prefix, s, 0, u, p, k);
      } else if s.user == u && s.problem == p {
        FirstBestExtendKeep(prefix, s, 0, u, p, k);
      } else {
        FirstBestExtendOther(prefix, s, 0, u, p, k);
        assert after[u][p] == before[u][p];
      }
    } else if s.user == u && s.problem == p {
      FirstBestExtendFresh(prefix, s, 0, u, p);
    }
  }

  /** The intended selection holds a slot for exactly the (user, problem) pairs that have rows,
      and in each the first row with the greatest (score, date). */
  lemma {:induction false} SelectPerProblemKeepsFirstBest(subs: seq<Submission>, u: string, p: string)
    ensures u in SelectPerProblem(subs) <==> exists i :: 0 <= i < |subs| && subs[i].user == u
    ensures (u in SelectPerProblem(subs) && p in SelectPerProblem(subs)[u]) <==>
              exists i :: 0 <= i < |subs| && subs[i].user == u && subs[i].problem == p
    ensures u in SelectPerProblem(subs) && p in SelectPerProblem(subs)[u] ==>
              exists k :: FirstBestFrom(subs, 0, u, p, k) && SelectPerProblem(subs)[u][p] == subs[k]
  {
    if |subs| > 0 {
      var prefix, s := subs[..|subs| - 1], subs[|subs| - 1];
      assert subs == prefix + [s];
      SelectPerProblemKeepsFirstBest(prefix, u, p);
      StepPerProblemKeeps(prefix, s, SelectPerProblem(prefix), u, p);
      assert KeepsFirstBest(subs, SelectPerProblem(subs), u, p);
    }
  }

  /** Two rows of the same user on two different problems: the row loop as written forgets the
      first problem, the intended selection keeps both. */
  lemma AsWrittenDropsEarlierProblem(first: Submission, second: Submission)
    requires first.user == second.user && first.problem != second.problem
    ensures first.problem !in SelectAsWritten([first, second])[first.user]
    ensures first.problem in SelectPerProblem([first, second])[first.user]
    ensures SelectAsWritten([first, second]) != SelectAsWritten([second, first])
  {
    var u := first.user;
    assert [first, second][..1] == [first];
    assert [second, first][..1] == [second];
    assert SelectAsWritten([first]) == map[u := map[first.problem := first]];
    assert SelectAsWritten([second]) == map[u := map[second.problem := second]];
    assert SelectAsWritten([first, second]) == map[u := map[second.problem := second]];
    assert SelectAsWritten([second, first]) == map[u := map[first.problem := first]];
    assert SelectPerProblem([first]) == map[u := map[first.problem := first]];
    assert SelectPerProblem([first, second]) == map[u := map[first.problem := first, second.problem := second]];
  }

  /** The first best row of a run is unique. */
  lemma FirstBestIsUnique(subs: seq<Submission>, lo: nat, u: string, p: string, k1: int, k2: int)
    requires FirstBestFrom(subs, lo, u, p, k1) && FirstBestFrom(subs, lo, u, p, k2)
    ensures k1 == k2
  {
  }

  /** When all of user `u`'s rows are on problem `p`, the intended selection holds only `p`
      for `u`. */
  lemma IntendedHoldsOnlyProblem(subs: seq<Submission>, u: string, p: string)
    requires forall i :: 0 <= i < |subs| && subs[i].user == u ==> subs[i].problem == p
    requires u in SelectPerProblem(subs)
    ensures SelectPerProblem(subs)[u].Keys == {p}
  {
    SelectPerProblemKeepsFirstBest(subs, u, p);
    forall q | q in SelectPerProblem(subs)[u] ensures q == p {
      SelectPerProblemKeepsFirstBest(subs, u, q);
    }
  }

  /** For a user whose rows are all on one problem, the row loop as written and the intended
      selection agree. */
  lemma AsWrittenAgreesOnSingleProblem(subs: seq<Submission>, u: string, p: string)
    requires forall i :: 0 <= i < |subs| && subs[i].user == u ==> subs[i].problem == p
    ensures u in SelectAsWritten(subs) <==> u in SelectPerProblem(subs)
    ensures u in SelectAsWritten(subs) ==> SelectAsWritten(subs)[u] == SelectPerProblem(subs)[u]
  {
    SelectAsWrittenKeepsLastProblem(subs, u);
    SelectPerProblemKeepsFirstBest(subs, u, p);
    var written, intended := SelectAsWritten(subs), SelectPerProblem(subs);
    if u in written {
      assert LastProblem(subs, u) == Some(p);
      assert RunStart(subs, u, p) == 0;
      var k1 :| FirstBestFrom(subs, 0, u, p, k1) && written[u][p] == subs[k1];
      var k2 :| FirstBestFrom(subs, 0, u, p, k2) && intended[u][p] == subs[k2];
      FirstBestIsUnique(subs, 0, u, p, k1, k2);
      IntendedHoldsOnlyProblem(subs, u, p);
      assert written[u] == intended[u];
    }
  }

  /** A row of slot (`u`, `p`) in `a` is also a row of that slot in `b` when every row of `a`
      is a row of `b`. */
  lemma SlotRowCarriesOver(a: seq<Submission>, b: seq<Submission>, i: int, u: string, p: string)
    requires forall x :: x in a ==> x in b
    requires 0 <= i < |a| && a[i].user == u && a[i].problem == p
    ensures exists j :: 0 <= j < |b| && b[j] == a[i] && b[j].user == u && b[j].problem == p
  {
    assert a[i] in b;
  }

  /** The intended selection does not depend on row order up to ties: any reordering of the
      rows fills the same slots, with the same best score and date in each. */
  lemma SelectPerProblemIgnoresOrder(a: seq<Submission>, b: seq<Submission>, u: string, p: string)
    requires multiset(a) == multiset(b)
    ensures (u in SelectPerProblem(a) && p in SelectPerProblem(a)[u]) <==>
            (u in SelectPerProblem(b) && p in SelectPerProblem(b)[u])
    ensures u in SelectPerProblem(a) && p in SelectPerProblem(a)[u] ==>
              && SelectPerProblem(a)[u][p].score == SelectPerProblem(b)[u][p].score
              && SelectPerProblem(a)[u][p].date == SelectPerProblem(b)[u][p].date
  {
    SelectPerProblemKeepsFirstBest(a, u, p);
    SelectPerProblemKeepsFirstBest(b, u, p);
    forall x | x in a ensures x in b {
      assert x in multiset(a);
    }
    forall x | x in b ensures x in a {
      assert x in multiset(b);
    }
    if i :| 0 <= i < |a| && a[i].user == u && a[i].problem == p {
      SlotRowCarriesOver(a, b, i, u, p);
    }
    if j :| 0 <= j < |b| && b[j].user == u && b[j].problem == p {
      SlotRowCarriesOver(b, a, j, u, p);
    }
    if u in SelectPerProblem(a) && p in SelectPerProblem(a)[u] {
      var ka :| FirstBestFrom(a, 0, u, p, ka) && SelectPerProblem(a)[u][p] == a[ka];
      var kb :| FirstBestFrom(b, 0, u, p, kb) && SelectPerProblem(b)[u][p] == b[kb];
      SlotRowCarriesOver(a, b, ka, u, p);
      SlotRowCarriesOver(b, a, kb, u, p);
    }
  }
}
