/**
 The monitor's cache of run rows, kept fresh by storage marks while writers
 change the storage at any moment, also between two reads of one refresh.
 */
module MonitorRefresh {
  import opened Prelude

  // ----- The storage and its writers ------------------------------------------------------------

  /**
   What the root directory of a source shows: whether it is there, its storage mark,
   and the two documents read first.
   */
  datatype Root = Root(installed: bool, mark: string, authority: string, project: string)

  datatype Revision = Revision(version: int, events: int)

  datatype Summary = Summary(status: string, body: string)

  datatype Page = Page(ids: seq<string>, cursor: string)

  /** Everything outside the monitor, at every moment. */
  datatype World = World(
    root: (string, nat) -> Root,
    runs: (string, string, nat) -> map<string, Revision>,
    content: (string, string, string, Revision) -> Summary,  // a revision of a run never changes
    page: (string, string, nat, string) -> Page,             // the runs after a cursor, in the order of their ids
    population: set<string>,                                  // every run there will ever be
    delay: nat -> nat,                                        // time that passes before the n-th read
    fails: nat -> bool)                                       // whether the n-th read fails

  /** The mark moves on each commit: as long as it is the same, nothing it covers has changed. */
  ghost predicate MarkMoves(w: World) {
    forall id, t, v, u | t <= v <= u && w.root(id, t).mark == w.root(id, u).mark != "" ::
      SameStorage(w, id, w.root(id, t).authority, t, v)
  }

  predicate SameStorage(w: World, id: string, authority: string, t: nat, v: nat) {
    w.root(id, v) == w.root(id, t) && w.runs(id, authority, v) == w.runs(id, authority, t)
  }

  /** Nothing changed in this period. */
  ghost predicate Steady(w: World, id: string, authority: string, t: nat, u: nat) {
    forall v | t <= v <= u :: SameStorage(w, id, authority, t, v)
  }

  lemma SteadyPart(w: World, id: string, authority: string, t: nat, v: nat, u: nat, x: nat)
    requires Steady(w, id, authority, t, u) && t <= v <= x <= u
    ensures Steady(w, id, authority, v, x) && SameStorage(w, id, authority, t, v)
  {
    assert SameStorage(w, id, authority, t, v);
    forall y | v <= y <= x ensures SameStorage(w, id, authority, v, y) {
      assert SameStorage(w, id, authority, t, y);
    }
  }

  /** A page holds every run after its start, up to its own cursor if there is one. */
  ghost predicate IsPage(runs: map<string, Revision>, after: string, page: Page) {
    && (forall run | run in page.ids :: run in runs)
    && (page.cursor != "" ==> page.cursor in runs && StringLess(after, page.cursor))
    && forall run | run in runs && StringLess(after, run)
      && (page.cursor == "" || !StringLess(page.cursor, run)) :: run in page.ids
  }

  /** Run ids are not empty, and finitely many runs will ever exist. */
  ghost predicate Paged(w: World) {
    && (forall id, authority, t :: w.runs(id, authority, t).Keys <= w.population && "" !in w.runs(id, authority, t))
    && forall id, authority, t, after :: IsPage(w.runs(id, authority, t), after, w.page(id, authority, t, after))
  }

  // ----- Rows -------------------------------------------------------------------------------------

  datatype Row = Row(run: string, version: int, events: int, status: string, body: string, project: string, error: bool)

  datatype Source = Source(mark: string, authority: string, project: string, indexed: bool)

  /** A cached row of the same revision, without an error, of a run that has ended. */
  predicate Reusable(cached: map<string, Row>, run: string, rev: Revision) {
    && run in cached
    && cached[run].version == rev.version && cached[run].events == rev.events && !cached[run].error
    && Ended(cached[run])
  }

  predicate Ended(row: Row) {
    row.status == "completed" || row.status == "failed" || row.status == "cancelled"
  }

  function SummaryRow(w: World, id: string, authority: string, project: string, run: string, rev: Revision): Row {
    var s := w.content(id, authority, run, rev);
    Row(run, rev.version, rev.events, s.status, s.body, project, false)
  }

  function ErrorRow(project: string, run: string): Row {
    Row(run, 0, 0, "", "", project, true)
  }

  /** What reading everything at this moment gives. */
  function FullRead(w: World, id: string, t: nat): map<string, Row> {
    var root := w.root(id, t);
    var runs := w.runs(id, root.authority, t);
    map run | run in runs :: SummaryRow(w, id, root.authority, root.project, run, runs[run])
  }

  /** A row without an error says what its revision of the run says. */
  ghost predicate Truthful(w: World, id: string, authority: string, rows: map<string, Row>) {
    forall run | run in rows && !rows[run].error ::
      rows[run] == SummaryRow(w, id, authority, rows[run].project, run, Revision(rows[run].version, rows[run].events))
  }

  /** Some read of this stretch failed. */
  ghost predicate Troubled(w: World, first: nat, tick: nat) {
    exists n :: first <= n < tick && w.fails(n)
  }

  /** One row after a pass over steady storage: reused, read, or the error of a read that failed. */
  predicate AsRead(w: World, id: string, authority: string, project: string, cached: map<string, Row>, run: string,
                   rev: Revision,
                   row: Row, troubled: bool) {
    if Reusable(cached, run, rev) then row == cached[run]
    else (troubled && row == ErrorRow(project, run)) || row == SummaryRow(w, id, authority, project, run, rev)
  }

  /** The rows are those of the storage at this moment; only an ended run may show an earlier project name. */
  ghost predicate Current(w: World, id: string, rows: map<string, Row>, t: nat) {
    var root := w.root(id, t);
    var runs := w.runs(id, root.authority, t);
    && rows.Keys == runs.Keys
    && forall run | run in runs && !rows[run].error ::
         && rows[run] == SummaryRow(w, id, root.authority, rows[run].project, run, runs[run])
         && (Ended(rows[run]) || rows[run].project == root.project)
  }

  /** A recorded mark was taken at `t`, and if nothing changed until the read ended at `u` the rows are those of `t`. */
  ghost predicate Backed(w: World, id: string, source: Source, rows: map<string, Row>, t: nat, u: nat) {
    && t <= u && w.root(id, t).mark == source.mark
    && (Steady(w, id, w.root(id, t).authority, t, u) ==> Current(w, id, rows, t))
  }

  /** What every refresh keeps of a source and its rows, whatever the writers do. */
  ghost predicate Kept(w: World, id: string, source: Source, rows: map<string, Row>, now: nat) {
    && Truthful(w, id, source.authority, rows)
    && (source.mark != "" ==> exists t: nat, u: nat :: u <= now && Backed(w, id, source, rows, t, u))
  }

  /**
   Skipping hides no write: whenever the recorded mark is the current one, the
   rows are those of the storage now. They equal a full read exactly when no
   row records a failed read and every row shows the present project name.
   */
  lemma MatchingMarkIsCurrent(w: World, id: string, source: Source, rows: map<string, Row>, since: nat, now: nat)
    requires MarkMoves(w) && Kept(w, id, source, rows, since) && since <= now
    requires source.mark != "" && w.root(id, now).mark == source.mark
    ensures Current(w, id, rows, now)
    ensures rows == FullRead(w, id, now) <==>
            forall run | run in rows :: !rows[run].error && rows[run].project == w.root(id, now).project
  {
    var t: nat, u: nat :| u <= since && Backed(w, id, source, rows, t, u);
    var authority := w.root(id, t).authority;
    forall v | t <= v <= now ensures SameStorage(w, id, authority, t, v) {
      assert w.root(id, t).mark == w.root(id, now).mark;
    }
    assert Steady(w, id, authority, t, u);
    assert SameStorage(w, id, authority, t, now);
    var full := FullRead(w, id, now);
    if forall run | run in rows :: !rows[run].error && rows[run].project == w.root(id, now).project {
      forall run | run in rows ensures rows[run] == full[run] {
      }
    }
    if rows == full {
      forall run | run in rows ensures !rows[run].error && rows[run].project == w.root(id, now).project {
        assert rows[run] == full[run];
      }
    }
  }

  // ----- One pass over the storage -----------------------------------------------------------------

  /** What holds of the rows collected so far, the reads having begun at `t`. */
  ghost predicate Collected(w: World, id: string, authority: string, project: string, cached: map<string, Row>,
                            next: map<string, Row>, t: nat, now: nat, troubled: bool) {
    && t <= now && Truthful(w, id, authority, next)
    && (Steady(w, id, authority, t, now) ==>
          forall run | run in next ::
            && run in w.runs(id, authority, t)
            && AsRead(w, id, authority, project, cached, run, w.runs(id, authority, t)[run], next[run], troubled))
  }

  /** If nothing changed, no run up to the cursor is left out. */
  ghost predicate Covered(w: World, id: string, authority: string, next: map<string, Row>, after: string, t: nat,
                          now: nat) {
    Steady(w, id, authority, t, now) ==>
      forall run | run in w.runs(id, authority, t) && !StringLess(after, run) :: run in next
  }

  lemma Later(w: World, id: string, authority: string, project: string, cached: map<string, Row>,
              next: map<string, Row>, t: nat, now: nat, later: nat,
              first: nat, tick: nat, more: nat)
    requires Collected(w, id, authority, project, cached, next, t, now, Troubled(w, first, tick)) && now <= later
             && tick <= more
    ensures Collected(w, id, authority, project, cached, next, t, later, Troubled(w, first, more))
  {
    if Steady(w, id, authority, t, later) {
      SteadyPart(w, id, authority, t, t, later, now);
    }
  }

  lemma LaterCovered(w: World, id: string, authority: string, next: map<string, Row>, more: map<string, Row>,
                     after: string, t: nat, now: nat, later: nat)
    requires Covered(w, id, authority, next, after, t, now) && t <= now <= later && next.Keys <= more.Keys
    ensures Covered(w, id, authority, more, after, t, later)
  {
    if Steady(w, id, authority, t, later) {
      SteadyPart(w, id, authority, t, t, later, now);
    }
  }

  lemma AddRow(w: World, id: string, authority: string, project: string, cached: map<string, Row>,
               next: map<string, Row>, t: nat, paged: nat, now: nat, run: string, row: Row, troubled: bool)
    requires Collected(w, id, authority, project, cached, next, t, now, troubled) && Truthful(w, id, authority, cached)
    requires t <= paged <= now && run in w.runs(id, authority, paged)
    requires var rev := w.runs(id, authority, paged)[run];
             if Reusable(cached, run, rev) then row == cached[run]
             else (row == ErrorRow(project, run) && (troubled || run !in w.runs(id, authority, now)))
                  || (run in w.runs(id, authority, now)
                    && row == SummaryRow(w, id, authority, project, run, w.runs(id, authority, now)[run]))
    ensures Collected(w, id, authority, project, cached, next[run := row], t, now, troubled)
  {
    if Steady(w, id, authority, t, now) {
      SteadyPart(w, id, authority, t, paged, now, now);
      SteadyPart(w, id, authority, t, now, now, now);
    }
  }

  /** The runs after a cursor, of all there will ever be. */
  ghost function After(w: World, after: string): set<string> {
    set run | run in w.population && StringLess(after, run)
  }

  lemma CursorAdvances(w: World, after: string, cursor: string)
    requires cursor in w.population && StringLess(after, cursor)
    ensures |After(w, cursor)| < |After(w, after)|
  {
    forall run | run in After(w, cursor) ensures run in After(w, after) - {cursor} {
      StringLessTransitive(after, cursor, run);
      StringLessTotal(cursor, cursor);
    }
    SubsetSize(After(w, cursor), After(w, after) - {cursor});
  }

  /** Where a pass stands: the rows so far, the time, and how many reads were made. */
  datatype Progress = Progress(rows: map<string, Row>, now: nat, tick: nat)

  /** The row of one run: reused, or read a moment later, if that read succeeds and the run is still there. */
  function RowStep(w: World, id: string, authority: string, project: string, cached: map<string, Row>, p: Progress,
                   run: string, rev: Revision): Progress {
    if Reusable(cached, run, rev) then p.(rows := p.rows[run := cached[run]])
    else
      var later := p.now + w.delay(p.tick);
      var readable := !w.fails(p.tick) && run in w.runs(id, authority, later);
      var row := if readable then SummaryRow(w, id, authority, project, run, w.runs(id, authority, later)[run])
        else ErrorRow(project, run);
      Progress(p.rows[run := row], later, p.tick + 1)
  }

  function PageRows(w: World, id: string, authority: string, project: string, cached: map<string, Row>, p: Progress,
                    ids: seq<string>): Progress
    requires forall run | run in ids :: run in w.runs(id, authority, p.now)
  {
    if ids == [] then p
    else
      var run := ids[|ids| - 1];
      RowStep(w, id, authority, project, cached, PageRows(w, id, authority, project, cached, p, ids[..|ids| - 1]), run,
              w.runs(id, authority, p.now)[run])
  }

  /** All pages from a cursor on; no rows if the read of a page fails. */
  function PagesFrom(w: World, id: string, authority: string, project: string, cached: map<string, Row>, p: Progress,
                     after: string): (Option<map<string, Row>>, nat, nat)
    requires Paged(w)
    decreases |After(w, after)|
  {
    var paged := p.now + w.delay(p.tick);
    if w.fails(p.tick) then (None, paged, p.tick + 1)
    else
      var page := w.page(id, authority, paged, after);
      assert IsPage(w.runs(id, authority, paged), after, page);
      var read := PageRows(w, id, authority, project, cached, Progress(p.rows, paged, p.tick + 1), page.ids);
      if page.cursor == "" then (Some(read.rows), read.now, read.tick)
      else
        CursorAdvances(w, after, page.cursor);
        PagesFrom(w, id, authority, project, cached, read, page.cursor)
  }

  lemma NoRows(w: World, id: string, authority: string, project: string, cached: map<string, Row>, p: Progress,
               ids: seq<string>)
    requires forall run | run in ids :: run in w.runs(id, authority, p.now)
    ensures PageRows(w, id, authority, project, cached, p, ids[..0]) == p && Elements(ids[..0]) == {}
            && ids[..|ids|] == ids
  {
  }

  lemma OneMoreRow(w: World, id: string, authority: string, project: string, cached: map<string, Row>, p: Progress,
                   ids: seq<string>, i: nat)
    requires i < |ids| && forall run | run in ids :: run in w.runs(id, authority, p.now)
    ensures PageRows(w, id, authority, project, cached, p, ids[..i + 1])
            == RowStep(w, id, authority, project, cached, PageRows(w, id, authority, project, cached, p, ids[..i]),
                       ids[i], w.runs(id, authority, p.now)[ids[i]])
    ensures Elements(ids[..i + 1]) == Elements(ids[..i]) + {ids[i]}
  {
    assert ids[..i + 1] == ids[..i] + [ids[i]] && ids[..i + 1][..i] == ids[..i];
  }

  /** One more row keeps what holds of the rows collected. */
  lemma StepCollects(w: World, id: string, authority: string, project: string, cached: map<string, Row>, p: Progress,
                     run: string, t: nat, paged: nat, first: nat)
    requires first <= p.tick && t <= paged <= p.now && run in w.runs(id, authority, paged)
             && Truthful(w, id, authority, cached)
    requires Collected(w, id, authority, project, cached, p.rows, t, p.now, Troubled(w, first, p.tick))
    ensures var q := RowStep(w, id, authority, project, cached, p, run, w.runs(id, authority, paged)[run]);
            && p.now <= q.now && p.tick <= q.tick && q.rows.Keys == p.rows.Keys + {run}
            && Collected(w, id, authority, project, cached, q.rows, t, q.now, Troubled(w, first, q.tick))
  {
    hide Collected, Truthful, Ended;
    var q := RowStep(w, id, authority, project, cached, p, run, w.runs(id, authority, paged)[run]);
    Later(w, id, authority, project, cached, p.rows, t, p.now, q.now, first, p.tick, q.tick);
    AddRow(w, id, authority, project, cached, p.rows, t, paged, q.now, run, q.rows[run], Troubled(w, first, q.tick));
  }

  /** Read one page's rows, taking each unchanged ended run from the cache. */
  method ReadPage(w: World, id: string, authority: string, project: string, cached: map<string, Row>,
                  next0: map<string, Row>,
                  ids: seq<string>, t: nat, paged: nat, first: nat, begun: nat)
    returns (next: map<string, Row>, now: nat, tick: nat)
    requires first <= begun && t <= paged
             && Collected(w, id, authority, project, cached, next0, t, paged, Troubled(w, first, begun))
    requires Truthful(w, id, authority, cached) && forall run | run in ids :: run in w.runs(id, authority, paged)
    ensures paged <= now && begun <= tick
            && Collected(w, id, authority, project, cached, next, t, now, Troubled(w, first, tick))
    ensures next.Keys == next0.Keys + Elements(ids)
    ensures Progress(next, now, tick) == PageRows(w, id, authority, project, cached, Progress(next0, paged, begun), ids)
  {
    hide Collected, Truthful, SummaryRow, ErrorRow, Troubled, PageRows, Elements, Ended;
    NoRows(w, id, authority, project, cached, Progress(next0, paged, begun), ids);
    next, now, tick := next0, paged, begun;
    for i := 0 to |ids|
      invariant Progress(next, now, tick)
                  == PageRows(w, id, authority, project, cached, Progress(next0, paged, begun), ids[..i])
      invariant paged <= now && begun <= tick
                && Collected(w, id, authority, project, cached, next, t, now, Troubled(w, first, tick))
      invariant next.Keys == next0.Keys + Elements(ids[..i])
    {
      var run := ids[i];
      OneMoreRow(w, id, authority, project, cached, Progress(next0, paged, begun), ids, i);
      var rev := w.runs(id, authority, paged)[run];
      StepCollects(w, id, authority, project, cached, Progress(next, now, tick), run, t, paged, first);
      if Reusable(cached, run, rev) {
        next := next[run := cached[run]];
      } else {
        now := now + w.delay(tick);
        var readable := !w.fails(tick) && run in w.runs(id, authority, now);
        var row := if readable then SummaryRow(w, id, authority, project, run, w.runs(id, authority, now)[run])
          else ErrorRow(project, run);
        next, tick := next[run := row], tick + 1;
      }
    }
  }

  lemma NothingCollected(w: World, id: string, authority: string, project: string, cached: map<string, Row>, t: nat,
                         troubled: bool)
    requires Paged(w)
    ensures Collected(w, id, authority, project, cached, map[], t, t, troubled)
            && Covered(w, id, authority, map[], "", t, t)
  {
  }

  /** A pass that left no run out over steady storage holds exactly its runs. */
  lemma CollectedAll(w: World, id: string, authority: string, project: string, cached: map<string, Row>,
                     rows: map<string, Row>, t: nat, now: nat, troubled: bool)
    requires Collected(w, id, authority, project, cached, rows, t, now, troubled)
    requires Steady(w, id, authority, t, now) ==> w.runs(id, authority, t).Keys <= rows.Keys
    ensures Steady(w, id, authority, t, now) ==> rows.Keys == w.runs(id, authority, t).Keys
  {
  }

  /** Read page after page until no cursor is left or a page fails. */
  method ReadAll(w: World, id: string, authority: string, project: string, cached: map<string, Row>, start: nat,
                 first: nat)
    returns (next: Option<map<string, Row>>, now: nat, tick: nat)
    requires Paged(w) && Truthful(w, id, authority, cached)
    ensures start <= now && first <= tick
    ensures next.None? ==> Troubled(w, first, tick)
    ensures next.Some? ==>
              Collected(w, id, authority, project, cached, next.value, start, now, Troubled(w, first, tick))
    ensures next.Some? && Steady(w, id, authority, start, now) ==> next.value.Keys == w.runs(id, authority, start).Keys
    ensures (next, now, tick) == PagesFrom(w, id, authority, project, cached, Progress(map[], start, first), "")
  {
    hide Collected, Truthful, Covered, PageRows, Elements, Steady, RowStep, After;
    NothingCollected(w, id, authority, project, cached, start, Troubled(w, first, first));
    var rows: map<string, Row> := map[];
    var after := "";
    now, tick := start, first;
    while true
      invariant first <= tick && start <= now
                && Collected(w, id, authority, project, cached, rows, start, now, Troubled(w, first, tick))
      invariant Covered(w, id, authority, rows, after, start, now)
      invariant PagesFrom(w, id, authority, project, cached, Progress(map[], start, first), "")
                == PagesFrom(w, id, authority, project, cached, Progress(rows, now, tick), after)
      decreases |After(w, after)|
    {
      var paged := now + w.delay(tick);
      Later(w, id, authority, project, cached, rows, start, now, paged, first, tick, tick + 1);
      if w.fails(tick) {
        return None, paged, tick + 1;
      }
      var page := w.page(id, authority, paged, after);
      assert IsPage(w.runs(id, authority, paged), after, page);
      ghost var before, begun := rows, now;
      rows, now, tick := ReadPage(w, id, authority, project, cached, rows, page.ids, start, paged, first, tick + 1);
      PageCovers(w, id, authority, before, rows, after, page, start, begun, paged, now);
      if page.cursor == "" {
        CollectedAll(w, id, authority, project, cached, rows, start, now, Troubled(w, first, tick));
        return Some(rows), now, tick;
      }
      CursorAdvances(w, after, page.cursor);
      after := page.cursor;
    }
  }

  lemma PageCovers(w: World, id: string, authority: string, before: map<string, Row>, rows: map<string, Row>,
                   after: string, page: Page, t: nat, begun: nat, paged: nat, now: nat)
    requires Covered(w, id, authority, before, after, t, begun) && t <= begun <= paged <= now
    requires IsPage(w.runs(id, authority, paged), after, page) && rows.Keys == before.Keys + Elements(page.ids)
    ensures page.cursor != "" ==> Covered(w, id, authority, rows, page.cursor, t, now)
    ensures page.cursor == "" && Steady(w, id, authority, t, now) ==> w.runs(id, authority, t).Keys <= rows.Keys
  {
    if Steady(w, id, authority, t, now) {
      LaterCovered(w, id, authority, before, rows, after, t, begun, now);
      SteadyPart(w, id, authority, t, paged, now, now);
      forall run | run in w.runs(id, authority, t) && (page.cursor == "" || !StringLess(page.cursor, run))
        ensures run in rows {
        if StringLess(after, run) {
          assert run in page.ids;
        }
      }
    }
  }

  /** What a pass gives when nothing changes and no read fails. */
  function Pass(w: World, id: string, t: nat, cached: map<string, Row>): map<string, Row> {
    var root := w.root(id, t);
    var runs := w.runs(id, root.authority, t);
    map run | run in runs ::
      if Reusable(cached, run, runs[run]) then cached[run]
      else SummaryRow(w, id, root.authority, root.project, run, runs[run])
  }

  /**
   The row of each run after such a pass: the cached one if it is of the
   same version and events, records no error, and the run had completed,
   failed or been cancelled; else what the storage says, under the present
   project name.
   */
  lemma PassIs(w: World, id: string, t: nat, cached: map<string, Row>, run: string)
    ensures var root := w.root(id, t); var runs := w.runs(id, root.authority, t);
            && (run in Pass(w, id, t, cached) <==> run in runs)
            && (run in runs ==>
                  var rev, row := runs[run], Pass(w, id, t, cached)[run];
                  if run in cached && !cached[run].error && cached[run].version == rev.version
                     && cached[run].events == rev.events && cached[run].status in {"completed", "failed", "cancelled"}
                  then row == cached[run]
                  else var said := w.content(id, root.authority, run, rev);
                       row == Row(run, rev.version, rev.events, said.status, said.body, root.project, false))
  {
  }

  /** The row of a run that could not be read: it records the error and no status, so it is read again next time. */
  lemma UnreadIsRetried(project: string, run: string, cached: map<string, Row>, rev: Revision)
    ensures var row := ErrorRow(project, run);
            && row.run == run && row.project == project && row.error
            && row.version == 0 && row.events == 0 && row.status == "" && row.body == ""
    ensures run in cached && cached[run] == ErrorRow(project, run) ==> !Reusable(cached, run, rev)
  {
  }

  /** Reusing rows loses nothing exactly when every reused row shows the present project name. */
  lemma ReuseIsFullReadExactlyWhen(w: World, id: string, t: nat, cached: map<string, Row>)
    requires Truthful(w, id, w.root(id, t).authority, cached)
    ensures var root := w.root(id, t); var runs := w.runs(id, root.authority, t);
            Pass(w, id, t, cached) == FullRead(w, id, t) <==>
            forall run | run in runs && Reusable(cached, run, runs[run]) :: cached[run].project == root.project
  {
    var root := w.root(id, t);
    var runs := w.runs(id, root.authority, t);
    var pass, full := Pass(w, id, t, cached), FullRead(w, id, t);
    if pass == full {
      forall run | run in runs && Reusable(cached, run, runs[run]) ensures cached[run].project == root.project {
        assert pass[run] == full[run];
      }
    }
  }

  /** A project renamed after its only run ended. */
  function Renamed(): World {
    World((_, t: nat) => if t == 0 then Root(true, "first", "a", "before") else Root(true, "second", "a", "after"),
          (_, _, _) => map["r" := Revision(1, 1)],
          (_, _, _, _) => Summary("completed", ""),
          (_, _, _, after) => Page(if StringLess(after, "r") then ["r"] else [], ""),
          {"r"}, _ => 1, _ => false)
  }

  lemma RenamedIsOrderly()
    ensures MarkMoves(Renamed()) && Paged(Renamed())
  {
  }

  /**
   After the rename, a pass without any failure leaves the old name on the ended
   run, though the mark is the new one.
   */
  lemma RenameIsMissed()
    ensures MarkMoves(Renamed()) && Paged(Renamed())
    ensures var cached := FullRead(Renamed(), "s", 0);
            Pass(Renamed(), "s", 1, cached) == cached != FullRead(Renamed(), "s", 1)
  {
    hide MarkMoves, Paged;
    RenamedIsOrderly();
    var w := Renamed();
    var cached := FullRead(w, "s", 0);
    assert cached["r"].project == "before" && FullRead(w, "s", 1)["r"].project == "after";
    assert Reusable(cached, "r", Revision(1, 1));
    ReuseIsFullReadExactlyWhen(w, "s", 1, cached);
  }

  /** One run that ended, in a storage that never changes; only the fifth read fails. */
  function Flaky(): World {
    World((_, _) => Root(true, "mark", "a", "p"),
          (_, _, _) => map["r" := Revision(1, 1)],
          (_, _, _, _) => Summary("completed", ""),
          (_, _, _, after) => Page(if StringLess(after, "r") then ["r"] else [], ""),
          {"r"}, _ => 1, n => n == 4)
  }

  lemma FlakyIsOrderly()
    ensures MarkMoves(Flaky()) && Paged(Flaky())
  {
  }

  /**
   The concrete case of a summary read that fails once: the pass succeeds, so
   its mark is recorded with the error row. The mark stays the current one,
   every later refresh is skipped, and the row never becomes the run's.
   */
  lemma FailedSummaryStays(now: nat)
    ensures MarkMoves(Flaky()) && Paged(Flaky())
    ensures var rows := map["r" := ErrorRow("p", "r")];
            && Reading(Flaky(), "s", Source("", "a", "", false), map[], 3, 3) == Some(rows)
            && Kept(Flaky(), "s", Source(Flaky().root("s", 2).mark, "a", "p", true), rows, 5)
            && Flaky().root("s", now).mark == Flaky().root("s", 2).mark != "" && rows != FullRead(Flaky(), "s", now)
  {
    hide MarkMoves, Paged;
    FlakyIsOrderly();
    var w, rows := Flaky(), map["r" := ErrorRow("p", "r")];
    var p := Progress(map[], 4, 4);
    assert ["r"][..0] == [];
    assert PageRows(w, "s", "a", "p", map[], p, []) == p;
    assert PageRows(w, "s", "a", "p", map[], p, ["r"]).rows == rows;
    assert Backed(w, "s", Source("mark", "a", "p", true), rows, 2, 5);
    assert rows["r"].error && !FullRead(w, "s", now)["r"].error;
  }

  lemma PassKeeps(w: World, id: string, cached: map<string, Row>, next: map<string, Row>, taken: nat, began: nat,
                  now: nat, first: nat, tick: nat)
    requires taken <= began <= now
    requires var root := w.root(id, began);
             && Truthful(w, id, root.authority, cached)
             && Collected(w, id, root.authority, root.project, cached, next, began, now, Troubled(w, first, tick))
             && (Steady(w, id, root.authority, began, now) ==> next.Keys == w.runs(id, root.authority, began).Keys)
    ensures Steady(w, id, w.root(id, taken).authority, taken, now) ==> Current(w, id, next, taken)
    ensures Steady(w, id, w.root(id, taken).authority, taken, now) && !Troubled(w, first, tick) ==>
              next == Pass(w, id, taken, cached)
  {
    var authority := w.root(id, taken).authority;
    if Steady(w, id, authority, taken, now) {
      SteadyPart(w, id, authority, taken, began, now, now);
      assert w.root(id, began) == w.root(id, taken);
    }
  }

  // ----- Refreshing one source -----------------------------------------------------------------------

  datatype Outcome = Gone | Skipped | Unread | Refreshed

  /** What one refresh makes of a source, its mark taken at `taken` and its storage opened at `began`. */
  ghost predicate Reported(w: World, id: string, outcome: Outcome, before: Source, cached: map<string, Row>,
                           after: Source, rows: map<string, Row>, taken: nat, began: nat, now: nat, troubled: bool) {
    match outcome
    case Gone => !w.root(id, taken).installed
    case Skipped => after == before && rows == cached && w.root(id, taken).mark == before.mark != ""
    case Unread =>
      && troubled && after.mark == "" && !after.indexed
      && (if after.authority == before.authority then rows == cached
          else rows == map[] && after.authority == w.root(id, began).authority)
    case Refreshed =>
      var root := w.root(id, began);
      && after == Source(w.root(id, taken).mark, root.authority, root.project, true)
      && (Steady(w, id, w.root(id, taken).authority, taken, now) && !troubled ==>
            rows == Pass(w, id, taken, if before.authority == root.authority then cached else map[]))
  }

  /** The rows read from the storage as opened at this moment. */
  function Reading(w: World, id: string, source: Source, cached: map<string, Row>, began: nat,
                   tick: nat): Option<map<string, Row>>
    requires Paged(w)
  {
    var root := w.root(id, began);
    PagesFrom(w, id, root.authority, root.project, if source.authority == root.authority then cached else map[],
              Progress(map[], began, tick), "").0
  }

  /** Open the source and read it; a failed read keeps the rows of the same authority and clears the mark. */
  method Reread(w: World, id: string, source: Source, cached: map<string, Row>, mark: string, ghost taken: nat,
                start: nat, first: nat)
    returns (outcome: Outcome, after: Source, rows: map<string, Row>, now: nat, tick: nat, ghost began: nat)
    requires Paged(w) && Kept(w, id, source, cached, start) && taken <= start && w.root(id, taken).mark == mark
    ensures start <= began <= now && first <= tick && (outcome == Unread || outcome == Refreshed)
    ensures Kept(w, id, after, rows, now)
    ensures Reported(w, id, outcome, source, cached, after, rows, taken, began, now, Troubled(w, first, tick))
    ensures began == start + w.delay(first)
    ensures var read := Reading(w, id, source, cached, began, first + 1);
            outcome == (if !w.fails(first) && read.Some? then Refreshed else Unread)
            && (outcome == Refreshed ==> rows == read.value)
  {
    now, tick := start + w.delay(first), first + 1;
    began := now;
    if w.fails(first) {
      return Unread, source.(mark := "", indexed := false), cached, now, tick, began;
    }
    var root := w.root(id, now);
    rows := if source.authority == root.authority then cached else map[];
    after := source.(project := root.project, authority := root.authority);
    var next;
    next, now, tick := ReadAll(w, id, root.authority, root.project, rows, now, tick);
    if next.None? {
      return Unread, after.(mark := "", indexed := false), rows, now, tick, began;
    }
    PassKeeps(w, id, rows, next.value, taken, began, now, first + 1, tick);
    after := after.(mark := mark, indexed := true);
    assert Backed(w, id, after, next.value, taken, now);
    return Refreshed, after, next.value, now, tick, began;
  }

  // ----- The catalogue ------------------------------------------------------------------------------

  /** Every source and its rows keep what a refresh keeps. */
  ghost predicate AllKept(w: World, sources: map<string, Source>, rows: map<string, map<string, Row>>, now: nat) {
    sources.Keys == rows.Keys && forall id | id in sources :: Kept(w, id, sources[id], rows[id], now)
  }

  lemma StillKept(w: World, sources: map<string, Source>, rows: map<string, map<string, Row>>, start: nat, now: nat)
    requires AllKept(w, sources, rows, start) && start <= now
    ensures AllKept(w, sources, rows, now)
  {
    forall id | id in sources ensures Kept(w, id, sources[id], rows[id], now) {
      assert Kept(w, id, sources[id], rows[id], start);
    }
  }

  class Catalog {
    var sources: map<string, Source>
    var rows: map<string, map<string, Row>>

    ghost predicate Valid(w: World, now: nat)
      reads this
    {
      AllKept(w, sources, rows, now)
    }

    constructor ()
      ensures sources == map[] && rows == map[]
    {
      sources, rows := map[], map[];
    }

    /** A newly found source has no rows and no mark, so the next refresh reads it. */
    method Add(w: World, id: string, authority: string, ghost now: nat)
      requires Valid(w, now)
      modifies this
      ensures Valid(w, now)
      ensures id in old(sources) ==> sources == old(sources) && rows == old(rows)
      ensures id !in old(sources) ==>
                sources == old(sources)[id := Source("", authority, "", false)] && rows == old(rows)[id := map[]]
    {
      if id in sources {
        return;
      }
      sources, rows := sources[id := Source("", authority, "", false)], rows[id := map[]];
    }

    /**
     Refresh one source. The mark is taken before the storage is read, so a
     write during the read makes the next pass read again. Nothing changes for
     the other sources.
     */
    method RefreshOne(w: World, id: string, start: nat, first: nat)
      returns (outcome: Outcome, now: nat, tick: nat, ghost taken: nat, ghost began: nat)
      requires Paged(w) && Valid(w, start) && id in sources
      modifies this
      ensures start <= taken <= began <= now && first <= tick && Valid(w, now)
      ensures outcome == Gone ==>
                sources == old(sources) - {id} && rows == old(rows) - {id} && !w.root(id, taken).installed
      ensures outcome != Gone ==>
                && id in sources && sources == old(sources)[id := sources[id]] && rows == old(rows)[id := rows[id]]
                && Reported(w, id, outcome, old(sources[id]), old(rows[id]), sources[id], rows[id], taken, began, now,
                            Troubled(w, first, tick))
      ensures outcome == Gone <==> !w.root(id, start + w.delay(first)).installed
      ensures outcome != Gone ==> (outcome == Skipped <==> w.root(id, taken).mark == old(sources[id].mark) != "")
    {
      now, tick := start + w.delay(first), first + 1;
      taken, began := now, now;
      if !w.root(id, now).installed {
        StillKept(w, sources, rows, start, now);
        sources, rows := sources - {id}, rows - {id};
        return Gone, now, tick, taken, began;
      }
      now, tick := now + w.delay(tick), tick + 1;
      taken, began := now, now;
      StillKept(w, sources, rows, start, now);
      var mark := w.root(id, now).mark;
      if mark != "" && mark == sources[id].mark {
        assert sources == sources[id := sources[id]] && rows == rows[id := rows[id]];
        return Skipped, now, tick, taken, began;
      }
      var after, next;
      ghost var here := now;
      outcome, after, next, now, tick, began := Reread(w, id, sources[id], rows[id], mark, taken, now, tick);
      StillKept(w, sources, rows, here, now);
      sources, rows := sources[id := after], rows[id := next];
    }

    /** Refresh every listed source in order. */
    method Refresh(w: World, list: seq<string>, start: nat, first: nat) returns (now: nat, tick: nat)
      requires Paged(w) && Valid(w, start) && Distinct(list) && Elements(list) == sources.Keys
      modifies this
      ensures start <= now && Valid(w, now) && sources.Keys <= old(sources.Keys)
      ensures forall id | id in old(sources) && id !in sources :: Missed(w, id, start, now)
    {
      hide AllKept, Reported;
      now, tick := start, first;
      for i := 0 to |list|
        invariant start <= now && Valid(w, now) && sources.Keys <= old(sources.Keys)
        invariant forall j | i <= j < |list| :: list[j] in sources
        invariant forall id | id in old(sources) && id !in sources :: Missed(w, id, start, now)
      {
        var outcome;
        ghost var taken, began, before, since := now, now, sources, now;
        outcome, now, tick, taken, began := RefreshOne(w, list[i], now, tick);
        MissedLater(w, old(sources.Keys), before.Keys, start, since, now);
        if outcome == Gone {
          assert Missed(w, list[i], start, now);
        }
        assert before.Keys - {list[i]} <= sources.Keys <= before.Keys;
      }
    }
  }

  /** At some moment of this period the source was not there. */
  ghost predicate Missed(w: World, id: string, start: nat, now: nat) {
    exists t: nat :: start <= t <= now && !w.root(id, t).installed
  }

  lemma MissedLater(w: World, were: set<string>, are: set<string>, start: nat, since: nat, now: nat)
    requires since <= now && forall id | id in were && id !in are :: Missed(w, id, start, since)
    ensures forall id | id in were && id !in are :: Missed(w, id, start, now)
  {
  }
}
