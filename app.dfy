/**
 * The handlers and the background sweeper, as transitions of the pair
 * (table rows, text of `allow.conf`). The pure step functions say what one
 * handler or one sweep does; the class `App` performs the same steps in
 * place on the database object and the configuration text.
 */
module Alohomora {
  import opened Wrappers
  import opened Decimal
  import opened Entries
  import opened Store
  import opened Duration
  import opened Render
  import opened Validation

  /** The shared state: the `white_list` rows and the contents of `data/allow.conf`. */
  datatype State = State(rows: seq<Row>, conf: string)

  /** What a handler answers: a redirect, or the 500 that an uncaught exception becomes. */
  datatype Response = Redirect(location: string) | ServerError

  /** The configuration file shows exactly the table. */
  predicate InSync(s: State)
  {
    s.conf == AllowConf(s.rows)
  }

  /** `update_allow_conf()`: overwrite the file with the rendering of `select()`. */
  function Rendered(rows: seq<Row>): State
  {
    State(rows, AllowConf(rows))
  }

  /** `post.get(name, '')` */
  function OrEmpty(field: Option<string>): string
  {
    if field.Some? then field.value else ""
  }

  /**
   * `handle_add`: authenticate, check the IP's shape, insert the row with
   * the filtered label and the parsed expiration, then re-render. A missing
   * `ip` field (TypeError), a unit without digits (ValueError) or an
   * expiration outside SQLite's INTEGER range (OverflowError on insert)
   * raises before anything is written.
   */
  function AddStep(s: State, token: Token, session: Option<string>, ip: Option<string>,
                   labelText: Option<string>, expiration: Option<string>, now: int): (r: (State, Response))
    ensures r.1 == Redirect("/login") <==> !TokenMatches(session, token)
    ensures r.0 != s ==> r.1 == Redirect("/") && |r.0.rows| == |s.rows| + 1 && r.0.rows[..|s.rows|] == s.rows
    ensures InSync(s) ==> InSync(r.0)
  {
    if !TokenMatches(session, token) then (s, Redirect("/login"))
    else if ip.None? then (s, ServerError)
    else if !IpShape(ip.value) then (s, Redirect("/"))
    else
      match Duration.Duration(OrEmpty(expiration), now)
      case Err(_) => (s, ServerError)
      case Ok(e) =>
        if !FitsInt64(e) then (s, ServerError)
        else (Rendered(s.rows + [Row(NextId(s.rows), ip.value, SanitizeLabel(OrEmpty(labelText)), e)]), Redirect("/"))
  }

  /**
   * `handle_delete`: authenticate, delete the row with that id if there is
   * one, then re-render. An id outside SQLite's INTEGER range raises
   * (OverflowError) before anything is written.
   */
  function DeleteStep(s: State, token: Token, session: Option<string>, id: int): (r: (State, Response))
    ensures r.1 == Redirect("/login") <==> !TokenMatches(session, token)
    ensures r.1 != Redirect("/") ==> r.0 == s
    ensures r.1 == Redirect("/") ==> InSync(r.0) && |r.0.rows| <= |s.rows|
    ensures InSync(s) ==> InSync(r.0)
  {
    if !TokenMatches(session, token) then (s, Redirect("/login"))
    else if !FitsInt64(id) then (s, ServerError)
    else (Rendered(WithoutId(s.rows, id)), Redirect("/"))
  }

  /** One pass of the `refresh_list` loop: delete the expired rows and re-render only if some went. */
  function SweepStep(s: State, now: int): (r: (State, bool))
    ensures forall x :: x in r.0.rows <==> x in s.rows && !IsExpired(x, now)
    ensures r.1 <==> exists x :: x in s.rows && IsExpired(x, now)
    ensures InSync(s) ==> InSync(r.0)
  {
    LiveRowsUnchanged(s.rows, now);
    var expired := ExpiredRows(s.rows, now);
    assert expired != [] ==> expired[0] in expired;
    var removed := expired != [];
    var rows := LiveRows(s.rows, now);
    (if removed then Rendered(rows) else State(rows, s.conf), removed)
  }

  /** A sweep keeps exactly the live rows, in order. */
  lemma SweepStepRows(s: State, now: int)
    ensures SweepStep(s, now).0.rows == LiveRows(s.rows, now)
  {
  }

  /** The rows left after one sweep at each of the wake-up times in `clock`, in turn. */
  function SweepAll(rows: seq<Row>, clock: seq<int>): seq<Row>
  {
    if clock == [] then rows
    else LiveRows(SweepAll(rows, clock[..|clock| - 1]), clock[|clock| - 1])
  }

  /**
   * `handle_login_form`: a posted token equal to the secret is stored in the
   * session; the result is the new session value and the redirect.
   */
  function LoginStep(token: Token, session: Option<string>, posted: Option<string>): (r: (Option<string>, Response))
    ensures r.1 == Redirect("/") <==> TokenMatches(posted, token)
    ensures r.1 == Redirect("/") ==> TokenMatches(r.0, token)
    ensures r.1 != Redirect("/") ==> r.0 == session && r.1 == Redirect("/login")
  {
    if TokenMatches(posted, token) then (posted, Redirect("/")) else (session, Redirect("/login"))
  }

  // ---------------------------------------------------------------------
  // Properties of the steps
  // ---------------------------------------------------------------------

  /** The add handler's outcome, case by case. */
  lemma AddStepCases(s: State, token: Token, session: Option<string>, ip: Option<string>,
                     labelText: Option<string>, expiration: Option<string>, now: int)
    ensures var (s', response) := AddStep(s, token, session, ip, labelText, expiration, now);
      (!TokenMatches(session, token) ==> s' == s && response == Redirect("/login")) &&
      (TokenMatches(session, token) && ip.None? ==> s' == s && response == ServerError) &&
      (TokenMatches(session, token) && ip.Some? && !IpShape(ip.value) ==> s' == s && response == Redirect("/")) &&
      (TokenMatches(session, token) && ip.Some? && IpShape(ip.value) &&
       (Duration.Duration(OrEmpty(expiration), now).Err? || !FitsInt64(Duration.Duration(OrEmpty(expiration), now).value))
       ==> s' == s && response == ServerError) &&
      (s' != s ==> TokenMatches(session, token) && ip.Some? && IpShape(ip.value) &&
                   Duration.Duration(OrEmpty(expiration), now).Ok? &&
                   FitsInt64(Duration.Duration(OrEmpty(expiration), now).value) &&
                   s'.rows == s.rows + [Row(NextId(s.rows), ip.value, SanitizeLabel(OrEmpty(labelText)),
                                            Duration.Duration(OrEmpty(expiration), now).value)] &&
                   InSync(s') && response == Redirect("/"))
  {
  }

  /** A successful add appends one row whose id no current row carries, and keeps the table well formed. */
  lemma AddStepFreshRow(s: State, token: Token, session: Option<string>, ip: Option<string>,
                        labelText: Option<string>, expiration: Option<string>, now: int)
    requires WellFormed(s.rows)
    ensures var s' := AddStep(s, token, session, ip, labelText, expiration, now).0;
      WellFormed(s'.rows) &&
      (s'.rows != s.rows ==>
         |s'.rows| == |s.rows| + 1 && s'.rows[..|s.rows|] == s.rows &&
         forall i :: 0 <= i < |s.rows| ==> s.rows[i].id != s'.rows[|s.rows|].id)
  {
    var s' := AddStep(s, token, session, ip, labelText, expiration, now).0;
    if s'.rows != s.rows {
      AppendWellFormed(s.rows, ip.value, SanitizeLabel(OrEmpty(labelText)), Duration.Duration(OrEmpty(expiration), now).value);
    }
  }

  /**
   * Deleting the id an add just assigned gives back the table as it was
   * before the add (unless that id is past SQLite's INTEGER range, when the
   * delete raises and changes nothing).
   */
  lemma AddThenDelete(s: State, token: Token, session: Option<string>, ip: Option<string>,
                      labelText: Option<string>, expiration: Option<string>, now: int)
    requires WellFormed(s.rows)
    requires AddStep(s, token, session, ip, labelText, expiration, now).0 != s
    ensures var s1 := AddStep(s, token, session, ip, labelText, expiration, now).0;
      (FitsInt64(NextId(s.rows)) ==> DeleteStep(s1, token, session, NextId(s.rows)).0 == Rendered(s.rows)) &&
      (!FitsInt64(NextId(s.rows)) ==> DeleteStep(s1, token, session, NextId(s.rows)) == (s1, ServerError))
  {
    var id := NextId(s.rows);
    var row := Row(id, ip.value, SanitizeLabel(OrEmpty(labelText)), Duration.Duration(OrEmpty(expiration), now).value);
    WithoutIdAppend(s.rows, row);
    WithoutAbsentId(s.rows, id);
  }

  /** A delete keeps the table well formed and removes at most the one row with that id. */
  lemma DeleteStepEffect(s: State, token: Token, session: Option<string>, id: int)
    requires WellFormed(s.rows)
    ensures var s' := DeleteStep(s, token, session, id).0;
      WellFormed(s'.rows) &&
      (forall x :: x in s'.rows <==> x in s.rows && (x.id != id || !TokenMatches(session, token) || !FitsInt64(id))) &&
      ((forall i :: 0 <= i < |s.rows| ==> s.rows[i].id != id) ==> s'.rows == s.rows)
  {
    WithoutIdWellFormed(s.rows, id);
    if forall i :: 0 <= i < |s.rows| ==> s.rows[i].id != id {
      WithoutAbsentId(s.rows, id);
    }
  }

  /**
   * A sweep removes exactly the expired rows, keeps the others in order,
   * reports whether it removed any, and touches the file only then.
   */
  lemma SweepStepEffect(s: State, now: int)
    requires WellFormed(s.rows)
    ensures var (s', removed) := SweepStep(s, now);
      WellFormed(s'.rows) &&
      (forall x :: x in s'.rows <==> x in s.rows && !IsExpired(x, now)) &&
      |s.rows| - |s'.rows| == |ExpiredRows(s.rows, now)| &&
      (removed <==> |s'.rows| < |s.rows|) &&
      (removed ==> InSync(s')) &&
      (!removed ==> s' == s)
  {
    LiveRowsWellFormed(s.rows, now);
    ExpiredLiveCount(s.rows, now);
    LiveRowsUnchanged(s.rows, now);
  }

  /** With non-decreasing wake-up times, the rows left are those not expired at the last one. */
  lemma {:induction false} SweepAllLast(rows: seq<Row>, clock: seq<int>)
    requires clock != []
    requires forall i, j :: 0 <= i < j < |clock| ==> clock[i] <= clock[j]
    ensures SweepAll(rows, clock) == LiveRows(rows, clock[|clock| - 1])
    decreases |clock|
  {
    var init := clock[..|clock| - 1];
    if init != [] {
      SweepAllLast(rows, init);
      LiveRowsLater(rows, init[|init| - 1], clock[|clock| - 1]);
    }
  }

  /** With the secret unset, no login succeeds and no session is ever authenticated. */
  lemma UnsetTokenLocksOut(session: Option<string>, posted: Option<string>)
    ensures LoginStep(Unset, session, posted) == (session, Redirect("/login"))
    ensures !TokenMatches(session, Unset)
  {
  }

  lemma AddTwoDaysSample(t: int, secret: string, ip: string, labelText: string)
    requires IpShape(ip) && IsCleanLabel(labelText) && FitsInt64(t + 172800)
    ensures AddStep(Rendered([]), Secret(secret), Some(secret), Some(ip), Some(labelText), Some("2 days"), t).0.rows
            == [Row(1, ip, labelText, t + 172800)]
  {
    DurationDaysSample(t);
    SanitizeClean(labelText);
    assert NextId([]) == 1;
  }

  lemma SweepOneRowSample(s: State, row: Row)
    requires s.rows == [row] && row.expiration > 0
    ensures SweepStep(s, row.expiration) == (s, false)
    ensures SweepStep(s, row.expiration + 1) == (Rendered([]), true)
  {
    assert ExpiredRows([row], row.expiration) == [];
    assert LiveRows([row], row.expiration) == [row];
    assert ExpiredRows([row], row.expiration + 1) == [row];
    assert LiveRows([row], row.expiration + 1) == [];
  }

  /**
   * Adding an accepted IP with an already clean label for `2 days` at time
   * `t` stores expiration `t + 172800` under id 1; a sweep at that very
   * second keeps the row, and a sweep one second later removes it and
   * re-renders the empty file.
   */
  lemma TwoDayEntryScenario(t: int, secret: string, ip: string, labelText: string)
    requires t > 0 && t + 172800 <= Int64Max && IpShape(ip) && IsCleanLabel(labelText)
    ensures var s1 := AddStep(Rendered([]), Secret(secret), Some(secret), Some(ip), Some(labelText), Some("2 days"), t).0;
      s1.rows == [Row(1, ip, labelText, t + 172800)] &&
      SweepStep(s1, t + 172800) == (s1, false) &&
      SweepStep(s1, t + 172801) == (Rendered([]), true)
  {
    AddTwoDaysSample(t, secret, ip, labelText);
    var s1 := AddStep(Rendered([]), Secret(secret), Some(secret), Some(ip), Some(labelText), Some("2 days"), t).0;
    SweepOneRowSample(s1, Row(1, ip, labelText, t + 172800));
  }

  // ---------------------------------------------------------------------
  // Interleavings on the single-threaded event loop
  // ---------------------------------------------------------------------

  /**
   * What the event loop can run between two awaits: a handler's body after
   * its form was read, or one wake-up of the sweeper. Each runs to
   * completion before the next starts.
   */
  datatype Event =
    | AddRequest(session: Option<string>, ip: Option<string>, labelText: Option<string>,
                 expiration: Option<string>, now: int)
    | DeleteRequest(session: Option<string>, id: int)
    | Wake(now: int)

  function Apply(s: State, token: Token, e: Event): (r: State)
    ensures InSync(s) ==> InSync(r)
  {
    match e
    case AddRequest(session, ip, labelText, expiration, now) => AddStep(s, token, session, ip, labelText, expiration, now).0
    case DeleteRequest(session, id) => DeleteStep(s, token, session, id).0
    case Wake(now) => SweepStep(s, now).0
  }

  /** The state after the events, one after the other; a file that shows the table keeps showing it. */
  function Run(s: State, token: Token, events: seq<Event>): (r: State)
    ensures InSync(s) ==> InSync(r)
    decreases |events|
  {
    if events == [] then s else Run(Apply(s, token, events[0]), token, events[1..])
  }

  /** Every stored IP has the checked shape and every stored label only allowed characters. */
  predicate Checked(rows: seq<Row>)
  {
    forall x :: x in rows ==> IpShape(x.ip) && IsCleanLabel(x.labelText)
  }

  /** The invariants the process keeps once the sweeper has rendered the file. */
  predicate Good(s: State)
  {
    InSync(s) && WellFormed(s.rows) && Checked(s.rows)
  }

  lemma AddKeepsGood(s: State, token: Token, session: Option<string>, ip: Option<string>,
                     labelText: Option<string>, expiration: Option<string>, now: int)
    requires Good(s)
    ensures Good(AddStep(s, token, session, ip, labelText, expiration, now).0)
  {
    var s' := AddStep(s, token, session, ip, labelText, expiration, now).0;
    if s' != s {
      AddStepCases(s, token, session, ip, labelText, expiration, now);
      AppendWellFormed(s.rows, ip.value, SanitizeLabel(OrEmpty(labelText)),
                       Duration.Duration(OrEmpty(expiration), now).value);
    }
  }

  lemma DeleteKeepsGood(s: State, token: Token, session: Option<string>, id: int)
    requires Good(s)
    ensures Good(DeleteStep(s, token, session, id).0)
  {
    WithoutIdWellFormed(s.rows, id);
  }

  lemma SweepKeepsGood(s: State, now: int)
    requires Good(s)
    ensures Good(SweepStep(s, now).0)
  {
    LiveRowsWellFormed(s.rows, now);
    LiveRowsUnchanged(s.rows, now);
  }

  lemma ApplyKeepsGood(s: State, token: Token, e: Event)
    requires Good(s)
    ensures Good(Apply(s, token, e))
  {
    match e
    case AddRequest(session, ip, labelText, expiration, now) =>
      AddKeepsGood(s, token, session, ip, labelText, expiration, now);
    case DeleteRequest(session, id) =>
      DeleteKeepsGood(s, token, session, id);
    case Wake(now) =>
      SweepKeepsGood(s, now);
  }

  /**
   * Whatever order requests and wake-ups arrive in, the file keeps showing
   * the table, ids stay unique and ascending, and only checked IPs and
   * filtered labels are ever stored.
   */
  lemma {:induction false} RunKeepsGood(s: State, token: Token, events: seq<Event>)
    requires Good(s)
    ensures Good(Run(s, token, events))
    decreases |events|
  {
    if events != [] {
      ApplyKeepsGood(s, token, events[0]);
      RunKeepsGood(Apply(s, token, events[0]), token, events[1..]);
    }
  }

  /**
   * In a good state whose ids stay below 1000 and whose expirations stay
   * before year 10000, the file on disk reads back as exactly the table.
   */
  lemma ConfReadsBack(s: State)
    requires Good(s)
    requires forall i :: 0 <= i < |s.rows| ==> s.rows[i].id < 1000 && 0 <= s.rows[i].expiration < MaxTimestamp
    ensures ParseConf(s.conf) == Some(s.rows)
  {
    forall i | 0 <= i < |s.rows| ensures Renderable(s.rows[i]) {
      var x := s.rows[i];
      assert x in s.rows;
      assert '\n' !in x.labelText by {
        forall k | 0 <= k < |x.labelText| ensures x.labelText[k] != '\n' {
          assert IsLabelChar(x.labelText[k]);
        }
      }
    }
    ParseAllowConf(s.rows);
  }

  // ---------------------------------------------------------------------
  // The process: the database object, the secret and the file
  // ---------------------------------------------------------------------

  class App {
    const db: AlohomoraDatabase
    const token: Token
    /** The contents of `data/allow.conf`. */
    var conf: string

    ghost predicate Valid()
      reads this, db
    {
      db.Valid()
    }

    ghost function Snapshot(): State
      reads this, db
    {
      State(db.rows, conf)
    }

    /** Process start: the opened database, the secret read from the environment, the file as left on disk. */
    constructor (db: AlohomoraDatabase, token: Token, conf: string)
      requires db.Valid()
      ensures this.db == db && this.token == token && this.conf == conf
      ensures Valid()
    {
      this.db := db;
      this.token := token;
      this.conf := conf;
    }

    /** `update_allow_conf()`: the file is overwritten with the rendering of `select()`. */
    method UpdateAllowConf()
      requires Valid()
      modifies this
      ensures Valid()
      ensures Snapshot() == Rendered(old(db.rows))
    {
      var rows := db.Select();
      conf := AllowConf(rows);
    }

    /** `handle_add` */
    method HandleAdd(session: Option<string>, ip: Option<string>, labelText: Option<string>,
                     expiration: Option<string>, now: int) returns (response: Response)
      requires Valid()
      modifies this, db
      ensures Valid()
      ensures (Snapshot(), response) == AddStep(old(Snapshot()), token, session, ip, labelText, expiration, now)
    {
      if !TokenMatches(session, token) {
        return Redirect("/login");
      }
      if ip.None? {
        return ServerError;
      }
      if !IpShape(ip.value) {
        return Redirect("/");
      }
      var filtered := SanitizeLabel(OrEmpty(labelText));
      var parsed := Duration.Duration(OrEmpty(expiration), now);
      if parsed.Err? {
        return ServerError;
      }
      var stored := db.Insert(ip.value, filtered, parsed.value);
      if !stored {
        return ServerError;
      }
      UpdateAllowConf();
      response := Redirect("/");
    }

    /** `handle_delete`; the route only matches ids written with digits. */
    method HandleDelete(session: Option<string>, idText: string) returns (response: Response)
      requires Valid()
      requires idText != [] && AllDigits(idText)
      modifies this, db
      ensures Valid()
      ensures (Snapshot(), response) == DeleteStep(old(Snapshot()), token, session, Value(idText))
    {
      if !TokenMatches(session, token) {
        return Redirect("/login");
      }
      var bound := db.Delete(Value(idText));
      if !bound {
        return ServerError;
      }
      UpdateAllowConf();
      response := Redirect("/");
    }

    /** `handle_index`: the table handed to the page template, for an authenticated session only. */
    method HandleIndex(session: Option<string>) returns (whiteList: Option<seq<Row>>)
      requires Valid()
      ensures whiteList.Some? <==> TokenMatches(session, token)
      ensures whiteList.Some? ==> whiteList.value == db.rows && WellFormed(whiteList.value)
    {
      if !TokenMatches(session, token) {
        return None;
      }
      var rows := db.Select();
      whiteList := Some(rows);
    }

    /** `download_conf`: the rendering of the current table, for an authenticated session only. */
    method DownloadConf(session: Option<string>) returns (text: Option<string>)
      requires Valid()
      ensures text.Some? <==> TokenMatches(session, token)
      ensures text.Some? ==> text.value == AllowConf(db.rows)
      ensures text.Some? && InSync(Snapshot()) ==> text.value == conf
    {
      if !TokenMatches(session, token) {
        return None;
      }
      var rows := db.Select();
      text := Some(AllowConf(rows));
    }

    /** One pass of the sweeper loop: `if db.delete_expired(): update_allow_conf()`. */
    method SweepOnce(now: int) returns (removed: bool)
      requires Valid()
      modifies this, db
      ensures Valid()
      ensures (Snapshot(), removed) == SweepStep(old(Snapshot()), now)
    {
      removed := db.DeleteExpired(now);
      if removed {
        UpdateAllowConf();
      } else {
        LiveRowsUnchanged(old(db.rows), now);
      }
    }

    /**
     * `refresh_list`: render once at start, then sweep at each wake-up time
     * in `clock` (the loop sleeps 600 seconds between passes).
     */
    method RefreshList(clock: seq<int>)
      requires Valid()
      modifies this, db
      ensures Valid()
      ensures InSync(Snapshot())
      ensures db.rows == SweepAll(old(db.rows), clock)
    {
      UpdateAllowConf();
      var i := 0;
      while i < |clock|
        invariant 0 <= i <= |clock|
        invariant Valid()
        invariant InSync(Snapshot())
        invariant db.rows == SweepAll(old(db.rows), clock[..i])
      {
        ghost var before := Snapshot();
        var removed := SweepOnce(clock[i]);
        SweepStepRows(before, clock[i]);
        assert clock[..i + 1][..i] == clock[..i];
        i := i + 1;
      }
      assert clock[..|clock|] == clock;
    }
  }
}
