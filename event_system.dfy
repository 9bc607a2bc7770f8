/** The WAL-size change observer (core/event_system.rs): on every tick the monitor looks at the
    size of the iMessage database's write-ahead log and, when it changed, asks the database for
    a capped batch of message ids and emits events. The file system, the clock and the SQL
    query are inputs of each tick. */
module EventSystem {

  import opened Wrappers
  import opened Config

  /** `DatabaseEvent`. Message ids are `i32` in the source and unbounded here. */
  datatype DatabaseEvent =
    | MessagesAdded(ids: seq<int>)
    | MessagesModified(ids: seq<int>)
    | TransactionComplete(walSize: nat, timestamp: int)
    | MonitoringError(message: string)

  // ---------------------------------------------------------------------------------------
  // The WAL path: `PathBuf::set_extension("db-wal")` on the database path
  // ---------------------------------------------------------------------------------------

  /** `s` ends with `t`. */
  predicate EndsWith(s: string, t: string)
  {
    |t| <= |s| && s[|s| - |t|..] == t
  }

  /** Index where the last path component starts: just after the last '/'. */
  function FileNameStart(path: string): (k: nat)
    ensures k <= |path|
    ensures k > 0 ==> path[k - 1] == '/'
    ensures forall i :: k <= i < |path| ==> path[i] != '/'
  {
    if path == [] then 0
    else if path[|path| - 1] == '/' then |path|
    else
      var k := FileNameStart(path[..|path| - 1]);
      assert forall i :: k <= i < |path| - 1 ==> path[..|path| - 1][i] == path[i];
      k
  }

  /** Index of the last '.' of `s`, if any. */
  function LastDot(s: string): (r: Option<nat>)
    ensures r.Some? ==> r.value < |s| && s[r.value] == '.' && forall i :: r.value < i < |s| ==> s[i] != '.'
    ensures r.None? ==> forall i :: 0 <= i < |s| ==> s[i] != '.'
  {
    if s == [] then None
    else if s[|s| - 1] == '.' then Some(|s| - 1)
    else
      var r := LastDot(s[..|s| - 1]);
      assert forall i :: 0 <= i < |s| - 1 ==> s[..|s| - 1][i] == s[i];
      r
  }

  /** Length of the file stem: the name up to its last '.', unless that dot is the first
      character (a dot file), in which case the whole name is the stem. */
  function StemLength(name: string): (n: nat)
    ensures n <= |name|
    ensures n < |name| ==> 0 < n && name[n] == '.' && forall i :: n < i < |name| ==> name[i] != '.'
  {
    match LastDot(name)
    case Some(k) => if k > 0 then k else |name|
    case None => |name|
  }

  /** `set_extension(ext)`: a path without a file name is left alone; otherwise everything
      after the stem is replaced by "." + `ext` (by nothing when `ext` is empty). */
  function SetExtension(path: string, ext: string): string
  {
    var start := FileNameStart(path);
    var name := path[start..];
    if name == [] || name == "." || name == ".." then path
    else path[..start + StemLength(name)] + (if ext == [] then [] else "." + ext)
  }

  /** A path is either left alone, or keeps its directory part and ends in the extension. */
  lemma SetExtensionKeepsDirectory(path: string, ext: string)
    ensures var start := FileNameStart(path);
            var r := SetExtension(path, ext);
            r == path || (start < |r| && r[..start] == path[..start] && EndsWith(r, ext))
  {
    var start := FileNameStart(path);
    var name := path[start..];
    if !(name == [] || name == "." || name == "..") {
      var stem := path[..start + StemLength(name)];
      var r := stem + (if ext == [] then [] else "." + ext);
      assert r[..start] == stem[..start] == path[..start];
      if ext != [] {
        assert r[|r| - |ext|..] == ext;
      }
    }
  }

  /** `get_wal_path`. */
  function WalPath(dbPath: string): string
  {
    SetExtension(dbPath, "db-wal")
  }

  /** The file name of `dir + name` starts right after `dir` when `dir` ends with a slash and
      `name` has none. */
  lemma {:induction false} FileNameStartAfterDirectory(dir: string, name: string)
    requires dir == [] || dir[|dir| - 1] == '/'
    requires forall i :: 0 <= i < |name| ==> name[i] != '/'
    ensures FileNameStart(dir + name) == |dir|
    decreases |name|
  {
    if name == [] {
      assert dir + name == dir;
      if dir != [] {
        assert dir == dir[..|dir| - 1] + [dir[|dir| - 1]];
      }
    } else {
      var path := dir + name;
      assert path[..|path| - 1] == dir + name[..|name| - 1];
      FileNameStartAfterDirectory(dir, name[..|name| - 1]);
    }
  }

  /** The stem of `<stem>.db` is `<stem>`. */
  lemma StemOfDbName(stem: string)
    requires stem != []
    ensures StemLength(stem + ".db") == |stem|
  {
    var name := stem + ".db";
    assert name[..|name| - 1] == stem + ".d";
    assert (stem + ".d")[..|stem| + 1] == stem + ".";
    assert LastDot(stem + ".") == Some(|stem|);
    assert LastDot(name) == Some(|stem|);
  }

  /** A database file named `<stem>.db` in directory `dir` has its WAL next to it, named
      `<stem>.db-wal`. */
  lemma WalPathOfDbFile(dir: string, stem: string)
    requires dir == [] || dir[|dir| - 1] == '/'
    requires stem != [] && forall i :: 0 <= i < |stem| ==> stem[i] != '/'
    ensures WalPath(dir + stem + ".db") == dir + stem + ".db-wal"
  {
    var name := stem + ".db";
    var path := dir + name;
    assert dir + stem + ".db" == path;
    DbNameHasNoSlash(stem);
    FileNameStartAfterDirectory(dir, name);
    StemOfDbName(stem);
    assert path[|dir|..] == name;
    SetExtensionOfNamedFile(path, "db-wal", |dir|, |stem|);
    assert path[..|dir| + |stem|] == dir + stem;
    DotDbWal();
  }

  lemma DotDbWal()
    ensures "." + "db-wal" == ".db-wal"
  {
    var s := "." + "db-wal";
    assert |s| == 7 && s[0] == '.' && s[1..] == "db-wal";
  }

  lemma DbNameHasNoSlash(stem: string)
    requires forall i :: 0 <= i < |stem| ==> stem[i] != '/'
    ensures forall i :: 0 <= i < |stem + ".db"| ==> (stem + ".db")[i] != '/'
  {
    var name := stem + ".db";
    forall i | 0 <= i < |name| ensures name[i] != '/' {
      if i < |stem| {
        assert name[i] == stem[i];
      }
    }
  }

  /** `SetExtension` on a path whose file name is a real name with a stem of length `n`. */
  lemma SetExtensionOfNamedFile(path: string, ext: string, start: nat, n: nat)
    requires start == FileNameStart(path)
    requires |path[start..]| > 2 && StemLength(path[start..]) == n
    ensures start + n <= |path|
    ensures SetExtension(path, ext) == path[..start + n] + (if ext == [] then [] else "." + ext)
  {
  }

  /** With the default database path the monitor watches `chat.db-wal`. */
  lemma DefaultWalPath()
    ensures WalPath(Default().database.imessageDbPath) == "~/Library/Messages/chat.db-wal"
  {
    WalPathOfDbFile("~/Library/Messages/", "chat");
    assert "~/Library/Messages/" + "chat" + ".db" == "~/Library/Messages/chat.db";
    assert "~/Library/Messages/" + "chat" + ".db-wal" == "~/Library/Messages/chat.db-wal";
  }

  // ---------------------------------------------------------------------------------------
  // The changed-message query: `detect_message_changes`
  // ---------------------------------------------------------------------------------------

  /** Collecting query rows with `?`: every value, or the first row error. */
  function Collect(rows: seq<Result<int>>): (r: Result<seq<int>>)
    ensures r.Ok? <==> forall i :: 0 <= i < |rows| ==> rows[i].Ok?
    ensures r.Ok? ==> |r.value| == |rows| && forall i :: 0 <= i < |rows| ==> r.value[i] == rows[i].value
    ensures r.Err? ==> exists i :: 0 <= i < |rows| && rows[i] == Err(r.error) && forall j :: 0 <= j < i ==> rows[j].Ok?
  {
    if rows == [] then Ok([])
    else if rows[0].Err? then Err(rows[0].error)
    else
      var rest := Collect(rows[1..]);
      assert forall i :: 1 <= i < |rows| ==> rows[1..][i - 1] == rows[i];
      match rest
      case Ok(vs) => Ok([rows[0].value] + vs)
      case Err(e) =>
        var k :| 0 <= k < |rows[1..]| && rows[1..][k] == Err(e) && forall j :: 0 <= j < k ==> rows[1..][j].Ok?;
        assert rows[k + 1] == Err(e) && forall j :: 0 <= j < k + 1 ==> rows[j].Ok?;
        Err(e)
  }

  /** SQL `LIMIT max`: at most the first `max` rows. */
  function Limit<T>(rows: seq<T>, max: nat): (r: seq<T>)
    ensures |r| <= max && r <= rows
    ensures |rows| <= max ==> r == rows
  {
    if |rows| <= max then rows else rows[..max]
  }

  /** The ids one query yields: the query outcome (`query` is Err when opening or preparing
      fails, otherwise the rows in the order the SQL returns them) capped at `max` rows and
      collected. Never more than `max` ids, each the value of the row at its position. */
  function ChangedIds(query: Result<seq<Result<int>>>, max: nat): (r: Result<seq<int>>)
    ensures query.Err? ==> r == Err(query.error)
    ensures r.Ok? ==> && |r.value| <= max && query.Ok?
                      && |r.value| <= |query.value|
                      && forall i :: 0 <= i < |r.value| ==> query.value[i] == Ok(r.value[i])
    ensures query.Ok? && (forall i :: 0 <= i < |query.value| ==> query.value[i].Ok?) ==>
              r.Ok? && |r.value| == if |query.value| <= max then |query.value| else max
  {
    match query
    case Err(e) => Err(e)
    case Ok(rows) => Collect(Limit(rows, max))
  }

  // ---------------------------------------------------------------------------------------
  // One tick: `check_for_changes`
  // ---------------------------------------------------------------------------------------

  /** What the file system says about the WAL file on one tick. */
  datatype WalProbe = WalAbsent | WalSize(bytes: nat) | MetadataFailed(message: string)

  /** The monitor's two fields. */
  datatype MonitorState = MonitorState(lastWalSize: nat, lastCheck: int)

  /** The outcome of one tick and the monitor's state after it. */
  function Tick(m: MonitorState, probe: WalProbe, query: Result<seq<Result<int>>>, max: nat, now: int)
    : (Result<seq<DatabaseEvent>>, MonitorState)
  {
    match probe
    case WalAbsent => (Ok([]), m)
    case MetadataFailed(msg) => (Err(msg), m)
    case WalSize(size) =>
      if size == m.lastWalSize then (Ok([]), m.(lastCheck := now))
      else
        match ChangedIds(query, max)
        case Err(e) => (Err(e), m)
        case Ok(ids) =>
          (Ok((if ids != [] then [MessagesModified(ids)] else []) + [TransactionComplete(size, now)]),
           MonitorState(size, now))
  }

  /** The events of a tick: nothing, or an optional non-empty `MessagesModified` batch of at
      most `max` ids followed by exactly one `TransactionComplete` carrying the new size and
      the tick time; the size field moves exactly when events are emitted. */
  lemma TickEventShape(m: MonitorState, probe: WalProbe, query: Result<seq<Result<int>>>, max: nat, now: int)
    ensures var (r, m') := Tick(m, probe, query, max, now);
            r.Ok? ==>
              && (r.value == [] <==> m'.lastWalSize == m.lastWalSize)
              && (r.value != [] ==>
                    && probe.WalSize? && m'.lastWalSize == probe.bytes != m.lastWalSize
                    && r.value[|r.value| - 1] == TransactionComplete(probe.bytes, now)
                    && (|r.value| == 1 || (|r.value| == 2 && r.value[0].MessagesModified?
                                            && r.value[0].ids != [] && |r.value[0].ids| <= max)))
  {
  }

  /** A missing WAL file: nothing is emitted and neither field changes. */
  lemma AbsentWalIsIgnored(m: MonitorState, query: Result<seq<Result<int>>>, max: nat, now: int)
    ensures Tick(m, WalAbsent, query, max, now) == (Ok([]), m)
  {
  }

  /** An unchanged size: nothing is emitted and only the check time advances. */
  lemma UnchangedWalOnlyAdvancesClock(m: MonitorState, query: Result<seq<Result<int>>>, max: nat, now: int)
    ensures Tick(m, WalSize(m.lastWalSize), query, max, now) == (Ok([]), MonitorState(m.lastWalSize, now))
  {
  }

  /** A failing id query leaves the state as it was, so a later tick that sees the same size
      and gets an answer still reports the change. */
  lemma {:induction false} FailedQueryIsRetried(m: MonitorState, size: nat, bad: Result<seq<Result<int>>>,
                                                 good: Result<seq<Result<int>>>, max: nat, now: int, later: int)
    requires Tick(m, WalSize(size), bad, max, now).0.Err?
    requires ChangedIds(good, max).Ok?
    ensures Tick(m, WalSize(size), bad, max, now).1 == m
    ensures var (r, m') := Tick(m, WalSize(size), good, max, later);
            r.Ok? && r.value != [] && r.value[|r.value| - 1] == TransactionComplete(size, later)
            && m'.lastWalSize == size
  {
    assert size != m.lastWalSize;
  }

  /** The monitor starts at size 0, so the first tick that sees a non-empty WAL (and gets an
      answer to its query) reports a transaction. */
  lemma FirstNonEmptyWalIsReported(start: int, size: nat, query: Result<seq<Result<int>>>, max: nat, now: int)
    requires size > 0 && ChangedIds(query, max).Ok?
    ensures var (r, _) := Tick(MonitorState(0, start), WalSize(size), query, max, now);
            r.Ok? && TransactionComplete(size, now) in r.value
  {
  }

  /** After a tick that recorded `size`, a tick that sees the same size is silent. */
  lemma {:induction false} SecondTickAtSameSizeIsSilent(m: MonitorState, size: nat, q1: Result<seq<Result<int>>>,
                                                         q2: Result<seq<Result<int>>>, max: nat, t1: int, t2: int)
    requires Tick(m, WalSize(size), q1, max, t1).0.Ok?
    ensures Tick(Tick(m, WalSize(size), q1, max, t1).1, WalSize(size), q2, max, t2).0 == Ok([])
  {
    var m1 := Tick(m, WalSize(size), q1, max, t1).1;
    assert m1.lastWalSize == size;
  }

  // ---------------------------------------------------------------------------------------
  // The event stream: `start_monitoring`
  // ---------------------------------------------------------------------------------------

  /** The inputs of one tick. */
  datatype TickInput = TickInput(probe: WalProbe, query: Result<seq<Result<int>>>, now: int)

  /** The events one tick puts on the stream: its events, or one `MonitoringError`. */
  function Yielded(r: Result<seq<DatabaseEvent>>): (evs: seq<DatabaseEvent>)
    ensures r.Err? ==> evs == [MonitoringError(r.error)]
    ensures r.Ok? ==> evs == r.value
  {
    match r
    case Ok(es) => es
    case Err(e) => [MonitoringError(e)]
  }

  /** The stream over a finite run of ticks, and the state after it. */
  function TickStream(m: MonitorState, ticks: seq<TickInput>, max: nat): (seq<DatabaseEvent>, MonitorState)
    decreases |ticks|
  {
    if ticks == [] then ([], m)
    else
      var (r, m1) := Tick(m, ticks[0].probe, ticks[0].query, max, ticks[0].now);
      var (rest, m2) := TickStream(m1, ticks[1..], max);
      (Yielded(r) + rest, m2)
  }

  /** Running two stretches of ticks one after the other is running them together. */
  lemma {:induction false} TickStreamAppend(m: MonitorState, t1: seq<TickInput>, t2: seq<TickInput>, max: nat)
    ensures TickStream(m, t1 + t2, max).0
            == TickStream(m, t1, max).0 + TickStream(TickStream(m, t1, max).1, t2, max).0
    ensures TickStream(m, t1 + t2, max).1 == TickStream(TickStream(m, t1, max).1, t2, max).1
    decreases |t1|
  {
    if t1 == [] {
      assert t1 + t2 == t2;
    } else {
      assert (t1 + t2)[0] == t1[0];
      assert (t1 + t2)[1..] == t1[1..] + t2;
      var (r, m1) := Tick(m, t1[0].probe, t1[0].query, max, t1[0].now);
      TickStreamAppend(m1, t1[1..], t2, max);
      TickStreamUnfold(m, t1, max);
      TickStreamUnfold(m, t1 + t2, max);
    }
  }

  /** A failing tick puts exactly one `MonitoringError` on the stream and the monitoring goes
      on from the unchanged state: the ticks after it run as if it had not happened. */
  lemma ErrorTickYieldsOneErrorAndContinues(m: MonitorState, t: TickInput, rest: seq<TickInput>, max: nat)
    requires Tick(m, t.probe, t.query, max, t.now).0.Err?
    ensures var e := Tick(m, t.probe, t.query, max, t.now).0.error;
            TickStream(m, [t] + rest, max)
            == ([MonitoringError(e)] + TickStream(m, rest, max).0, TickStream(m, rest, max).1)
  {
    assert ([t] + rest)[0] == t && ([t] + rest)[1..] == rest;
    assert Tick(m, t.probe, t.query, max, t.now).1 == m;
  }

  /** One step of `TickStream`, unfolded. */
  lemma TickStreamUnfold(m: MonitorState, ticks: seq<TickInput>, max: nat)
    requires ticks != []
    ensures var (r, m1) := Tick(m, ticks[0].probe, ticks[0].query, max, ticks[0].now);
            TickStream(m, ticks, max).0 == Yielded(r) + TickStream(m1, ticks[1..], max).0
            && TickStream(m, ticks, max).1 == TickStream(m1, ticks[1..], max).1
  {
  }

  /** The stream from tick `i` on is that tick's contribution followed by the rest. */
  lemma StreamStep(m: MonitorState, ticks: seq<TickInput>, i: nat, max: nat,
                   r: Result<seq<DatabaseEvent>>, m1: MonitorState)
    requires i < |ticks|
    requires (r, m1) == Tick(m, ticks[i].probe, ticks[i].query, max, ticks[i].now)
    ensures TickStream(m, ticks[i..], max).0 == Yielded(r) + TickStream(m1, ticks[i + 1..], max).0
    ensures TickStream(m, ticks[i..], max).1 == TickStream(m1, ticks[i + 1..], max).1
  {
    TickStreamUnfold(m, ticks[i..], max);
    assert ticks[i..][0] == ticks[i] && ticks[i..][1..] == ticks[i + 1..];
  }

  /** The loop of `start_monitoring` keeps the events yielded so far followed by the rest of
      the stream equal to the whole stream. */
  lemma StreamAdvance(whole: (seq<DatabaseEvent>, MonitorState), events: seq<DatabaseEvent>,
                      m: MonitorState, ticks: seq<TickInput>, i: nat, max: nat,
                      r: Result<seq<DatabaseEvent>>, m1: MonitorState)
    requires i < |ticks|
    requires (r, m1) == Tick(m, ticks[i].probe, ticks[i].query, max, ticks[i].now)
    requires whole.0 == events + TickStream(m, ticks[i..], max).0
    requires whole.1 == TickStream(m, ticks[i..], max).1
    ensures whole.0 == (events + Yielded(r)) + TickStream(m1, ticks[i + 1..], max).0
    ensures whole.1 == TickStream(m1, ticks[i + 1..], max).1
  {
    StreamStep(m, ticks, i, max, r, m1);
  }

  /** `WalMonitor`. */
  class WalMonitor {
    const config: DatabaseConfig
    var lastWalSize: nat
    var lastCheck: int

    function State(): MonitorState
      reads this
    {
      MonitorState(lastWalSize, lastCheck)
    }

    /** `WalMonitor::new`: size 0, checked at `now`. */
    constructor(config: DatabaseConfig, now: int)
      ensures this.config == config && State() == MonitorState(0, now)
    {
      this.config := config;
      lastWalSize := 0;
      lastCheck := now;
    }

    /** `detect_message_changes`: push the queried ids one by one, stopping at a row error. */
    method DetectMessageChanges(query: Result<seq<Result<int>>>) returns (r: Result<seq<int>>)
      ensures r == ChangedIds(query, config.maxBatchSize)
    {
      if query.Err? {
        return Err(query.error);
      }
      var rows := Limit(query.value, config.maxBatchSize);
      var messageIds: seq<int> := [];
      var i := 0;
      while i < |rows|
        invariant 0 <= i <= |rows|
        invariant |messageIds| == i
        invariant forall j :: 0 <= j < i ==> rows[j].Ok? && messageIds[j] == rows[j].value
      {
        if rows[i].Err? {
          var c := Collect(rows);
          assert c.Err?;
          var k :| 0 <= k < |rows| && rows[k] == Err(c.error) && forall j :: 0 <= j < k ==> rows[j].Ok?;
          assert k == i;
          return Err(rows[i].error);
        }
        messageIds := messageIds + [rows[i].value];
        i := i + 1;
      }
      assert Collect(rows).Ok? && Collect(rows).value == messageIds;
      return Ok(messageIds);
    }

    /** `check_for_changes`: one tick. */
    method CheckForChanges(probe: WalProbe, query: Result<seq<Result<int>>>, now: int)
      returns (r: Result<seq<DatabaseEvent>>)
      modifies this
      ensures r == Tick(old(State()), probe, query, config.maxBatchSize, now).0
      ensures State() == Tick(old(State()), probe, query, config.maxBatchSize, now).1
    {
      match probe {
        case WalAbsent =>
          return Ok([]);
        case MetadataFailed(msg) =>
          return Err(msg);
        case WalSize(currentSize) =>
          var events: seq<DatabaseEvent> := [];
          if currentSize != lastWalSize {
            var changed := DetectMessageChanges(query);
            if changed.Err? {
              return Err(changed.error);
            }
            if changed.value != [] {
              events := events + [MessagesModified(changed.value)];
            }
            events := events + [TransactionComplete(currentSize, now)];
            assert events == (if changed.value != [] then [MessagesModified(changed.value)] else [])
                             + [TransactionComplete(currentSize, now)];
            lastWalSize := currentSize;
          }
          lastCheck := now;
          return Ok(events);
      }
    }

    /** `start_monitoring` over a finite run of ticks: each tick's events, or a
        `MonitoringError` for a failing tick, after which the ticks continue. */
    method StartMonitoring(ticks: seq<TickInput>) returns (events: seq<DatabaseEvent>)
      modifies this
      ensures events == TickStream(old(State()), ticks, config.maxBatchSize).0
      ensures State() == TickStream(old(State()), ticks, config.maxBatchSize).1
    {
      events := [];
      var i := 0;
      ghost var start := State();
      ghost var whole := TickStream(start, ticks, config.maxBatchSize);
      assert ticks[0..] == ticks;
      while i < |ticks|
        invariant 0 <= i <= |ticks|
        invariant whole.0 == events + TickStream(State(), ticks[i..], config.maxBatchSize).0
        invariant whole.1 == TickStream(State(), ticks[i..], config.maxBatchSize).1
      {
        ghost var before := State();
        var r := CheckForChanges(ticks[i].probe, ticks[i].query, ticks[i].now);
        StreamAdvance(whole, events, before, ticks, i, config.maxBatchSize, r, State());
        events := events + Yielded(r);
        i := i + 1;
      }
      assert ticks[i..] == [];
      assert events + [] == events;
    }
  }
}
