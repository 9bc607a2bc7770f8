/** The single-file tracker the binary runs (`MessageTracker` in main.rs). It keeps an in-memory
    cache of the messages that still have text. Each poll it scans newer messages into the cache,
    re-reads every cached id, and reports a message whose text vanished after an edit. The report
    is appended to a JSON log file, and the cache entry is replaced by the blank message. */
module SimpleTracker {
  import opened Wrappers
  import opened Text

  /** One row of the iMessage `message` table. */
  datatype RealMessage = RealMessage(
    id: int,
    guid: string,
    text: Option<string>,
    handleId: Option<int>,
    date: int,
    dateEdited: Option<int>,
    dateRetracted: Option<int>,
    isFromMe: bool,
    cacheHasAttachments: bool)

  /** One row of the `handle` table: the contact a message came from. */
  datatype Handle = Handle(id: int, identifier: string, service: string)

  /** The handle table, loaded once when the database is opened. */
  type Handles = map<int, Handle>

  datatype DeletionEvent = DeletionEvent(
    messageId: int,
    timestamp: int,
    content: Option<string>,
    attachments: seq<string>,
    sender: string)

  /** The cache, keyed by message id. */
  type Cache = map<int, RealMessage>

  const NanosPerSecond: int := 1_000_000_000
  const QueryFailed: string := "message query failed"
  const LogUnreadable: string := "deletion log could not be read"
  const LogWriteFailed: string := "deletion log could not be written"

  // ---------------------------------------------------------------------------------------
  // Database queries (database.rs), over a snapshot of the message table in ROWID order

  /** The rows `get_messages_newer_than(minId)` returns. */
  function NewerThan(table: seq<RealMessage>, minId: int): (r: seq<RealMessage>)
    ensures forall m :: m in r <==> m in table && m.id > minId
  {
    if table == [] then []
    else (if table[0].id > minId then [table[0]] else []) + NewerThan(table[1..], minId)
  }

  /** The rows `get_messages_by_ids(ids)` returns. */
  function RowsWithIds(table: seq<RealMessage>, ids: set<int>): (r: seq<RealMessage>)
    ensures forall m :: m in r <==> m in table && m.id in ids
  {
    if table == [] then []
    else (if table[0].id in ids then [table[0]] else []) + RowsWithIds(table[1..], ids)
  }

  // ---------------------------------------------------------------------------------------
  // The conversation filter

  /** With a filter, a message is kept when its handle resolves and the handle's identifier
      contains the filter text; a message without a resolvable handle is kept iff it is the
      user's own. Without a filter, every message is kept. */
  predicate Kept(m: RealMessage, filter: Option<string>, handles: Handles) {
    match filter
    case None => true
    case Some(f) =>
      if m.handleId.Some? && m.handleId.value in handles
      then Contains(handles[m.handleId.value].identifier, f)
      else m.isFromMe
  }

  /** The filter step of `load_initial_messages` and `check_for_changes`. */
  function Filtered(ms: seq<RealMessage>, filter: Option<string>, handles: Handles): (r: seq<RealMessage>)
    ensures |r| <= |ms|
    ensures forall m :: m in r ==> m in ms
    ensures filter.None? ==> r == ms
  {
    if ms == [] then []
    else (if Kept(ms[0], filter, handles) then [ms[0]] else []) + Filtered(ms[1..], filter, handles)
  }

  /** The filter keeps exactly the messages `Kept` accepts. */
  lemma {:induction false} FilteredKeepsExactlyKept(ms: seq<RealMessage>, filter: Option<string>, handles: Handles)
    ensures forall m :: m in Filtered(ms, filter, handles) <==> m in ms && Kept(m, filter, handles)
    decreases |ms|
  {
    if ms != [] {
      FilteredKeepsExactlyKept(ms[1..], filter, handles);
      assert ms == [ms[0]] + ms[1..];
    }
  }

  // ---------------------------------------------------------------------------------------
  // Deletion detection

  /** The message carries text that is not empty once trimmed (see `WasDeletedMeaning`). */
  predicate HasText(m: RealMessage) {
    m.text.Some? && HasVisibleChar(m.text.value)
  }

  /** Rust's derived order on `Option<i64>`: `None` is below every `Some`. */
  predicate OptionLess(a: Option<int>, b: Option<int>) {
    match (a, b)
    case (None, Some(_)) => true
    case (Some(x), Some(y)) => x < y
    case _ => false
  }

  lemma OptionLessIsStrictOrder(a: Option<int>, b: Option<int>, c: Option<int>)
    ensures !OptionLess(a, a)
    ensures OptionLess(a, b) ==> !OptionLess(b, a)
    ensures OptionLess(a, b) && OptionLess(b, c) ==> OptionLess(a, c)
    ensures b.Some? ==> (OptionLess(None, b) && !OptionLess(b, None))
  {
  }

  /** `was_deleted`: the cached message had text, the current one has none, and it carries an
      edit time later than the cached one. */
  predicate WasDeleted(cached: RealMessage, current: RealMessage) {
    HasText(cached)
    && !HasText(current)
    && current.dateEdited.Some?
    && OptionLess(cached.dateEdited, current.dateEdited)
  }

  /** The detection rule as the source writes it, with trimmed text, and in plain terms: the
      text went from non-blank to missing or blank, and the current edit time exists and is
      later than the cached one, or the cached one had none. */
  lemma WasDeletedMeaning(cached: RealMessage, current: RealMessage)
    ensures WasDeleted(cached, current) <==>
      cached.text.Some? && Trim(cached.text.value) != ""
      && (current.text.None? || Trim(current.text.value) == "")
      && current.dateEdited.Some?
      && OptionLess(cached.dateEdited, current.dateEdited)
    ensures WasDeleted(cached, current) <==>
      cached.text.Some? && !IsBlank(cached.text.value)
      && (current.text.None? || IsBlank(current.text.value))
      && current.dateEdited.Some?
      && (cached.dateEdited.None? || cached.dateEdited.value < current.dateEdited.value)
  {
    if cached.text.Some? {
      VisibleIffTrimNonEmpty(cached.text.value);
      TrimEmptyIffBlank(cached.text.value);
    }
    if current.text.Some? {
      VisibleIffTrimNonEmpty(current.text.value);
      TrimEmptyIffBlank(current.text.value);
    }
  }

  /** A message whose edit time did not move (an unsend that only sets `date_retracted`, say)
      is never reported. */
  lemma RetractionAloneIsNotReported(cached: RealMessage, current: RealMessage)
    requires current.dateEdited == cached.dateEdited
    ensures !WasDeleted(cached, current)
  {
    OptionLessIsStrictOrder(cached.dateEdited, cached.dateEdited, cached.dateEdited);
  }

  /** Once the cache holds the blank message of a report, that entry is never reported again. */
  lemma ReportedEntryIsNotReportedAgain(cached: RealMessage, current: RealMessage, later: RealMessage)
    requires WasDeleted(cached, current)
    ensures !WasDeleted(current, later)
  {
  }

  // ---------------------------------------------------------------------------------------
  // The deletion event

  /** Rust's `/` on integers, which rounds toward zero. */
  function TruncDiv(a: int, b: int): (q: int)
    requires b > 0
    ensures a >= 0 ==> 0 <= a - q * b < b
    ensures a < 0 ==> 0 <= q * b - a < b
  {
    if a >= 0 then a / b else -((-a) / b)
  }

  /** Who sent the message, as `create_deletion_event` names them. */
  function Sender(m: RealMessage, handles: Handles): string {
    if m.handleId.Some? then
      if m.handleId.value in handles then handles[m.handleId.value].identifier
      else "Unknown (ID: " + IntToDecimal(m.handleId.value) + ")"
    else if m.isFromMe then "Me"
    else "Unknown"
  }

  function AttachmentName(id: int): string {
    "attachment_" + IntToDecimal(id) + ".dat"
  }

  function CreateDeletionEvent(m: RealMessage, handles: Handles): (ev: DeletionEvent)
    ensures ev.messageId == m.id && ev.content == m.text
    ensures m.date >= 0 ==> 0 <= m.date - ev.timestamp * NanosPerSecond < NanosPerSecond
    ensures m.date < 0 ==> 0 <= ev.timestamp * NanosPerSecond - m.date < NanosPerSecond
    ensures |ev.attachments| == (if m.cacheHasAttachments then 1 else 0)
    ensures forall a :: a in ev.attachments ==> a == AttachmentName(m.id)
  {
    DeletionEvent(
      m.id,
      TruncDiv(m.date, NanosPerSecond),
      m.text,
      if m.cacheHasAttachments then [AttachmentName(m.id)] else [],
      Sender(m, handles))
  }

  /** Under a filter, a reported sender either contains the filter text or the message is the
      user's own one without a resolvable handle. */
  lemma FilteredSenderMatches(m: RealMessage, f: string, handles: Handles)
    requires Kept(m, Some(f), handles)
    ensures Contains(CreateDeletionEvent(m, handles).sender, f)
      || (m.isFromMe && (m.handleId.None? || m.handleId.value !in handles))
  {
  }

  /** The sender of a deletion event: the handle's identifier when the handle table has it,
      otherwise "Unknown (ID: n)" with the handle number written out (the text between the
      parentheses reads back as that number); without a handle, "Me" for the user's own
      messages and "Unknown" for others. */
  lemma SenderFallbacks(m: RealMessage, handles: Handles)
    ensures m.handleId.Some? && m.handleId.value in handles ==>
      CreateDeletionEvent(m, handles).sender == handles[m.handleId.value].identifier
    ensures m.handleId.Some? && m.handleId.value !in handles ==>
      CreateDeletionEvent(m, handles).sender == "Unknown (ID: " + IntToDecimal(m.handleId.value) + ")"
    ensures m.handleId.None? && m.isFromMe ==> CreateDeletionEvent(m, handles).sender == "Me"
    ensures m.handleId.None? && !m.isFromMe ==> CreateDeletionEvent(m, handles).sender == "Unknown"
    ensures m.handleId.Some? && m.handleId.value !in handles ==>
      var s := CreateDeletionEvent(m, handles).sender;
      |s| > 14 && s[..13] == "Unknown (ID: " && s[|s| - 1] == ')'
      && DenotesInt(s[13..|s| - 1], m.handleId.value)
  {
    if m.handleId.Some? && m.handleId.value !in handles {
      var d := IntToDecimal(m.handleId.value);
      var s := "Unknown (ID: " + d + ")";
      assert s[..13] == "Unknown (ID: ";
      assert s[13..|s| - 1] == d;
    }
  }

  // ---------------------------------------------------------------------------------------
  // The log file

  /** The output file as `handle_deletion` finds it: absent, unreadable, blank once trimmed,
      not a JSON list of events, or a list of events. */
  datatype LogFile = Missing | Unreadable | Blank | Garbled | Entries(events: seq<DeletionEvent>)

  /** The events a read of the log yields; anything that is not a parsable list yields none. */
  function Existing(log: LogFile): seq<DeletionEvent> {
    if log.Entries? then log.events else []
  }

  /** The accumulation rule of `handle_deletion`: the new file holds the events already in it,
      or none, followed by the new event. A read or write failure leaves the file as it was. */
  function AppendEvent(log: LogFile, ev: DeletionEvent, writeOk: bool): (r: (Result<()>, LogFile))
    ensures r.0.Ok? <==> log != Unreadable && writeOk
    ensures r.0.Err? ==> r.1 == log
  {
    if log == Unreadable then (Err(LogUnreadable), log)
    else if !writeOk then (Err(LogWriteFailed), log)
    else (Ok(()), Entries(Existing(log) + [ev]))
  }

  lemma AppendKeepsEarlierEntries(log: LogFile, ev: DeletionEvent, writeOk: bool)
    requires AppendEvent(log, ev, writeOk).0.Ok?
    ensures AppendEvent(log, ev, writeOk).1.Entries?
    ensures AppendEvent(log, ev, writeOk).1.events == Existing(log) + [ev]
    ensures log.Entries? ==> AppendEvent(log, ev, writeOk).1.events[..|log.events|] == log.events
    ensures log in {Missing, Blank, Garbled} ==> AppendEvent(log, ev, writeOk).1 == Entries([ev])
  {
  }

  // ---------------------------------------------------------------------------------------
  // The cache

  /** Every cache entry is stored under its own id. */
  predicate KeyedById(cache: Cache) {
    forall id :: id in cache ==> cache[id].id == id
  }

  /** The ids of the messages in `ms` that have text. */
  function TextIds(ms: seq<RealMessage>): set<int>
    decreases |ms|
  {
    if ms == [] then {}
    else TextIds(ms[..|ms| - 1]) + (if HasText(ms[|ms| - 1]) then {ms[|ms| - 1].id} else {})
  }

  lemma {:induction false} TextIdsAreIdsWithText(ms: seq<RealMessage>)
    ensures forall m :: m in ms && HasText(m) ==> m.id in TextIds(ms)
    ensures forall id :: id in TextIds(ms) ==> exists m :: m in ms && HasText(m) && m.id == id
    decreases |ms|
  {
    if ms != [] {
      var init := ms[..|ms| - 1];
      TextIdsAreIdsWithText(init);
      assert ms == init + [ms[|ms| - 1]];
      forall id | id in TextIds(ms)
        ensures exists m :: m in ms && HasText(m) && m.id == id
      {
        if id in TextIds(init) {
          var m :| m in init && HasText(m) && m.id == id;
          assert m in ms;
        } else {
          assert ms[|ms| - 1] in ms;
        }
      }
    }
  }

  /** The cache after `load_initial_messages` inserts the messages with text, in order. */
  function LoadAll(cache: Cache, ms: seq<RealMessage>): Cache
    decreases |ms|
  {
    if ms == [] then cache
    else
      var c := LoadAll(cache, ms[..|ms| - 1]);
      var m := ms[|ms| - 1];
      if HasText(m) then c[m.id := m] else c
  }

  lemma {:induction false} LoadAllAddsMessagesWithText(cache: Cache, ms: seq<RealMessage>)
    ensures LoadAll(cache, ms).Keys == cache.Keys + TextIds(ms)
    ensures forall id :: id in LoadAll(cache, ms) ==>
      (id in cache && LoadAll(cache, ms)[id] == cache[id])
      || (LoadAll(cache, ms)[id] in ms && LoadAll(cache, ms)[id].id == id && HasText(LoadAll(cache, ms)[id]))
    decreases |ms|
  {
    if ms != [] {
      var init := ms[..|ms| - 1];
      var m := ms[|ms| - 1];
      LoadAllAddsMessagesWithText(cache, init);
      var c := LoadAll(cache, init);
      var r := LoadAll(cache, ms);
      forall id | id in r
        ensures (id in cache && r[id] == cache[id]) || (r[id] in ms && r[id].id == id && HasText(r[id]))
      {
        if !(HasText(m) && id == m.id) {
          assert id in c && r[id] == c[id];
          if !(id in cache && c[id] == cache[id]) {
            assert c[id] in init;
            assert init <= ms;
          }
        }
      }
    }
  }

  /** The cache after the new-message scan of `check_for_changes`: a message with text is added
      when its id is not cached yet. */
  function InsertNew(cache: Cache, ms: seq<RealMessage>): Cache
    decreases |ms|
  {
    if ms == [] then cache
    else
      var c := InsertNew(cache, ms[..|ms| - 1]);
      var m := ms[|ms| - 1];
      if m.id !in c && HasText(m) then c[m.id := m] else c
  }

  /** The scan never overwrites a cached id, and every id it adds belongs to a scanned message
      with text. */
  lemma {:induction false} InsertNewNeverOverwrites(cache: Cache, ms: seq<RealMessage>)
    ensures InsertNew(cache, ms).Keys == cache.Keys + TextIds(ms)
    ensures forall id :: id in cache ==> InsertNew(cache, ms)[id] == cache[id]
    ensures forall id :: id in InsertNew(cache, ms) && id !in cache ==>
      InsertNew(cache, ms)[id] in ms && InsertNew(cache, ms)[id].id == id && HasText(InsertNew(cache, ms)[id])
    decreases |ms|
  {
    if ms != [] {
      var init := ms[..|ms| - 1];
      var m := ms[|ms| - 1];
      InsertNewNeverOverwrites(cache, init);
      var c := InsertNew(cache, init);
      var r := InsertNew(cache, ms);
      forall id | id in r && id !in cache
        ensures r[id] in ms && r[id].id == id && HasText(r[id])
      {
        if !(m.id !in c && HasText(m) && id == m.id) {
          assert id in c && r[id] == c[id];
          assert c[id] in init;
          assert init <= ms;
        }
      }
    }
  }

  lemma NonEmptyHasElement(s: set<int>)
    requires s != {}
    ensures exists x :: x in s
  {
    assert (forall x :: x !in s) ==> s == {};
  }

  lemma {:induction false} SetHasMax(keys: set<int>)
    requires keys != {}
    ensures exists k :: k in keys && forall j :: j in keys ==> j <= k
    decreases |keys|
  {
    NonEmptyHasElement(keys);
    var k :| k in keys;
    if keys - {k} != {} {
      SetHasMax(keys - {k});
      var k' :| k' in keys - {k} && forall j :: j in keys - {k} ==> j <= k';
      var top := if k <= k' then k' else k;
      forall j | j in keys
        ensures j <= top
      {
        if j != k {
          assert j in keys - {k};
        }
      }
    } else {
      assert keys == {k};
    }
  }

  /** The largest cached id, or 0 for an empty cache. */
  ghost function MaxKey(keys: set<int>): (r: int)
    ensures keys == {} ==> r == 0
    ensures keys != {} ==> r in keys && forall k :: k in keys ==> k <= r
  {
    if keys == {} then 0
    else
      assert exists k :: k in keys && forall j :: j in keys ==> j <= k by { SetHasMax(keys); }
      var k :| k in keys && forall j :: j in keys ==> j <= k;
      k
  }

  /** The comparison loop of `check_for_changes`, over the re-read rows `currents`: each deleted
      message is reported and then replaced in the cache; a failed report ends the poll. */
  function Compare(cache: Cache, log: LogFile, currents: seq<RealMessage>, handles: Handles, writeOk: bool)
    : (Result<()>, Cache, LogFile)
    decreases |currents|
  {
    if currents == [] then (Ok(()), cache, log)
    else
      var cur := currents[0];
      if cur.id in cache && WasDeleted(cache[cur.id], cur) then
        var w := AppendEvent(log, CreateDeletionEvent(cache[cur.id], handles), writeOk);
        if w.0.Err? then (w.0, cache, w.1)
        else Compare(cache[cur.id := cur], w.1, currents[1..], handles, writeOk)
      else Compare(cache, log, currents[1..], handles, writeOk)
  }

  /** The comparison keeps the cached ids. An entry is either untouched or replaced by a re-read
      row that shows it deleted, so an entry without text is never touched. */
  lemma {:induction false} CompareReplacesOnlyDeleted(
    cache: Cache, log: LogFile, currents: seq<RealMessage>, handles: Handles, writeOk: bool)
    ensures Compare(cache, log, currents, handles, writeOk).1.Keys == cache.Keys
    ensures forall id :: id in cache ==>
      var c := Compare(cache, log, currents, handles, writeOk).1;
      c[id] == cache[id] || (c[id] in currents && c[id].id == id && WasDeleted(cache[id], c[id]))
    decreases |currents|
  {
    if currents != [] {
      var cur := currents[0];
      var rest := currents[1..];
      assert forall x :: x in rest ==> x in currents;
      if cur.id in cache && WasDeleted(cache[cur.id], cur) {
        var w := AppendEvent(log, CreateDeletionEvent(cache[cur.id], handles), writeOk);
        if w.0.Ok? {
          var c1 := cache[cur.id := cur];
          CompareReplacesOnlyDeleted(c1, w.1, rest, handles, writeOk);
          forall id | id in cache
            ensures var c := Compare(cache, log, currents, handles, writeOk).1;
              c[id] == cache[id] || (c[id] in currents && c[id].id == id && WasDeleted(cache[id], c[id]))
          {
            if id == cur.id {
              ReportedEntryIsNotReportedAgain(cache[id], cur, Compare(c1, w.1, rest, handles, writeOk).1[id]);
            }
          }
        }
      } else {
        CompareReplacesOnlyDeleted(cache, log, rest, handles, writeOk);
      }
    }
  }

  /** The log only grows: a parsable log keeps its events as a prefix, and an unreadable log
      makes every report fail, so nothing in the cache changes. A failed poll leaves a deleted
      entry cached and unreported; the error then ends the tracker. */
  lemma {:induction false} CompareLogGrows(
    cache: Cache, log: LogFile, currents: seq<RealMessage>, handles: Handles, writeOk: bool)
    ensures var r := Compare(cache, log, currents, handles, writeOk);
      r.2 == log || (r.2.Entries? && |Existing(log)| < |r.2.events| && r.2.events[..|Existing(log)|] == Existing(log))
    ensures log == Unreadable ==> Compare(cache, log, currents, handles, writeOk).1 == cache
    ensures var r := Compare(cache, log, currents, handles, writeOk);
      r.0.Err? ==> exists cur :: cur in currents && cur.id in r.1 && WasDeleted(r.1[cur.id], cur)
    decreases |currents|
  {
    if currents != [] {
      var cur := currents[0];
      var rest := currents[1..];
      assert forall x :: x in rest ==> x in currents;
      if cur.id in cache && WasDeleted(cache[cur.id], cur) {
        var w := AppendEvent(log, CreateDeletionEvent(cache[cur.id], handles), writeOk);
        if w.0.Ok? {
          CompareLogGrows(cache[cur.id := cur], w.1, rest, handles, writeOk);
          var r := Compare(cache[cur.id := cur], w.1, rest, handles, writeOk);
          var n := |Existing(log)|;
          assert w.1.events[..n] == Existing(log);
          if r.2 != w.1 {
            assert r.2.events[..|w.1.events|][..n] == r.2.events[..n];
          }
        }
      } else {
        CompareLogGrows(cache, log, rest, handles, writeOk);
      }
    }
  }

  /** No two rows share an id, as ROWIDs are unique. */
  predicate DistinctIds(rows: seq<RealMessage>) {
    forall i, j :: 0 <= i < j < |rows| ==> rows[i].id != rows[j].id
  }

  /** What a comparison should report, defined independently of the loop: one deletion event
      per re-read row that shows its cached message deleted, judged against the cache as it was
      before the comparison, in row order. */
  function Reports(cache: Cache, currents: seq<RealMessage>, handles: Handles): seq<DeletionEvent>
    decreases |currents|
  {
    if currents == [] then []
    else
      var cur := currents[0];
      (if cur.id in cache && WasDeleted(cache[cur.id], cur) then [CreateDeletionEvent(cache[cur.id], handles)] else [])
      + Reports(cache, currents[1..], handles)
  }

  /** Changing the cache entry of an id that no row carries does not change the reports. */
  lemma {:induction false} ReportsIgnoreOtherIds(cache: Cache, currents: seq<RealMessage>, handles: Handles, id: int, m: RealMessage)
    requires forall x :: x in currents ==> x.id != id
    ensures Reports(cache[id := m], currents, handles) == Reports(cache, currents, handles)
    decreases |currents|
  {
    if currents != [] {
      assert currents[0] in currents;
      assert forall x :: x in currents[1..] ==> x in currents;
      ReportsIgnoreOtherIds(cache, currents[1..], handles, id, m);
    }
  }

  /** Dropping the first row keeps the ids distinct, and no later row shares the first one's id. */
  lemma DistinctIdsTail(rows: seq<RealMessage>)
    requires rows != [] && DistinctIds(rows)
    ensures DistinctIds(rows[1..])
    ensures forall x :: x in rows[1..] ==> x.id != rows[0].id
  {
    var rest := rows[1..];
    forall i, j | 0 <= i < j < |rest| ensures rest[i].id != rest[j].id {
      assert rest[i] == rows[i + 1] && rest[j] == rows[j + 1];
    }
    forall x | x in rest ensures x.id != rows[0].id {
      var k :| 0 <= k < |rest| && rest[k] == x;
      assert rows[k + 1] == x;
    }
  }

  /** The comparison succeeds iff there is nothing to report or the log is readable and
      writable. A failure changes neither the cache nor the log, and names the cause. */
  lemma {:induction false} CompareOutcome(
    cache: Cache, log: LogFile, currents: seq<RealMessage>, handles: Handles, writeOk: bool)
    requires DistinctIds(currents)
    ensures var r := Compare(cache, log, currents, handles, writeOk);
      r.0.Ok? <==> Reports(cache, currents, handles) == [] || (log != Unreadable && writeOk)
    ensures var r := Compare(cache, log, currents, handles, writeOk);
      r.0.Err? ==> (r.1 == cache && r.2 == log
                    && r.0.error == if log == Unreadable then LogUnreadable else LogWriteFailed)
    decreases |currents|
  {
    if currents != [] {
      var cur := currents[0];
      var rest := currents[1..];
      DistinctIdsTail(currents);
      if cur.id in cache && WasDeleted(cache[cur.id], cur) {
        var w := AppendEvent(log, CreateDeletionEvent(cache[cur.id], handles), writeOk);
        if w.0.Ok? {
          CompareOutcome(cache[cur.id := cur], w.1, rest, handles, writeOk);
        }
      } else {
        CompareOutcome(cache, log, rest, handles, writeOk);
      }
    }
  }

  /** A successful comparison leaves the log alone when nothing was deleted, and otherwise
      writes the earlier events followed by one event per deleted message, in row order. */
  lemma {:induction false} CompareAppendsReports(
    cache: Cache, log: LogFile, currents: seq<RealMessage>, handles: Handles, writeOk: bool)
    requires DistinctIds(currents)
    ensures var r := Compare(cache, log, currents, handles, writeOk);
      var reps := Reports(cache, currents, handles);
      r.0.Ok? ==> r.2 == if reps == [] then log else Entries(Existing(log) + reps)
    decreases |currents|
  {
    if currents != [] {
      var cur := currents[0];
      var rest := currents[1..];
      DistinctIdsTail(currents);
      if cur.id in cache && WasDeleted(cache[cur.id], cur) {
        var w := AppendEvent(log, CreateDeletionEvent(cache[cur.id], handles), writeOk);
        CompareAppendsReports(cache[cur.id := cur], w.1, rest, handles, writeOk);
        ReportsIgnoreOtherIds(cache, rest, handles, cur.id, cur);
        AppendsReportsStep(cache, log, cur, rest, handles, writeOk);
        assert currents == [cur] + rest;
      } else {
        CompareAppendsReports(cache, log, rest, handles, writeOk);
      }
    }
  }

  /** The step of `CompareAppendsReports` for a first row that shows its message deleted. */
  lemma AppendsReportsStep(cache: Cache, log: LogFile, cur: RealMessage, rest: seq<RealMessage>, handles: Handles, writeOk: bool)
    requires cur.id in cache && WasDeleted(cache[cur.id], cur)
    requires Reports(cache[cur.id := cur], rest, handles) == Reports(cache, rest, handles)
    requires var w := AppendEvent(log, CreateDeletionEvent(cache[cur.id], handles), writeOk);
      var r := Compare(cache[cur.id := cur], w.1, rest, handles, writeOk);
      var reps := Reports(cache, rest, handles);
      r.0.Ok? ==> r.2 == if reps == [] then w.1 else Entries(Existing(w.1) + reps)
    ensures var r := Compare(cache, log, [cur] + rest, handles, writeOk);
      var reps := Reports(cache, [cur] + rest, handles);
      r.0.Ok? ==> r.2 == if reps == [] then log else Entries(Existing(log) + reps)
  {
    var ev := CreateDeletionEvent(cache[cur.id], handles);
    var w := AppendEvent(log, ev, writeOk);
    CompareDeletedFirst(cache, log, cur, rest, handles, writeOk);
    ReportsDeletedFirst(cache, cur, rest, handles);
    if w.0.Ok? {
      var r := Compare(cache[cur.id := cur], w.1, rest, handles, writeOk);
      if r.0.Ok? {
        AppendedLog(log, ev, Reports(cache, rest, handles), writeOk, r.2);
      }
    }
  }

  /** One comparison step over a first row that shows its message deleted. */
  lemma CompareDeletedFirst(cache: Cache, log: LogFile, cur: RealMessage, rest: seq<RealMessage>, handles: Handles, writeOk: bool)
    requires cur.id in cache && WasDeleted(cache[cur.id], cur)
    ensures var w := AppendEvent(log, CreateDeletionEvent(cache[cur.id], handles), writeOk);
      Compare(cache, log, [cur] + rest, handles, writeOk)
        == if w.0.Err? then (w.0, cache, w.1) else Compare(cache[cur.id := cur], w.1, rest, handles, writeOk)
  {
    assert ([cur] + rest)[0] == cur && ([cur] + rest)[1..] == rest;
  }

  /** The reports for a first row that shows its message deleted start with its event. */
  lemma ReportsDeletedFirst(cache: Cache, cur: RealMessage, rest: seq<RealMessage>, handles: Handles)
    requires cur.id in cache && WasDeleted(cache[cur.id], cur)
    ensures Reports(cache, [cur] + rest, handles) == [CreateDeletionEvent(cache[cur.id], handles)] + Reports(cache, rest, handles)
  {
    assert ([cur] + rest)[0] == cur && ([cur] + rest)[1..] == rest;
  }

  /** Appending `ev` and then the events `reps` gives the earlier events followed by both. */
  lemma AppendedLog(log: LogFile, ev: DeletionEvent, reps: seq<DeletionEvent>, writeOk: bool, out: LogFile)
    requires AppendEvent(log, ev, writeOk).0.Ok?
    requires var w := AppendEvent(log, ev, writeOk).1;
      out == if reps == [] then w else Entries(Existing(w) + reps)
    ensures out == Entries(Existing(log) + ([ev] + reps))
  {
    if reps == [] {
      assert [ev] + reps == [ev];
    } else {
      assert Existing(AppendEvent(log, ev, writeOk).1) + reps == Existing(log) + ([ev] + reps);
    }
  }

  /** After a successful comparison every message that was reported deleted is cached as its
      re-read row. */
  lemma {:induction false} CompareReplacesReported(
    cache: Cache, log: LogFile, currents: seq<RealMessage>, handles: Handles, writeOk: bool)
    requires DistinctIds(currents)
    ensures var r := Compare(cache, log, currents, handles, writeOk);
      r.0.Ok? ==> forall c :: c in currents && c.id in cache && WasDeleted(cache[c.id], c) ==>
        c.id in r.1 && r.1[c.id] == c
    decreases |currents|
  {
    if currents != [] {
      var cur := currents[0];
      var rest := currents[1..];
      DistinctIdsTail(currents);
      assert forall x :: x in currents ==> x == cur || x in rest;
      if cur.id in cache && WasDeleted(cache[cur.id], cur) {
        var w := AppendEvent(log, CreateDeletionEvent(cache[cur.id], handles), writeOk);
        if w.0.Ok? {
          var c1 := cache[cur.id := cur];
          CompareReplacesReported(c1, w.1, rest, handles, writeOk);
          CompareReplacesOnlyDeleted(c1, w.1, rest, handles, writeOk);
        }
      } else {
        CompareReplacesReported(cache, log, rest, handles, writeOk);
      }
    }
  }

  /** What the model needs to know of one poll's I/O: whether each query succeeds and whether
      the log can be written. */
  datatype PollIo = PollIo(newerOk: bool, byIdsOk: bool, writeOk: bool)

  /** One call of `check_for_changes` against the message table `table`. */
  ghost function Poll(cache: Cache, log: LogFile, filter: Option<string>, handles: Option<Handles>,
                      table: seq<RealMessage>, io: PollIo): (Result<()>, Cache, LogFile)
  {
    if handles.None? then (Ok(()), cache, log)
    else if !io.newerOk then (Err(QueryFailed), cache, log)
    else
      var scanned := InsertNew(cache, Filtered(NewerThan(table, MaxKey(cache.Keys)), filter, handles.value));
      if scanned == map[] then (Ok(()), scanned, log)
      else if !io.byIdsOk then (Err(QueryFailed), scanned, log)
      else Compare(scanned, log, RowsWithIds(table, scanned.Keys), handles.value, io.writeOk)
  }

  /** One poll: a cached entry stays, or is replaced by its row when that row shows it
      deleted; entries stay keyed by their own id. */
  lemma PollKeepsOrReplacesDeleted(cache: Cache, log: LogFile, filter: Option<string>, handles: Option<Handles>,
                                   table: seq<RealMessage>, io: PollIo)
    ensures var c := Poll(cache, log, filter, handles, table, io).1;
      forall id :: id in cache ==> id in c && (c[id] == cache[id] || WasDeleted(cache[id], c[id]))
    ensures KeyedById(cache) ==> KeyedById(Poll(cache, log, filter, handles, table, io).1)
  {
    if handles.Some? && io.newerOk {
      var kept := Filtered(NewerThan(table, MaxKey(cache.Keys)), filter, handles.value);
      var scanned := InsertNew(cache, kept);
      InsertNewNeverOverwrites(cache, kept);
      if scanned != map[] && io.byIdsOk {
        CompareReplacesOnlyDeleted(scanned, log, RowsWithIds(table, scanned.Keys), handles.value, io.writeOk);
      }
    }
  }

  /** Every entry a poll adds is a kept table row with text whose id is above the largest id
      cached before the poll, so a message at or below that id is never picked up later. */
  lemma PollAddsOnlyNewerKept(cache: Cache, log: LogFile, filter: Option<string>, handles: Option<Handles>,
                              table: seq<RealMessage>, io: PollIo)
    ensures var c := Poll(cache, log, filter, handles, table, io).1;
      forall id :: id in c && id !in cache ==>
        handles.Some? && id > MaxKey(cache.Keys)
        && exists m :: m in table && m.id == id && HasText(m) && Kept(m, filter, handles.value)
  {
    if handles.Some? && io.newerOk {
      var newer := NewerThan(table, MaxKey(cache.Keys));
      var kept := Filtered(newer, filter, handles.value);
      var scanned := InsertNew(cache, kept);
      InsertNewNeverOverwrites(cache, kept);
      FilteredKeepsExactlyKept(newer, filter, handles.value);
      var c := Poll(cache, log, filter, handles, table, io).1;
      if scanned != map[] && io.byIdsOk {
        CompareReplacesOnlyDeleted(scanned, log, RowsWithIds(table, scanned.Keys), handles.value, io.writeOk);
      }
      assert c.Keys == scanned.Keys;
      forall id | id in c && id !in cache
        ensures id > MaxKey(cache.Keys)
        ensures exists m :: m in table && m.id == id && HasText(m) && Kept(m, filter, handles.value)
      {
        assert scanned[id] in kept;
      }
    }
  }

  /** Selecting rows by id keeps their ids distinct. */
  lemma {:induction false} RowsWithIdsDistinct(table: seq<RealMessage>, ids: set<int>)
    requires DistinctIds(table)
    ensures DistinctIds(RowsWithIds(table, ids))
    decreases |table|
  {
    if table != [] {
      DistinctIdsTail(table);
      RowsWithIdsDistinct(table[1..], ids);
      var rest := RowsWithIds(table[1..], ids);
      if table[0].id in ids {
        var r := [table[0]] + rest;
        forall i, j | 0 <= i < j < |r| ensures r[i].id != r[j].id {
          if i == 0 {
            assert r[j] == rest[j - 1] && rest[j - 1] in rest;
          } else {
            assert r[i] == rest[i - 1] && r[j] == rest[j - 1];
          }
        }
      }
    }
  }

  /** The events one poll should report: those of the comparison over the re-read rows of the
      cache as it stands after the new-message scan. */
  ghost function PollReports(cache: Cache, filter: Option<string>, handles: Handles, table: seq<RealMessage>): seq<DeletionEvent>
  {
    var scanned := InsertNew(cache, Filtered(NewerThan(table, MaxKey(cache.Keys)), filter, handles));
    Reports(scanned, RowsWithIds(table, scanned.Keys), handles)
  }

  /** A poll over a table with unique ROWIDs reports every cached message whose row shows it
      deleted. With a database, both queries and something to report, the poll succeeds iff the
      log is readable and writable; a successful poll appends exactly those events to the log
      (leaving it alone when there are none) and caches each such message as its row. */
  lemma PollReportsDeleted(cache: Cache, log: LogFile, filter: Option<string>, handles: Handles,
                           table: seq<RealMessage>, io: PollIo)
    requires DistinctIds(table)
    ensures var r := Poll(cache, log, filter, Some(handles), table, io);
      var reps := PollReports(cache, filter, handles, table);
      io.newerOk && io.byIdsOk ==> (r.0.Ok? <==> reps == [] || (log != Unreadable && io.writeOk))
    ensures var r := Poll(cache, log, filter, Some(handles), table, io);
      var reps := PollReports(cache, filter, handles, table);
      r.0.Ok? ==> r.2 == if reps == [] then log else Entries(Existing(log) + reps)
    ensures var r := Poll(cache, log, filter, Some(handles), table, io);
      var scanned := InsertNew(cache, Filtered(NewerThan(table, MaxKey(cache.Keys)), filter, handles));
      r.0.Ok? ==> forall m :: m in table && m.id in scanned && WasDeleted(scanned[m.id], m) ==>
        m.id in r.1 && r.1[m.id] == m
  {
    if io.newerOk {
      var scanned := InsertNew(cache, Filtered(NewerThan(table, MaxKey(cache.Keys)), filter, handles));
      var rows := RowsWithIds(table, scanned.Keys);
      RowsWithIdsDistinct(table, scanned.Keys);
      if scanned == map[] {
        assert Reports(scanned, rows, handles) == [] by { ReportsOfEmptyCache(rows, handles); }
      } else if io.byIdsOk {
        CompareOutcome(scanned, log, rows, handles, io.writeOk);
        CompareAppendsReports(scanned, log, rows, handles, io.writeOk);
        CompareReplacesReported(scanned, log, rows, handles, io.writeOk);
      }
    }
  }

  /** Nothing is reported against an empty cache. */
  lemma {:induction false} ReportsOfEmptyCache(currents: seq<RealMessage>, handles: Handles)
    ensures Reports(map[], currents, handles) == []
    decreases |currents|
  {
    if currents != [] {
      ReportsOfEmptyCache(currents[1..], handles);
    }
  }

  /** A reported message, whose cached entry is blank, is never reported or replaced again. */
  lemma PollNeverReportsTwice(cache: Cache, log: LogFile, filter: Option<string>, handles: Option<Handles>,
                              table: seq<RealMessage>, io: PollIo, id: int)
    requires id in cache && !HasText(cache[id])
    ensures id in Poll(cache, log, filter, handles, table, io).1
    ensures Poll(cache, log, filter, handles, table, io).1[id] == cache[id]
  {
    if handles.Some? && io.newerOk {
      var kept := Filtered(NewerThan(table, MaxKey(cache.Keys)), filter, handles.value);
      var scanned := InsertNew(cache, kept);
      InsertNewNeverOverwrites(cache, kept);
      if scanned != map[] && io.byIdsOk {
        CompareReplacesOnlyDeleted(scanned, log, RowsWithIds(table, scanned.Keys), handles.value, io.writeOk);
      }
    }
  }

  // ---------------------------------------------------------------------------------------
  // The tracker

  class MessageTracker {
    const filter: Option<string>
    var cache: Cache
    var log: LogFile
    /** The open database's handle table; `None` until the database is opened. */
    var handles: Option<Handles>

    ghost predicate Valid()
      reads this
    {
      KeyedById(cache)
    }

    constructor (filter: Option<string>, log: LogFile)
      ensures this.filter == filter && this.log == log
      ensures cache == map[] && handles == None
      ensures Valid()
    {
      this.filter := filter;
      this.log := log;
      cache := map[];
      handles := None;
    }

    /** The database-opening step of `start`: a failed open ends the tracker with an error. */
    method Connect(connection: Result<Handles>) returns (r: Result<()>)
      modifies this`handles
      ensures r.Ok? <==> connection.Ok?
      ensures handles == if connection.Ok? then Some(connection.value) else old(handles)
    {
      match connection {
        case Ok(h) =>
          handles := Some(h);
          r := Ok(());
        case Err(e) =>
          r := Err("Failed to connect to iMessage database: " + e);
      }
    }

    /** `load_initial_messages`, given the result of the recent-messages query. */
    method LoadInitialMessages(recent: Result<seq<RealMessage>>) returns (r: Result<()>)
      requires Valid()
      modifies this`cache
      ensures Valid()
      ensures handles.None? ==> r == Ok(()) && cache == old(cache)
      ensures handles.Some? && recent.Err? ==> r == Err(recent.error) && cache == old(cache)
      ensures handles.Some? && recent.Ok? ==>
        r == Ok(()) && cache == LoadAll(old(cache), Filtered(recent.value, filter, handles.value))
    {
      if handles.None? {
        return Ok(());
      }
      if recent.Err? {
        return Err(recent.error);
      }
      var kept := Filtered(recent.value, filter, handles.value);
      var i := 0;
      while i < |kept|
        invariant 0 <= i <= |kept|
        invariant cache == LoadAll(old(cache), kept[..i])
        invariant KeyedById(cache)
      {
        var m := kept[i];
        if HasText(m) {
          cache := cache[m.id := m];
        }
        i := i + 1;
        assert kept[..i][..i - 1] == kept[..i - 1];
      }
      assert kept[..|kept|] == kept;
      r := Ok(());
    }

    /** The largest cached id, or 0 for an empty cache. */
    method MaxCachedId() returns (r: int)
      ensures r == MaxKey(cache.Keys)
    {
      var keys := cache.Keys;
      r := 0;
      var rest := keys;
      while rest != {}
        invariant rest <= keys
        invariant rest == keys ==> r == 0
        invariant rest != keys ==> r in keys
        invariant forall k :: k in keys && k !in rest ==> k <= r
        decreases rest
      {
        NonEmptyHasElement(rest);
        var k :| k in rest;
        if rest == keys || k > r {
          r := k;
        }
        rest := rest - {k};
      }
    }

    /** `handle_deletion`: rewrite the log with the event appended. */
    method HandleDeletion(ev: DeletionEvent, writeOk: bool) returns (r: Result<()>)
      modifies this`log
      ensures r == AppendEvent(old(log), ev, writeOk).0
      ensures log == AppendEvent(old(log), ev, writeOk).1
    {
      if log == Unreadable {
        return Err(LogUnreadable);
      }
      if !writeOk {
        return Err(LogWriteFailed);
      }
      log := Entries(Existing(log) + [ev]);
      r := Ok(());
    }

    /** The new-message scan of `check_for_changes`. */
    method ScanNew(kept: seq<RealMessage>)
      requires Valid()
      modifies this`cache
      ensures Valid()
      ensures cache == InsertNew(old(cache), kept)
    {
      var i := 0;
      while i < |kept|
        invariant 0 <= i <= |kept|
        invariant cache == InsertNew(old(cache), kept[..i])
        invariant KeyedById(cache)
      {
        var m := kept[i];
        if m.id !in cache && HasText(m) {
          cache := cache[m.id := m];
        }
        i := i + 1;
        assert kept[..i][..i - 1] == kept[..i - 1];
      }
      assert kept[..|kept|] == kept;
    }

    /** The comparison loop of `check_for_changes` over the re-read rows. */
    method CompareAll(currents: seq<RealMessage>, writeOk: bool) returns (r: Result<()>)
      requires Valid() && handles.Some?
      modifies this`cache, this`log
      ensures Valid()
      ensures r == Compare(old(cache), old(log), currents, handles.value, writeOk).0
      ensures cache == Compare(old(cache), old(log), currents, handles.value, writeOk).1
      ensures log == Compare(old(cache), old(log), currents, handles.value, writeOk).2
    {
      ghost var whole := Compare(cache, log, currents, handles.value, writeOk);
      var j := 0;
      while j < |currents|
        invariant 0 <= j <= |currents|
        invariant Compare(cache, log, currents[j..], handles.value, writeOk) == whole
        invariant KeyedById(cache)
      {
        var cur := currents[j];
        assert currents[j..][1..] == currents[j + 1..];
        if cur.id in cache && WasDeleted(cache[cur.id], cur) {
          var ev := CreateDeletionEvent(cache[cur.id], handles.value);
          r := HandleDeletion(ev, writeOk);
          if r.Err? {
            return;
          }
          cache := cache[cur.id := cur];
        }
        j := j + 1;
      }
      r := Ok(());
    }

    /** `check_for_changes` against the current message table. */
    method CheckForChanges(table: seq<RealMessage>, io: PollIo) returns (r: Result<()>)
      requires Valid()
      modifies this`cache, this`log
      ensures Valid()
      ensures r == Poll(old(cache), old(log), filter, handles, table, io).0
      ensures cache == Poll(old(cache), old(log), filter, handles, table, io).1
      ensures log == Poll(old(cache), old(log), filter, handles, table, io).2
    {
      if handles.None? {
        return Ok(());
      }
      var maxId := MaxCachedId();
      if !io.newerOk {
        return Err(QueryFailed);
      }
      ScanNew(Filtered(NewerThan(table, maxId), filter, handles.value));
      if cache == map[] {
        return Ok(());
      }
      if !io.byIdsOk {
        return Err(QueryFailed);
      }
      r := CompareAll(RowsWithIds(table, cache.Keys), io.writeOk);
    }
  }
}
