/** The tracker's own persistent store (core/state_manager.rs): a table of the latest
    fingerprint per message, keyed by message id, and an append-only journal of detected
    deletions whose ids come from SQLite's AUTOINCREMENT counter. The SQLite file is modelled
    by its contents: a map of rows, a sequence of journal rows in insertion order and the
    counter. */
module StateManager {

  import opened Wrappers
  import opened Text
  import opened Config
  import opened Sequences

  /** `MessageFingerprint`: what is remembered about one message. */
  datatype Fingerprint = Fingerprint(
    messageId: int,
    contentHash: string,
    attachmentHashes: seq<string>,
    timestamp: int,
    conversationId: Option<int>,
    senderHandle: Option<string>)

  /** `DeletionRecord`: one journal entry. `id` is assigned by the store on insertion. */
  datatype DeletionRecord = DeletionRecord(
    id: int,
    messageId: int,
    originalFingerprint: Fingerprint,
    deletionTimestamp: int,
    deletionType: string,
    recoveredContent: Option<string>,
    recoveredAttachments: seq<string>)

  /** The `attachment_hashes` column holds JSON text; decoding either yields the list or fails. */
  datatype StoredList = JsonList(items: seq<string>) | Malformed

  /** One row of `message_fingerprints`, without its key. */
  datatype FingerprintRow = FingerprintRow(
    contentHash: string,
    attachmentHashes: StoredList,
    timestamp: int,
    conversationId: Option<int>,
    senderHandle: Option<string>)

  /** The row `store_fingerprint` writes for `fp`. */
  function EncodeRow(fp: Fingerprint): FingerprintRow
  {
    FingerprintRow(fp.contentHash, JsonList(fp.attachmentHashes), fp.timestamp, fp.conversationId, fp.senderHandle)
  }

  /** The fingerprint `get_fingerprint` builds from the row stored under `id`;
      a malformed attachment list decodes to the empty list (`unwrap_or_default`). */
  function DecodeRow(id: int, row: FingerprintRow): (fp: Fingerprint)
    ensures fp.messageId == id && fp.contentHash == row.contentHash && fp.timestamp == row.timestamp
    ensures fp.attachmentHashes == if row.attachmentHashes.JsonList? then row.attachmentHashes.items else []
  {
    var hashes := match row.attachmentHashes
      case JsonList(items) => items
      case Malformed => [];
    Fingerprint(id, row.contentHash, hashes, row.timestamp, row.conversationId, row.senderHandle)
  }

  /** What `get_fingerprint(id)` returns for a table holding `rows`. */
  function FingerprintAt(rows: map<int, FingerprintRow>, id: int): (r: Option<Fingerprint>)
    ensures r.None? <==> id !in rows
    ensures r.Some? ==> r.value.messageId == id
  {
    if id in rows then Some(DecodeRow(id, rows[id])) else None
  }

  /** `INSERT OR REPLACE` keyed by `message_id`. */
  function Upsert(rows: map<int, FingerprintRow>, fp: Fingerprint): map<int, FingerprintRow>
  {
    rows[fp.messageId := EncodeRow(fp)]
  }

  /** Last write wins: reading back any id after an upsert of `fp` yields `fp` for its own id
      and the earlier answer for every other id. */
  lemma StoreThenGet(rows: map<int, FingerprintRow>, fp: Fingerprint, id: int)
    ensures FingerprintAt(Upsert(rows, fp), id) == if id == fp.messageId then Some(fp) else FingerprintAt(rows, id)
  {
  }

  /** The upserts of `fps` applied in list order. */
  function UpsertAll(rows: map<int, FingerprintRow>, fps: seq<Fingerprint>): map<int, FingerprintRow>
  {
    if fps == [] then rows else Upsert(UpsertAll(rows, fps[..|fps| - 1]), fps[|fps| - 1])
  }

  /** The last fingerprint of `fps` that belongs to message `id`, if any. */
  function LastFor(fps: seq<Fingerprint>, id: int): Option<Fingerprint>
  {
    if fps == [] then None
    else if fps[|fps| - 1].messageId == id then Some(fps[|fps| - 1])
    else LastFor(fps[..|fps| - 1], id)
  }

  /** `LastFor` finds nothing exactly when no fingerprint carries the id, and otherwise the
      fingerprint with that id that no later one in the batch overrides. */
  lemma {:induction false} LastForIsLastWithId(fps: seq<Fingerprint>, id: int)
    ensures LastFor(fps, id).None? <==> forall k :: 0 <= k < |fps| ==> fps[k].messageId != id
    ensures LastFor(fps, id).Some? ==>
      exists k :: 0 <= k < |fps| && fps[k] == LastFor(fps, id).value && fps[k].messageId == id
        && forall j :: k < j < |fps| ==> fps[j].messageId != id
    decreases |fps|
  {
    if fps != [] && fps[|fps| - 1].messageId != id {
      var init := fps[..|fps| - 1];
      LastForIsLastWithId(init, id);
      assert forall k :: 0 <= k < |fps| - 1 ==> init[k] == fps[k];
      if LastFor(init, id).Some? {
        var k :| 0 <= k < |init| && init[k] == LastFor(init, id).value && init[k].messageId == id
          && forall j :: k < j < |init| ==> init[j].messageId != id;
        assert fps[k] == init[k];
      }
    } else if fps != [] {
      assert fps[|fps| - 1] == LastFor(fps, id).value;
    }
  }

  /** A batch is equivalent to storing its fingerprints one after another: for every id, the
      last fingerprint of the batch with that id is what is read back, and ids the batch does not
      mention keep their earlier value. */
  lemma {:induction false} BatchLastWriteWins(rows: map<int, FingerprintRow>, fps: seq<Fingerprint>, id: int)
    ensures FingerprintAt(UpsertAll(rows, fps), id)
            == match LastFor(fps, id) case Some(fp) => Some(fp) case None => FingerprintAt(rows, id)
  {
    if fps != [] {
      BatchLastWriteWins(rows, fps[..|fps| - 1], id);
      StoreThenGet(UpsertAll(rows, fps[..|fps| - 1]), fps[|fps| - 1], id);
    }
  }

  /** Journal ids increase along the journal (insertion order). */
  predicate IdsIncreasing(journal: seq<DeletionRecord>)
  {
    forall a, b :: 0 <= a < b < |journal| ==> journal[a].id < journal[b].id
  }

  /** The contents of the state database file: both tables and the AUTOINCREMENT counter. */
  datatype StateDb = StateDb(fingerprints: map<int, FingerprintRow>, journal: seq<DeletionRecord>, sequence: int)

  /** What SQLite guarantees of a `deletion_records` table with AUTOINCREMENT: positive ids, in
      insertion order, none above the counter. */
  predicate WellFormed(db: StateDb)
  {
    && 0 <= db.sequence
    && IdsIncreasing(db.journal)
    && forall i :: 0 <= i < |db.journal| ==> 0 < db.journal[i].id <= db.sequence
  }

  /** `now - retention_days * 24 * 60 * 60`. */
  function RetentionCutoff(now: int, retentionDays: nat): int
  {
    now - retentionDays * SecondsPerDay
  }

  /** The fingerprint rows that survive a purge at `cutoff`. */
  function RecentRows(rows: map<int, FingerprintRow>, cutoff: int): (r: map<int, FingerprintRow>)
    ensures forall id :: id in r <==> id in rows && rows[id].timestamp >= cutoff
    ensures forall id :: id in r ==> r[id] == rows[id]
  {
    map id | id in rows && rows[id].timestamp >= cutoff :: rows[id]
  }

  /** The journal entries that survive a purge at `cutoff`, in their original order. */
  function RecentRecords(journal: seq<DeletionRecord>, cutoff: int): (r: seq<DeletionRecord>)
    ensures forall x :: x in r <==> x in journal && x.deletionTimestamp >= cutoff
    ensures |r| <= |journal|
  {
    if journal == [] then []
    else
      var last := journal[|journal| - 1];
      var r := RecentRecords(journal[..|journal| - 1], cutoff);
      assert journal == journal[..|journal| - 1] + [last];
      if last.deletionTimestamp >= cutoff then r + [last] else r
  }

  /** Purging keeps the surviving journal entries in their original order. */
  lemma {:induction false} RecentRecordsKeepOrder(journal: seq<DeletionRecord>, cutoff: int)
    ensures IsSubsequence(RecentRecords(journal, cutoff), journal)
    decreases |journal|
  {
    if journal != [] {
      var init := journal[..|journal| - 1];
      var last := journal[|journal| - 1];
      RecentRecordsKeepOrder(init, cutoff);
      SubsequenceAppend(RecentRecords(init, cutoff), init, last);
      assert journal == init + [last];
    }
  }

  /** Purging keeps journal ids increasing: what remains is a subsequence. */
  lemma {:induction false} RecentRecordsIncreasing(journal: seq<DeletionRecord>, cutoff: int)
    requires IdsIncreasing(journal)
    ensures IdsIncreasing(RecentRecords(journal, cutoff))
    decreases |journal|
  {
    if journal != [] {
      var init := journal[..|journal| - 1];
      var last := journal[|journal| - 1];
      assert forall i :: 0 <= i < |init| ==> init[i] == journal[i];
      RecentRecordsIncreasing(init, cutoff);
      var r := RecentRecords(init, cutoff);
      if last.deletionTimestamp >= cutoff {
        forall x | x in r ensures x.id < last.id {
          var i :| 0 <= i < |init| && init[i] == x;
        }
        var r2 := r + [last];
        forall a, b | 0 <= a < b < |r2| ensures r2[a].id < r2[b].id {
          if b < |r| {
            assert r2[a] == r[a] && r2[b] == r[b];
          } else {
            assert r2[a] in r;
          }
        }
      }
    }
  }

  /** Purging keeps the state database well formed. */
  lemma RecentRecordsWellFormed(db: StateDb, cutoff: int)
    requires WellFormed(db)
    ensures WellFormed(StateDb(db.fingerprints, RecentRecords(db.journal, cutoff), db.sequence))
  {
    RecentRecordsIncreasing(db.journal, cutoff);
    var r := RecentRecords(db.journal, cutoff);
    forall i | 0 <= i < |r| ensures 0 < r[i].id <= db.sequence {
      assert r[i] in r;
      var k :| 0 <= k < |db.journal| && db.journal[k] == r[i];
    }
  }

  /** `BETWEEN start AND end` on the deletion timestamp. */
  predicate InRange(r: DeletionRecord, start: int, end: int)
  {
    start <= r.deletionTimestamp <= end
  }

  /** The journal entries whose timestamp lies in [start, end], in journal order. */
  function Matching(journal: seq<DeletionRecord>, start: int, end: int): (r: seq<DeletionRecord>)
    ensures forall x :: x in r <==> x in journal && InRange(x, start, end)
  {
    if journal == [] then []
    else
      var last := journal[|journal| - 1];
      var r := Matching(journal[..|journal| - 1], start, end);
      assert journal == journal[..|journal| - 1] + [last];
      if InRange(last, start, end) then r + [last] else r
  }

  /** `ORDER BY deletion_timestamp DESC`. */
  predicate NewestFirst(s: seq<DeletionRecord>)
  {
    forall a, b :: 0 <= a < b < |s| ==> s[a].deletionTimestamp >= s[b].deletionTimestamp
  }

  /** Places `x` in a newest-first list, after every entry at least as new. */
  function InsertNewestFirst(x: DeletionRecord, s: seq<DeletionRecord>): seq<DeletionRecord>
  {
    if s == [] then [x]
    else if x.deletionTimestamp > s[0].deletionTimestamp then [x] + s
    else [s[0]] + InsertNewestFirst(x, s[1..])
  }

  /** An entry at least as new as every entry of a newest-first list can go in front. */
  lemma PrependNewest(x: DeletionRecord, t: seq<DeletionRecord>)
    requires NewestFirst(t)
    requires forall k :: 0 <= k < |t| ==> t[k].deletionTimestamp <= x.deletionTimestamp
    ensures NewestFirst([x] + t)
  {
    var r := [x] + t;
    forall a, b | 0 <= a < b < |r| ensures r[a].deletionTimestamp >= r[b].deletionTimestamp {
      assert r[b] == t[b - 1];
      if a > 0 {
        assert r[a] == t[a - 1];
      }
    }
  }

  /** Inserting into a newest-first list keeps it newest first and adds exactly `x`. */
  lemma {:induction false} InsertNewestFirstSorted(x: DeletionRecord, s: seq<DeletionRecord>)
    requires NewestFirst(s)
    ensures NewestFirst(InsertNewestFirst(x, s))
    ensures multiset(InsertNewestFirst(x, s)) == multiset(s) + multiset{x}
    decreases |s|
  {
    if s == [] {
    } else if x.deletionTimestamp > s[0].deletionTimestamp {
      PrependNewest(x, s);
    } else {
      var t := InsertNewestFirst(x, s[1..]);
      assert NewestFirst(s[1..]) by {
        forall a, b | 0 <= a < b < |s| - 1
          ensures s[1..][a].deletionTimestamp >= s[1..][b].deletionTimestamp
        {
          assert s[1..][a] == s[a + 1] && s[1..][b] == s[b + 1];
        }
      }
      InsertNewestFirstSorted(x, s[1..]);
      assert s == [s[0]] + s[1..];
      forall k | 0 <= k < |t| ensures t[k].deletionTimestamp <= s[0].deletionTimestamp {
        assert t[k] in multiset(t);
        if t[k] != x {
          assert t[k] in multiset(s[1..]);
          var j :| 0 <= j < |s[1..]| && s[1..][j] == t[k];
          assert s[j + 1] == t[k];
        }
      }
      PrependNewest(s[0], t);
    }
  }

  /** `get_deletions_in_range` as written: every row reads column index 7 of a seven-column
      result (indices 0 to 6), which fails, so the query errs as soon as one entry matches. */
  function RangeQueryAsWritten(journal: seq<DeletionRecord>, start: int, end: int): Result<seq<DeletionRecord>>
  {
    if Matching(journal, start, end) == [] then Ok([]) else Err("Invalid column index: 7")
  }

  /** The written query only ever succeeds with an empty answer: it fails exactly when there is
      something to return. */
  lemma RangeQueryAsWrittenFailsOnAnyMatch(journal: seq<DeletionRecord>, start: int, end: int)
    ensures RangeQueryAsWritten(journal, start, end).Ok? <==> forall x :: x in journal ==> !InRange(x, start, end)
    ensures RangeQueryAsWritten(journal, start, end).Ok? ==> RangeQueryAsWritten(journal, start, end).value == []
  {
    if exists x :: x in journal && InRange(x, start, end) {
      var x :| x in journal && InRange(x, start, end);
      assert x in Matching(journal, start, end);
    }
    var m := Matching(journal, start, end);
    if m != [] {
      assert m[0] in m;
    }
  }

  /** One journal entry at time 5 and the range [0, 10]: the written query errs. */
  lemma RangeQueryAsWrittenCounterexample()
    ensures var fp := Fingerprint(7, "h", [], 1, None, None);
            var rec := DeletionRecord(1, 7, fp, 5, "FullMessage", None, []);
            RangeQueryAsWritten([rec], 0, 10).Err?
  {
    var fp := Fingerprint(7, "h", [], 1, None, None);
    var rec := DeletionRecord(1, 7, fp, 5, "FullMessage", None, []);
    assert rec in Matching([rec], 0, 10);
  }

  /** One matching row as the row closure of `get_deletions_in_range` decodes it once its
      attachment list is read from column index 6: `recovered_content` is read from column
      index 6 too, so it receives `json`, the attachment list's JSON text stored in that column.
      The entry comes back unchanged only when its content happens to be that very text. */
  function RangeRowAsWritten(x: DeletionRecord, json: string): (r: DeletionRecord)
    ensures r.recoveredContent == Some(json)
    ensures r == x <==> x.recoveredContent == Some(json)
    ensures r.id == x.id && r.messageId == x.messageId && r.recoveredAttachments == x.recoveredAttachments
  {
    x.(recoveredContent := Some(json))
  }

  /** The full-message detector's entry, with its placeholder content and no attachments,
      comes back from that row closure with the empty list's JSON text "[]" as its content. */
  lemma RangeRowAsWrittenCounterexample()
    ensures var fp := Fingerprint(7, "h", [], 1, None, None);
            var rec := DeletionRecord(1, 7, fp, 5, "FullMessage", Some("Full message content"), []);
            RangeRowAsWritten(rec, "[]").recoveredContent == Some("[]")
            && RangeRowAsWritten(rec, "[]") != rec
  {
    assert "Full message content" != "[]" by {
      assert "Full message content"[0] != "[]"[0];
    }
  }

  /** `hash_attachment`'s input text: `filename:size:modified`, a missing time written as 0. */
  function AttachmentPreimage(filename: string, size: nat, modified: Option<int>): string
  {
    filename + ":" + NatToDecimal(size) + ":" + IntToDecimal(match modified case Some(m) => m case None => 0)
  }

  /** `hash_attachment`, with the blake3 digest passed in as `blake3`. */
  function HashAttachment(blake3: string -> string, filename: string, size: nat, modified: Option<int>): string
  {
    blake3(AttachmentPreimage(filename, size, modified))
  }

  /** `hash_content`, with the blake3 digest passed in as `blake3`. */
  function HashContent(blake3: string -> string, content: string): string
  {
    blake3(content)
  }

  /** An attachment without a modification time hashes like one modified at time 0, whatever
      digest is used; and the hash depends on the metadata only. */
  lemma MissingTimeHashesAsZero(blake3: string -> string, filename: string, size: nat)
    ensures AttachmentPreimage(filename, size, None) == filename + ":" + NatToDecimal(size) + ":0"
    ensures HashAttachment(blake3, filename, size, None) == HashAttachment(blake3, filename, size, Some(0))
  {
    assert NatToDecimal(0) == "0";
  }

  /** The error of a failing journal insert. */
  const InsertFailed: string := "deletion record insert failed"

  /** The state manager: the open state database. */
  class Store {
    const retentionDays: nat
    var fingerprints: map<int, FingerprintRow>
    var journal: seq<DeletionRecord>
    /** SQLite's `sqlite_sequence` entry for `deletion_records`: the largest id ever assigned. */
    var sequence: int
    /** Every journal id ever handed out by this database. */
    ghost var issued: set<int>

    ghost predicate Valid()
      reads this
    {
      && WellFormed(StateDb(fingerprints, journal, sequence))
      && (forall x :: x in issued ==> x <= sequence)
      && (forall i :: 0 <= i < |journal| ==> journal[i].id in issued)
    }

    /** `StateManager::new`: open an existing state database `disk`, then purge it once. */
    constructor Open(config: StateConfig, now: int, disk: StateDb)
      requires WellFormed(disk)
      ensures Valid() && retentionDays == config.retentionDays
      ensures var cutoff := RetentionCutoff(now, config.retentionDays);
              && fingerprints == RecentRows(disk.fingerprints, cutoff)
              && journal == RecentRecords(disk.journal, cutoff)
              && sequence == disk.sequence
    {
      retentionDays := config.retentionDays;
      fingerprints := disk.fingerprints;
      journal := disk.journal;
      sequence := disk.sequence;
      issued := set i | 0 <= i < |disk.journal| :: disk.journal[i].id;
      new;
      CleanupOldRecords(now);
    }

    /** `cleanup_old_records`: delete every fingerprint and journal entry strictly older than
        the retention cutoff. The counter is untouched, so purged ids are never handed out again. */
    method CleanupOldRecords(now: int)
      requires Valid()
      modifies this
      ensures Valid()
      ensures var cutoff := RetentionCutoff(now, retentionDays);
              && fingerprints == RecentRows(old(fingerprints), cutoff)
              && journal == RecentRecords(old(journal), cutoff)
      ensures sequence == old(sequence) && issued == old(issued)
    {
      var cutoff := RetentionCutoff(now, retentionDays);
      RecentRecordsWellFormed(StateDb(fingerprints, journal, sequence), cutoff);
      fingerprints := RecentRows(fingerprints, cutoff);
      journal := RecentRecords(journal, cutoff);
    }

    /** `store_fingerprint`: insert or replace the row of `fp.messageId`. */
    method StoreFingerprint(fp: Fingerprint)
      requires Valid()
      modifies this
      ensures Valid()
      ensures fingerprints == Upsert(old(fingerprints), fp)
      ensures journal == old(journal) && sequence == old(sequence) && issued == old(issued)
    {
      fingerprints := fingerprints[fp.messageId := EncodeRow(fp)];
    }

    /** `get_fingerprint`: the decoded row of `id`, or None when there is no row. */
    method GetFingerprint(id: int) returns (r: Option<Fingerprint>)
      ensures r.None? <==> id !in fingerprints
      ensures r.Some? ==> r.value == DecodeRow(id, fingerprints[id])
    {
      if id in fingerprints {
        r := Some(DecodeRow(id, fingerprints[id]));
      } else {
        r := None;
      }
    }

    /** `store_deletion`: append one journal row with a fresh id and return that id. The
        record's own `id` field is ignored. `insertSucceeds` is the outcome of the SQL insert;
        a failed insert changes nothing. */
    method StoreDeletion(d: DeletionRecord, insertSucceeds: bool) returns (r: Result<int>)
      requires Valid()
      modifies this
      ensures Valid()
      ensures r.Ok? <==> insertSucceeds
      ensures r.Ok? ==> && r.value == old(sequence) + 1
                        && r.value !in old(issued)
                        && (forall i :: 0 <= i < |old(journal)| ==> old(journal)[i].id < r.value)
                        && journal == old(journal) + [d.(id := r.value)]
                        && sequence == r.value && issued == old(issued) + {r.value}
      ensures r.Err? ==> r.error == InsertFailed
      ensures r.Err? ==> journal == old(journal) && sequence == old(sequence) && issued == old(issued)
      ensures fingerprints == old(fingerprints)
    {
      if !insertSucceeds {
        return Err(InsertFailed);
      }
      var id := sequence + 1;
      journal := journal + [d.(id := id)];
      sequence := id;
      issued := issued + {id};
      r := Ok(id);
    }

    /** `get_deletions_in_range` as evidently intended: every entry whose timestamp lies in
        [start, end], newest first, each exactly as stored (its attachment list read from
        column index 6 and its content from column index 5). Entries with equal timestamps may
        come in any order, as in SQL. */
    method GetDeletionsInRange(start: int, end: int) returns (r: seq<DeletionRecord>)
      ensures NewestFirst(r)
      ensures multiset(r) == multiset(Matching(journal, start, end))
      ensures forall x :: x in r <==> x in journal && InRange(x, start, end)
    {
      r := [];
      var i := 0;
      while i < |journal|
        invariant 0 <= i <= |journal|
        invariant NewestFirst(r)
        invariant multiset(r) == multiset(Matching(journal[..i], start, end))
      {
        assert journal[..i + 1][..i] == journal[..i];
        if InRange(journal[i], start, end) {
          InsertNewestFirstSorted(journal[i], r);
          r := InsertNewestFirst(journal[i], r);
        }
        i := i + 1;
      }
      assert journal[..i] == journal;
      forall x ensures x in r <==> x in Matching(journal, start, end) {
        assert x in r <==> x in multiset(r);
      }
    }

    /** `batch_store_fingerprints`: all upserts inside one transaction. `failure` names the
        statement that fails, if any (an index at or past the end stands for the commit); on any
        failure the transaction is rolled back and nothing changes. */
    method BatchStoreFingerprints(fps: seq<Fingerprint>, failure: Option<nat>) returns (r: Result<()>)
      requires Valid()
      modifies this
      ensures Valid()
      ensures r.Ok? <==> failure.None?
      ensures fingerprints == if r.Ok? then UpsertAll(old(fingerprints), fps) else old(fingerprints)
      ensures journal == old(journal) && sequence == old(sequence) && issued == old(issued)
    {
      var staged := fingerprints;
      var i := 0;
      while i < |fps|
        invariant 0 <= i <= |fps|
        invariant staged == UpsertAll(fingerprints, fps[..i])
      {
        if failure == Some(i) {
          return Err("fingerprint insert failed; transaction rolled back");
        }
        assert fps[..i + 1][..i] == fps[..i];
        staged := staged[fps[i].messageId := EncodeRow(fps[i])];
        i := i + 1;
      }
      if failure.Some? {
        return Err("commit failed; transaction rolled back");
      }
      assert fps[..i] == fps;
      fingerprints := staged;
      r := Ok(());
    }
  }
}
