/** The classifier engine (core/detection_engine.rs): three deletion detectors, each a pure
    function of the previous and current fingerprint of a message, run in a fixed priority order
    where the first detector that reports something wins. */
module DetectionEngine {

  import opened Wrappers
  import opened Config
  import opened StateManager
  import opened EventSystem
  import opened Sequences

  /** The three detector implementations, in the order `DetectionEngine::new` lists them. */
  datatype Detector = FullMessageDeletion | AttachmentDeletion | PartialEditDetection

  const AllDetectors: seq<Detector> := [FullMessageDeletion, AttachmentDeletion, PartialEditDetection]

  /** `supported_types()`. */
  function SupportedTypes(d: Detector): seq<DeletionType>
  {
    match d
    case FullMessageDeletion => [FullMessage]
    case AttachmentDeletion => [AttachmentOnly]
    case PartialEditDetection => [PartialEdit]
  }

  /** The retain test: some supported type of `d` is listed in the configuration. */
  predicate Supports(d: Detector, types: seq<DeletionType>)
  {
    exists t :: t in SupportedTypes(d) && t in types
  }

  /** `detectors.retain(..)`: the detectors of `ds` that pass the test, in their order. */
  function Retained(ds: seq<Detector>, types: seq<DeletionType>): (r: seq<Detector>)
    ensures forall d :: d in r <==> d in ds && Supports(d, types)
    ensures |r| <= |ds|
  {
    if ds == [] then []
    else
      var r := Retained(ds[..|ds| - 1], types);
      var last := ds[|ds| - 1];
      assert ds == ds[..|ds| - 1] + [last];
      if Supports(last, types) then r + [last] else r
  }

  /** The engine: its active detectors, in priority order, and the detection configuration. */
  datatype Engine = Engine(detectors: seq<Detector>, config: DetectionConfig)

  /** `DetectionEngine::new`: keep exactly the detectors whose type is configured. */
  method NewEngine(config: DetectionConfig) returns (e: Engine)
    ensures e.config == config
    ensures e.detectors == Retained(AllDetectors, config.deletionTypes)
  {
    var kept: seq<Detector> := [];
    var i := 0;
    while i < |AllDetectors|
      invariant 0 <= i <= |AllDetectors|
      invariant kept == Retained(AllDetectors[..i], config.deletionTypes)
    {
      assert AllDetectors[..i + 1][..i] == AllDetectors[..i];
      var d := AllDetectors[i];
      var j := 0;
      var keep := false;
      while j < |SupportedTypes(d)|
        invariant 0 <= j <= |SupportedTypes(d)|
        invariant keep <==> exists t :: t in SupportedTypes(d)[..j] && t in config.deletionTypes
      {
        assert SupportedTypes(d)[..j + 1] == SupportedTypes(d)[..j] + [SupportedTypes(d)[j]];
        if SupportedTypes(d)[j] in config.deletionTypes {
          keep := true;
        }
        j := j + 1;
      }
      assert SupportedTypes(d)[..j] == SupportedTypes(d);
      if keep {
        kept := kept + [d];
      }
      i := i + 1;
    }
    assert AllDetectors[..i] == AllDetectors;
    e := Engine(kept, config);
  }

  /** The active detectors are exactly the configured ones, always in the priority order
      full message, attachment only, partial edit. */
  lemma {:induction false} RetainedInPriorityOrder(types: seq<DeletionType>)
    ensures Retained(AllDetectors, types)
            == (if FullMessage in types then [FullMessageDeletion] else [])
             + (if AttachmentOnly in types then [AttachmentDeletion] else [])
             + (if PartialEdit in types then [PartialEditDetection] else [])
  {
    var one, two := AllDetectors[..1], AllDetectors[..2];
    assert one == [FullMessageDeletion] && one[..0] == [];
    assert two == [FullMessageDeletion, AttachmentDeletion] && two[..1] == one;
    assert AllDetectors[..2] == two;
    assert Supports(FullMessageDeletion, types) <==> FullMessage in types by {
      assert SupportedTypes(FullMessageDeletion) == [FullMessage];
    }
    assert Supports(AttachmentDeletion, types) <==> AttachmentOnly in types by {
      assert SupportedTypes(AttachmentDeletion) == [AttachmentOnly];
    }
    assert Supports(PartialEditDetection, types) <==> PartialEdit in types by {
      assert SupportedTypes(PartialEditDetection) == [PartialEdit];
    }
    assert Retained(one, types) == (if FullMessage in types then [FullMessageDeletion] else []);
    assert Retained(two, types) == Retained(one, types) + (if AttachmentOnly in types then [AttachmentDeletion] else []);
  }

  /** No detector supports MediaContent: configuring only it leaves the engine empty. */
  lemma MediaContentAloneEnablesNothing()
    ensures Retained(AllDetectors, [MediaContent]) == []
  {
    RetainedInPriorityOrder([MediaContent]);
  }

  /** The default configuration runs the full-message detector, then the attachment detector. */
  lemma DefaultEngineDetectors()
    ensures Retained(AllDetectors, Default().detection.deletionTypes) == [FullMessageDeletion, AttachmentDeletion]
  {
    RetainedInPriorityOrder(Default().detection.deletionTypes);
  }

  /** `DetectionResult` (its metadata map is always empty and is left out). */
  datatype DetectionResult = DetectionResult(
    deletionType: DeletionType,
    recoveredContent: Option<string>,
    recoveredAttachments: seq<string>)

  /** The hashes of `prev` that `curr` does not contain, in `prev`'s order. */
  function MissingAttachments(prev: seq<string>, curr: seq<string>): (r: seq<string>)
    ensures forall h :: h in r <==> h in prev && h !in curr
    ensures |r| <= |prev|
  {
    if prev == [] then []
    else
      var rest := MissingAttachments(prev[1..], curr);
      assert prev == [prev[0]] + prev[1..];
      (if prev[0] in curr then [] else [prev[0]]) + rest
  }

  /** The missing hashes keep `prev`'s order and its repetitions: each hash the current
      fingerprint lacks occurs as often as it did before, every other hash not at all. */
  lemma {:induction false} MissingAttachmentsKeepsOrder(prev: seq<string>, curr: seq<string>)
    ensures IsSubsequence(MissingAttachments(prev, curr), prev)
    ensures forall h :: multiset(MissingAttachments(prev, curr))[h] == if h in curr then 0 else multiset(prev)[h]
  {
    if prev != [] {
      MissingAttachmentsKeepsOrder(prev[1..], curr);
      var rest := MissingAttachments(prev[1..], curr);
      var r := MissingAttachments(prev, curr);
      assert prev == [prev[0]] + prev[1..];
      if prev[0] in curr {
        assert r == rest;
        SubsequenceOfTail(rest, prev);
      } else {
        assert r == [prev[0]] + rest;
        assert r[1..] == rest;
      }
    }
  }

  /** Nothing is missing when every earlier hash is still present. */
  lemma {:induction false} NoneMissingFromSuperset(prev: seq<string>, curr: seq<string>)
    requires forall h :: h in prev ==> h in curr
    ensures MissingAttachments(prev, curr) == []
  {
    if prev != [] {
      assert prev[0] in prev;
      forall h | h in prev[1..] ensures h in curr {
        assert h in prev;
      }
      NoneMissingFromSuperset(prev[1..], curr);
    }
  }

  /** `FullMessageDeletionDetector::detect_deletion`: the message had a fingerprint and now has
      none, or its content hash changed. */
  function DetectFullMessage(prev: Option<Fingerprint>, curr: Option<Fingerprint>): (r: Option<DetectionResult>)
    ensures r.Some? <==> prev.Some? && (curr.None? || prev.value.contentHash != curr.value.contentHash)
    ensures r.Some? && curr.None? ==>
              r.value == DetectionResult(FullMessage, Some("Full message content"), prev.value.attachmentHashes)
    ensures r.Some? && curr.Some? ==> r.value == DetectionResult(FullMessage, Some("Modified content"), [])
  {
    match (prev, curr)
    case (Some(p), None) =>
      Some(DetectionResult(FullMessage, Some("Full message content"), p.attachmentHashes))
    case (Some(p), Some(c)) =>
      if p.contentHash != c.contentHash then Some(DetectionResult(FullMessage, Some("Modified content"), []))
      else None
    case _ => None
  }

  /** `AttachmentDeletionDetector::detect_deletion`: same content, and some earlier attachment
      hash is gone; reports exactly the missing hashes. */
  function DetectAttachment(prev: Option<Fingerprint>, curr: Option<Fingerprint>): (r: Option<DetectionResult>)
    ensures r.Some? <==> && prev.Some? && curr.Some?
                         && prev.value.contentHash == curr.value.contentHash
                         && MissingAttachments(prev.value.attachmentHashes, curr.value.attachmentHashes) != []
    ensures r.Some? ==>
              r.value == DetectionResult(AttachmentOnly, None,
                           MissingAttachments(prev.value.attachmentHashes, curr.value.attachmentHashes))
  {
    match (prev, curr)
    case (Some(p), Some(c)) =>
      var missing := MissingAttachments(p.attachmentHashes, c.attachmentHashes);
      NoneMissingFromSuperset(p.attachmentHashes, p.attachmentHashes);
      if p.contentHash == c.contentHash && p.attachmentHashes != c.attachmentHashes && missing != [] then
        Some(DetectionResult(AttachmentOnly, None, missing))
      else None
    case _ => None
  }

  /** `PartialEditDetector::detect_deletion`: only with edit tracking on, and only when both
      fingerprints exist and the content hash changed. */
  function DetectPartialEdit(trackEdits: bool, prev: Option<Fingerprint>, curr: Option<Fingerprint>): (r: Option<DetectionResult>)
    ensures r.Some? <==> trackEdits && prev.Some? && curr.Some? && prev.value.contentHash != curr.value.contentHash
    ensures r.Some? ==> r.value == DetectionResult(PartialEdit, Some("Content changed"), [])
  {
    if !trackEdits then None
    else
      match (prev, curr)
      case (Some(p), Some(c)) =>
        if p.contentHash != c.contentHash then Some(DetectionResult(PartialEdit, Some("Content changed"), []))
        else None
      case _ => None
  }

  /** One detector's answer. None of the three can fail; the `Result` keeps the engine's
      "a failing detector is skipped" rule visible. */
  function Detect(d: Detector, config: DetectionConfig, prev: Option<Fingerprint>, curr: Option<Fingerprint>)
    : (r: Result<Option<DetectionResult>>)
    ensures r.Ok?
    ensures r.value.Some? ==> r.value.value.deletionType in SupportedTypes(d) && prev.Some?
  {
    match d
    case FullMessageDeletion => Ok(DetectFullMessage(prev, curr))
    case AttachmentDeletion => Ok(DetectAttachment(prev, curr))
    case PartialEditDetection => Ok(DetectPartialEdit(config.trackEditsAsDeletions, prev, curr))
  }

  /** The detector reports a deletion. */
  predicate Fires(d: Detector, config: DetectionConfig, prev: Option<Fingerprint>, curr: Option<Fingerprint>)
  {
    Detect(d, config, prev, curr).Ok? && Detect(d, config, prev, curr).value.Some?
  }

  /** First match wins: the first detector of `ds` that reports, with its report. */
  function Classify(ds: seq<Detector>, config: DetectionConfig, prev: Option<Fingerprint>, curr: Option<Fingerprint>)
    : (r: Option<(Detector, DetectionResult)>)
    ensures r.None? <==> forall k :: 0 <= k < |ds| ==> !Fires(ds[k], config, prev, curr)
  {
    if ds == [] then None
    else
      var first := Detect(ds[0], config, prev, curr);
      if first.Ok? && first.value.Some? then Some((ds[0], first.value.value))
      else
        assert forall k :: 0 < k < |ds| ==> ds[1..][k - 1] == ds[k];
        Classify(ds[1..], config, prev, curr)
  }

  /** The winner is the first detector, in order, that reports; its report is the result. */
  lemma {:induction false} ClassifyFirstMatch(ds: seq<Detector>, config: DetectionConfig, prev: Option<Fingerprint>, curr: Option<Fingerprint>)
    returns (k: nat)
    requires Classify(ds, config, prev, curr).Some?
    ensures k < |ds| && ds[k] == Classify(ds, config, prev, curr).value.0
    ensures Detect(ds[k], config, prev, curr) == Ok(Some(Classify(ds, config, prev, curr).value.1))
    ensures forall j :: 0 <= j < k ==> !Fires(ds[j], config, prev, curr)
  {
    if Fires(ds[0], config, prev, curr) {
      k := 0;
    } else {
      var k' := ClassifyFirstMatch(ds[1..], config, prev, curr);
      k := k' + 1;
      forall j | 0 <= j < k ensures !Fires(ds[j], config, prev, curr) {
        if j > 0 { assert ds[j] == ds[1..][j - 1]; }
      }
    }
  }

  /** Every detector needs a previous fingerprint, so nothing fires without one. */
  lemma NothingFiresWithoutHistory(ds: seq<Detector>, config: DetectionConfig, curr: Option<Fingerprint>)
    ensures Classify(ds, config, None, curr).None?
  {
  }

  /** The partial-edit detector is shadowed whenever the engine was built with the full-message
      detector configured: whatever configuration the detection context carries, whenever the
      partial-edit detector would fire, the full-message detector, which comes first, fires too. */
  lemma {:induction false} PartialEditShadowed(config: DetectionConfig, ctx: DetectionConfig, prev: Option<Fingerprint>, curr: Option<Fingerprint>)
    requires FullMessage in config.deletionTypes
    ensures var r := Classify(Retained(AllDetectors, config.deletionTypes), ctx, prev, curr);
            r.Some? ==> r.value.1.deletionType != PartialEdit
  {
    var ds := Retained(AllDetectors, config.deletionTypes);
    RetainedInPriorityOrder(config.deletionTypes);
    assert ds[0] == FullMessageDeletion;
    var r := Classify(ds, ctx, prev, curr);
    if r.Some? && r.value.1.deletionType == PartialEdit {
      var k := ClassifyFirstMatch(ds, ctx, prev, curr);
      assert false;
    }
  }

  /** `format!("{:?}", deletion_type)`. */
  function TypeName(t: DeletionType): string
  {
    match t
    case FullMessage => "FullMessage"
    case PartialEdit => "PartialEdit"
    case AttachmentOnly => "AttachmentOnly"
    case MediaContent => "MediaContent"
  }

  /** The fingerprint used when no previous state exists. */
  function UnknownFingerprint(id: int, now: int): Fingerprint
  {
    Fingerprint(id, "unknown", [], now, None, None)
  }

  /** The record the engine builds from a winning detection result; `id` is left at 0 for the
      store to assign. */
  function BuildRecord(id: int, prev: Option<Fingerprint>, res: DetectionResult, now: int): DeletionRecord
  {
    DeletionRecord(0, id, match prev case Some(p) => p case None => UnknownFingerprint(id, now),
                   now, TypeName(res.deletionType), res.recoveredContent, res.recoveredAttachments)
  }

  /** The handling of one message id: its record, if a detector fired, and the fingerprint table
      after the baseline write (made only when a current fingerprint exists). The engine's own
      configuration chose its detectors; the detectors read `ctx`, the configuration of the
      detection context the caller passes in, which need not be the engine's. */
  function Step(e: Engine, ctx: DetectionConfig, rows: map<int, FingerprintRow>, id: int, curr: Option<Fingerprint>, now: int)
    : (Option<DeletionRecord>, map<int, FingerprintRow>)
  {
    var prev := FingerprintAt(rows, id);
    var rec := match Classify(e.detectors, ctx, prev, curr)
      case Some((d, res)) => Some(BuildRecord(id, prev, res, now))
      case None => None;
    (rec, match curr case Some(c) => Upsert(rows, c) case None => rows)
  }

  /** `analyze_message_changes` over `ids`, with `currents[i]` the current fingerprint of
      `ids[i]`: the records in id order and the final fingerprint table. */
  function Analysis(e: Engine, ctx: DetectionConfig, rows: map<int, FingerprintRow>, ids: seq<int>, currents: seq<Option<Fingerprint>>, now: int)
    : (seq<DeletionRecord>, map<int, FingerprintRow>)
    requires |currents| == |ids|
    decreases |ids|
  {
    if ids == [] then ([], rows)
    else
      var (rec, rows1) := Step(e, ctx, rows, ids[0], currents[0], now);
      var (rest, final) := Analysis(e, ctx, rows1, ids[1..], currents[1..], now);
      (RecordList(rec) + rest, final)
  }

  /** A record is built only from a real previous fingerprint: the "unknown" placeholder is
      never used. It carries id 0, the message id, the previous fingerprint, the detection
      time and the name of the winning detector's type. */
  lemma StepRecordUsesPrevious(e: Engine, ctx: DetectionConfig, rows: map<int, FingerprintRow>, id: int, curr: Option<Fingerprint>, now: int)
    ensures var (rec, _) := Step(e, ctx, rows, id, curr, now);
            rec.Some? ==> && FingerprintAt(rows, id).Some?
                          && rec.value.id == 0 && rec.value.messageId == id
                          && rec.value.originalFingerprint == FingerprintAt(rows, id).value
                          && rec.value.deletionTimestamp == now
                          && rec.value.deletionType in ["FullMessage", "AttachmentOnly", "PartialEdit"]
  {
    var prev := FingerprintAt(rows, id);
    var c := Classify(e.detectors, ctx, prev, curr);
    if c.Some? {
      var k := ClassifyFirstMatch(e.detectors, ctx, prev, curr);
      assert c.value.1.deletionType in SupportedTypes(e.detectors[k]);
    }
  }

  /** Message ids of a list of records. */
  function MessageIds(records: seq<DeletionRecord>): (r: seq<int>)
    ensures |r| == |records|
    ensures forall i :: 0 <= i < |records| ==> r[i] == records[i].messageId
  {
    if records == [] then [] else [records[0].messageId] + MessageIds(records[1..])
  }

  /** At most one record per input id, in input order: the records' message ids are a
      subsequence of the input ids. */
  lemma {:induction false} AnalysisFollowsIdOrder(e: Engine, ctx: DetectionConfig, rows: map<int, FingerprintRow>, ids: seq<int>, currents: seq<Option<Fingerprint>>, now: int)
    requires |currents| == |ids|
    ensures IsSubsequence(MessageIds(Analysis(e, ctx, rows, ids, currents, now).0), ids)
    ensures |Analysis(e, ctx, rows, ids, currents, now).0| <= |ids|
    decreases |ids|
  {
    if ids != [] {
      var (rec, rows1) := Step(e, ctx, rows, ids[0], currents[0], now);
      AnalysisFollowsIdOrder(e, ctx, rows1, ids[1..], currents[1..], now);
      var rest := Analysis(e, ctx, rows1, ids[1..], currents[1..], now).0;
      var all := Analysis(e, ctx, rows, ids, currents, now).0;
      if rec.Some? {
        assert all == [rec.value] + rest;
        assert MessageIds(all) == [ids[0]] + MessageIds(rest);
        assert MessageIds(all)[1..] == MessageIds(rest);
      } else {
        assert all == rest;
        SubsequenceOfTail(MessageIds(rest), ids);
      }
    }
  }


  /** `build_current_fingerprint`: a placeholder that never knows the current state. */
  function BuildCurrentFingerprint(id: int): Option<Fingerprint>
  {
    None
  }

  /** The current fingerprints the engine actually obtains for `ids`. */
  function StubCurrents(ids: seq<int>): (r: seq<Option<Fingerprint>>)
    ensures |r| == |ids| && forall i :: 0 <= i < |ids| ==> r[i] == BuildCurrentFingerprint(ids[i])
  {
    seq(|ids|, i requires 0 <= i < |ids| => BuildCurrentFingerprint(ids[i]))
  }

  /** What the engine reports while the current state is never known, defined directly: one
      full-message record for every id that has a stored fingerprint, provided the full-message
      detector is active. */
  function VanishedRecords(e: Engine, rows: map<int, FingerprintRow>, ids: seq<int>, now: int): seq<DeletionRecord>
  {
    if ids == [] then []
    else
      (if FullMessageDeletion in e.detectors && ids[0] in rows
       then var p := DecodeRow(ids[0], rows[ids[0]]);
            [DeletionRecord(0, ids[0], p, now, "FullMessage", Some("Full message content"), p.attachmentHashes)]
       else [])
      + VanishedRecords(e, rows, ids[1..], now)
  }

  /** With the placeholder current state no baseline is ever written, and the only possible
      report is "the message vanished", made by the full-message detector for every id with a
      stored fingerprint, every time that id is analysed. */
  lemma {:induction false} StubAnalysisReportsOnlyVanished(e: Engine, ctx: DetectionConfig, rows: map<int, FingerprintRow>, ids: seq<int>, now: int)
    ensures Analysis(e, ctx, rows, ids, StubCurrents(ids), now) == (VanishedRecords(e, rows, ids, now), rows)
  {
    if ids != [] {
      var cs := StubCurrents(ids);
      assert cs[1..] == StubCurrents(ids[1..]);
      StubAnalysisReportsOnlyVanished(e, ctx, rows, ids[1..], now);
      var prev := FingerprintAt(rows, ids[0]);
      var c := Classify(e.detectors, ctx, prev, None);
      if FullMessageDeletion in e.detectors && ids[0] in rows {
        assert c.Some?;
        var k := ClassifyFirstMatch(e.detectors, ctx, prev, None);
        assert e.detectors[k] == FullMessageDeletion;
      } else if c.Some? {
        var k := ClassifyFirstMatch(e.detectors, ctx, prev, None);
        assert false;
      }
    }
  }

  /** The record list contributed by one step. */
  function RecordList(rec: Option<DeletionRecord>): seq<DeletionRecord>
  {
    match rec case Some(x) => [x] case None => []
  }

  /** One step of `Analysis`, unfolded. */
  lemma AnalysisUnfold(e: Engine, ctx: DetectionConfig, rows: map<int, FingerprintRow>, ids: seq<int>, currents: seq<Option<Fingerprint>>, now: int)
    requires |currents| == |ids| && ids != []
    ensures var (rec, rows1) := Step(e, ctx, rows, ids[0], currents[0], now);
            var (rest, final) := Analysis(e, ctx, rows1, ids[1..], currents[1..], now);
            Analysis(e, ctx, rows, ids, currents, now) == (RecordList(rec) + rest, final)
  {
  }

  /** The detector loop of `analyze_message_changes` for one message: run the engine's
      detectors in order, skipping the ones that fail, and stop at the first report. */
  method RunDetectors(e: Engine, ctx: DetectionConfig, id: int, prev: Option<Fingerprint>, curr: Option<Fingerprint>, now: int)
    returns (found: Option<DeletionRecord>)
    ensures found == match Classify(e.detectors, ctx, prev, curr)
                     case Some((d, res)) => Some(BuildRecord(id, prev, res, now))
                     case None => None
  {
    var j := 0;
    found := None;
    while j < |e.detectors| && found.None?
      invariant 0 <= j <= |e.detectors|
      invariant found.None? ==> Classify(e.detectors, ctx, prev, curr) == Classify(e.detectors[j..], ctx, prev, curr)
      invariant found.Some? ==> match Classify(e.detectors, ctx, prev, curr)
                                 case Some((d, res)) => found == Some(BuildRecord(id, prev, res, now))
                                 case None => false
      decreases |e.detectors| - j, if found.None? then 1 else 0
    {
      var outcome := Detect(e.detectors[j], ctx, prev, curr);
      if outcome.Ok? && outcome.value.Some? {
        found := Some(BuildRecord(id, prev, outcome.value.value, now));
      } else {
        // no report, or the detector failed: try the next one
        assert e.detectors[j..][1..] == e.detectors[j + 1..];
        j := j + 1;
      }
    }
    if found.None? {
      assert e.detectors[j..] == [];
    }
  }

  /** The handling of one message id inside `analyze_message_changes`: read its previous
      fingerprint, run the detectors, then store the current fingerprint as the new baseline
      when there is one. */
  method AnalyzeOne(e: Engine, ctx: DetectionConfig, store: Store, id: int, curr: Option<Fingerprint>, now: int)
    returns (found: Option<DeletionRecord>)
    requires store.Valid()
    modifies store
    ensures store.Valid()
    ensures (found, store.fingerprints) == Step(e, ctx, old(store.fingerprints), id, curr, now)
    ensures store.journal == old(store.journal) && store.sequence == old(store.sequence)
  {
    var prev := store.GetFingerprint(id);
    assert prev == FingerprintAt(store.fingerprints, id);
    found := RunDetectors(e, ctx, id, prev, curr, now);
    if curr.Some? {
      store.StoreFingerprint(curr.value);
    }
  }

  /** `analyze_message_changes`: for each id, read the previous fingerprint, run the detectors
      in order until one reports, and store the current fingerprint as the new baseline when
      there is one. */
  method AnalyzeMessageChanges(e: Engine, ctx: DetectionConfig, store: Store, ids: seq<int>, currents: seq<Option<Fingerprint>>, now: int)
    returns (records: seq<DeletionRecord>)
    requires store.Valid() && |currents| == |ids|
    modifies store
    ensures store.Valid()
    ensures (records, store.fingerprints) == Analysis(e, ctx, old(store.fingerprints), ids, currents, now)
    ensures store.journal == old(store.journal) && store.sequence == old(store.sequence)
  {
    records := [];
    var i := 0;
    assert ids[0..] == ids && currents[0..] == currents;
    while i < |ids|
      invariant 0 <= i <= |ids|
      invariant store.Valid()
      invariant store.journal == old(store.journal) && store.sequence == old(store.sequence)
      invariant Analysis(e, ctx, old(store.fingerprints), ids, currents, now).0
                == records + Analysis(e, ctx, store.fingerprints, ids[i..], currents[i..], now).0
      invariant Analysis(e, ctx, old(store.fingerprints), ids, currents, now).1
                == Analysis(e, ctx, store.fingerprints, ids[i..], currents[i..], now).1
    {
      ghost var before := store.fingerprints;
      var found := AnalyzeOne(e, ctx, store, ids[i], currents[i], now);
      ghost var rest := Analysis(e, ctx, store.fingerprints, ids[i + 1..], currents[i + 1..], now);
      assert Analysis(e, ctx, before, ids[i..], currents[i..], now) == (RecordList(found) + rest.0, rest.1) by {
        AnalysisUnfold(e, ctx, before, ids[i..], currents[i..], now);
        assert ids[i..][0] == ids[i] && currents[i..][0] == currents[i];
        assert ids[i..][1..] == ids[i + 1..] && currents[i..][1..] == currents[i + 1..];
      }
      records := records + RecordList(found);
      i := i + 1;
    }
    assert ids[i..] == [] && currents[i..] == [];
    assert Analysis(e, ctx, store.fingerprints, ids[i..], currents[i..], now) == ([], store.fingerprints);
    assert records + [] == records;
  }

  /** `process_event`: only `MessagesModified` is analysed, with the current state the engine
      can build and the detection context's configuration `ctx` and store; every other event
      yields no records and leaves the store alone. */
  method ProcessEvent(e: Engine, ctx: DetectionConfig, store: Store, event: DatabaseEvent, now: int) returns (records: seq<DeletionRecord>)
    requires store.Valid()
    modifies store
    ensures store.Valid()
    ensures store.journal == old(store.journal) && store.sequence == old(store.sequence)
    ensures event.MessagesModified? ==>
              (records, store.fingerprints) == Analysis(e, ctx, old(store.fingerprints), event.ids, StubCurrents(event.ids), now)
    ensures !event.MessagesModified? ==> records == [] && store.fingerprints == old(store.fingerprints)
  {
    match event
    case MessagesModified(ids) =>
      records := AnalyzeMessageChanges(e, ctx, store, ids, StubCurrents(ids), now);
    case _ =>
      records := [];
  }
}
