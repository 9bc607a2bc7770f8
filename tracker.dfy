/** The coordinator (core/tracker.rs): builds the monitor, the store, the engine and the output
    manager, then feeds every monitored event to `handle_event` and finalises the outputs once
    the stream ends. `handle_event` journals each deletion before dispatching it; the list of
    deletions for a `MessagesModified` event is an empty placeholder, so the engine is never
    consulted. */
module Tracker {

  import opened Wrappers
  import opened Config
  import opened StateManager
  import opened DetectionEngine
  import opened EventSystem
  import opened OutputPlugins

  /** The journal, id counter and handlers after dispatching a list of deletions, and the
      result. */
  datatype Outcome = Outcome(result: Result<()>, journal: seq<DeletionRecord>, sequence: int, handlers: seq<Handler>)

  /** Every list of handler outcomes has one entry per handler. */
  predicate OutcomesFit(outIo: seq<seq<bool>>, handlers: seq<Handler>)
  {
    forall k :: 0 <= k < |outIo| ==> |outIo[k]| == |handlers|
  }

  /** The deletion loop of `handle_event`: store each deletion (`storeIo[i]` says whether the
      insert succeeds), then dispatch the record carrying the assigned id to every handler
      (`outIo[i]` gives each handler's outcome, and failures are only logged); a failing
      insert ends the loop with its error. */
  function Dispatch(journal: seq<DeletionRecord>, sequence: int, handlers: seq<Handler>,
                    deletions: seq<DeletionRecord>, storeIo: seq<bool>, outIo: seq<seq<bool>>): (o: Outcome)
    requires |storeIo| == |deletions| == |outIo| && OutcomesFit(outIo, handlers)
    ensures |o.handlers| == |handlers|
    decreases |deletions|
  {
    if deletions == [] then Outcome(Ok(()), journal, sequence, handlers)
    else if !storeIo[0] then Outcome(Err(InsertFailed), journal, sequence, handlers)
    else
      var rec := deletions[0].(id := sequence + 1);
      Dispatch(journal + [rec], sequence + 1, DeliverAll(handlers, rec, outIo[0]), deletions[1..], storeIo[1..], outIo[1..])
  }

  /** What gets dispatched is exactly what is appended to the journal, in order, each record
      carrying the id the journal assigned it. The loop
      succeeds iff every insert does, and otherwise stops at the first failing insert. */
  lemma {:induction false} DispatchJournalsBeforeSending(journal: seq<DeletionRecord>, sequence: int, handlers: seq<Handler>,
                    deletions: seq<DeletionRecord>, storeIo: seq<bool>, outIo: seq<seq<bool>>)
    requires |storeIo| == |deletions| == |outIo| && OutcomesFit(outIo, handlers)
    ensures var o := Dispatch(journal, sequence, handlers, deletions, storeIo, outIo);
            && journal <= o.journal && |o.journal| - |journal| <= |deletions|
            && o.sequence == sequence + (|o.journal| - |journal|)
            && (forall i :: |journal| <= i < |o.journal| ==>
                  o.journal[i] == deletions[i - |journal|].(id := sequence + 1 + (i - |journal|)))
            && (o.result.Ok? <==> forall i :: 0 <= i < |storeIo| ==> storeIo[i])
            && (o.result.Ok? ==> |o.journal| == |journal| + |deletions|)
            && (o.result.Err? ==> var n := |o.journal| - |journal|;
                                  n < |storeIo| && !storeIo[n] && forall i :: 0 <= i < n ==> storeIo[i])
    decreases |deletions|
  {
    if deletions != [] && storeIo[0] {
      var rec := deletions[0].(id := sequence + 1);
      var delivered := DeliverAll(handlers, rec, outIo[0]);
      FitAfterDelivery(handlers, rec, outIo);
      DispatchJournalsBeforeSending(journal + [rec], sequence + 1, delivered, deletions[1..], storeIo[1..], outIo[1..]);
      var o := Dispatch(journal + [rec], sequence + 1, delivered, deletions[1..], storeIo[1..], outIo[1..]);
      assert forall i :: 1 <= i < |storeIo| ==> storeIo[1..][i - 1] == storeIo[i];
      assert forall j :: 0 <= j < |deletions| - 1 ==> deletions[1..][j] == deletions[j + 1];
      assert (journal + [rec]) <= o.journal && o.journal[|journal|] == rec;
    }
  }

  /** Outputs only ever receive records that were journaled by the same dispatch. */
  lemma {:induction false} DispatchSendsOnlyJournaled(journal: seq<DeletionRecord>, sequence: int, handlers: seq<Handler>,
                    deletions: seq<DeletionRecord>, storeIo: seq<bool>, outIo: seq<seq<bool>>)
    requires |storeIo| == |deletions| == |outIo| && OutcomesFit(outIo, handlers)
    ensures var o := Dispatch(journal, sequence, handlers, deletions, storeIo, outIo);
            journal <= o.journal
            && forall k, x :: 0 <= k < |handlers| && x in o.handlers[k].output ==>
                 x in handlers[k].output || x in o.journal[|journal|..]
    decreases |deletions|
  {
    if deletions != [] && storeIo[0] {
      var rec := deletions[0].(id := sequence + 1);
      var delivered := DeliverAll(handlers, rec, outIo[0]);
      FitAfterDelivery(handlers, rec, outIo);
      DispatchSendsOnlyJournaled(journal + [rec], sequence + 1, delivered, deletions[1..], storeIo[1..], outIo[1..]);
      var o := Dispatch(journal + [rec], sequence + 1, delivered, deletions[1..], storeIo[1..], outIo[1..]);
      assert o.journal[|journal|] == rec;
      forall k, x | 0 <= k < |handlers| && x in o.handlers[k].output && x !in handlers[k].output
        ensures x in o.journal[|journal|..]
      {
        if x in delivered[k].output {
          assert delivered[k].output == handlers[k].output || delivered[k].output == handlers[k].output + [rec];
          assert x == rec;
          assert o.journal[|journal|..][0] == rec;
        } else {
          assert x in o.journal[|journal| + 1..];
          assert o.journal[|journal| + 1..] == o.journal[|journal|..][1..];
        }
      }
    }
  }

  lemma FitAfterDelivery(handlers: seq<Handler>, rec: DeletionRecord, outIo: seq<seq<bool>>)
    requires outIo != [] && OutcomesFit(outIo, handlers)
    ensures OutcomesFit(outIo[1..], DeliverAll(handlers, rec, outIo[0]))
  {
    assert forall k :: 0 <= k < |outIo| - 1 ==> outIo[1..][k] == outIo[k + 1];
  }

  /** One turn of the deletion loop, unfolded at position `i`. */
  lemma DispatchStep(journal: seq<DeletionRecord>, sequence: int, handlers: seq<Handler>,
                     deletions: seq<DeletionRecord>, storeIo: seq<bool>, outIo: seq<seq<bool>>, i: nat)
    requires |storeIo| == |deletions| == |outIo| && i < |deletions| && OutcomesFit(outIo[i..], handlers)
    ensures |outIo[i]| == |handlers|
    ensures !storeIo[i] ==> Dispatch(journal, sequence, handlers, deletions[i..], storeIo[i..], outIo[i..])
                            == Outcome(Err(InsertFailed), journal, sequence, handlers)
    ensures storeIo[i] ==>
              var rec := deletions[i].(id := sequence + 1);
              var delivered := DeliverAll(handlers, rec, outIo[i]);
              && OutcomesFit(outIo[i + 1..], delivered)
              && Dispatch(journal, sequence, handlers, deletions[i..], storeIo[i..], outIo[i..])
                 == Dispatch(journal + [rec], sequence + 1, delivered, deletions[i + 1..], storeIo[i + 1..], outIo[i + 1..])
  {
    assert deletions[i..][1..] == deletions[i + 1..] && storeIo[i..][1..] == storeIo[i + 1..];
    assert outIo[i..][1..] == outIo[i + 1..] && outIo[i..][0] == outIo[i];
  }

  /** `DeletionTracker`. */
  class DeletionTracker {
    const config: TrackerConfig
    const monitor: WalMonitor
    const store: Store
    const engine: Engine
    const outputs: OutputManager

    ghost predicate Valid()
      reads this, store
    {
      store.Valid()
    }

    constructor Assemble(config: TrackerConfig, monitor: WalMonitor, store: Store, engine: Engine, outputs: OutputManager)
      requires store.Valid()
      ensures Valid()
      ensures this.config == config && this.monitor == monitor && this.store == store
      ensures this.engine == engine && this.outputs == outputs
    {
      this.config := config;
      this.monitor := monitor;
      this.store := store;
      this.engine := engine;
      this.outputs := outputs;
    }

    /** `DeletionTracker::new`: fails when the state store cannot be opened (`storeOpens`) or
        when an output handler fails to initialise (`initIo` gives each handler's outcome). */
    static method Create(config: TrackerConfig, now: int, storeOpens: bool, disk: StateDb, initIo: seq<bool>)
      returns (r: Result<DeletionTracker>)
      requires WellFormed(disk) && |initIo| == |HandlersFor(config.outputs)|
      ensures r.Ok? <==> storeOpens && InitAll(HandlersFor(config.outputs), initIo).0.Ok?
      ensures r.Err? && storeOpens ==> r.error == InitAll(HandlersFor(config.outputs), initIo).0.error
      ensures r.Ok? ==> var t := r.value;
                && fresh(t) && fresh(t.monitor) && fresh(t.store) && fresh(t.outputs) && t.Valid()
                && t.config == config
                && t.monitor.State() == MonitorState(0, now) && t.monitor.config == config.database
                && t.engine == Engine(Retained(AllDetectors, config.detection.deletionTypes), config.detection)
                && t.outputs.handlers == InitAll(HandlersFor(config.outputs), initIo).1
                && t.store.journal == RecentRecords(disk.journal, RetentionCutoff(now, config.state.retentionDays))
                && t.store.fingerprints == RecentRows(disk.fingerprints, RetentionCutoff(now, config.state.retentionDays))
    {
      var monitor := new WalMonitor(config.database, now);
      if !storeOpens {
        return Err("cannot open the state database");
      }
      var store := new Store.Open(config.state, now, disk);
      var engine := NewEngine(config.detection);
      var outputs := new OutputManager(config.outputs);
      var init := outputs.Initialize(initIo);
      if init.Err? {
        return Err(init.error);
      }
      var t := new DeletionTracker.Assemble(config, monitor, store, engine, outputs);
      return Ok(t);
    }

    /** The loop over deletions inside `handle_event`. */
    method DispatchDeletions(deletions: seq<DeletionRecord>, storeIo: seq<bool>, outIo: seq<seq<bool>>)
      returns (r: Result<()>)
      requires Valid()
      requires |storeIo| == |deletions| == |outIo| && OutcomesFit(outIo, outputs.handlers)
      modifies store, outputs
      ensures Valid()
      ensures var o := Dispatch(old(store.journal), old(store.sequence), old(outputs.handlers), deletions, storeIo, outIo);
              r == o.result && store.journal == o.journal && store.sequence == o.sequence && outputs.handlers == o.handlers
      ensures store.fingerprints == old(store.fingerprints)
      ensures store.issued == old(store.issued) + IdsAbove(old(store.sequence), store.sequence)
    {
      ghost var whole := Dispatch(store.journal, store.sequence, outputs.handlers, deletions, storeIo, outIo);
      var i := 0;
      assert deletions[0..] == deletions && storeIo[0..] == storeIo && outIo[0..] == outIo;
      while i < |deletions|
        invariant 0 <= i <= |deletions|
        invariant store.Valid() && store.fingerprints == old(store.fingerprints)
        invariant |outputs.handlers| == |old(outputs.handlers)|
        invariant OutcomesFit(outIo[i..], outputs.handlers)
        invariant whole == Dispatch(store.journal, store.sequence, outputs.handlers, deletions[i..], storeIo[i..], outIo[i..])
        invariant old(store.sequence) <= store.sequence
        invariant store.issued == old(store.issued) + IdsAbove(old(store.sequence), store.sequence)
      {
        DispatchStep(store.journal, store.sequence, outputs.handlers, deletions, storeIo, outIo, i);
        var id := store.StoreDeletion(deletions[i], storeIo[i]);
        if id.Err? {
          return Err(id.error);
        }
        var withId := deletions[i].(id := id.value);
        var _ := outputs.HandleDeletion(withId, outIo[i]);
        i := i + 1;
      }
      return Ok(());
    }

    /** `handle_event`: for `MessagesModified` the deletions to report are an empty
        placeholder, so nothing is stored or dispatched; the other events are only logged.
        No event changes the store or the outputs, and none fails. */
    method HandleEvent(event: DatabaseEvent) returns (r: Result<()>)
      requires Valid()
      modifies store, outputs
      ensures Valid() && r == Ok(())
      ensures store.journal == old(store.journal) && store.sequence == old(store.sequence)
      ensures store.issued == old(store.issued)
      ensures store.fingerprints == old(store.fingerprints) && outputs.handlers == old(outputs.handlers)
    {
      match event {
        case MessagesModified(ids) =>
          var deletions: seq<DeletionRecord> := [];
          r := DispatchDeletions(deletions, [], []);
        case _ =>
          r := Ok(());
      }
    }

    /** `start` over a finite run of monitor ticks: every event is handled in stream order, a
        failing event is only logged, and the outputs are finalised once after the stream
        ends, with that result (`finalIo` gives each handler's outcome). */
    method Start(ticks: seq<TickInput>, finalIo: seq<bool>) returns (r: Result<()>)
      requires Valid() && |finalIo| == |outputs.handlers|
      modifies monitor, store, outputs
      ensures Valid()
      ensures monitor.State() == TickStream(old(monitor.State()), ticks, monitor.config.maxBatchSize).1
      ensures r == FinalizeAll(old(outputs.handlers), finalIo).0
      ensures outputs.handlers == FinalizeAll(old(outputs.handlers), finalIo).1
      ensures store.journal == old(store.journal) && store.fingerprints == old(store.fingerprints)
      ensures store.sequence == old(store.sequence) && store.issued == old(store.issued)
    {
      var events := monitor.StartMonitoring(ticks);
      var i := 0;
      while i < |events|
        invariant 0 <= i <= |events|
        invariant Valid()
        invariant monitor.State() == TickStream(old(monitor.State()), ticks, monitor.config.maxBatchSize).1
        invariant store.journal == old(store.journal) && store.fingerprints == old(store.fingerprints)
        invariant store.sequence == old(store.sequence) && store.issued == old(store.issued)
        invariant outputs.handlers == old(outputs.handlers)
      {
        var handled := HandleEvent(events[i]);
        // an error would only be logged: the loop goes on with the next event
        i := i + 1;
      }
      r := outputs.Finalize(finalIo);
    }
  }

  /** The AUTOINCREMENT ids handed out while the counter moves from `lo` up to `hi`. */
  ghost function IdsAbove(lo: int, hi: int): (r: set<int>)
    ensures forall n :: n in r <==> lo < n <= hi
    decreases hi - lo
  {
    if hi <= lo then {} else IdsAbove(lo, hi - 1) + {hi}
  }

  /** An attachment-only record has no recovered content, so the terminal shows
      "[No content]" for it. */
  lemma AttachmentOnlyShowsNoContent(id: int, prev: Option<Fingerprint>, curr: Option<Fingerprint>, now: int)
    requires DetectAttachment(prev, curr).Some?
    ensures ShownContent(BuildRecord(id, prev, DetectAttachment(prev, curr).value, now)) == "[No content]"
  {
  }

  /** A full-message record always carries content, one of the detector's two placeholder
      texts, so the terminal never shows "[No content]" for it. */
  lemma FullMessageShowsPlaceholder(id: int, prev: Option<Fingerprint>, curr: Option<Fingerprint>, now: int)
    requires DetectFullMessage(prev, curr).Some?
    ensures var s := ShownContent(BuildRecord(id, prev, DetectFullMessage(prev, curr).value, now));
            s == (if curr.None? then "Full message content" else "Modified content")
  {
  }

  /** With an empty placeholder list the deletion loop is a no-op. */
  lemma EmptyDispatchChangesNothing(journal: seq<DeletionRecord>, sequence: int, handlers: seq<Handler>)
    ensures Dispatch(journal, sequence, handlers, [], [], []) == Outcome(Ok(()), journal, sequence, handlers)
  {
  }

  /** A store failure stops the loop: the deletions after the first failing insert are
      neither journaled nor dispatched. */
  lemma {:induction false} StoreFailureAbortsRest(journal: seq<DeletionRecord>, sequence: int, handlers: seq<Handler>,
                                                  deletions: seq<DeletionRecord>, storeIo: seq<bool>, outIo: seq<seq<bool>>, n: nat)
    requires |storeIo| == |deletions| == |outIo| && OutcomesFit(outIo, handlers)
    requires n < |storeIo| && !storeIo[n] && forall i :: 0 <= i < n ==> storeIo[i]
    ensures var o := Dispatch(journal, sequence, handlers, deletions, storeIo, outIo);
            o.result.Err? && |o.journal| == |journal| + n && o.sequence == sequence + n
  {
    DispatchJournalsBeforeSending(journal, sequence, handlers, deletions, storeIo, outIo);
  }
}
