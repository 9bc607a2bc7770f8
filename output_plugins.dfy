/** The output manager (core/output_plugins.rs): one handler per enabled output configuration,
    initialised and finalised in order up to the first failure, and offered every deletion
    whatever the other handlers do. What a concrete handler writes is abstracted to the list of
    records it has accepted; whether each file, database, HTTP or console operation succeeds is
    an input. */
module OutputPlugins {

  import opened Wrappers
  import opened Config
  import opened StateManager

  /** The four handler implementations and their settings. */
  datatype HandlerKind =
    | JsonFile(path: string, pretty: bool)
    | SqliteTable(path: string, tableName: string)
    | WebhookPost(url: string, authToken: Option<string>)
    | TerminalOut(format: TerminalFormat)

  /** A handler: its kind, whether its file or connection is open (`file` / `conn` is Some),
      the records it has written out, and `closed`, a marker of the model alone (no handler
      has such a field, since `finalize` changes no state) that its `finalize` ran to
      completion. */
  datatype Handler = Handler(kind: HandlerKind, ready: bool, output: seq<DeletionRecord>, closed: bool)

  /** One handler operation under an I/O outcome: its result and the handler after it. */
  type Step = (Handler, bool) -> (Result<()>, Handler)

  /** The handler that `OutputManager::new` builds for a plugin: nothing opened yet. */
  function NewHandler(plugin: OutputPlugin): (h: Handler)
    ensures !h.ready && h.output == [] && !h.closed
  {
    var kind := match plugin
      case Json(path, pretty) => JsonFile(path, pretty)
      case Sqlite(path, tableName) => SqliteTable(path, tableName)
      case Webhook(url, authToken) => WebhookPost(url, authToken)
      case Terminal(format) => TerminalOut(format);
    Handler(kind, false, [], false)
  }

  /** The handlers for a list of output configurations: one per enabled entry, in order. */
  function HandlersFor(configs: seq<OutputConfig>): (hs: seq<Handler>)
    ensures |hs| <= |configs|
  {
    if configs == [] then []
    else
      var last := configs[|configs| - 1];
      HandlersFor(configs[..|configs| - 1]) + (if last.enabled then [NewHandler(last.plugin)] else [])
  }

  /** Handler lists are built entry by entry: the handlers of two stretches of configuration
      are those of the first followed by those of the second. */
  lemma {:induction false} HandlersForAppend(c1: seq<OutputConfig>, c2: seq<OutputConfig>)
    ensures HandlersFor(c1 + c2) == HandlersFor(c1) + HandlersFor(c2)
    decreases |c2|
  {
    if c2 == [] {
      assert c1 + c2 == c1;
    } else {
      var c2' := c2[..|c2| - 1];
      assert (c1 + c2)[..|c1 + c2| - 1] == c1 + c2';
      assert (c1 + c2)[|c1 + c2| - 1] == c2[|c2| - 1];
      HandlersForAppend(c1, c2');
    }
  }

  /** A single entry gives its handler when enabled and nothing when disabled. */
  lemma HandlersForOne(c: OutputConfig)
    ensures HandlersFor([c]) == if c.enabled then [NewHandler(c.plugin)] else []
  {
    assert [c][..0] == [];
  }

  /** The default configuration yields a colored terminal handler, then a pretty JSON file
      handler writing to ./deletions.json. */
  lemma DefaultHandlers()
    ensures HandlersFor(Default().outputs)
            == [Handler(TerminalOut(Colored), false, [], false),
                Handler(JsonFile("./deletions.json", true), false, [], false)]
  {
    var outs := Default().outputs;
    assert outs == [outs[0]] + [outs[1]];
    HandlersForAppend([outs[0]], [outs[1]]);
    HandlersForOne(outs[0]);
    HandlersForOne(outs[1]);
  }

  /** `initialize` of one handler: the JSON file and the SQLite connection are opened (and the
      table created), the webhook is sent a test payload, the terminal prints a banner. */
  function InitHandler(h: Handler, io: bool): (r: (Result<()>, Handler))
    ensures r.0.Err? ==> r.1 == h
    ensures r.0.Ok? && (h.kind.JsonFile? || h.kind.SqliteTable?) ==> r.1 == h.(ready := true)
    ensures r.0.Err? ==> !io && !h.kind.TerminalOut?
  {
    match h.kind
    case JsonFile(_, _) => if io then (Ok(()), h.(ready := true)) else (Err("cannot open the output file"), h)
    case SqliteTable(_, _) => if io then (Ok(()), h.(ready := true)) else (Err("cannot open the output database"), h)
    case WebhookPost(_, _) => if io then (Ok(()), h) else (Err("Webhook test failed"), h)
    case TerminalOut(_) => (Ok(()), h)
  }

  /** `handle_deletion` of one handler. The JSON and SQLite handlers do nothing until they
      are initialised; the webhook posts unconditionally; the terminal always prints. */
  function DeliverHandler(h: Handler, d: DeletionRecord, io: bool): (r: (Result<()>, Handler))
    ensures r.1.kind == h.kind && r.1.ready == h.ready && r.1.closed == h.closed
    ensures r.1.output == h.output || r.1.output == h.output + [d]
    ensures r.0.Err? ==> r.1 == h
  {
    match h.kind
    case JsonFile(_, _) =>
      if !h.ready then (Ok(()), h)
      else if io then (Ok(()), h.(output := h.output + [d]))
      else (Err("cannot write to the output file"), h)
    case SqliteTable(_, _) =>
      if !h.ready then (Ok(()), h)
      else if io then (Ok(()), h.(output := h.output + [d]))
      else (Err("cannot insert into the output table"), h)
    case WebhookPost(_, _) =>
      if io then (Ok(()), h.(output := h.output + [d])) else (Err("Webhook delivery failed"), h)
    case TerminalOut(_) => (Ok(()), h.(output := h.output + [d]))
  }

  /** An uninitialised JSON or SQLite handler ignores deliveries and reports success; every
      other handler either records the deletion or fails. */
  lemma UninitializedStorageIgnoresDeliveries(h: Handler, d: DeletionRecord, io: bool)
    ensures (h.kind.JsonFile? || h.kind.SqliteTable?) && !h.ready ==> DeliverHandler(h, d, io) == (Ok(()), h)
    ensures h.kind.TerminalOut? ==> DeliverHandler(h, d, io) == (Ok(()), h.(output := h.output + [d]))
    ensures DeliverHandler(h, d, io).0.Ok? && (h.ready || h.kind.WebhookPost? || h.kind.TerminalOut?) ==>
              DeliverHandler(h, d, io).1.output == h.output + [d]
  {
  }

  /** `finalize` of one handler: only an open JSON file can fail (its flush). */
  function FinalizeHandler(h: Handler, io: bool): (r: (Result<()>, Handler))
    ensures r.0.Err? <==> h.kind.JsonFile? && h.ready && !io
    ensures r.0.Ok? ==> r.1 == h.(closed := true)
    ensures r.0.Err? ==> r.1 == h
  {
    match h.kind
    case JsonFile(_, _) =>
      if h.ready && !io then (Err("cannot flush the output file"), h) else (Ok(()), h.(closed := true))
    case _ => (Ok(()), h.(closed := true))
  }

  /** Every handler before `k` succeeded in `step`. */
  predicate Reached(step: Step, hs: seq<Handler>, io: seq<bool>, k: nat)
    requires |io| == |hs| && k <= |hs|
  {
    forall j :: 0 <= j < k ==> step(hs[j], io[j]).0.Ok?
  }

  /** Past a successful first handler, reaching position `k + 1` of `hs` is reaching
      position `k` of its tail. */
  lemma ReachedShift(step: Step, hs: seq<Handler>, io: seq<bool>)
    requires |io| == |hs| && hs != [] && step(hs[0], io[0]).0.Ok?
    ensures forall k :: 0 <= k < |hs| ==>
              (Reached(step, hs[1..], io[1..], k) <==> Reached(step, hs, io, k + 1))
  {
    forall k | 0 <= k < |hs|
      ensures Reached(step, hs[1..], io[1..], k) <==> Reached(step, hs, io, k + 1)
    {
      if Reached(step, hs[1..], io[1..], k) {
        forall j | 0 <= j < k + 1 ensures step(hs[j], io[j]).0.Ok? {
          if j > 0 { assert hs[1..][j - 1] == hs[j] && io[1..][j - 1] == io[j]; }
        }
      }
      if Reached(step, hs, io, k + 1) {
        forall j | 0 <= j < k ensures step(hs[1..][j], io[1..][j]).0.Ok? {
          assert hs[1..][j] == hs[j + 1] && io[1..][j] == io[j + 1];
        }
      }
    }
  }

  /** Running `step` over the handlers in order, stopping at the first failure (the `?` in
      the loops of `initialize` and `finalize`). */
  function RunInOrder(step: Step, hs: seq<Handler>, io: seq<bool>): (r: (Result<()>, seq<Handler>))
    requires |io| == |hs|
    ensures |r.1| == |hs|
    decreases |hs|
  {
    if hs == [] then (Ok(()), [])
    else
      var (res, h) := step(hs[0], io[0]);
      if res.Err? then (res, [h] + hs[1..])
      else
        var (res2, rest) := RunInOrder(step, hs[1..], io[1..]);
        (res2, [h] + rest)
  }

  /** The run succeeds iff every handler succeeds. Handlers up to and including the first
      failing one have run; the ones after it are untouched; the result is that first failure. */
  lemma {:induction false} RunInOrderMeaning(step: Step, hs: seq<Handler>, io: seq<bool>)
    requires |io| == |hs|
    ensures RunInOrder(step, hs, io).0.Ok? <==> Reached(step, hs, io, |hs|)
    ensures forall k :: 0 <= k < |hs| ==>
      RunInOrder(step, hs, io).1[k] == if Reached(step, hs, io, k) then step(hs[k], io[k]).1 else hs[k]
    ensures RunInOrder(step, hs, io).0.Err? ==>
      exists k :: 0 <= k < |hs| && Reached(step, hs, io, k) && step(hs[k], io[k]).0 == RunInOrder(step, hs, io).0
    decreases |hs|
  {
    if hs != [] {
      var r := RunInOrder(step, hs, io);
      assert Reached(step, hs, io, 0);
      if step(hs[0], io[0]).0.Err? {
        forall k | 0 < k <= |hs| ensures !Reached(step, hs, io, k) {
          assert !step(hs[0], io[0]).0.Ok?;
        }
      } else {
        RunInOrderMeaning(step, hs[1..], io[1..]);
        ReachedShift(step, hs, io);
        var rest := RunInOrder(step, hs[1..], io[1..]);
        assert r.1 == [step(hs[0], io[0]).1] + rest.1;
        forall k | 0 < k < |hs|
          ensures r.1[k] == if Reached(step, hs, io, k) then step(hs[k], io[k]).1 else hs[k]
        {
          assert r.1[k] == rest.1[k - 1];
          assert hs[1..][k - 1] == hs[k] && io[1..][k - 1] == io[k];
        }
        if r.0.Err? {
          var k :| 0 <= k < |hs| - 1 && Reached(step, hs[1..], io[1..], k)
            && step(hs[1..][k], io[1..][k]).0 == r.0;
          assert hs[1..][k] == hs[k + 1] && io[1..][k] == io[k + 1];
          assert Reached(step, hs, io, k + 1);
        }
      }
    }
  }

  /** A run that reaches a failing handler returns its error; the handlers before it and it
      have run, the rest are untouched. */
  lemma RunStopsAt(step: Step, hs: seq<Handler>, io: seq<bool>, i: nat)
    requires |io| == |hs| && i < |hs|
    requires Reached(step, hs, io, i) && step(hs[i], io[i]).0.Err?
    ensures RunInOrder(step, hs, io).0 == step(hs[i], io[i]).0
    ensures forall j :: 0 <= j <= i ==> RunInOrder(step, hs, io).1[j] == step(hs[j], io[j]).1
    ensures forall j :: i < j < |hs| ==> RunInOrder(step, hs, io).1[j] == hs[j]
  {
    RunInOrderMeaning(step, hs, io);
    var r := RunInOrder(step, hs, io);
    forall j | i < j <= |hs| ensures !Reached(step, hs, io, j) {
    }
    var k :| 0 <= k < |hs| && Reached(step, hs, io, k) && step(hs[k], io[k]).0 == r.0;
    assert k == i;
    forall j | 0 <= j <= i ensures Reached(step, hs, io, j) {
    }
  }

  /** A run in which no handler fails runs every handler. */
  lemma RunCompletes(step: Step, hs: seq<Handler>, io: seq<bool>)
    requires |io| == |hs| && Reached(step, hs, io, |hs|)
    ensures RunInOrder(step, hs, io).0 == Ok(())
    ensures forall k :: 0 <= k < |hs| ==> RunInOrder(step, hs, io).1[k] == step(hs[k], io[k]).1
  {
    RunInOrderMeaning(step, hs, io);
    forall k | 0 <= k < |hs| ensures Reached(step, hs, io, k) {
    }
  }

  /** `initialize` over all handlers. */
  function InitAll(hs: seq<Handler>, io: seq<bool>): (r: (Result<()>, seq<Handler>))
    requires |io| == |hs|
  {
    RunInOrder(InitHandler, hs, io)
  }

  /** `finalize` over all handlers. */
  function FinalizeAll(hs: seq<Handler>, io: seq<bool>): (r: (Result<()>, seq<Handler>))
    requires |io| == |hs|
  {
    RunInOrder(FinalizeHandler, hs, io)
  }

  /** `handle_deletion` over all handlers: each one is offered the record, whatever the others
      did. */
  function DeliverAll(hs: seq<Handler>, d: DeletionRecord, io: seq<bool>): (r: seq<Handler>)
    requires |io| == |hs|
    ensures |r| == |hs|
    ensures forall k :: 0 <= k < |hs| ==> r[k] == DeliverHandler(hs[k], d, io[k]).1
  {
    seq(|hs|, k requires 0 <= k < |hs| => DeliverHandler(hs[k], d, io[k]).1)
  }

  /** Initialisation stops at the first failing handler: the ones before it are open, it and
      the ones after it are unchanged (so JSON and SQLite handlers after it stay unopened and
      silently drop deliveries); without a failure every file and connection is open. */
  lemma InitStopsAtFirstFailure(hs: seq<Handler>, io: seq<bool>, k: nat)
    requires |io| == |hs| && k < |hs|
    requires Reached(InitHandler, hs, io, k) && InitHandler(hs[k], io[k]).0.Err?
    ensures InitAll(hs, io).0 == InitHandler(hs[k], io[k]).0
    ensures InitAll(hs, io).1[k..] == hs[k..]
    ensures forall j :: 0 <= j < k ==> InitAll(hs, io).1[j] == InitHandler(hs[j], io[j]).1
  {
    RunStopsAt(InitHandler, hs, io, k);
    assert InitHandler(hs[k], io[k]).1 == hs[k];
  }

  /** After a successful `initialize` every JSON and SQLite handler is open. */
  lemma InitializedStorageIsReady(hs: seq<Handler>, io: seq<bool>)
    requires |io| == |hs| && InitAll(hs, io).0.Ok?
    ensures forall k :: 0 <= k < |hs| && (hs[k].kind.JsonFile? || hs[k].kind.SqliteTable?) ==> InitAll(hs, io).1[k].ready
  {
    RunInOrderMeaning(InitHandler, hs, io);
    forall k | 0 <= k < |hs| ensures Reached(InitHandler, hs, io, k) {
    }
  }

  /** Finalisation stops at the first failing handler: every handler after it stays open. */
  lemma FinalizeStopsAtFirstFailure(hs: seq<Handler>, io: seq<bool>, k: nat)
    requires |io| == |hs| && k < |hs|
    requires FinalizeHandler(hs[k], io[k]).0.Err?
    ensures FinalizeAll(hs, io).0.Err?
    ensures forall j :: k < j < |hs| ==> FinalizeAll(hs, io).1[j] == hs[j]
  {
    RunInOrderMeaning(FinalizeHandler, hs, io);
    forall j | k < j < |hs| ensures !Reached(FinalizeHandler, hs, io, j) {
    }
  }

  /** What one handler does with a deletion depends only on its own outcome, never on how the
      other handlers fared. */
  lemma DeliveryIndependentOfOthers(hs: seq<Handler>, d: DeletionRecord, io1: seq<bool>, io2: seq<bool>, k: nat)
    requires |io1| == |hs| && |io2| == |hs| && k < |hs| && io1[k] == io2[k]
    ensures DeliverAll(hs, d, io1)[k] == DeliverAll(hs, d, io2)[k]
  {
  }

  /** The content line of the plain and colored terminal formats of `format_deletion`: the
      recovered content, or "[No content]" when the record has none. */
  function ShownContent(d: DeletionRecord): (s: string)
    ensures d.recoveredContent.None? ==> s == "[No content]"
    ensures d.recoveredContent.Some? ==> s == d.recoveredContent.value
  {
    match d.recoveredContent
    case Some(c) => c
    case None => "[No content]"
  }

  /** `OutputManager`. */
  class OutputManager {
    var handlers: seq<Handler>

    /** `OutputManager::new`: one handler per enabled configuration, in order. */
    constructor(configs: seq<OutputConfig>)
      ensures handlers == HandlersFor(configs)
    {
      var hs: seq<Handler> := [];
      var i := 0;
      while i < |configs|
        invariant 0 <= i <= |configs|
        invariant hs == HandlersFor(configs[..i])
      {
        assert configs[..i + 1][..i] == configs[..i];
        if configs[i].enabled {
          hs := hs + [NewHandler(configs[i].plugin)];
        }
        i := i + 1;
      }
      assert configs[..i] == configs;
      handlers := hs;
    }

    /** `initialize`: in order, stopping at and returning the first failure. */
    method Initialize(io: seq<bool>) returns (r: Result<()>)
      requires |io| == |handlers|
      modifies this
      ensures r == InitAll(old(handlers), io).0 && handlers == InitAll(old(handlers), io).1
    {
      r := RunSteps(InitHandler, io);
    }

    /** `handle_deletion`: every handler is offered the record; failures are only logged. */
    method HandleDeletion(d: DeletionRecord, io: seq<bool>) returns (r: Result<()>)
      requires |io| == |handlers|
      modifies this
      ensures r == Ok(()) && handlers == DeliverAll(old(handlers), d, io)
    {
      var i := 0;
      while i < |handlers|
        invariant 0 <= i <= |handlers| == |old(handlers)|
        invariant forall k :: 0 <= k < i ==> handlers[k] == DeliverHandler(old(handlers)[k], d, io[k]).1
        invariant handlers[i..] == old(handlers)[i..]
      {
        var (res, h) := DeliverHandler(handlers[i], d, io[i]);
        // a failing handler is logged and skipped
        assert handlers[i] == old(handlers)[i..][0];
        handlers := handlers[i := h];
        i := i + 1;
      }
      return Ok(());
    }

    /** `finalize`: in order, stopping at and returning the first failure. */
    method Finalize(io: seq<bool>) returns (r: Result<()>)
      requires |io| == |handlers|
      modifies this
      ensures r == FinalizeAll(old(handlers), io).0 && handlers == FinalizeAll(old(handlers), io).1
    {
      r := RunSteps(FinalizeHandler, io);
    }

    /** The loop shared by `initialize` and `finalize`. */
    method RunSteps(step: Step, io: seq<bool>) returns (r: Result<()>)
      requires |io| == |handlers|
      modifies this
      ensures r == RunInOrder(step, old(handlers), io).0 && handlers == RunInOrder(step, old(handlers), io).1
    {
      ghost var hs := handlers;
      var i := 0;
      while i < |handlers|
        invariant 0 <= i <= |handlers| == |hs|
        invariant Reached(step, hs, io, i)
        invariant forall k :: 0 <= k < i ==> handlers[k] == step(hs[k], io[k]).1
        invariant handlers[i..] == hs[i..]
      {
        assert handlers[i] == hs[i..][0];
        var (res, h) := step(handlers[i], io[i]);
        if res.Err? {
          handlers := handlers[i := h];
          RunStopsAt(step, hs, io, i);
          assert forall j :: i < j < |hs| ==> handlers[j] == hs[i..][j - i];
          return res;
        }
        handlers := handlers[i := h];
        i := i + 1;
      }
      RunCompletes(step, hs, io);
      return Ok(());
    }
  }
}
