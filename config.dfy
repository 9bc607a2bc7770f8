/** Configuration types of the tracker and their default value (core/config.rs).
    The free-form per-output `config: serde_json::Value` is not read by any handler and is
    left out; paths are strings. */
module Config {

  import opened Wrappers

  /** The four kinds of deletion a configuration can ask for; equality is structural. */
  datatype DeletionType = FullMessage | PartialEdit | AttachmentOnly | MediaContent

  datatype TerminalFormat = Plain | Colored | Json

  /** Which delivery sink an output entry describes, with that sink's settings. */
  datatype OutputPlugin =
    | Json(path: string, pretty: bool)
    | Sqlite(path: string, tableName: string)
    | Webhook(url: string, authToken: Option<string>)
    | Terminal(format: TerminalFormat)

  datatype OutputConfig = OutputConfig(plugin: OutputPlugin, enabled: bool)

  datatype DatabaseConfig = DatabaseConfig(imessageDbPath: string, walCheckIntervalMs: nat, maxBatchSize: nat)

  datatype StateConfig = StateConfig(stateDbPath: string, retentionDays: nat, enableCompression: bool)

  datatype DetectionConfig = DetectionConfig(
    deletionTypes: seq<DeletionType>,
    trackEditsAsDeletions: bool,
    conversationFilters: seq<string>)

  datatype TrackerConfig = TrackerConfig(
    database: DatabaseConfig,
    state: StateConfig,
    detection: DetectionConfig,
    outputs: seq<OutputConfig>)

  const SecondsPerDay: nat := 24 * 60 * 60

  /** `TrackerConfig::default()`. */
  function Default(): (c: TrackerConfig)
    ensures c.database.walCheckIntervalMs == 1000 && c.database.maxBatchSize == 100
    ensures c.state.retentionDays == 30
    ensures c.detection.deletionTypes == [FullMessage, AttachmentOnly]
    ensures !c.detection.trackEditsAsDeletions && c.detection.conversationFilters == []
    ensures |c.outputs| == 2 && c.outputs[0].enabled && c.outputs[1].enabled
    ensures c.outputs[0].plugin == Terminal(Colored)
    ensures c.outputs[1].plugin == OutputPlugin.Json("./deletions.json", true)
  {
    TrackerConfig(
      DatabaseConfig("~/Library/Messages/chat.db", 1000, 100),
      StateConfig("./tracker_state.db", 30, true),
      DetectionConfig([FullMessage, AttachmentOnly], false, []),
      [ OutputConfig(Terminal(Colored), true),
        OutputConfig(OutputPlugin.Json("./deletions.json", true), true) ])
  }
}
