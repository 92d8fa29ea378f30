/** The logger of src/general/LLog.ts: a minimum level, an optional
    timestamp and an optional tag, and the prefix put before each message.
    The clock is a parameter (the ISO time text), and the console call is
    the returned prefix. */
module LLog {
  import opened Wrappers
  import opened JsString

  datatype LogLevel = Debug | Info | Warn | Error | Silent

  /** The levels a message can be logged at; `Silent` is the config's "none". */
  type MessageLevel = l: LogLevel | l != Silent witness Debug

  /** `levelOrder`, from the most verbose level to "none". */
  const LevelOrder: seq<LogLevel> := [Debug, Info, Warn, Error, Silent]

  /** `levelOrder.indexOf(l)`: every level is listed, so the index is never -1. */
  function Rank(l: LogLevel): (r: nat)
    ensures r < |LevelOrder| && LevelOrder[r] == l
    ensures forall i :: 0 <= i < |LevelOrder| && LevelOrder[i] == l ==> i == r
  {
    match l
    case Debug => 0
    case Info => 1
    case Warn => 2
    case Error => 3
    case Silent => 4
  }

  /** `level.toUpperCase()`. */
  function LevelName(l: MessageLevel): string {
    match l
    case Debug => "DEBUG"
    case Info => "INFO"
    case Warn => "WARN"
    case Error => "ERROR"
  }

  datatype Config = Config(level: LogLevel, enableTimestamp: bool, tag: string)

  /** A partial config: an absent field keeps its current value. */
  datatype PartialConfig = PartialConfig(level: Option<LogLevel>, enableTimestamp: Option<bool>, tag: Option<string>)

  const DefaultConfig := Config(Debug, true, "")

  /** `{ ...config, ...cfg }`. */
  function Merge(config: Config, cfg: PartialConfig): (r: Config)
    ensures cfg.level.Some? ==> r.level == cfg.level.value
    ensures cfg.level.None? ==> r.level == config.level
    ensures cfg.enableTimestamp.Some? ==> r.enableTimestamp == cfg.enableTimestamp.value
    ensures cfg.enableTimestamp.None? ==> r.enableTimestamp == config.enableTimestamp
    ensures cfg.tag.Some? ==> r.tag == cfg.tag.value
    ensures cfg.tag.None? ==> r.tag == config.tag
  {
    Config(cfg.level.GetOr(config.level), cfg.enableTimestamp.GetOr(config.enableTimestamp), cfg.tag.GetOr(config.tag))
  }

  /** The parts of a list that are not empty, in order (`filter(Boolean)`). */
  function NonEmpty(parts: seq<string>): (r: seq<string>)
    ensures forall i :: 0 <= i < |r| ==> r[i] != []
    ensures |r| <= |parts|
    decreases |parts|
  {
    if parts == [] then []
    else if parts[0] == [] then NonEmpty(parts[1..])
    else [parts[0]] + NonEmpty(parts[1..])
  }

  /** The prefix of `logCore`: timestamp, tag and level, each in brackets,
      joined by single spaces, the empty ones left out. */
  function Prefix(config: Config, level: MessageLevel, isoTime: string): string {
    var now := if config.enableTimestamp then "[" + isoTime + "]" else "";
    var tag := if config.tag != "" then "[" + config.tag + "]" else "";
    Join(NonEmpty([now, tag, "[" + LevelName(level) + "]"]), ' ')
  }

  /** The threshold of `logCore`: a message is written unless its level
      comes before the configured one in `levelOrder`. */
  predicate Writes(config: Config, level: MessageLevel) {
    !(Rank(level) < Rank(config.level))
  }

  class Logger {
    var config: Config

    constructor ()
      ensures config == DefaultConfig
    {
      config := DefaultConfig;
    }

    /** `set_config`. */
    method SetConfig(cfg: PartialConfig)
      modifies this
      ensures config == Merge(old(config), cfg)
    {
      config := Merge(config, cfg);
    }

    /** `logCore`: nothing below the configured level; otherwise the prefix
        the message is written with. */
    method LogCore(level: MessageLevel, isoTime: string) returns (prefix: Option<string>)
      ensures prefix.Some? <==> Writes(config, level)
      ensures prefix.Some? ==> prefix.value == Prefix(config, level, isoTime)
    {
      if Rank(level) < Rank(config.level) {
        return None;
      }
      return Some(Prefix(config, level, isoTime));
    }
  }

  /** With level "none" nothing is written. */
  lemma SilentWritesNothing(config: Config, level: MessageLevel)
    requires config.level == Silent
    ensures !Writes(config, level)
  {
  }

  /** The default config writes every level. */
  lemma DefaultWritesAll(level: MessageLevel)
    ensures Writes(DefaultConfig, level)
  {
  }

  /** The levels written are exactly those listed in `levelOrder` from the
      configured one on. */
  lemma WritesFromConfigured(config: Config, level: MessageLevel)
    ensures Writes(config, level) <==> level in LevelOrder[Rank(config.level)..]
  {
  }

  /** Errors are written under every config except "none". */
  lemma ErrorsWrittenUnlessSilent(config: Config)
    ensures Writes(config, Error) <==> config.level != Silent
  {
  }

  /** Without timestamp and tag the prefix is just the bracketed level. */
  lemma PrefixLevelOnly(config: Config, level: MessageLevel, isoTime: string)
    requires !config.enableTimestamp && config.tag == ""
    ensures Prefix(config, level, isoTime) == "[" + LevelName(level) + "]"
  {
    var lv := "[" + LevelName(level) + "]";
    assert lv != [] by { assert lv[0] == '['; }
    assert ["", "", lv][1..] == ["", lv];
    assert ["", lv][1..] == [lv];
    assert [lv][1..] == [];
    assert NonEmpty([lv]) == [lv] + NonEmpty([]);
    assert Prefix(config, level, isoTime) == Join(NonEmpty(["", "", lv]), ' ');
  }

  /** With both, the three bracketed parts are separated by single spaces. */
  lemma PrefixFull(config: Config, level: MessageLevel, isoTime: string)
    requires config.enableTimestamp && config.tag != ""
    ensures Prefix(config, level, isoTime) == ("[" + isoTime + "]") + " " + ("[" + config.tag + "]") + " " + ("[" + LevelName(level) + "]")
  {
    var now := "[" + isoTime + "]";
    var tag := "[" + config.tag + "]";
    var lv := "[" + LevelName(level) + "]";
    assert now != [] && tag != [] && lv != [] by { assert now[0] == tag[0] == lv[0] == '['; }
    assert [now, tag, lv][1..] == [tag, lv];
    assert [tag, lv][1..] == [lv];
    assert [lv][1..] == [];
    assert NonEmpty([lv]) == [lv] + NonEmpty([]);
    assert NonEmpty([tag, lv]) == [tag] + NonEmpty([lv]);
    assert NonEmpty([now, tag, lv]) == [now] + NonEmpty([tag, lv]);
    assert NonEmpty([now, tag, lv]) == [now, tag, lv];
    assert Join([lv], ' ') == lv;
    assert Join([tag, lv], ' ') == tag + [' '] + Join([lv], ' ');
    assert Join([now, tag, lv], ' ') == now + [' '] + Join([tag, lv], ' ');
    assert Prefix(config, level, isoTime) == Join(NonEmpty([now, tag, lv]), ' ');
    assert now + [' '] + (tag + [' '] + lv) == now + " " + tag + " " + lv;
  }

  /** Setting a config twice is setting the second over the first. */
  lemma MergeTwice(config: Config, a: PartialConfig, b: PartialConfig)
    ensures Merge(Merge(config, a), b) ==
            Merge(config, PartialConfig(if b.level.Some? then b.level else a.level,
                                        if b.enableTimestamp.Some? then b.enableTimestamp else a.enableTimestamp,
                                        if b.tag.Some? then b.tag else a.tag))
  {
  }

  /** An empty partial config changes nothing. */
  lemma MergeEmpty(config: Config)
    ensures Merge(config, PartialConfig(None, None, None)) == config
  {
  }
}
