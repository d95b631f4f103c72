/** The logger facade (src/logging/LoggerFacade.ts): four methods, each writing its
    message with its own severity when the configured level lets it through. The
    logger that receives the lines is left abstract: what the facade produces is the
    list of lines it hands over.
 */
module Logging {
  import opened Wrappers

  datatype LogLevel = Debug | Info | Warn | Error | Off

  /** The four writing methods. */
  datatype Method = DebugCall | InfoCall | WarnCall | ErrorCall

  datatype Facade = Facade(level: LogLevel)

  /** The constructor: the level defaults to OFF. */
  function MakeFacade(level: Option<LogLevel>): (f: Facade)
    ensures level.None? ==> f.level == Off
    ensures level.Some? ==> f.level == level.value
  {
    match level
    case None => Facade(Off)
    case Some(l) => Facade(l)
  }

  /** The severity a method writes with. */
  function SeverityOf(m: Method): (s: LogLevel)
    ensures s != Off
  {
    match m
    case DebugCall => Debug
    case InfoCall => Info
    case WarnCall => Warn
    case ErrorCall => Error
  }

  /** The levels at which each method writes, as the source lists them. */
  function LevelsFor(m: Method): seq<LogLevel> {
    match m
    case DebugCall => [Debug]
    case InfoCall => [Debug, Info]
    case WarnCall => [Debug, Info, Warn]
    case ErrorCall => [Debug, Info, Warn, Error]
  }

  /** The lines a call hands to the logger: its message with its own severity, or
      nothing. */
  function Emit(f: Facade, m: Method, message: string): (lines: seq<(string, LogLevel)>)
    ensures |lines| <= 1
    ensures |lines| == 1 <==> f.level in LevelsFor(m)
    ensures forall i :: 0 <= i < |lines| ==> lines[i] == (message, SeverityOf(m))
  {
    if f.level in LevelsFor(m) then [(message, SeverityOf(m))] else []
  }

  /** Verbosity: DEBUG is the most talkative level, OFF the least. */
  function Rank(l: LogLevel): nat {
    match l
    case Debug => 0
    case Info => 1
    case Warn => 2
    case Error => 3
    case Off => 4
  }

  /** A call writes exactly when the level is at most as strict as its severity. */
  lemma WritesIffLevelAtMostSeverity(f: Facade, m: Method, message: string)
    ensures |Emit(f, m, message)| == 1 <==> Rank(f.level) <= Rank(SeverityOf(m))
  {
  }

  /** At OFF nothing is written; at DEBUG everything is. */
  lemma OffIsSilentDebugIsVerbose(m: Method, message: string)
    ensures Emit(Facade(Off), m, message) == []
    ensures Emit(Facade(Debug), m, message) == [(message, SeverityOf(m))]
  {
  }

  /** Gating is monotone: what a level writes, every more verbose level writes, and
      what a method writes, every more severe method writes too. */
  lemma GatingIsMonotone(a: LogLevel, b: LogLevel, m: Method, n: Method, message: string)
    requires Rank(a) <= Rank(b) && Rank(SeverityOf(m)) <= Rank(SeverityOf(n))
    ensures |Emit(Facade(b), m, message)| == 1 ==> |Emit(Facade(a), m, message)| == 1
    ensures |Emit(Facade(a), m, message)| == 1 ==> |Emit(Facade(a), n, message)| == 1
  {
    WritesIffLevelAtMostSeverity(Facade(a), m, message);
    WritesIffLevelAtMostSeverity(Facade(b), m, message);
    WritesIffLevelAtMostSeverity(Facade(a), n, message);
  }
}
