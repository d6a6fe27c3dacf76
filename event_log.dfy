/** The security log as the monitor writes it: one event per call of
    `FileIntegrityMonitor._log` (file_integrity_monitor.py), and the line
    grammar `[timestamp] LEVEL: message` that event is written in. */
module EventLog {
  import opened Wrappers
  import opened Strings
  import opened Clock

  datatype Level = INFO | WARNING | ALERT

  function LevelName(l: Level): string
  {
    match l
    case INFO => "INFO"
    case WARNING => "WARNING"
    case ALERT => "ALERT"
  }

  /** One call of `_log(level, message, file_name)` at instant `time`. */
  datatype Event = Event(time: Instant, level: Level, message: string, fileName: Option<string>)

  /** Python's `if file_name:` — an absent and an empty name both write no prefix. */
  predicate NamesFile(e: Event)
  {
    e.fileName.Some? && e.fileName.value != ""
  }

  /** The text after `LEVEL: `. */
  function Body(e: Event): string
  {
    if NamesFile(e) then "File \"" + e.fileName.value + "\" " + e.message else e.message
  }

  /** The line `_log` appends to the log file (without its newline). */
  function RenderLine(e: Event): string
  {
    "[" + Format(e.time) + "] " + LevelName(e.level) + ": " + Body(e)
  }
}
