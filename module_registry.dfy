/**
 * Per-module log settings (ModuleRegistry.h): a module's own log level and
 * colouring override the global ones unless they are NONE. The globals
 * `dbg::currentLevel` and `dbg::coloredLog` are passed in.
 */
module ModuleRegistry {
  import opened Debug

  /** The level a module logs at: its own, or the global one when it has none. */
  function EffectiveLevel(own: Level, currentLevel: Level): (l: Level)
    ensures own != Level.NONE ==> l == own
    ensures own == Level.NONE ==> l == currentLevel
  {
    if own == Level.NONE then currentLevel else own
  }

  function EffectiveColored(own: Colored, coloredLog: Colored): (c: Colored)
    ensures own != Colored.NONE ==> c == own
    ensures own == Colored.NONE ==> c == coloredLog
  {
    if own == Colored.NONE then coloredLog else own
  }

  class Module {
    const name: string
    var logLevel: Level
    var coloredLog: Colored

    /** A new module defers to the globals for both settings. */
    constructor(name: string)
      ensures this.name == name && logLevel == Level.NONE && coloredLog == Colored.NONE
    {
      this.name := name;
      logLevel := Level.NONE;
      coloredLog := Colored.NONE;
    }

    /** resetLogLevel: back to the global level; the previous level is returned. */
    method ResetLogLevel() returns (previous: Level)
      modifies this
      ensures previous == old(logLevel) && logLevel == Level.NONE && coloredLog == old(coloredLog)
    {
      previous := logLevel;
      logLevel := Level.NONE;
    }

    /** setLogLevel: the new level is stored and the previous one returned. */
    method SetLogLevel(level: Level) returns (previous: Level)
      modifies this
      ensures previous == old(logLevel) && logLevel == level && coloredLog == old(coloredLog)
    {
      previous := logLevel;
      logLevel := level;
    }

    /** getLogLevel. */
    function GetLogLevel(currentLevel: Level): (l: Level)
      reads this
      ensures logLevel != Level.NONE ==> l == logLevel
      ensures logLevel == Level.NONE ==> l == currentLevel
    {
      EffectiveLevel(logLevel, currentLevel)
    }

    /** getLogColored. */
    function GetLogColored(coloredLogGlobal: Colored): (c: Colored)
      reads this
      ensures coloredLog != Colored.NONE ==> c == coloredLog
      ensures coloredLog == Colored.NONE ==> c == coloredLogGlobal
    {
      EffectiveColored(coloredLog, coloredLogGlobal)
    }
  }

  /** A module's own level, once set to a real level, wins over every global level. */
  lemma OwnLevelWins(own: Level, g1: Level, g2: Level)
    requires own != Level.NONE
    ensures EffectiveLevel(own, g1) == EffectiveLevel(own, g2) == own
  {
  }
}
