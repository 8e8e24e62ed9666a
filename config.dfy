/** `cli_utils::config`: the logging options record. Its values are stored
    and read back; nothing else consults them. */
module Config {

  /** Logging levels; equality is by variant. */
  datatype LogLevel = Debug | Info | Warn | Error

  /** Where logs go; two File destinations are equal when their paths are. */
  datatype LogOutput = Stdout | Stderr | File(path: string)

  /** The documented comparisons of levels and destinations. */
  lemma EqualityExamples()
    ensures Info == Info && Info != Debug
    ensures File("app.log") == File("app.log") && File("app.log") != Stdout
    ensures File("app.log").path == "app.log"
    ensures forall p: string, q: string :: File(p) == File(q) <==> p == q
  {
  }

  class Logging {
    var enabled: bool
    var level: LogLevel
    var destination: LogOutput

    /** `Logging::new`: disabled, at level Info, writing to standard output. */
    constructor ()
      ensures !enabled && level == Info && destination == Stdout
    {
      enabled := false;
      level := Info;
      destination := Stdout;
    }

    /** The struct literal `Logging { enabled, level, destination }`. */
    constructor Init(enabled: bool, level: LogLevel, destination: LogOutput)
      ensures this.enabled == enabled && this.level == level
      ensures this.destination == destination
    {
      this.enabled := enabled;
      this.level := level;
      this.destination := destination;
    }

    method GetEnabled() returns (e: bool)
      ensures e == enabled
    {
      e := enabled;
    }

    method SetEnabled(enabled: bool)
      modifies this`enabled
      ensures this.enabled == enabled
      ensures level == old(level) && destination == old(destination)
    {
      this.enabled := enabled;
    }

    method GetLevel() returns (l: LogLevel)
      ensures l == level
    {
      l := level;
    }

    method SetLevel(level: LogLevel)
      modifies this`level
      ensures this.level == level
      ensures enabled == old(enabled) && destination == old(destination)
    {
      this.level := level;
    }

    method GetDestination() returns (d: LogOutput)
      ensures d == destination
    {
      d := destination;
    }

    method SetDestination(destination: LogOutput)
      modifies this`destination
      ensures this.destination == destination
      ensures enabled == old(enabled) && level == old(level)
    {
      this.destination := destination;
    }
  }
}
