/** The diagnostic normalizer: the same line assembler, with the failed Gradle task carried from line to line. */
module DiagnosticNormalizers {
  import opened Wrappers
  import opened Bytes
  import opened LineAssembly

  const MAX_DIAGNOSTIC_LINE_BYTES: nat := 64 * 1024

  datatype Severity = Info | Warning | Error

  /** A diagnostic; `category`, `location` and `suggestion` are carried as the line's patterns give them. */
  datatype Diagnostic = Diagnostic(
    severity: Severity, category: string, message: string, location: Option<string>, module_: Option<string>,
    task: Option<string>, truncated: bool, suggestion: Option<string>)

  /** What the patterns make of a trimmed line that is not empty. */
  datatype Verdict =
    | Silent
    | TaskFailed(task: string)
    | Finding(severity: Severity, category: string, message: string,
              location: Option<string>, suggestion: Option<string>)

  /** The foreign parts: decoding and trimming a line, and the patterns. */
  datatype Patterns = Patterns(decode: seq<Byte> -> string, classify: string -> Verdict)

  datatype Stats = Stats(lines: nat, diagnostics: nat, truncatedLines: nat)

  datatype NormalizerState = NormalizerState(currentTask: Option<string>, stats: Stats)

  const INITIAL: NormalizerState := NormalizerState(None, Stats(0, 0, 0))

  // The module of a task path: everything before its last colon.
  function TaskModule(task: string): Option<string> {
    if task == "" then None
    else if task[|task| - 1] == ':' then Some(task[..|task| - 1])
    else TaskModule(task[..|task| - 1])
  }

  function CurrentModule(task: Option<string>): Option<string> {
    match task
    case None => None
    case Some(t) => TaskModule(t)
  }

  function Emit(st: NormalizerState, severity: Severity, category: string, message: string, location: Option<string>,
                truncated: bool, suggestion: Option<string>): (NormalizerState, seq<Diagnostic>)
  {
    (st.(stats := st.stats.(diagnostics := st.stats.diagnostics + 1)),
     [Diagnostic(severity, category, message, location, CurrentModule(st.currentTask),
                 st.currentTask, truncated, suggestion)])
  }

  function ParseLine(p: Patterns, st: NormalizerState, bytes: seq<Byte>,
                     truncated: bool): (NormalizerState, seq<Diagnostic>)
  {
    var counted := st.(stats := st.stats.(lines := st.stats.lines + 1,
                                          truncatedLines := st.stats.truncatedLines + if truncated then 1 else 0));
    var line := p.decode(bytes);
    if line == "" then (counted, [])
    else match p.classify(line)
      case Silent => (counted, [])
      case TaskFailed(task) =>
        Emit(counted.(currentTask := Some(task)), Error, "gradle", line, None, truncated,
             Some("Inspect the task output above for the root cause"))
      case Finding(severity, category, message, location, suggestion) =>
        Emit(counted, severity, category, message, location, truncated, suggestion)
  }

  function LineParser(p: Patterns): Parser<NormalizerState, Diagnostic> {
    (st, bytes, truncated) => ParseLine(p, st, bytes, truncated)
  }

  // The task named by the last failure line, if any.
  function LastFailedTask(p: Patterns, lines: seq<seq<Byte>>, task: Option<string>): Option<string> {
    if lines == [] then task
    else
      var line := p.decode(Truncate(lines[|lines| - 1], MAX_DIAGNOSTIC_LINE_BYTES));
      if line != "" && p.classify(line).TaskFailed? then Some(p.classify(line).task)
      else LastFailedTask(p, lines[..|lines| - 1], task)
  }

  function Normalize(p: Patterns, st: NormalizerState, lines: seq<seq<Byte>>): (NormalizerState, seq<Diagnostic>) {
    ParseLines(MAX_DIAGNOSTIC_LINE_BYTES, LineParser(p), st, lines)
  }

  // Everything before the last colon of a task's path.
  lemma {:induction false} TaskModuleExactly(task: string)
    ensures TaskModule(task).None? ==> ':' !in task
    ensures TaskModule(task).Some? ==>
              var path := TaskModule(task).value; path + ":" <= task && ':' !in task[|path| + 1..]
  {
    if task != "" && task[|task| - 1] != ':' {
      var front, last := task[..|task| - 1], task[|task| - 1];
      TaskModuleExactly(front);
      assert task == front + [last];
      if TaskModule(front).Some? {
        var path := TaskModule(front).value;
        assert task[|path| + 1..] == front[|path| + 1..] + [last];
      }
    }
  }

  // The diagnostics of one line say what the patterns make of it; each names `task` and its module.
  predicate TellsLine(p: Patterns, line: string, truncated: bool, task: Option<string>, added: seq<Diagnostic>) {
    if line == "" || p.classify(line).Silent? then added == []
    else
      && |added| == 1
      && var d := added[0];
         && d.task == task && d.module_ == CurrentModule(task) && d.truncated == truncated
         && match p.classify(line)
            case Silent => false
            case TaskFailed(_) =>
              && d.severity == Error && d.category == "gradle" && d.message == line && d.location == None
              && d.suggestion == Some("Inspect the task output above for the root cause")
            case Finding(severity, category, message, location, suggestion) =>
              && d.severity == severity && d.category == category && d.message == message && d.location == location
              && d.suggestion == suggestion
  }

  lemma LineIsTold(p: Patterns, st: NormalizerState, bytes: seq<Byte>, truncated: bool)
    ensures var (st', added) := ParseLine(p, st, bytes, truncated);
            var line := p.decode(bytes);
            && st'.currentTask == (if line != "" && p.classify(line).TaskFailed?
                                   then Some(p.classify(line).task) else st.currentTask)
            && TellsLine(p, line, truncated, st'.currentTask, added)
            && st'.stats.lines == st.stats.lines + 1
            && st'.stats.truncatedLines == st.stats.truncatedLines + (if truncated then 1 else 0)
            && st'.stats.diagnostics == st.stats.diagnostics + |added|
  {
  }

  function TooLong(lines: seq<seq<Byte>>): nat {
    if lines == [] then 0
    else TooLong(lines[..|lines| - 1]) + if |lines[|lines| - 1]| > MAX_DIAGNOSTIC_LINE_BYTES then 1 else 0
  }

  lemma NormalizeNext(p: Patterns, st: NormalizerState, front: seq<seq<Byte>>, last: seq<Byte>)
    ensures var (before, after) := (Normalize(p, st, front), Normalize(p, st, front + [last]));
            var (st', added) := ParseLine(p, before.0, Truncate(last, MAX_DIAGNOSTIC_LINE_BYTES),
                                          |last| > MAX_DIAGNOSTIC_LINE_BYTES);
            after == (st', before.1 + added)
    ensures TooLong(front + [last]) == TooLong(front) + if |last| > MAX_DIAGNOSTIC_LINE_BYTES then 1 else 0
  {
    assert (front + [last])[..|front|] == front;
  }

  lemma LastFailedNext(p: Patterns, front: seq<seq<Byte>>, last: seq<Byte>, task: Option<string>)
    ensures var line := p.decode(Truncate(last, MAX_DIAGNOSTIC_LINE_BYTES));
            LastFailedTask(p, front + [last], task) ==
            if line != "" && p.classify(line).TaskFailed? then Some(p.classify(line).task)
            else LastFailedTask(p, front, task)
  {
    assert (front + [last])[..|front|] == front;
  }

  lemma {:induction false} NormalizeFollowsTheTask(p: Patterns, st: NormalizerState, lines: seq<seq<Byte>>)
    ensures var (st', diagnostics) := Normalize(p, st, lines);
            && st'.currentTask == LastFailedTask(p, lines, st.currentTask)
            && st'.stats.lines == st.stats.lines + |lines|
            && st'.stats.truncatedLines == st.stats.truncatedLines + TooLong(lines)
            && st'.stats.diagnostics == st.stats.diagnostics + |diagnostics|
  {
    if lines != [] {
      var front, last := lines[..|lines| - 1], lines[|lines| - 1];
      NormalizeFollowsTheTask(p, st, front);
      assert lines == front + [last];
      NormalizeNext(p, st, front, last);
      LastFailedNext(p, front, last, st.currentTask);
      LineIsTold(p, Normalize(p, st, front).0, Truncate(last, MAX_DIAGNOSTIC_LINE_BYTES),
                 |last| > MAX_DIAGNOSTIC_LINE_BYTES);
    }
  }

  /**
   * Each line adds what the patterns make of it: at most one diagnostic, with every field of the finding, the task of
   * the latest failure line up to that line, and the task's module.
   */
  lemma DiagnosticsNameTheLatestTask(p: Patterns, st: NormalizerState, lines: seq<seq<Byte>>, n: nat)
    returns (added: seq<Diagnostic>)
    requires 0 < n <= |lines|
    ensures Normalize(p, st, lines[..n]).1 == Normalize(p, st, lines[..n - 1]).1 + added
    ensures var last := lines[n - 1];
            TellsLine(p, p.decode(Truncate(last, MAX_DIAGNOSTIC_LINE_BYTES)), |last| > MAX_DIAGNOSTIC_LINE_BYTES,
                      LastFailedTask(p, lines[..n], st.currentTask), added)
  {
    var front, last := lines[..n - 1], lines[n - 1];
    var bytes, truncated := Truncate(last, MAX_DIAGNOSTIC_LINE_BYTES), |last| > MAX_DIAGNOSTIC_LINE_BYTES;
    NormalizeFollowsTheTask(p, st, front);
    assert lines[..n] == front + [last];
    NormalizeNext(p, st, front, last);
    LastFailedNext(p, front, last, st.currentTask);
    LineIsTold(p, Normalize(p, st, front).0, bytes, truncated);
    added := ParseLine(p, Normalize(p, st, front).0, bytes, truncated).1;
  }

  class DiagnosticNormalizer {
    const patterns: Patterns
    var partial: seq<Byte>
    var discarding: bool
    var stats: Stats
    var currentTask: Option<string>

    function Inner(): NormalizerState
      reads this
    {
      NormalizerState(currentTask, stats)
    }

    function State(): Assembly<NormalizerState>
      reads this
    {
      Assembly(partial, discarding, Inner())
    }

    constructor (patterns: Patterns)
      ensures this.patterns == patterns && State() == Fresh(INITIAL)
    {
      this.patterns := patterns;
      partial, discarding, stats, currentTask := [], false, Stats(0, 0, 0), None;
    }

    method PushBytes(chunk: seq<Byte>) returns (diagnostics: seq<Diagnostic>)
      modifies this
      ensures (State(), diagnostics) == Push(MAX_DIAGNOSTIC_LINE_BYTES, LineParser(patterns), old(State()), chunk)
    {
      diagnostics := [];
      for i := 0 to |chunk|
        invariant (State(), diagnostics)
            == Push(MAX_DIAGNOSTIC_LINE_BYTES, LineParser(patterns), old(State()), chunk[..i])
      {
        PushNext(MAX_DIAGNOSTIC_LINE_BYTES, LineParser(patterns), old(State()), chunk, i);
        assert diagnostics + [] == diagnostics;
        if chunk[i] == NEWLINE {
          var line := partial;
          partial := [];
          var more := ParsePhysicalLine(line, discarding);
          diagnostics := diagnostics + more;
          discarding := false;
        } else if |partial| < MAX_DIAGNOSTIC_LINE_BYTES {
          partial := partial + [chunk[i]];
        } else {
          discarding := true;
        }
      }
      assert chunk[..|chunk|] == chunk;
    }

    method FinishStream() returns (diagnostics: seq<Diagnostic>)
      modifies this
      ensures (State(), diagnostics) == Finish(LineParser(patterns), old(State()))
    {
      if partial == [] && !discarding {
        return [];
      }
      var line, truncated := partial, discarding;
      partial, discarding := [], false;
      diagnostics := ParsePhysicalLine(line, truncated);
    }

    method ParsePhysicalLine(bytes: seq<Byte>, truncated: bool) returns (diagnostics: seq<Diagnostic>)
      modifies this`stats, this`currentTask
      ensures (Inner(), diagnostics) == ParseLine(patterns, old(Inner()), bytes, truncated)
    {
      stats := stats.(lines := stats.lines + 1);
      if truncated {
        stats := stats.(truncatedLines := stats.truncatedLines + 1);
      }
      var line := patterns.decode(bytes);
      if line == "" {
        return [];
      }
      match patterns.classify(line) {
        case Silent => return [];
        case TaskFailed(task) =>
          currentTask := Some(task);
          diagnostics := EmitDiagnostic(Error, "gradle", line, None, truncated,
                                        Some("Inspect the task output above for the root cause"));
        case Finding(severity, category, message, location, suggestion) =>
          diagnostics := EmitDiagnostic(severity, category, message, location, truncated, suggestion);
      }
    }

    method EmitDiagnostic(severity: Severity, category: string, message: string, location: Option<string>,
                          truncated: bool, suggestion: Option<string>) returns (diagnostics: seq<Diagnostic>)
      modifies this`stats
      ensures (Inner(), diagnostics) == Emit(old(Inner()), severity, category, message, location, truncated, suggestion)
    {
      stats := stats.(diagnostics := stats.diagnostics + 1);
      diagnostics := [Diagnostic(severity, category, message, location, CurrentModule(currentTask),
                                 currentTask, truncated, suggestion)];
    }
  }
}
