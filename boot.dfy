/**
 * What `startApplication` posts while it boots the embedded Python runtime,
 * installs the dependency list one entry at a time and runs the application.
 * The calls into the runtime are inputs: how the runtime start-up ended, one
 * success flag per install attempt, and how the application run ended.
 */
module Boot {
  import opened JsStrings
  import opened Messages
  import opened PackageName

  /** How `loadPyodide()` and then `loadPackage("micropip")` ended. */
  datatype RuntimeBoot = PyodideFailed | MicropipFailed | RuntimeReady

  /** How running the application code ended: the three render artifacts, or the text of the exception. */
  datatype Execution =
    | Executed(docsJson: Json, renderItems: Json, rootIds: Json)
    | Raised(errorText: string)

  /** The exception `startApplication` lets escape. */
  datatype Fault = PyodideFault | MicropipFault | ExecutionFault(errorText: string)

  const LoadingStatus: Outbound := Status(Some("Loading pyodide"))
  const ExecutingStatus: Outbound := Status(Some("Executing code"))

  function InstallingStatus(name: string): Outbound
  {
    Status(Some("Installing " + name))
  }

  function InstallErrorStatus(name: string): Outbound
  {
    Status(Some("Error while installing " + name))
  }

  predicate StartsWith(s: string, prefix: string)
  {
    |prefix| <= |s| && s[..|prefix|] == prefix
  }

  /** A status posted by the install loop. */
  predicate IsInstallStatus(m: Outbound)
  {
    m.Status? && m.msg.Some? &&
    (StartsWith(m.msg.value, "Installing ") || StartsWith(m.msg.value, "Error while installing "))
  }

  /**
   * The status shown when the application fails: the second-to-last line of
   * the error text. A text without any line break has no such line, and the
   * status then carries `undefined`.
   */
  function ErrorLine(errorText: string): (line: Option<string>)
    ensures line.None? <==> '\n' !in errorText
    ensures line.Some? ==> '\n' !in line.value
  {
    var lines := Split(errorText, '\n');
    assert '\n' !in errorText ==> |lines| == 1 by {
      if '\n' !in errorText { SplitSeparatorFree(errorText, '\n'); }
    }
    assert '\n' in errorText ==> |lines| >= 2 by {
      JoinSplit(errorText, '\n');
    }
    if |lines| >= 2 then Some(lines[|lines| - 2]) else None
  }

  /**
   * The line `ErrorLine` picks is the last line of the error text once its
   * final line is dropped.
   */
  lemma {:induction false} ErrorLineIsLineBeforeLast(errorText: string)
    requires '\n' in errorText
    ensures var last := LastPiece(errorText, '\n');
      ErrorLine(errorText) == Some(LastPiece(errorText[..|errorText| - |last| - 1], '\n'))
  {
    var lines := Split(errorText, '\n');
    var n := |lines|;
    assert n >= 2 by {
      JoinSplit(errorText, '\n');
    }
    var front := lines[..n - 1];
    assert lines == front + [lines[n - 1]];
    JoinSplit(errorText, '\n');
    JoinSnoc(front, lines[n - 1], '\n');
    assert errorText == Join(front, '\n') + ['\n'] + lines[n - 1];
    assert LastPiece(errorText, '\n') == lines[n - 1];
    assert errorText[..|errorText| - |lines[n - 1]| - 1] == Join(front, '\n');
    assert SeparatorFree(front, '\n');
    SplitJoin(front, '\n');
  }

  /**
   * A traceback ending in a line break (as Python's do) is reported by its
   * last non-final line.
   */
  lemma TracebackErrorLine(body: string)
    ensures ErrorLine(body + "\n") == Some(LastPiece(body, '\n'))
  {
    var text := body + "\n";
    assert IsLastPiece("", text, '\n');
    LastPieceUnique("", LastPiece(text, '\n'), text, '\n');
    ErrorLineIsLineBeforeLast(text);
    assert text[..|text| - 1] == body;
  }

  /** The statuses the install loop posts for one entry, given the name it shows. */
  function EntryTrace(name: string, installed: bool): seq<Outbound>
  {
    [InstallingStatus(name)] + (if installed then [] else [InstallErrorStatus(name)])
  }

  /**
   * The statuses the install loop posts for the whole list, in list order;
   * `names[i]` is the name shown for entry `i`.
   */
  function InstallTrace(names: seq<string>, installed: seq<bool>): seq<Outbound>
    requires |installed| == |names|
    decreases |names|
  {
    if |names| == 0 then []
    else
      var n := |names| - 1;
      InstallTrace(names[..n], installed[..n]) + EntryTrace(names[n], installed[n])
  }

  /** The names shown for the entries of the dependency list. */
  function ShownNames(env: seq<string>): seq<string>
  {
    seq(|env|, i requires 0 <= i < |env| => DisplayName(env[i]))
  }

  /** The number of failed install attempts. */
  function Failures(installed: seq<bool>): nat
  {
    multiset(installed)[false]
  }

  /** The last message of a boot that got as far as running the application. */
  function Outcome(exec: Execution): Outbound
  {
    match exec
    case Executed(docsJson, renderItems, rootIds) => Render(docsJson, renderItems, rootIds)
    case Raised(errorText) => Status(ErrorLine(errorText))
  }

  /** Everything `startApplication` posts, in order. */
  function BootTrace(env: seq<string>, installed: seq<bool>, boot: RuntimeBoot, exec: Execution): seq<Outbound>
    requires |installed| == |env|
  {
    if boot.RuntimeReady? then [LoadingStatus] + InstallTrace(ShownNames(env), installed) + [ExecutingStatus, Outcome(exec)]
    else [LoadingStatus]
  }

  /** A boot trace appended to what was posted before, built one step at a time. */
  lemma BootTraceOfReadyRuntime(before: seq<Outbound>, env: seq<string>, installed: seq<bool>, exec: Execution)
    requires |installed| == |env|
    ensures before + BootTrace(env, installed, RuntimeReady, exec)
      == before + [LoadingStatus] + InstallTrace(ShownNames(env), installed) + [ExecutingStatus] + [Outcome(exec)]
  {
    var installs := InstallTrace(ShownNames(env), installed);
    assert BootTrace(env, installed, RuntimeReady, exec) == [LoadingStatus] + installs + [ExecutingStatus, Outcome(exec)];
    Reassociate(before, LoadingStatus, installs, ExecutingStatus, Outcome(exec));
  }

  lemma Reassociate<T>(before: seq<T>, first: T, middle: seq<T>, third: T, last: T)
    ensures before + ([first] + middle + [third, last]) == before + [first] + middle + [third] + [last]
  {
  }

  /** The exception that escapes `startApplication`, if any. */
  function BootFault(boot: RuntimeBoot, exec: Execution): Option<Fault>
  {
    match boot
    case PyodideFailed => Some(PyodideFault)
    case MicropipFailed => Some(MicropipFault)
    case RuntimeReady => if exec.Raised? then Some(ExecutionFault(exec.errorText)) else None
  }

  lemma FailuresStep(installed: seq<bool>, j: nat)
    requires j < |installed|
    ensures Failures(installed[..j + 1]) == Failures(installed[..j]) + (if installed[j] then 0 else 1)
  {
    assert installed[..j + 1] == installed[..j] + [installed[j]];
  }

  /** The install loop posts one status per entry plus one per failed entry. */
  lemma {:induction false} InstallTraceLength(names: seq<string>, installed: seq<bool>)
    requires |installed| == |names|
    ensures |InstallTrace(names, installed)| == |names| + Failures(installed)
    decreases |names|
  {
    if |names| > 0 {
      var n := |names| - 1;
      InstallTraceLength(names[..n], installed[..n]);
      FailuresStep(installed, n);
      assert installed[..n + 1] == installed;
    }
  }

  lemma SliceOfFirst<T>(front: seq<T>, back: seq<T>, from: nat, to: nat)
    requires from <= to <= |front|
    ensures (front + back)[from..to] == front[from..to]
  {
  }

  lemma SliceOfSecond<T>(front: seq<T>, back: seq<T>)
    ensures (front + back)[|front|..|front| + |back|] == back
  {
  }

  /** Where the statuses of entry `j` start in the install trace. */
  function EntryStart(installed: seq<bool>, j: nat): nat
    requires j <= |installed|
  {
    j + Failures(installed[..j])
  }

  /**
   * The statuses of entry `j` sit in the install trace at position `j` plus
   * the number of earlier failures, whether or not earlier entries failed, and
   * the next entry's statuses start right behind them.
   */
  lemma {:induction false} InstallTraceEntry(names: seq<string>, installed: seq<bool>, j: nat)
    requires |installed| == |names| && j < |names|
    ensures EntryStart(installed, j + 1) == EntryStart(installed, j) + |EntryTrace(names[j], installed[j])|
    ensures EntryStart(installed, j + 1) <= |InstallTrace(names, installed)|
    ensures InstallTrace(names, installed)[EntryStart(installed, j)..EntryStart(installed, j + 1)]
      == EntryTrace(names[j], installed[j])
    decreases |names|
  {
    var n := |names| - 1;
    var front := InstallTrace(names[..n], installed[..n]);
    var entry := EntryTrace(names[n], installed[n]);
    assert InstallTrace(names, installed) == front + entry;
    InstallTraceLength(names[..n], installed[..n]);
    FailuresStep(installed, j);
    if j == n {
      assert installed[..n] == installed[..j];
      assert installed[..j + 1] == installed;
      SliceOfSecond(front, entry);
    } else {
      var names', installed' := names[..n], installed[..n];
      InstallTraceEntry(names', installed', j);
      assert installed'[..j] == installed[..j];
      assert installed'[..j + 1] == installed[..j + 1];
      assert names'[j] == names[j] && installed'[j] == installed[j];
      SliceOfFirst(front, entry, EntryStart(installed, j), EntryStart(installed, j + 1));
    }
  }

  /**
   * Entry `j` is announced by `Installing <name>`; when its install fails,
   * `Error while installing <name>` comes directly after, and otherwise the
   * next status belongs to the next entry.
   */
  lemma InstallStatusesOfEntry(env: seq<string>, installed: seq<bool>, j: nat)
    requires |installed| == |env| && j < |env|
    ensures var trace := InstallTrace(ShownNames(env), installed);
      && EntryStart(installed, j) + (if installed[j] then 1 else 2) == EntryStart(installed, j + 1)
      && EntryStart(installed, j + 1) <= |trace|
      && trace[EntryStart(installed, j)] == InstallingStatus(DisplayName(env[j]))
      && (!installed[j] ==> trace[EntryStart(installed, j) + 1] == InstallErrorStatus(DisplayName(env[j])))
  {
    var names := ShownNames(env);
    InstallTraceEntry(names, installed, j);
    var trace := InstallTrace(names, installed);
    var at := EntryStart(installed, j);
    var entry := EntryTrace(names[j], installed[j]);
    assert trace[at..EntryStart(installed, j + 1)] == entry;
    assert trace[at] == entry[0];
    if !installed[j] {
      assert trace[at + 1] == entry[1];
    }
  }

  /** The install loop posts nothing but install statuses. */
  lemma {:induction false} InstallTraceOnlyInstallStatuses(names: seq<string>, installed: seq<bool>)
    requires |installed| == |names|
    ensures forall i :: 0 <= i < |InstallTrace(names, installed)| ==> IsInstallStatus(InstallTrace(names, installed)[i])
    decreases |names|
  {
    if |names| > 0 {
      var n := |names| - 1;
      InstallTraceOnlyInstallStatuses(names[..n], installed[..n]);
      assert ("Installing " + names[n])[..11] == "Installing ";
      assert ("Error while installing " + names[n])[..23] == "Error while installing ";
    }
  }

  /** The statuses posted outside the install loop are not install statuses. */
  lemma BootStatusesAreDistinct()
    ensures !IsInstallStatus(LoadingStatus) && !IsInstallStatus(ExecutingStatus)
  {
    assert "Loading pyodide"[0] != "Installing "[0] && "Loading pyodide"[0] != "Error while installing "[0];
    assert "Executing code"[0] != "Installing "[0] && "Executing code"[1] != "Error while installing "[1];
  }

  /**
   * The first message of every boot is `Loading pyodide`; a runtime that
   * fails to start ends the boot right there.
   */
  lemma BootStartsWithLoading(env: seq<string>, installed: seq<bool>, boot: RuntimeBoot, exec: Execution)
    requires |installed| == |env|
    ensures |BootTrace(env, installed, boot, exec)| >= 1
    ensures BootTrace(env, installed, boot, exec)[0] == LoadingStatus
    ensures !boot.RuntimeReady? ==> |BootTrace(env, installed, boot, exec)| == 1
  {
  }

  /**
   * Once the runtime is up, the boot posts `Loading pyodide`, the install
   * statuses, then `Executing code` exactly once, after the last install
   * status, and one final message.
   */
  lemma ExecutingOnceAfterInstalls(env: seq<string>, installed: seq<bool>, exec: Execution)
    requires |installed| == |env|
    ensures var trace := BootTrace(env, installed, RuntimeReady, exec);
      && |trace| == |env| + Failures(installed) + 3
      && trace[1..|trace| - 2] == InstallTrace(ShownNames(env), installed)
      && (forall i :: 1 <= i < |trace| - 2 ==> IsInstallStatus(trace[i]))
      && (forall i :: 0 <= i < |trace| - 1 ==> (trace[i] == ExecutingStatus <==> i == |trace| - 2))
  {
    var names := ShownNames(env);
    var installs := InstallTrace(names, installed);
    var trace := BootTrace(env, installed, RuntimeReady, exec);
    InstallTraceLength(names, installed);
    InstallTraceOnlyInstallStatuses(names, installed);
    BootStatusesAreDistinct();
    assert trace[1..|trace| - 2] == installs;
    assert forall i :: 1 <= i < |trace| - 2 ==> trace[i] == installs[i - 1];
  }

  /**
   * A `render` is posted exactly when the application ran, as the last
   * message, carrying the three artifacts unchanged; a failed run ends with
   * its error line instead and raises.
   */
  lemma RenderOnlyOnSuccess(env: seq<string>, installed: seq<bool>, boot: RuntimeBoot, exec: Execution)
    requires |installed| == |env|
    ensures var trace := BootTrace(env, installed, boot, exec);
      && (forall i :: 0 <= i < |trace| ==> (trace[i].Render? <==> boot.RuntimeReady? && exec.Executed? && i == |trace| - 1))
      && (boot.RuntimeReady? && exec.Executed? ==>
            trace[|trace| - 1] == Render(exec.docsJson, exec.renderItems, exec.rootIds) && BootFault(boot, exec).None?)
      && (boot.RuntimeReady? && exec.Raised? ==>
            trace[|trace| - 1] == Status(ErrorLine(exec.errorText)) && BootFault(boot, exec) == Some(ExecutionFault(exec.errorText)))
  {
    var trace := BootTrace(env, installed, boot, exec);
    if boot.RuntimeReady? {
      var installs := InstallTrace(ShownNames(env), installed);
      InstallTraceOnlyInstallStatuses(ShownNames(env), installed);
      assert forall i :: 1 <= i < |trace| - 2 ==> trace[i] == installs[i - 1];
    }
  }

  /** With an empty dependency list the boot goes straight from loading to executing. */
  lemma EmptyListBoot(exec: Execution)
    ensures BootTrace([], [], RuntimeReady, exec) == [LoadingStatus, ExecutingStatus, Outcome(exec)]
  {
  }

  /**
   * One failing entry among good ones: its error follows its own
   * `Installing` status, and the entry after it is still installed.
   */
  lemma FailingEntryScenario()
    ensures InstallTrace(ShownNames(["holoviews", "bad-pkg", "param"]), [true, false, true]) ==
      [InstallingStatus("holoviews"), InstallingStatus("bad-pkg"),
       InstallErrorStatus("bad-pkg"), InstallingStatus("param")]
  {
    var names, installed := ShownNames(["holoviews", "bad-pkg", "param"]), [true, false, true];
    assert DisplayName("holoviews") == "holoviews" by { assert !EndsWith("holoviews", WheelSuffix); }
    assert DisplayName("bad-pkg") == "bad-pkg" by { assert !EndsWith("bad-pkg", WheelSuffix); }
    assert DisplayName("param") == "param" by { assert !EndsWith("param", WheelSuffix); }
    assert names == ["holoviews", "bad-pkg", "param"];
    assert names[..2][..1] == names[..1] && installed[..2][..1] == installed[..1];
    assert names[..1][..0] == [] && installed[..1][..0] == [];
    assert InstallTrace(names[..1], installed[..1]) == [InstallingStatus("holoviews")];
    assert InstallTrace(names[..2], installed[..2]) ==
      [InstallingStatus("holoviews"), InstallingStatus("bad-pkg"), InstallErrorStatus("bad-pkg")];
  }
}
