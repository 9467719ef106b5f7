/**
 * The web worker itself: the messages it has posted so far, whether its
 * Python runtime exists, and what it has handed to the runtime's document.
 * `StartApplication`, `OnMessage` and `SendPatch` are the three entry points
 * of the worker script.
 */
module WorkerBridge {
  import opened JsStrings
  import opened Messages
  import opened PackageName
  import opened Boot
  import opened Dispatch

  /** The dependency list the worker installs, in install order. */
  const EnvSpec: seq<string> := [
    "https://cdn.holoviz.org/panel/wheels/bokeh-3.6.2-py3-none-any.whl",
    "https://cdn.holoviz.org/panel/1.5.5/dist/wheels/panel-1.5.5-py3-none-any.whl",
    "pyodide-http==0.2.1", "holoviews", "pandas", "param"]

  class Worker {
    /** Everything posted to the page, oldest first. */
    var outbox: seq<Outbound>
    /** `self.pyodide` is set. */
    var hasRuntime: bool
    /** How many times the document was asked to link to the page. */
    var linkRequests: nat
    /**
     * Inbound patches handed to the runtime, oldest first. The runtime
     * applies them later; nothing here waits for that.
     */
    var handedOver: seq<Json>
    /** The document's location object, if it has one. */
    var location: Option<Location>

    constructor (location: Option<Location>)
      ensures outbox == [] && !hasRuntime && linkRequests == 0 && handedOver == []
      ensures this.location == location
    {
      outbox := [];
      hasRuntime := false;
      linkRequests := 0;
      handedOver := [];
      this.location := location;
    }

    /**
     * The callback the document calls for each change of its own: the patch
     * and its buffers go to the page unchanged; the message id is dropped.
     */
    method SendPatch(patch: Json, buffers: seq<Bytes>, msgId: Json)
      modifies this`outbox
      ensures outbox == old(outbox) + [PatchOut(patch, buffers)]
    {
      outbox := outbox + [PatchOut(patch, buffers)];
    }

    /**
     * The install loop of the boot: announce each entry of `env` in order and
     * report the ones whose install failed (entry `i` installs when
     * `installed[i]`); a failure does not stop the loop.
     */
    method InstallAll(env: seq<string>, installed: seq<bool>)
      requires |installed| == |env|
      modifies this`outbox
      ensures outbox == old(outbox) + InstallTrace(ShownNames(env), installed)
    {
      ghost var names := ShownNames(env);
      var i := 0;
      while i < |env|
        invariant 0 <= i <= |env|
        invariant outbox == old(outbox) + InstallTrace(names[..i], installed[..i])
      {
        var name := DisplayName(env[i]);
        outbox := outbox + [InstallingStatus(name)];
        if !installed[i] {
          outbox := outbox + [InstallErrorStatus(name)];
        }
        assert name == names[i];
        assert names[..i + 1][..i] == names[..i] && installed[..i + 1][..i] == installed[..i];
        i := i + 1;
      }
      assert names[..i] == names && installed[..i] == installed;
    }

    /**
     * Boot the runtime, install `env`, then run the application; `exec` is
     * how that run ends. The result is the exception that escapes, if any.
     */
    method StartApplication(env: seq<string>, installed: seq<bool>, boot: RuntimeBoot, exec: Execution)
      returns (fault: Option<Fault>)
      requires |installed| == |env|
      modifies this`outbox, this`hasRuntime
      ensures outbox == old(outbox) + BootTrace(env, installed, boot, exec)
      ensures fault == BootFault(boot, exec)
      ensures hasRuntime == (old(hasRuntime) || !boot.PyodideFailed?)
    {
      outbox := outbox + [LoadingStatus];
      if boot.PyodideFailed? {
        return Some(PyodideFault);
      }
      hasRuntime := true;
      if boot.MicropipFailed? {
        return Some(MicropipFault);
      }
      InstallAll(env, installed);
      outbox := outbox + [ExecutingStatus];
      ghost var executing := outbox;
      match exec {
        case Executed(docsJson, renderItems, rootIds) =>
          outbox := outbox + [Render(docsJson, renderItems, rootIds)];
          fault := None;
        case Raised(errorText) =>
          outbox := outbox + [Status(ErrorLine(errorText))];
          fault := Some(ExecutionFault(errorText));
      }
      assert outbox == executing + [Outcome(exec)];
      BootTraceOfReadyRuntime(old(outbox), env, installed, exec);
    }

    /**
     * Handle one message from the page. `rendered` asks the document to link
     * to the page, `patch` hands the patch to the runtime and posts `idle`,
     * `location` merges the update into the location object; any other type
     * is ignored. Before the runtime exists every handled type fails at once.
     * `locationAccepted` is how the runtime's merge of a location update ends:
     * when the location object refuses a value, the merge raises part way.
     */
    method OnMessage(msg: Inbound, locationAccepted: bool)
      modifies this`outbox, this`linkRequests, this`handedOver, this`location
      ensures outbox == old(outbox) + Reply(hasRuntime, msg)
      ensures linkRequests == old(linkRequests) + (if hasRuntime && msg.Rendered? then 1 else 0)
      ensures handedOver == old(handedOver) + (if hasRuntime && msg.PatchIn? then [msg.patch] else [])
      ensures !(hasRuntime && msg.LocationIn?) ==> location == old(location)
      ensures hasRuntime && msg.LocationIn? && locationAccepted ==>
        location == MergeLocation(old(location), msg.location)
      ensures hasRuntime && msg.LocationIn? && !locationAccepted ==>
        PartlyMerged(old(location), msg.location, location)
    {
      if !hasRuntime {
        return;
      }
      match msg {
        case Rendered =>
          linkRequests := linkRequests + 1;
        case PatchIn(patch) =>
          handedOver := handedOver + [patch];
          outbox := outbox + [Idle];
        case LocationIn(update) =>
          if locationAccepted {
            location := MergeLocation(location, update);
          } else {
            PartlyMergedBounds(location, update);
          }
        case Other(_) =>
      }
    }
  }

  /**
   * The worker's own start-up: with the runtime up and every install
   * succeeding, it announces each of its six dependencies in order and then
   * runs the application.
   */
  lemma WorkerStartup(exec: Execution)
    ensures var trace := BootTrace(EnvSpec, [true, true, true, true, true, true], RuntimeReady, exec);
      |trace| == 9 && trace[0] == LoadingStatus && trace[3] == InstallingStatus("pyodide-http==0.2.1")
      && trace[7] == ExecutingStatus
  {
    var installed := [true, true, true, true, true, true];
    ExecutingOnceAfterInstalls(EnvSpec, installed, exec);
    assert Failures(installed) == 0;
    InstallStatusesOfEntry(EnvSpec, installed, 2);
    assert installed[..2] == [true, true];
    assert !EndsWith(EnvSpec[2], WheelSuffix);
  }
}
