# Movies dashboard worker bridge

The dashboard runs in the browser. A web worker boots a Pyodide runtime,
installs the Python dependency list, runs the Panel application and keeps the
live Bokeh document in sync with the page. This project models the worker
script `index.js`, which has three entry points:

- `startApplication` posts a status trace while it boots, installs and runs.
  It shows a display name for each dependency. It finishes with one `render`
  message, or with the error line of the failure. When the runtime fails to
  start, it stops right after `Loading pyodide`.
- `self.onmessage` dispatches messages from the page: `rendered`, `patch`,
  `location`, or any other type, which is ignored. It also merges location
  updates into the document's location object.
- `sendPatch` relays the document's own patches to the page.

The calls into the Python runtime are inputs to the model:
- how runtime start-up ended (`Boot.RuntimeBoot`);
- whether the runtime accepted a location update;
- one success flag per install attempt;
- how the application run ended (`Boot.Execution`).

The worker is the class `WorkerBridge.Worker`. Its outbox is the sequence of
messages posted to the page.
- `StartApplication` is proved against `Boot.BootTrace`.
- Its install loop `InstallAll` is proved against `Boot.InstallTrace`.
- `OnMessage` is proved against `Dispatch.Reply`, `Dispatch.MergeLocation` and `Dispatch.PartlyMerged`.
- `SendPatch` states its one appended message directly.

The properties of the traces are lemmas about these functions.
`Dispatch.Conversation` builds what is posted after each message from
`Dispatch.Reply`.

Modules:
- `JsStrings` models JavaScript `split`, `endsWith` and the pieces picked out of a split.
- `Messages` holds the message vocabulary.
- `PackageName` derives the display name.
- `Boot` holds the error line and the boot trace.
- `Dispatch` holds the inbound replies and the location merge.
- `WorkerBridge` holds the worker class.

The model follows the code in two places where the bridge is sometimes
described differently:
- A wheel's display name keeps the `.whl` suffix when the file name has no `-`.
  The suffix only selects the wheel branch and is never stripped
  (`WheelSuffixKept`).
- With one failing entry among three, the loop posts three `Installing`
  statuses, one per entry, plus one error status (`FailingEntryScenario`).

## Model

| member | source | states |
|---|---|---|
| JsStrings.Split | index.js:22 | `split` always yields at least one piece, and no piece contains the separator |
| JsStrings.JoinSplit | index.js:56 | joining the pieces of a split with the separator gives back the original text |
| JsStrings.SplitJoin | index.js:56 | splitting a join of separator-free pieces gives back exactly those pieces |
| JsStrings.FirstPiece | index.js:22 | `split(sep)[0]` is the prefix that ends at the first separator, or at the end of the text when there is none |
| JsStrings.LastPiece | index.js:22 | `split(sep).slice(-1)[0]` is the suffix that starts after the last separator, or the whole text when there is none |
| PackageName.DisplayName | index.js:20-25 | for a `.whl` entry: the first `-`-delimited piece of the last `/`-delimited segment, containing neither `/` nor `-`; for any other entry: the entry unchanged |
| PackageName.WheelName | index.js:21-22 | `<prefix>/<name>-<rest>.whl` is shown as `<name>` for every prefix and version tail, when `<name>` holds no `/` or `-` |
| PackageName.PanelWheelName | index.js:18 | the panel wheel of the dependency list is shown as `panel` |
| PackageName.WheelSuffixKept | index.js:21-22 | a wheel file name without `-` is shown whole, `.whl` included |
| PackageName.PlainEntryName | index.js:23-25 | `pyodide-http==0.2.1` is shown as written |
| Boot.ErrorLine | index.js:55-59 | the status carries a line exactly when the error text holds a line break, and that line holds no line break; without one it carries `undefined` |
| Boot.ErrorLineIsLineBeforeLast | index.js:55-59 | the chosen line is the last line of the error text once its final line is dropped |
| Boot.TracebackErrorLine | index.js:55-59 | for a text ending in a line break, the chosen line is the last line before that break |
| Boot.InstallTraceLength | index.js:19-38 | the install loop posts one status per entry plus one per failed entry |
| Boot.InstallTraceEntry | index.js:19-38 | entry `j`'s statuses are the contiguous block that starts at `j` plus the number of earlier failures, in list order |
| Boot.InstallStatusesOfEntry | index.js:19-38 | entry `j` is announced by `Installing <name>`; a failed install is followed directly by `Error while installing <name>`; later entries are still announced |
| Boot.InstallTraceOnlyInstallStatuses | index.js:26-37 | every status of the install loop is an `Installing` or `Error while installing` status |
| Boot.BootStartsWithLoading | index.js:13-17 | every boot posts `Loading pyodide` first; a failed runtime start-up posts nothing more |
| Boot.ExecutingOnceAfterInstalls | index.js:19-41 | a running runtime's trace is `Loading pyodide`, then the install statuses, then `Executing code` exactly once, then one final message |
| Boot.RenderOnlyOnSuccess | index.js:46-62 | a `render` is posted exactly when the run succeeds, as the last message, with the three artifacts unchanged; a failed run ends with its error line and raises |
| Boot.EmptyListBoot | index.js:19-41 | with an empty dependency list the trace is `Loading pyodide`, `Executing code`, outcome |
| Boot.FailingEntryScenario | index.js:19-38 | `bad-pkg` failing between two good entries yields its error directly after its own `Installing`, and the third entry is still announced |
| Dispatch.MergeLocation | index.js:87-92 | only parameters the location object already has are overwritten; every other parameter keeps its value; no location object means no change |
| Dispatch.MergeUnrecognisedKeys | index.js:87-92 | an update naming no known parameter changes nothing |
| Dispatch.PartlyMergedBounds | index.js:87-92 | a location update the runtime refuses part way leaves the object between no change and the full merge: same parameters, each with its old or its new value |
| Dispatch.MergeIdempotent | index.js:87-92 | merging the same update twice equals merging it once |
| Dispatch.IdlePerPatch | index.js:65-95 | with the runtime loaded, the handler posts as many messages as it received patches, each one `idle`; without it, nothing |
| Dispatch.IdleFollowsItsPatch | index.js:74-80 | each `idle` comes directly after its patch, and each patch is directly followed by its `idle` |
| WorkerBridge.Worker.SendPatch | index.js:3-9 | appends one `patch` message carrying the patch and buffers unchanged; the message id is dropped |
| WorkerBridge.Worker.InstallAll | index.js:19-39 | the loop appends exactly the install trace of the shown names and success flags |
| WorkerBridge.Worker.StartApplication | index.js:11-62 | appends the boot trace; returns the escaping fault; the runtime exists once start-up got past `loadPyodide` |
| WorkerBridge.Worker.OnMessage | index.js:65-95 | with the runtime loaded: `rendered` adds a link request, `patch` hands the patch to the runtime and posts `idle`, `location` merges the update when the runtime accepts it and otherwise leaves each parameter at its old or its new value, other types do nothing; without it nothing changes |
| WorkerBridge.WorkerStartup | index.js:18-41 | with all six dependencies installing, the boot posts nine messages; `pyodide-http==0.2.1` is announced fourth, and `Executing code` comes eighth |

## Left out

- Loading Pyodide, loading `micropip`, `micropip.install` and `runPythonAsync` are foreign calls. Each becomes an abstract outcome given as input.
- Building Python source by string interpolation of the package entry (index.js:30) is left out. Quoting is not modelled.
- The embedded application payload (index.js:43) and `index.py`: index.py is not part of this model. The run appears only as its three render artifacts or its error text.
- The contents of Bokeh JSON patches and the runtime calls that apply or link them are out of scope. Patches are opaque `Json` values, and linking is counted as a link request.
- Asynchrony is out of scope. `onmessage` does not await the runtime, so `idle` is posted before the patch is applied. The model records only that the patch was handed over, and models no interleavings. `startApplication` is modelled as one step.
- WorkerBridge.Worker.OnMessage: when the location object refuses a value (a wrong type for a parameter), the runtime's merge raises part way. The model then promises only that each parameter holds its old or its new value. Which parameters were written before the raise depends on the runtime's parameter library, which is not part of this model.
- WorkerBridge.Worker.OnMessage takes the location update already decoded. Text that `json.loads` rejects is not modelled; a decoded update that is not an object leaves the location unchanged, as the raising runtime call would.
- `console.log` output is left out.
- A `patch` or `location` message that arrives before `rendered` is handled like any other. The code has no such guard, so the model invents none.
