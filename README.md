# heedy notebook plugin: a Dafny model of the cell store, the client copy and the kernel registry

The heedy notebook plugin stores Jupyter-style notebooks as ordered rows of
cells, one row per cell, each row with a position (`cell_index`), a source,
metadata, a cell type and a list of outputs. It also runs one Jupyter
server per user and one kernel per notebook on that server. This project
models four parts of it:

- **The ordered cell store** (`CellStore`, proved in `StoreProperties`).
  - `save_notebook_modifications` applies a batch of patches: delete,
    create and update, including moves. It is modelled in the three
    revisions of the plugin: `backend/main.py`, `main.py` and
    `assets/main.py`.
  - It also covers appending and clearing outputs, reading one cell or the
    whole notebook in position order, and the route that refuses patches
    setting non-empty outputs.
  - The cell positions live in `CellIndex`, which defines removal,
    insertion and moves on a map from cell id to position. It proves that
    each of them keeps the positions `0..N-1` ("dense") and keeps the
    relative order of the other cells.
- **The stream-output normaliser** (`OutputNormalizer`).
  - `simple_apply_backspace`: backspaces erase the character before them.
  - `apply_backspace`: backspaces skip over ANSI escape sequences, which
    follow the syntax of ECMA-48 sections 5.3 and 5.4.
  - `fixlines`: a line that ends in a bare carriage return is overwritten
    by the next one.
- **The client copy** (`NotebookMirror`, proved in `MirrorProperties`),
  from `frontend/src/main/updateNotebook.js`.
  - `addUpdate` keeps the list of local changes not yet saved.
  - `deduplicateUpdate` drops the changes the server has echoed back.
  - `updateNotebook` applies changes to the copy as the code reads them.
    Its move target `c.cell_index || old` takes a requested position 0 for
    the old one (see "## Findings"). `ApplyAll` is the same loop with the
    target read as intended; it shifts positions as the server does, and
    the two agree on every list without a move to position 0.
  - `MirrorSync` ties the copy to the store. The events a committed save
    fires are turned into changes as `frontend/src/main.js` does. With the
    move target read as intended, replaying them brings a copy that agreed
    with the server's notebook into agreement with the saved notebook. The
    client as written stays in agreement exactly as long as no patch of the
    save moves a cell to position 0; one such move puts it out of step.
- **The session registry** (`SessionManager`), from `backend/manager.py`.
  - `Kernel`: run requests tagged with the cell id, the websocket reader's
    dispatch, close and interrupt.
  - `Server`: the per-notebook kernel registry with pending entries.
  - `Manager`: the per-user server registry, with spawning, closing and
    shutdown.
  - Some `asyncio` suspension points are split into a call and its
    resumption: `GetKernel`/`KernelCreated`/`KernelAwaited`, and
    `Get`/`Notified`/`Spawned`/`PortWaited`/`GetAwaited`. The others are
    taken as one step.
  - Calls to the outside world are recorded in sequence fields: the state
    and output callbacks, websocket sends, HTTP calls, process signals and
    waits.

Modelling choices:

- A notebook is a map from cell id to cell. `int` positions are unbounded,
  as in Python and SQLite.
- JSON values are the `Json` datatype.
- Fresh cell ids (`uuid.uuid4().hex`) are parameters.
- In the client copy, JavaScript truthiness and the object spread `{...a, ...b}`
  (a right-biased map union) are written out.

## Model

| member | source | states |
|---|---|---|
| CellIndex.MaxOfDense | backend/main.py:132-139 | in a dense notebook of N cells the largest position is N-1 (-1 when empty, the COALESCE default) |
| CellIndex.RemovedDense | backend/main.py:93-96 | removing the cell at a position and pulling the later ones down by one leaves a dense notebook |
| CellIndex.InsertedDense | backend/main.py:145-151 | opening a position 0..N by pushing the later cells up and putting the new cell there leaves a dense notebook |
| CellIndex.MovedDense | backend/main.py:271-285 | moving a cell to a position in 0..N-1, shifting the cells in between by one toward its old place, leaves a dense notebook |
| CellIndex.RemovedOrder | backend/main.py:93-96 | removal keeps the relative order of every other pair of cells |
| CellIndex.InsertedOrder | backend/main.py:145-151 | insertion keeps the relative order of every other pair of cells |
| CellIndex.MovedOrder | backend/main.py:271-285 | a move keeps the relative order of every pair of cells other than the moved one |
| CellStore.FirstStream | backend/main.py:365-373 | the position of the first stream record with the given name, if any; no earlier record has that name |
| CellStore.NotebookStore.ApplyPatch | backend/main.py:76-295 | one patch of the batch changes the working notebook exactly as the specification `Step` says |
| CellStore.NotebookStore.CreatePatch | backend/main.py:112-200 | a create either fails on a taken id or gives exactly `CreateStep` |
| CellStore.NotebookStore.UpdatePatch | backend/main.py:201-295 | an update of an existing cell gives exactly `UpdateStep` |
| CellStore.NotebookStore.Save | backend/main.py:67-301 | the batch commits as a whole with the events `SaveBatch` gives, or fails with its error and leaves the notebook untouched |
| CellStore.NotebookStore.UpdateNotebook | backend/main.py:505-518 | refused exactly when some patch sets non-empty outputs (main.py and backend only), leaving the notebook untouched; otherwise the result of `Save` |
| CellStore.NotebookStore.AppendOutput | backend/main.py:357-395 | a stream record is merged into the cell's first record of that stream (text normalised), any other output appended; the outputs event is fired |
| CellStore.NotebookStore.ClearOutputs | backend/main.py:398-415 | the cell's outputs become empty, nothing else changes, and the outputs event is fired |
| CellStore.NotebookStore.ReadCell | backend/main.py:442-459 | a row exactly when the cell exists, holding that cell |
| CellStore.NotebookStore.ReadNotebook | backend/main.py:418-439 | every cell once, in increasing position order |
| CellStore.OrderedRows | backend/main.py:423-437 | the rows of any notebook listed once each, ordered by position |
| StoreProperties.DeleteOutcome | backend/main.py:78-108 | a delete goes through exactly when it names an existing cell; otherwise it fails with a missing or unknown cell id |
| StoreProperties.DeleteEffect | backend/main.py:78-108 | a delete removes the cell, closes its gap, keeps every other cell's content, and reports one delete event with the position it had |
| StoreProperties.CreateEffect | backend/main.py:112-200 | a create puts the new cell at the requested position (the end for -1, none or past the end), shifts the later cells up, fills defaults, and fires an update event, followed by the outputs event exactly when the revision stores outputs and they are non-empty |
| StoreProperties.CreateBelowMinusOne | backend/main.py:143-151 | a create asking for a position below -1 stores the cell at that negative position, so the notebook is no longer dense |
| StoreProperties.UpdateEffect | backend/main.py:201-295 | an update overwrites exactly the fields the patch carries, moves the cell as requested, and reports its final position, followed by the outputs event whenever the revision stores outputs and the patch has them, empty or not |
| StoreProperties.MoveOutOfRange | backend/main.py:259-270 | a move to a negative position or past the end takes the cell to the last position |
| StoreProperties.MoveCellIndexes | backend/main.py:271-285 | a move in the table shifts positions exactly as `CellIndex.Moved` and keeps every cell's content |
| StoreProperties.StepKeepsDense | backend/main.py:76-295 | every patch that goes through keeps positions 0..N-1, whatever the cell_index of a delete or an update; only a create asking for a position below -1 is excluded, the case `CreateBelowMinusOne` shows breaking density |
| StoreProperties.SaveKeepsDense | backend/main.py:67-301 | a committed batch leaves the notebook dense unless one of its creates, judged against the table the patches before it left, asks for a position below -1 |
| StoreProperties.SaveAbortsOnFailure | backend/main.py:73-297 | a batch that fails at one patch fails as a whole, whatever was applied before it |
| StoreProperties.MainMatchesBackend | main.py:63-296 | main.py saves exactly as backend/main.py and fires the same events, naming the outputs event "notebook_cell_output" |
| StoreProperties.AssetsIgnoresOutputs | assets/main.py:62-218 | assets/main.py saves a patch as if it had no outputs and fires no outputs event |
| StoreProperties.StepOutputs | backend/main.py:220-224 | a patch allowed through the route leaves every cell's outputs empty or as they were |
| StoreProperties.SaveOutputs | backend/main.py:510-516 | a batch the route lets through cannot put outputs into any cell: each cell's outputs end empty or unchanged |
| StoreProperties.NonStreamAppended | backend/main.py:383-386 | output that is not a stream record is appended unchanged |
| StoreProperties.StreamMerged | backend/main.py:365-381 | stream text is added to the first record of the same stream, then normalised; no other record changes |
| StoreProperties.StreamAppended | backend/main.py:365-386 | stream text for a stream without a record becomes one new record whose text has no backspace |
| StoreProperties.StreamFailsOnlyWhenEmpty | backend/main.py:345-354 | stream output fails exactly when the text to normalise is empty (fixlines' IndexError) |
| StoreProperties.CoalescedKeepsOneRecordPerStream | backend/main.py:365-386 | appending stream output keeps at most one record per stream name |
| StoreProperties.ListingDense | backend/main.py:418-439 | in a dense notebook the listing has N rows and row k is the cell at position k |
| StoreProperties.ListingLength | backend/main.py:418-439 | the listing has exactly one row per cell |
| OutputNormalizer.SimpleApplyBackspace | backend/main.py:314-321 | the loop ends with the fixed point `Simplified` of the erase pass |
| OutputNormalizer.ErasePassShrinks | backend/main.py:315-321 | one pass shortens the text exactly when a character is followed by a backspace, and otherwise changes nothing, so the loop ends |
| OutputNormalizer.SimplifiedShape | backend/main.py:314-321 | the result is a run of leading backspaces followed by text without a backspace |
| OutputNormalizer.StrippedSimplifiedHasNoBS | backend/main.py:333-335 | stripping the leading backspaces of the result leaves no backspace |
| OutputNormalizer.SplitJoin | backend/main.py:311-328 | splitting around escape runs loses nothing: the pieces join back to the input |
| OutputNormalizer.SplitRuns | backend/main.py:311-328 | the escape runs are non-empty, made of whole escape sequences, and hold no backspace |
| OutputNormalizer.ApplyBackspace | backend/main.py:324-338 | the backward loop returns `Backspaced(s)` |
| OutputNormalizer.BackspacedHasNoBS | backend/main.py:324-338 | apply_backspace leaves no backspace |
| OutputNormalizer.BackspacedIdentity | backend/main.py:324-338 | text without backspaces comes back unchanged |
| OutputNormalizer.BackspacedIdempotent | backend/main.py:324-338 | applying it twice is applying it once |
| OutputNormalizer.BackspacedKeepsEscapes | backend/main.py:328-338 | the result joins one piece per piece of the split, each escape run unchanged and no piece holding a backspace |
| OutputNormalizer.BackspacedPlainText | backend/main.py:324-338 | on text without escapes it is simple_apply_backspace with the leading backspaces stripped |
| OutputNormalizer.CanceledExample | backend/main.py:307-338 | the text seen after `%pip install` ("ESC[?25h", backspace, space, backspace, "canceled\r\n") becomes "ESC[?25h" followed by "canceled\r\n": the escape is kept, the space erased, and no backspace is left |
| OutputNormalizer.FixLines | backend/main.py:345-354 | the loop returns `FixedLines(s)`, failing only where Python raises |
| OutputNormalizer.SplitLinesJoin | backend/main.py:349 | splitting into lines with their terminators loses nothing |
| OutputNormalizer.FixedLinesFails | backend/main.py:345-354 | fixlines fails exactly on the empty string |
| OutputNormalizer.FixedLinesHasNoBS | backend/main.py:345-354 | fixlines leaves no backspace |
| OutputNormalizer.FixedLinesPlain | backend/main.py:345-354 | text without backspace and carriage return passes through unchanged |
| OutputNormalizer.FixedLinesOverwrite | backend/main.py:349-354 | a line ending in a bare carriage return is dropped in favour of what follows |
| NotebookMirror.AddUpdate | frontend/src/main/updateNotebook.js:1-27 | an empty list becomes the cleaned change alone; a change for the cell of the last entry is merged into it (same length, earlier entries unchanged, the change's `cell_index` when it has one and the entry's otherwise, the change's other keys over the entry's); any other change is appended |
| NotebookMirror.Cleaned | frontend/src/main/updateNotebook.js:3-15 | the change without `modified` and without non-empty outputs; every other key kept with its value |
| NotebookMirror.DeduplicateUpdate | frontend/src/main/updateNotebook.js:58-80 | returns `Deduplicated`: the pending changes from the first one the applied list does not echo |
| NotebookMirror.AgreesOn | frontend/src/main/updateNotebook.js:64-73 | true exactly when every key of the pending change is in the applied change with an equal value |
| NotebookMirror.DeduplicatedAt | frontend/src/main/updateNotebook.js:62-78 | the pending changes are cut at the first one whose id or keys differ from the applied one |
| NotebookMirror.DeduplicatedEnd | frontend/src/main/updateNotebook.js:62-78 | when all applied changes are echoed the list is cut after them, or emptied when it is shorter |
| NotebookMirror.ShiftCells | frontend/src/main/updateNotebook.js:105-111 | the forEach moves every other cell whose position is in range by d, as `Shift` says |
| NotebookMirror.UpdateNotebook | frontend/src/main/updateNotebook.js:82-194 | the loop gives `ApplyAllAsWritten` of the changes: each applied in order as the code reads it, `c.cell_index \|\| old` included |
| NotebookMirror.DeleteCell | frontend/src/main/updateNotebook.js:99-116 | the delete branch is `ApplyChangeAsWritten` for a delete |
| NotebookMirror.UpdateCell | frontend/src/main/updateNotebook.js:119-156 | the update branch is `ApplyChangeAsWritten` for an existing cell: the target is `c.cell_index \|\| old` |
| NotebookMirror.CreateCell | frontend/src/main/updateNotebook.js:157-190 | the create branch is `ApplyChangeAsWritten` for a new cell |
| MirrorProperties.AddUpdateInvariant | frontend/src/main/updateNotebook.js:1-27 | the pending list never holds two neighbouring changes for one cell, nor `modified`, nor non-empty outputs (so the server route never refuses it) |
| MirrorProperties.AddUpdateKeepsMeaning | frontend/src/main/updateNotebook.js:17-26 | merging a field edit into the last pending change of the same cell means the same as applying the two in turn |
| MirrorProperties.DeduplicatedPrefix | frontend/src/main/updateNotebook.js:58-80 | what deduplicateUpdate keeps is a suffix of the pending list, of length at least the pending minus the applied ones |
| MirrorProperties.DeduplicateEcho | frontend/src/main/updateNotebook.js:58-80 | when the server echoes a prefix of the pending changes exactly, exactly the rest is kept |
| MirrorProperties.MirrorDelete | frontend/src/main/updateNotebook.js:99-116 | deleting a cell removes it and pulls the later cells down, as the server does, keeping every other cell's fields |
| MirrorProperties.MirrorCreate | frontend/src/main/updateNotebook.js:157-190 | a new cell gets the defaults under the change's keys at the requested position, the later cells move up as on the server, the rest are untouched |
| MirrorProperties.MirrorUpdate | frontend/src/main/updateNotebook.js:119-156 | an update spreads the change over the cell and moves it to the change's position, shifting the cells in between as on the server |
| MirrorProperties.ApplyChangeKeepsDense | frontend/src/main/updateNotebook.js:97-190 | with the move target read as intended, a change whose position is in range keeps the copy's positions 0..N-1 (as written, `MoveToTopBreaksDensity` is the exception) |
| MirrorProperties.MoveToTopAsWritten | frontend/src/main/updateNotebook.js:125 | as written, a move to position 0 takes the cell's `cell_index` from the spread but shifts no other cell, so two cells share position 0 |
| MirrorProperties.AsWrittenElsewhere | frontend/src/main/updateNotebook.js:125 | as written and as intended agree on every change other than a move to position 0 |
| MirrorProperties.MoveToTopBreaksDensity | frontend/src/main/updateNotebook.js:124-156 | as written, moving a cell of any dense copy to position 0 from elsewhere leaves it at 0 beside the cell already there, so the copy is no longer dense |
| MirrorProperties.AllAsWrittenElsewhere | frontend/src/main/updateNotebook.js:95-192 | the loop as written equals the corrected fold on every list in which no change moves a cell to position 0 |
| MirrorSync.EventChange | frontend/src/main.js:51-66 | an update event becomes a change with its position and fields, a delete event gets `delete: true`, an outputs event becomes no change |
| MirrorSync.OutputsOnly | frontend/src/main.js:68-77 | outputs events alone change nothing in the copy |
| MirrorSync.DeleteSync | backend/main.py:78-108 | replaying a delete's event on a copy in step with the server keeps it in step |
| MirrorSync.CreateSync | backend/main.py:112-200 | replaying a create's event inserts the cell in the copy where the server inserted it |
| MirrorSync.UpdateSync | backend/main.py:201-295 | for the client with the move target read as intended, replaying an update's event spreads the fields over the copy's cell and moves it where the server moved it |
| MirrorSync.StepSync | backend/main.py:76-295 | for the client with the move target read as intended, replaying the events of one committed patch keeps the copy in step with the server; only a create below -1 is excluded |
| MirrorSync.SaveSync | backend/main.py:67-301 | for the client with the move target read as intended, replaying every event of a committed batch on a copy in step with the server leaves it in step with the saved notebook |
| MirrorSync.StepSyncAsWritten | frontend/src/main/updateNotebook.js:95-192 | the client as written stays in step over one committed patch unless the patch moves a cell to position 0 |
| MirrorSync.TopMoveDesyncs | frontend/src/main/updateNotebook.js:124-156 | a patch moving a cell to position 0 from elsewhere puts the client as written out of step with the server |
| MirrorSync.SaveSyncAsWritten | frontend/src/main/updateNotebook.js:82-194 | the client as written stays in step over a committed batch in which no patch, judged against the table before it, moves a cell to position 0 |
| SessionManager.FirstField | backend/manager.py:161 | `split("_")[0]`: a prefix without `_`, either the whole text or followed by `_` |
| SessionManager.CorrelationRoundTrip | backend/manager.py:79 | the cell id is recovered from the msg_id exactly when it contains no `_` |
| SessionManager.CorrelationTruncates | backend/manager.py:79 | a cell id with `_` comes back cut at its first `_` |
| SessionManager.Field | backend/manager.py:150-161 | indexing succeeds exactly on an object holding the key, and gives its value |
| SessionManager.HandleStatus | backend/manager.py:150-155 | a well-formed status message sets the state to its execution_state; only status messages set the state |
| SessionManager.HandleOutput | backend/manager.py:156-163 | exactly the four output message types are forwarded, to the cell named before the first `_` of the parent msg_id, with output_type set |
| SessionManager.HandleIgnores | backend/manager.py:145-163 | any other text message is ignored |
| SessionManager.HandleStops | backend/manager.py:164-169 | the reader stops only on a closed socket and fails on any other unexpected frame |
| SessionManager.ReplyReachesCell | backend/manager.py:77-103 | the reply to a request `run` sent for a cell without `_` is forwarded to that cell |
| SessionManager.Kernel.constructor | backend/manager.py:42-58 | a new kernel is "starting", with no websocket and nothing sent or notified |
| SessionManager.Kernel.Open | backend/manager.py:105-139 | opening sends the silent init request, then every request waiting for the socket, in order |
| SessionManager.Kernel.Run | backend/manager.py:77-103 | an execute request tagged `cell_id + "_" + hex` is sent now, or queued until the socket opens |
| SessionManager.Kernel.Receive | backend/manager.py:141-169 | one message updates the state and notifies, forwards an output, or does nothing, as `Handle` says; a failure changes nothing |
| SessionManager.Kernel.Close | backend/manager.py:60-70 | "off" is notified once (not after a previous close), the callback is silenced, the state is kept, a DELETE is sent |
| SessionManager.Kernel.Interrupt | backend/manager.py:72-75 | one interrupt call, nothing else changes |
| SessionManager.Server.GetKernel | backend/manager.py:195-208 | a stored kernel is returned, a pending one waited on, an unknown id registered as pending |
| SessionManager.Server.KernelCreated | backend/manager.py:209-227 | the pending entry now holds a new "starting" kernel |
| SessionManager.Server.KernelAwaited | backend/manager.py:199-201 | a waiter gets the stored kernel; when the entry was removed meanwhile, the code returns a new call's coroutine without awaiting it (`Retried`), and a still-starting entry is the KeyError (`NoKernelYet`) |
| SessionManager.Server.CloseKernel | backend/manager.py:232-239 | the entry is removed, and a stored kernel is closed |
| SessionManager.Server.InterruptKernel | backend/manager.py:241-245 | nothing for an unknown id, an interrupt of a stored kernel, a wait on a pending one |
| SessionManager.Server.State | backend/manager.py:247-250 | "off" for an unknown id, the kernel's state otherwise, a wait while pending |
| SessionManager.Server.Close | backend/manager.py:252-253 | only the HTTP session is closed; kernels stay registered |
| SessionManager.Manager.Get | backend/manager.py:279-293 | a ready server is returned, a pending entry waited on; for an unknown user with a notify_oid only "starting" is notified and nothing is registered yet; without one a pending entry is registered at once |
| SessionManager.Manager.Notified | backend/manager.py:291-293 | after the notification, a fresh pending entry is registered without a second look, replacing any entry another `get` registered meanwhile |
| SessionManager.Manager.Spawned | backend/manager.py:315-326 | while closing the new process is terminated and not recorded; otherwise it is recorded, or a KeyError when the entry is gone |
| SessionManager.Manager.PortWaited | backend/manager.py:328-342 | the entry gets a new Server whether or not the port opened, since wait_until_open gives up silently; a KeyError when the entry is gone |
| SessionManager.Manager.GetAwaited | backend/manager.py:281-284 | a waiter gets the entry's server; a KeyError when there is none |
| SessionManager.Manager.CloseServer | backend/manager.py:344-353 | the entry is removed, its process terminated and awaited, then its server's session closed |
| SessionManager.Manager.CloseKernel | backend/manager.py:355-358 | delegates to the user's server when ready, waits when pending, nothing for an unknown user |
| SessionManager.Manager.Close | backend/manager.py:360-373 | closing is set; every recorded process is signalled, then awaited, and every server's session closed; entries and kernels stay |

## Left out

- HTTP routing, access checks, request parsing, the SQL text itself and the
  database connection are not modelled. A notebook is the map of its rows,
  and a commit replaces it.
- Firing events (`p.fire`), `update_modified_date`, the logging and the
  ipynb import/export handlers (`ipynb_get`, `post_ipython`) are not part
  of this model.
- `uuid.uuid4().hex` is a parameter (`newIds`, `hex`).
- `assets/jupyter.py`, `frontend/src/main/vuex.js` and the Jupyter
  server's own behaviour are not part of this model.
- Text fields that arrive as JSON values other than strings are not
  modelled. Source, cell type and stream text are strings here.
- `cmpobj` is the parameter `same`. JavaScript's own comparison
  (`Object.compare` is undefined, and numbers compare by value) is not
  modelled.
- Object identity in the client copy is not modelled. The copy is a value,
  not the mutated vuex object.
- A client change without `cell_id` is not modelled.
- NotebookMirror.ApplyChange: positions outside `0..N` are applied as
  written, but the agreement with the server is proved only for positions
  in range.
- The client subscribes to "notebook_cell_output" while backend/main.py
  fires "notebook_cell_outputs". The model treats outputs events as not
  changing the copy either way; fetching the outputs is not modelled.
- JSON numbers are integers (`JsonValue.Json.Num`). A fractional
  `cell_index`, which Python would compare as a float, is not modelled.
- MirrorSync.UpdateSync, MirrorSync.StepSync and MirrorSync.SaveSync are
  proved for the client with the move target read as intended. For the
  client as written, `StepSyncAsWritten` and `SaveSyncAsWritten` hold only
  without a move to position 0, and `TopMoveDesyncs` shows that case.
- MirrorProperties.ApplyChangeKeepsDense is proved for the move target read
  as intended. As written, a move to position 0 breaks density
  (`MoveToTopBreaksDensity`).
- `asyncio` interleavings are explored only at the split points named
  above. Each of the following runs as one step: the awaits inside
  `close_kernel`, `close_server`, `close` and `Kernel.close`; the callbacks
  of the websocket reader; the apps lookup and spawn inside `get`. A call
  that lands in one of those windows is not modelled.
- SessionManager.Server.KernelCreated: requires the entry to still be
  pending. A `close_kernel` during kernel start-up, followed by the late
  creation, is not modelled.
- SessionManager.Kernel.Open: requires the websocket not to be open yet.
  Pong replies, reconnects and the websocket connection itself are not
  modelled.
- `free_port`, `wait_until_open`, the subprocess, its environment and the
  access token are parameters or left out. `PortWaited` takes whether the
  port opened only to show that the code does not look at it.

## Findings

| source | as written | input that shows it | evidently intended | confidence | as-written member | corrected member |
|---|---|---|---|---|---|---|
| frontend/src/main/updateNotebook.js:125 | the move target is `c.cell_index \|\| old`, so a requested position 0 (falsy) falls back to the cell's old position and no other cell is shifted, while the spread still sets the cell's `cell_index` to 0 | copy {a at 0, b at 1}, change {cell_id: b, cell_index: 0}: a and b both end at position 0, where the server has b at 0 and a at 1 | move to the change's `cell_index` whenever it has one | high (not executed) | MirrorProperties.MoveToTopAsWritten | MirrorProperties.MirrorUpdate |
