# Mind mapper canvas model

A Dafny model of the browser mind-mapping tool in `main.js`: a canvas
holding circular *nodes* (team members and projects), straight
*connections* between a team member and a project, and rectangular
*regions* (research directions) drawn behind them. Users add nodes, join them
in connecting mode, drag nodes and regions, resize regions from their
bottom-right handle, draw new regions in region-creation mode, rename or
delete from a double-click dialog, write notes in a side panel, clear
everything, and save/load the diagram as a flat record.

The model is functional. The three global collections and the supply of
fresh object identities form a `Diagram` (`diagram.dfy`); the session
globals (`isConnecting`, `selectedNode`, `isDragging`, `draggedNode`,
`isCreatingRegion`, `regionStart`, `draggedRegion`, `resizingRegion`,
`lastMouseX`, `lastMouseY`) form a `Session` (`interaction.dfy`). Every
canvas event and page command is a pure transition
`Step(diagram, session, event)` returning the new diagram, the new session
and an effect (open a notes panel, open a rename dialog, prompt for a region
label).

- `seqs.dfy` (`Seqs`): `Option`, `Result`, the first-match search of
  `Array.prototype.find` and the order-keeping `Array.prototype.filter`,
  with their lemmas.
- `text.dfy` (`Text`): `String.prototype.trim` over the JavaScript
  whitespace and line-terminator characters.
- `entities.dfy` (`Entities`): nodes, regions, connections, constants and
  the three hit tests.
- `diagram.dfy` (`Diagrams`): the diagram invariant (no connection with an
  endpoint outside `nodes`, distinct identities, labelled regions) and every
  mutation of the collections, each shown to keep the invariant.
- `snapshot.dfy` (`Snapshots`): export to the saved record and the load
  that rebuilds a diagram from it, with the round trip.
- `interaction.dfy` (`Interaction`): the session, the event handlers,
  `Step`/`Run`, and the invariant of every reachable state.
- `findings.dfy` (`Findings`): two stale-reference problems of the
  handlers as written, on concrete diagrams, next to the corrected handlers.

JavaScript object identity is modelled by a `Handle` drawn from a counter
that is never reused. A reference to a node keeps the node's handle, `id`
and `type` (`NodeRef`), which never change after the node is set up:
a load overwrites the `id` only before any reference to the node exists
(main.js:542-544). Connection
endpoints and the connect-mode selection hold such references, so they
still carry an `id` after their node has left the diagram, just as a
JavaScript reference does.

`main.js` joins only a team member and a project: a click on a second node
of the same type ends connecting mode and adds nothing (main.js:371-381).

`Step` and `Run` use two corrected handlers, `OnClick` (through
`ConnectClick`) and `OnMouseDown`; the handlers exactly as `main.js` writes
them are `OnClickAsWritten` and `OnMouseDownAsWritten`, driven by
`StepAsWritten` and `RunAsWritten`. The two machines differ only where the
"## Findings" below show the source going wrong.

## Model

| member | source | states |
|---|---|---|
| `Entities.InRegion` | main.js:215-222 | A body hit implies the region has non-negative size and the point is at or right of and below its top-left corner. |
| `Entities.InResizeHandle` | main.js:206-213 | A handle hit lies in the bottom-right square of side 10; for a region at least 10 by 10 the handle is inside the body. |
| `Entities.InLabel` | main.js:224-233 | A label hit implies a non-negative measured width; when the label box fits in the region, a label hit is a body hit. |
| `Entities.NodeHit` | main.js:48-50 | A hit point lies within 30 of the centre along each axis; on the horizontal or vertical through the centre, a point hits exactly when it is at most 30 away (boundary inclusive). |
| `Entities.NodeHitOnAxes` | main.js:48-50 | Concretely: 30 to the right of the centre hits and 31 does not; likewise 30 and 31 above it. |
| `Text.Trim` | main.js:63 | The result has no leading or trailing whitespace, and is empty exactly when the input is all whitespace. |
| `Text.TrimIsInfix` | main.js:63 | The trimmed text is a contiguous part of the input with only whitespace cut on each side. |
| `Text.TrimIdempotent` | main.js:59-65 | Trimming twice equals trimming once. A label the program set is already trimmed (main.js:29, 65, 143 and 247), so confirming it unchanged keeps it; a label loaded from a file is stored untrimmed (main.js:543, 565) and is trimmed on its first confirmed rename. |
| `Diagrams.AddNode` | main.js:292-297 | Appends one node with a fresh identity, the kind's default label, empty notes and the given centre; earlier nodes, connections and regions are kept; the invariant is kept. |
| `Diagrams.Relabel` | main.js:62-66 | A confirmed label is the trimmed input when that is non-empty, otherwise the old label; a labelled entity never becomes unlabelled. |
| `Diagrams.RenameNode` | main.js:62-70 | Only the renamed node's label can change, to its relabelled value; everything else is kept, and so is the invariant. |
| `Diagrams.RenameNodeIdempotent` | main.js:62-66 | Confirming the same rename input twice equals confirming it once. |
| `Diagrams.RenameRegion` | main.js:245-253 | Only the renamed region's label can change; all other regions, the nodes and connections are kept; the invariant is kept. |
| `Diagrams.RenameRegionIdempotent` | main.js:245-249 | Confirming the same region rename twice equals confirming it once. |
| `Diagrams.DeleteNode` | main.js:72-80 | A node survives exactly when it is not the deleted one; a connection survives exactly when neither endpoint is the deleted node; the invariant is kept. |
| `Diagrams.DeleteNodeRemovesSlot` | main.js:73 | With distinct identities, deleting the node at index i removes that slot and keeps the order of the rest. |
| `Diagrams.DeleteNodeKeepsConnectionOrder` | main.js:74-76 | The surviving connections keep their relative order: deleting from a concatenation is deleting from each part. |
| `Diagrams.DeleteUnconnectedNodeKeepsConnections` | main.js:74-76 | Deleting a node no connection touches leaves the connections unchanged. |
| `Diagrams.DeleteRegion` | main.js:255-260 | A region survives exactly when it is not the deleted one; nodes and connections are kept; the invariant is kept. |
| `Diagrams.DeleteRegionRemovesSlot` | main.js:256 | With distinct identities, deleting the region at index k removes exactly that slot. |
| `Diagrams.SetNodeNotes` | main.js:625-627 | The panel's text becomes that node's notes and nothing else changes. |
| `Diagrams.SetRegionNotes` | main.js:625-627 | The panel's text becomes that region's notes and nothing else changes. |
| `Diagrams.MoveNode` | main.js:437-439 | The dragged node's centre becomes the pointer; all other nodes, connections and regions are kept. |
| `Diagrams.TranslateRegion` | main.js:433-435 | The dragged region moves by exactly the pointer delta and keeps its size, label and notes; others are kept. |
| `Diagrams.ResizeRegion` | main.js:429-431 | Each dimension becomes the old one plus the delta, or 50 if that is larger; the corner and the other regions are kept. |
| `Diagrams.AddConnection` | main.js:372-377 | Appends the connection; it keeps the invariant when both endpoints are in the diagram, and breaks it when the start node is not. |
| `Diagrams.AddRegion` | main.js:457-466 | Appends one region with a fresh identity, the given rectangle and empty notes; a non-empty label keeps the invariant. |
| `Diagrams.Clear` | main.js:655-659 | All three collections become empty and the result satisfies the invariant; identities are not reused. |
| `Snapshots.Export` | main.js:487-509 | One record per node, connection and region, in order; each node record holds that node's id, type, label, position and notes, each region record that region's label, corner, size and notes, and a connection is recorded by its endpoints' ids. |
| `Snapshots.ImportNodes` | main.js:541-547 | Each record becomes a fresh node with its type, label, position and notes; a missing id is replaced by a random one. |
| `Snapshots.ResolveLinks` | main.js:550-556 | Every rebuilt connection joins two loaded nodes; when every record names loaded ids, each record yields its connection, in order. |
| `Snapshots.FirstWithId` | main.js:551-552 | The node a lookup by id returns carries that id and is the first node in the list that does. |
| `Snapshots.ResolveLinksFindsFirst` | main.js:550-556 | When every record names loaded ids, the k-th connection joins the first loaded node with the record's `from` id to the first with its `to` id, even when ids repeat. |
| `Snapshots.ResolveLinksConcat` | main.js:550-556 | Connections are rebuilt record by record: concatenated records give concatenated connections. |
| `Snapshots.ResolveLinksDropsUnresolved` | main.js:553-555 | A record naming an id no loaded node has is skipped and leaves no other trace. |
| `Snapshots.ImportRegions` | main.js:559-569 | Succeeds exactly when every region record has a label; then each record becomes a fresh region with its recorded fields; a failure points at an unlabelled record. |
| `Snapshots.Import` | main.js:535-569 | Loading succeeds exactly when every region record is labelled; the loaded diagram's nodes, connections and regions are exactly those rebuilt from the records, it satisfies the invariant and has one fresh node and region per record; a failure reports the unlabelled region record. |
| `Snapshots.ExportImportRoundTrip` | main.js:487-569 | Saving then loading a valid diagram with present, distinct ids reproduces every node, connection endpoint and region. |
| `Snapshots.SmallDiagramRoundTrip` | main.js:487-569 | Two connected nodes and one region survive a save and load. |
| `Snapshots.DanglingRecordSkipped` | main.js:550-556 | A connection record naming a missing id is left out and the load still succeeds. |
| `Interaction.ReleaseCaptures` | main.js:475-478 | After a mouseup nothing is captured, and the connecting and creation state is untouched. |
| `Interaction.ConnectClickAsWritten` | main.js:366-384 | First node selected; the same node again changes nothing; a different node ends connecting mode and adds a connection exactly when the types differ. |
| `Interaction.ConnectClick` | main.js:366-384 | As written, except that a selection whose node has left the diagram is replaced by the clicked node; the invariant is kept and a selection is always a node of the diagram. |
| `Interaction.OnClick` | main.js:345-385 | (corrected) Outside connecting mode, opens the panel of the first node hit, else the first region hit, changing nothing; in connecting mode, only a node hit acts, through `ConnectClick`; the invariant is kept. |
| `Interaction.OnClickAsWritten` | main.js:345-385 | The click as written: a connecting click on the first node hit goes through `ConnectClickAsWritten`; it agrees with `OnClick` whenever the selection, if any, is still in the diagram. |
| `Interaction.OnMouseDownAsWritten` | main.js:387-419 | Records the pointer; in creation mode sets the anchor; otherwise captures the first node, else handle, else label, else body hit, overwriting only the slots it reaches. |
| `Interaction.OnMouseDown` | main.js:387-419 | The same search after releasing earlier captures: at most one capture, and none when nothing is under the pointer. |
| `Interaction.OnMouseMove` | main.js:421-445 | Resizes, else translates, else moves the captured entity by the pointer delta, in that priority; records the pointer; keeps the invariant. |
| `Interaction.NodeDragEndsAtPointer` | main.js:437-444 | Along any pointer path, a dragged node ends under the last position and nothing else moves. |
| `Interaction.RegionDragTracksPointer` | main.js:433-444 | Along any pointer path, a dragged region's displacement equals the pointer's total displacement. |
| `Interaction.Normalise` | main.js:458-461 | The proposed `Rect` has the absolute differences as width and height, non-negative, contains both the anchor and the release point, and no point of it lies left of or above either. |
| `Interaction.FinishRegion` | main.js:453-468 | From the anchor: a prompt exactly when the drag exceeds 10 both ways, with the rectangle at the smaller coordinates; a region exactly when the prompt is confirmed with non-blank text, appended with that rectangle, a fresh identity, empty notes and the trimmed label; the invariant is kept. |
| `Interaction.OnMouseUp` | main.js:447-479 | A drag over 10 both ways prompts with the rectangle at the smaller coordinates and the absolute differences as size; a region is added exactly when the prompt is confirmed with non-blank text, with that rectangle, a fresh identity, empty notes and the trimmed text as label; creation mode ends; all captures are released. The effect is exactly the one `FinishRegion` decides; outside creation mode there is no effect. |
| `Interaction.OnDoubleClick` | main.js:586-603 | Opens the dialog for the first node hit, else the first region hit; nothing changes. |
| `Interaction.OnDialog` | main.js:62-84 | Rename (`RenameNode`/`RenameRegion` of the target with the typed text), delete or cancel of the dialog's target; a blank rename and a cancel change nothing; the session is untouched. |
| `Interaction.OnEditNotes` | main.js:616-627 | Typing in the panel sets the notes of the entity it was opened for. |
| `Interaction.OnClear` | main.js:655-671 | Empties the collections and resets every mode, selection, anchor and capture; keeps the last pointer position; there is no effect. |
| `Interaction.OnLoad` | main.js:531-577 | A successful load replaces the diagram by exactly the one `Import` rebuilds, which is valid and made of fresh objects; a failed one changes nothing; the session is untouched. |
| `Interaction.Step` | main.js:299-302 | Starting connecting mode sets only `isConnecting`; starting region creation (main.js:482-485) sets only `isCreatingRegion`; adding a node appends it, leaves the session alone and has no effect. |
| `Interaction.StepAsWritten` | main.js:345-419 | The event machine as written agrees with `Step` on every event except a click with a stale selection and a mousedown over a capture left from before. |
| `Interaction.StepKeepsInv` | main.js:7-20 | (corrected) Every event keeps the diagram invariant and the session invariant. |
| `Interaction.RunKeepsInv` | main.js:7-20 | (corrected) Every event sequence from an invariant state keeps the invariant. |
| `Interaction.ReachableStatesValid` | main.js:7-20 | (corrected) No reachable state has a dangling connection, duplicate identities, an unlabelled region or two captures. |
| `Findings.StaleSelectionDangles` | main.js:366-377 | As written: select, delete the selection, click another node gives a connection to a deleted node. |
| `Findings.StaleSelectionReplaced` | main.js:366-384 | Corrected: the same clicks make the other node the selection and add nothing. |
| `Findings.AsWrittenRunDangles` | main.js:345-385 | As written, from page load: add a team member and a project, start connecting, click the team member, delete it, click the project; the diagram ends with a dangling connection. |
| `Findings.CorrectedRunStaysValid` | main.js:345-385 | Corrected, the same six events leave no dangling connection and the project selected. |
| `Findings.StaleCaptureDragsRegion` | main.js:398-419 | As written: after a lost mouseup, a mousedown on a node leaves two captures and the next move drags the region. |
| `Findings.StaleCaptureReleased` | main.js:387-419 | Corrected: the second mousedown captures only the node, and the move drags the node. |

## Left out

- Drawing (`draw`, `drawMindMap`, `drawConnection`), colours, cursors and canvas sizing: rendering has no effect on the model.
- DOM dialogs, the modal overlay and the side panel's elements: the model only records which panel or dialog an event opens, as an effect, and takes the user's answer as input.
- Randomness: a new node's position and every random `id` are inputs (`AddNodeCommand`, `freshId`). The canvas bounds on random positions are not modelled.
- Text measurement: a region label's width is a parameter of the mousedown event.
- Coordinates are integers, and the node hit test compares squared distance with 30 squared instead of taking a square root. Fractional pointer positions are not modelled.
- JSON text, `FileReader`, the file picker and the download link: save and load work on the parsed record. Node `type` values other than team and project cannot be expressed.
- `Snapshots.Import`: a region record without a label makes the source's load replace the nodes and connections, push a pending prompt into `regions` and fail in its error handler; the model reports the failure and leaves the diagram unchanged.
- `Interaction.OnMouseUp`: the region-label prompt is answered within the mouseup. Events that arrive while the prompt waits are not interleaved. Confirming blank text keeps the source's prompt open; the model treats it as no region, the same as a later cancel.
- `Interaction.OnClick`, `Interaction.StepKeepsInv`, `Interaction.RunKeepsInv`, `Interaction.ReachableStatesValid`: these state the corrected machine. As written (`StepAsWritten`, `RunAsWritten`) the invariant does not hold for every run: `Findings.AsWrittenRunDangles` exhibits a run ending with a dangling connection.
- The `currentRegion` global: it is only ever reset, never read.
- Pointer events that reach the canvas while a dialog is open are not distinguished from others.

## Findings

| source | as written | input that shows it | evidently intended | confidence | as-written member | corrected member |
|---|---|---|---|---|---|---|
| main.js:366-377 | In connecting mode the selected node is used even if it was deleted (or replaced by a load) after it was selected. | Add a team member and a project; start connecting; click the team member; double-click it and delete it; click the project. A connection to the deleted node is added and saved. | A selection that is no longer in the diagram is dropped, so connections only join present nodes. | medium, not executed | `Interaction.ConnectClickAsWritten`, `Interaction.OnClickAsWritten`, `Findings.StaleSelectionDangles`, `Findings.AsWrittenRunDangles` | `Interaction.ConnectClick`, `Interaction.OnClick`, `Findings.StaleSelectionReplaced`, `Findings.CorrectedRunStaysValid`, `Interaction.ReachableStatesValid` |
| main.js:398-419 | Mousedown overwrites only the capture slots its search reaches, so a capture left by a mouseup released outside the canvas survives. | Press on a region body; release outside the canvas; press on a node and move. `draggedRegion` is still set and is checked first, so the region moves and the node does not. | Each press starts from no capture, so exactly the entity under the pointer is dragged. | low, not executed | `Interaction.OnMouseDownAsWritten`, `Findings.StaleCaptureDragsRegion` | `Interaction.OnMouseDown`, `Findings.StaleCaptureReleased` |
