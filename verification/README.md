# Verified models of Visallo's algorithms and state machines

Visallo is an analysis platform: documents with highlighted entity mentions, graphs with
workspaces, maps, importers. These Dafny modules model the parts of it that compute
something hard to see from one function, and prove what they promise over all inputs and
over all runs. `dafny verify dfyconfig.toml` checks everything.

- `Html`, `EntityHighlighter`, `HighlightDom`: the highlighted text of a document, from the
  server's list of mentions to the string, and the page's way between its nodes and offsets
  of the document.
- `RdfTripleParser`, `RdfStatement`, `RdfTripleImport`: the line parser for RDF triples (a
  subset of section 7, Grammar, of RDF 1.1 N-Triples), printed statements and their round
  trip, and the import of decorated names into the graph.
- `UndoManager`, `Workspaces`: the two stacks of undo and redo, and the inverse of an update
  of a workspace's vertices.
- `GraphEdges`: the edges drawn as one, kept up to date by load, update and delete events.
- `FlightRepository`: airplanes, their origin and destination edges, and cached snapshots.
- `ClusterStrategy`: greedy clustering of map features with a threshold.
- `Menubar`, `PaneResize`: icons mirrored by panes through nested events; making room.
- `DataRequest`, `ApplicationMaster`, `SelectionHistory`, `AsyncQueue`: the data-request
  protocol, container accounting, the selection history and the ready-queue.
- `Sequences`, `Wrappers`: helpers.

Objects the source changes in place are classes whose methods are tied to functions on
values; the theorems are about those functions, their runs and their reachable states.

## What the code does and one might not expect

Each of these is a lemma with the exact condition or a concrete input.

- `EntityHighlighter.ThrowsExactlyOnReversedItem`: an item that ends before it starts makes
  the highlighter throw, unless both lie at or past the end of the text. The source also
  skips items with a negative offset; offsets are the low twenty bits of a number, so that
  branch is never taken and is not modelled.
- `HighlightDom.SortedExactlyUnlessTooClose`: the page sorts its offsets with a two-argument
  comparison where the library expects a key; the key is value minus index, which orders the
  two ends of a selection but not every longer list.
- `HighlightDom.OffsetIsCharacterCount`: a point inside a span that is not a vertex mention
  is placed after the whole text, and one behind a line break of a mention too far ahead.
- `HighlightDom.DocumentRangeRoundTripsExactly`: a range that ends in a mention behind a
  newline cannot be selected, and one that ends in an item without the class "vertex", as
  those of properties and edges, is not read back.
- `RdfStatement.RoundTripExactly`: a final period directly after a language tag is swallowed.
- `Workspaces.InverseRestoresExactly`, `Workspaces.FirstMoveIsKept`: undoing an update that
  adds a vertex does not remove it, and undoing the first placement of a vertex that had no
  position does not unplace it, because updates without a position are dropped.
- `Workspaces.MakeSoundExactly`: performing an action does not clear the redo stack; the
  lemma says which updates can be made while others wait to be redone.
- `GraphEdges.UpdateRefinesExactly`: two edges that start the same group in one batch leave one.
- `GraphEdges.GroupsAreTrueExactly`: vertex ids of different lengths can run together into
  one compound id.
- `ClusterStrategy.ReplacementIsMissed`: members of a shown cluster can be replaced unnoticed.
- `FlightRepository.OneSaveExactly`: a changed origin hides a changed destination until the
  next save.
- `Menubar.DoubleClickLeavesNoFullView`: two clicks within one frame turn a view on and off.
- `AsyncQueue.PromiseValueExactly`: marking ready twice leaves the first object in the promise.
- `AsyncQueue.PendingPromiseExactly`: a promise still pending at an unload is never resolved.

## Model

| member | source | states |
|---|---|---|
| `EntityHighlighter.SortItemsSorts` | core/core/src/main/java/org/visallo/core/model/textHighlighting/OffsetItem.java:109-142 | the list is put in order of start, then end, then the remaining comparison, and is a permutation of what it was |
| `EntityHighlighter.SurvivorsDisjoint` | core/core/src/main/java/org/visallo/core/EntityHighlighter.java:30-48 | after the scan no two vertex mentions overlap and they stand in order; every other item survives |
| `EntityHighlighter.RemovedOnlyForConflict` | core/core/src/main/java/org/visallo/core/EntityHighlighter.java:34-44 | an item is removed exactly when it is a vertex mention and an earlier one that stays in the final list ends beyond its start, or at or beyond its end |
| `EntityHighlighter.ItemsToShowFacts` | core/core/src/main/java/org/visallo/core/EntityHighlighter.java:26-54 | the items that get a span are in start order, vertex mentions among them are disjoint, none is invented, and no highlightable non-vertex item is dropped |
| `EntityHighlighter.ShownUnlessOverlapped` | core/core/src/main/java/org/visallo/core/EntityHighlighter.java:26-54 | from the caller's list: an item to be highlighted is shown unless it is a vertex mention and another one that is kept, and does not start later, ends beyond its start, or at or beyond its end |
| `EntityHighlighter.ThrowsExactlyOnReversedItem` | core/core/src/main/java/org/visallo/core/EntityHighlighter.java:56-62 | the highlighter throws exactly when some shown item ends before it starts within the text |
| `EntityHighlighter.SpansCoverTheirItems` | core/core/src/main/java/org/visallo/core/EntityHighlighter.java:56-89 | whenever it does not throw: the text written is the whole document, tags balance and never close too early, and each character is enclosed by exactly as many spans as there are shown items covering it, crossing items and ends past the text included |
| `EntityHighlighter.OpensTheItems` | core/core/src/main/java/org/visallo/core/EntityHighlighter.java:56-81 | the spans of the output are those of the items shown, each opened once, in order |
| `EntityHighlighter.TagCarriesItem` | core/core/src/main/java/org/visallo/core/EntityHighlighter.java:66-78 | a browser reads the tag of an item as one with its classes, its title if it has one, and its data, unescaped |
| `EntityHighlighter.WordsOfClasses` | core/core/src/main/java/org/visallo/core/EntityHighlighter.java:68 | the words of the class attribute are the classes of the item |
| `EntityHighlighter.ErasingTagsRestoresText` | core/core/src/main/java/org/visallo/core/EntityHighlighter.java:83-91 | erasing the tags from the final string gives the per-character escape of the document, with U+00A0 as a space |
| `EntityHighlighter.BrowserShowsDocument` | core/core/src/main/java/org/visallo/core/EntityHighlighter.java:83-91 | what a browser reads of the final string, tags aside, is the document with a space for every no-break space |
| `EntityHighlighter.HighlighterLaws` | core/core/src/main/java/org/visallo/core/EntityHighlighter.java:25-92 | the same from the caller's arbitrary list: items with start at most end never make it throw, the spans are those of the items shown, and conservation, balance and depth hold |
| `EntityHighlighter.VertexSpansAreFlat` | core/core/src/main/java/org/visallo/core/EntityHighlighter.java:56-89 | with vertex mentions only, the output is an independently defined flat one: nothing nested, each span around exactly the text of its mention |
| `EntityHighlighter.AppendClosing` | core/core/src/main/java/org/visallo/core/EntityHighlighter.java:56-61 | the polling loop closes exactly the spans whose end is within the limit, or throws |
| `EntityHighlighter.OverlapsPrevious` | core/core/src/main/java/org/visallo/core/EntityHighlighter.java:33-45 | the inner loop finds whether an earlier vertex mention conflicts |
| `EntityHighlighter.ScanItem` | core/core/src/main/java/org/visallo/core/EntityHighlighter.java:30-48 | one turn removes an overlapping item from the list in place, or steps over it |
| `EntityHighlighter.GetHighlightedText` | core/core/src/main/java/org/visallo/core/EntityHighlighter.java:25-92 | returns the rendered output of the items to show and leaves the survivors in the caller's list, or throws with the list partly scanned |
| `Html.ReplaceAfterEscape` | core/core/src/main/java/org/visallo/core/EntityHighlighter.java:91 | replacing "&nbsp;" over a whole string acts on escaped text character by character: no occurrence straddles two escapes |
| `Html.ReplaceAfterTag` | core/core/src/main/java/org/visallo/core/EntityHighlighter.java:66-78 | the replacement never reaches across the end of a tag |
| `Html.DecodeAfterEscape` | core/core/src/main/java/org/visallo/core/EntityHighlighter.java:89 | a browser reads an escaped text, entity by entity, as the text |
| `HighlightDom.OffsetForNode` | web/war/src/main/webapp/js/detail/withHighlighting.js:979-1009 | the walk computes the offset defined for a point of the page |
| `HighlightDom.AnchoredCounts` | web/war/src/main/webapp/js/detail/withHighlighting.js:981-1009 | on a page whose mentions carry their true places, as far as anything is shown there, every point counts from a right offset |
| `HighlightDom.OffsetIsCharacterCount` | web/war/src/main/webapp/js/detail/withHighlighting.js:981-1009 | counting from the last mention gives the plain character count in the text of the page itself, in a mention exactly up to its first line break, and in any other element only when nothing is shown from the point's node on |
| `HighlightDom.SortedExactlyUnlessTooClose` | web/war/src/main/webapp/js/detail/withHighlighting.js:1011-1013 | the sort by value minus index orders the offsets exactly when no later value exceeds an earlier one by less than their distance |
| `HighlightDom.SelectionIsSorted` | web/war/src/main/webapp/js/detail/withHighlighting.js:1011-1013 | two offsets are always put in order; three need not be |
| `HighlightDom.OffsetsForText` | web/war/src/main/webapp/js/detail/withHighlighting.js:977-1014 | the offsets of all points, then the sort |
| `HighlightDom.FindRange` | web/war/src/main/webapp/js/util/range.js:32-55 | the loop finds the first text nodes that reach the start and go beyond the end, with local offsets |
| `HighlightDom.TextElement.HighlightOffsets` | web/war/src/main/webapp/js/util/range.js:20-66 | normalises the children in place, then finds the range in them |
| `HighlightDom.RangeFoundExactly` | web/war/src/main/webapp/js/util/range.js:32-66 | the end is found exactly when it lies before the end of the page; the start of a non-empty page exactly when it lies within it |
| `HighlightDom.NormalizeKeepsPage` | web/war/src/main/webapp/js/util/range.js:21 | normalising keeps the text and the place of every mention |
| `HighlightDom.RangeRoundTripsExactly` | web/war/src/main/webapp/js/util/range.js:32-66 | the range found for two offsets can be selected and is read back as the same offsets exactly when each end lies in the text of the page or in a mention in front of its first line break |
| `HighlightDom.WithBreaksFacts` | web/war/src/main/webapp/js/detail/withHighlighting.js:1057-1059 | the line breaks put before every run of newlines show no text and are no mentions |
| `HighlightDom.BreaksBeforeRunsExactly` | web/war/src/main/webapp/js/detail/withHighlighting.js:1057-1059 | two line breaks stand exactly where a run of newlines begins |
| `HighlightDom.PageIsLaidOut` | web/war/src/main/webapp/js/detail/withHighlighting.js:956-959 | the page is the text in front of each shown item with its line breaks, the element of the item, and the rest of the text |
| `HighlightDom.PageShowsDocument` | web/war/src/main/webapp/js/detail/withHighlighting.js:956-959 | the page of a highlighted text, line breaks included, shows exactly the document, and its elements that show text or are vertex mentions are the shown items in order, each at its place around its own text |
| `HighlightDom.PageTextIsDecoded` | web/war/src/main/webapp/js/detail/withHighlighting.js:956-959 | the text of the page is what a browser reads of the text displayed |
| `HighlightDom.PageIsAnchoredExactly` | web/war/src/main/webapp/js/detail/withHighlighting.js:981-1009 | the mentions of that page carry their true places exactly when their transformed raw offsets agree with the twenty-bit ones that lie within the text |
| `HighlightDom.DocumentRangeRoundTripsExactly` | web/war/src/main/webapp/js/detail/withHighlighting.js:254-279 | through both programs, line breaks included: a range of the document found on the page is read back unchanged exactly when any shown item that holds one of its ends has the class vertex, and no newline stands between the start of that item and that end |
| `RdfTripleParser.FindNonWhitespace` | tools/rdf-triple-import/src/main/java/org/visallo/rdfTripleImport/RdfTripleParser.java:82-90 | the first index that holds no whitespace |
| `RdfTripleParser.WhitespaceExactly` | tools/rdf-triple-import/src/main/java/org/visallo/rdfTripleImport/RdfTripleParser.java:82-90 | which characters separate parts |
| `RdfTripleParser.ScanUriPart` | tools/rdf-triple-import/src/main/java/org/visallo/rdfTripleImport/RdfTripleParser.java:38-46 | the part up to the first closing bracket, or the error |
| `RdfTripleParser.ScanLiteralPart` | tools/rdf-triple-import/src/main/java/org/visallo/rdfTripleImport/RdfTripleParser.java:48-80 | the scan over escapes, quote, language tag or datatype, with its exceptions |
| `RdfTripleParser.Parse` | tools/rdf-triple-import/src/main/java/org/visallo/rdfTripleImport/RdfTripleParser.java:6-18 | three or four parts, or the first error |
| `RdfTripleParser.ClosesAtFirstUnescapedQuote` | tools/rdf-triple-import/src/main/java/org/visallo/rdfTripleImport/RdfTripleParser.java:55-65 | a literal closes at the first quote preceded by an even run of backslashes, and fails when there is none |
| `RdfTripleParser.AcceptsExactlyTriples` | tools/rdf-triple-import/src/main/java/org/visallo/rdfTripleImport/RdfTripleParser.java:6-18 | a line is accepted, with given parts, exactly when it consists of those parts, each of its grammar, separated by whitespace only and covering the line to its end |
| `RdfStatement.UnescapeAfterEscape` | tools/rdf-triple-import/src/main/java/org/visallo/rdfTripleImport/RdfTriple.java:102-106 | unescaping an escaped text gives the text |
| `RdfStatement.TermStep` | tools/rdf-triple-import/src/main/java/org/visallo/rdfTripleImport/RdfTripleParser.java:20-32 | a printed term after whitespace is read as a part whose getters return it, at its exact place |
| `RdfStatement.ParseAfterPrint` | tools/rdf-triple-import/src/main/java/org/visallo/rdfTripleImport/RdfTripleParser.java:6-80 | parse after print is the identity on the getters, for any whitespace and an optional final period |
| `RdfStatement.PeriodAfterTagIsSwallowed` | tools/rdf-triple-import/src/main/java/org/visallo/rdfTripleImport/RdfTripleParser.java:67-70 | a period written directly after a language tag becomes part of the tag, and there is no fourth part |
| `RdfStatement.RoundTripExactly` | tools/rdf-triple-import/src/main/java/org/visallo/rdfTripleImport/RdfTripleParser.java:67-70 | the round trip holds exactly for statements whose final period is set off from a language tag |
| `RdfTripleImport.VisibilityMatchIsGreedy` | tools/rdf-triple-import/src/main/java/org/visallo/rdfTripleImport/RdfTripleImport.java:41 | the bracket pattern matches whenever a split exists, and takes the one with the longest first group |
| `RdfTripleImport.KeyMatchIsGreedy` | tools/rdf-triple-import/src/main/java/org/visallo/rdfTripleImport/RdfTripleImport.java:42 | the same for the key pattern |
| `RdfTripleImport.DecorateAfterUndecorate` | tools/rdf-triple-import/src/main/java/org/visallo/rdfTripleImport/RdfTripleImport.java:117-127 | taking a label apart loses nothing |
| `RdfTripleImport.UndecorateExactly` | tools/rdf-triple-import/src/main/java/org/visallo/rdfTripleImport/RdfTripleImport.java:117-127 | name, key and visibility come back from a decorated label exactly for canonical decorations |
| `RdfTripleImport.RdfTripleImport.GetVisibility` | tools/rdf-triple-import/src/main/java/org/visallo/rdfTripleImport/RdfTripleImport.java:216-224 | whatever is cached, the visibility returned is the one that would be made anew: public for an empty string, else that string or the super user |
| `RdfTripleImport.VisibilityExactly` | core/core/src/main/java/org/visallo/core/security/VisalloVisibility.java:13-34 | different decorations give different visibilities; only the empty one is public, and any other is the decoration or the super user |
| `RdfTripleImport.RdfTripleImport.AddEdge` | tools/rdf-triple-import/src/main/java/org/visallo/rdfTripleImport/RdfTripleImport.java:101-111 | one edge write: its id keeps the decorated label, its label and visibility are taken apart |
| `RdfTripleImport.RdfTripleImport.SetProperty` | tools/rdf-triple-import/src/main/java/org/visallo/rdfTripleImport/RdfTripleImport.java:113-133 | one property write with the name, key and visibility taken from the label, or an error and no write |
| `RdfTripleImport.RdfTripleImport.ImportRdfTriple` | tools/rdf-triple-import/src/main/java/org/visallo/rdfTripleImport/RdfTripleImport.java:64-99 | the write of each combination of parts, the silently ignored ones and the error |
| `RdfTripleImport.RdfTripleImport.ImportRdfLine` | tools/rdf-triple-import/src/main/java/org/visallo/rdfTripleImport/RdfTripleImport.java:52-62 | a line has the effect it has on its own, whatever lines came before |
| `RdfTripleImport.TrimExactly` | tools/rdf-triple-import/src/main/java/org/visallo/rdfTripleImport/RdfTripleImportMapper.java:47 | trimming takes off exactly the blanks around a text |
| `RdfTripleImport.ImportLines` | tools/rdf-triple-import/src/main/java/org/visallo/rdfTripleImport/RdfTripleImportMapper.java:46-58 | over any sequence of lines the writes are those of the lines, trimmed, each on its own |
| `RdfTripleImport.OneLineWrites` | tools/rdf-triple-import/src/main/java/org/visallo/rdfTripleImport/RdfTripleImportMapper.java:46-58 | a line writes what it writes trimmed, and nothing when it fails |
| `RdfTripleImport.AllWritesConcat` | tools/rdf-triple-import/src/main/java/org/visallo/rdfTripleImport/RdfTripleImportMapper.java:46-58 | lines write what they write one by one |
| `RdfTripleImport.CommentsAreSkipped` | tools/rdf-triple-import/src/main/java/org/visallo/rdfTripleImport/RdfTripleImport.java:53-55 | empty lines and comments write nothing, without an error |
| `RdfTripleImport.ImportsPrintedProperty` | tools/rdf-triple-import/src/main/java/org/visallo/rdfTripleImport/RdfTripleImport.java:88-91 | a printed property statement with decorated subject and label performs exactly the intended property write, or fails for an unknown datatype |
| `RdfTripleImport.ImportsPrintedEdge` | tools/rdf-triple-import/src/main/java/org/visallo/rdfTripleImport/RdfTripleImport.java:93-96 | a printed edge statement adds exactly the intended edge |
| `RdfTripleImport.ImportsPrintedConceptType` | tools/rdf-triple-import/src/main/java/org/visallo/rdfTripleImport/RdfTripleImport.java:83-86 | a printed type statement sets the concept type under the vertex's own visibility |
| `UndoManager.UndoManager.PerformedAction` | web/war/src/main/webapp/js/util/undoManager.js:19-33 | pushes the action and leaves the redo stack alone, or rejects the arguments |
| `UndoManager.UndoManager.PerformUndo` | web/war/src/main/webapp/js/util/undoManager.js:48-50 | one step of the history |
| `UndoManager.UndoManager.PerformRedo` | web/war/src/main/webapp/js/util/undoManager.js:52-54 | one step of the history, by the same transfer with the stacks exchanged |
| `UndoManager.PerformWithStacks` | web/war/src/main/webapp/js/util/undoManager.js:56-71 | pops an action, runs its undo, pushes it with its functions swapped |
| `UndoManager.TransferKeepsTimeline` | web/war/src/main/webapp/js/util/undoManager.js:48-71 | undo and redo keep the sequence of actions done and then undone, although each transfer swaps the functions |
| `UndoManager.RunConsistent` | web/war/src/main/webapp/js/util/undoManager.js:19-71 | over every run in which actions are performed only when nothing can be redone, the state is the first state with exactly the actions on the undo stack applied in order |
| `UndoManager.UndoMany` | web/war/src/main/webapp/js/util/undoManager.js:48-50 | n undos take the last n actions back and keep the timeline |
| `UndoManager.UndoAllRestores` | web/war/src/main/webapp/js/util/undoManager.js:48-71 | undoing everything restores the first state |
| `UndoManager.DoingWhileRedosRemainBreaksUndo` | web/war/src/main/webapp/js/util/undoManager.js:19-33 | a concrete run in which performing an action while redos remain ends in a state its undo stack does not explain |
| `Workspaces.ComputeInverse` | web/war/src/main/webapp/js/data/withWorkspaces.js:183-201 | the inverse holds the snapshots of all touched vertices, in order |
| `Workspaces.Save` | web/war/src/main/webapp/js/data/web-worker/services/workspace.js:171-223 | rounds positions, drops updates of present vertices without one, stores the updates and deletes, and saves exactly when something is deleted, new, different or has a layout |
| `Workspaces.ApplyAt` | web/war/src/main/webapp/js/data/web-worker/services/workspace.js:206-211 | what a saved update makes of each vertex: absent when deleted, otherwise its last update that takes effect |
| `Workspaces.RoundNearest` | web/war/src/main/webapp/js/data/web-worker/services/workspace.js:195-198 | a coordinate is stored as a whole number at most one half away |
| `Workspaces.StoredAsUpdated` | web/war/src/main/webapp/js/data/web-worker/services/workspace.js:194-211 | a vertex that is not deleted is stored as the last update that counts for it says: its id, its layout, and a position at most one half away on each axis |
| `Workspaces.ApplyFrame` | web/war/src/main/webapp/js/data/web-worker/util/store.js:107-127 | vertices an update does not touch keep their value |
| `Workspaces.InverseRestoresExactly` | web/war/src/main/webapp/js/data/withWorkspaces.js:183-201 | saving an update and then its inverse restores the vertex map exactly when it touches present vertices only and any vertex it changes without deleting it had a position; overlaps and repeats are allowed |
| `Workspaces.FirstMoveIsKept` | web/war/src/main/webapp/js/data/web-worker/services/workspace.js:206-211 | undoing the first placement of a vertex that had no position leaves it where it was put |
| `Workspaces.UndoneExactly` | web/war/src/main/webapp/js/data/web-worker/services/workspace.js:206-211 | a recorded update can be done and undone at other vertices exactly when those it touches are there and those its inverse writes back are as recorded |
| `Workspaces.ApplyWellStored` | web/war/src/main/webapp/js/data/web-worker/util/store.js:107-127 | updates of present vertices keep every vertex under its own id and at whole coordinates, and remove exactly what they delete |
| `Workspaces.UndoableAt` | web/war/src/main/webapp/js/data/web-worker/services/workspace.js:206-211 | the condition of that in terms of its result: no vertex without a position is changed but not deleted |
| `Workspaces.MakeSoundExactly` | web/war/src/main/webapp/js/data/withWorkspaces.js:98-111 | making an update keeps the history consistent exactly when it can be undone, deletes no vertex that the updates waiting to be redone touch, and gives no other value to one that their inverses write back |
| `Workspaces.WorkspaceRunSoundExactly` | web/war/src/main/webapp/js/data/withWorkspaces.js:92-111 | over all runs, redos waiting or not: in every state the vertices are the first ones with the updates on the undo stack applied and every known update can be walked both ways, exactly when each update meets that condition when it is made |
| `Workspaces.UndoAllRestoresWorkspace` | web/war/src/main/webapp/js/data/withWorkspaces.js:92-111 | after such a run the vertices are those that saving the updates done gives, and undoing everything restores the first vertices |
| `Workspaces.WithWorkspaces.UndoManagerForWorkspace` | web/war/src/main/webapp/js/data/withWorkspaces.js:166-172 | one manager object a workspace, made on first use, without changing any history |
| `Workspaces.WithWorkspaces.OnUpdateWorkspace` | web/war/src/main/webapp/js/data/withWorkspaces.js:92-128 | saves the update and records it with its inverse unless it comes from undo or redo or is empty; other workspaces keep their history |
| `Workspaces.WithWorkspaces.PerformUndo` | web/war/src/main/webapp/js/data/withWorkspaces.js:34-39 | undo in the current workspace only |
| `Workspaces.WithWorkspaces.PerformRedo` | web/war/src/main/webapp/js/data/withWorkspaces.js:34-39 | redo in the current workspace only |
| `GraphEdges.EdgeView.OnEdgesLoaded` | web/war/src/main/webapp/js/graph/graph.js:671-708 | groups the loaded edges by compound id and replaces the drawn ones, unless nothing can be drawn |
| `GraphEdges.EdgeView.OnEdgesUpdated` | web/war/src/main/webapp/js/graph/graph.js:710-750 | edges join drawn groups one by one; new groups are added at the end |
| `GraphEdges.EdgeView.OnEdgesDeleted` | web/war/src/main/webapp/js/graph/graph.js:752-775 | every group loses the edge and disappears with its last one |
| `GraphEdges.LoadDrawsExactly` | web/war/src/main/webapp/js/graph/graph.js:691-706 | a load draws exactly the groups whose first edge has both ends drawn, and keeps the old ones when there are none |
| `GraphEdges.UpdateStartsExactly` | web/war/src/main/webapp/js/graph/graph.js:728-749 | an update starts a group exactly for edges of the batch with both ends drawn |
| `GraphEdges.LoadRefines` | web/war/src/main/webapp/js/graph/graph.js:671-708 | after a load that names no edge twice the groups are exactly the grouping of the live edges |
| `GraphEdges.UpdateRefinesExactly` | web/war/src/main/webapp/js/graph/graph.js:710-750 | a batch of updates keeps groups and live edges in agreement exactly when it starts no new group with two different edges |
| `GraphEdges.DeleteRefines` | web/war/src/main/webapp/js/graph/graph.js:752-775 | a delete keeps the agreement |
| `GraphEdges.IndexRefinesEdges` | web/war/src/main/webapp/js/graph/graph.js:671-775 | after any orderly sequence of loads, updates and deletes the groups equal the grouping of the live edges, each nonempty, with distinct edge ids and a label count equal to its size |
| `GraphEdges.LoadedLiveDrawn` | web/war/src/main/webapp/js/graph/graph.js:671-708 | when all end points are drawn, a load makes exactly its edges live |
| `GraphEdges.SameEndsExactly` | web/war/src/main/webapp/js/graph/graph.js:86-88 | edges with one compound id join the same vertices by the same relation exactly when the lengths of their vertex ids agree |
| `GraphEdges.OneRelationPerGroupExactly` | web/war/src/main/webapp/js/graph/graph.js:671-775 | after any orderly run the edges of each group join one pair of vertices by one relation exactly when no two live edges with one compound id differ in those lengths |
| `GraphEdges.GroupsAreTrueExactly` | web/war/src/main/webapp/js/graph/graph.js:671-775 | over any orderly run each group is always drawn between the vertices, and as the relation, of all its edges exactly when that never happens in any state |
| `GraphEdges.CompoundIdsCollide` | web/war/src/main/webapp/js/graph/graph.js:86-88 | it can happen: a concrete load draws edges between different vertices as one |
| `FlightRepository.FlightRepository.FetchAirplane` | datasets/flight-aware/src/main/java/org/visallo/flightTrack/FlightRepository.java:192-213 | the cached snapshot, a new snapshot of the vertex, or a new vertex |
| `FlightRepository.FlightRepository.FetchAirport` | datasets/flight-aware/src/main/java/org/visallo/flightTrack/FlightRepository.java:156-190 | the cached airport or the one of that code, made if need be |
| `FlightRepository.FlightRepository.ReplaceOrigin` | datasets/flight-aware/src/main/java/org/visallo/flightTrack/FlightRepository.java:141-154 | replaces the edges of the snapshot when the first differs, and says whether it did |
| `FlightRepository.FlightRepository.ReplaceDestination` | datasets/flight-aware/src/main/java/org/visallo/flightTrack/FlightRepository.java:126-139 | the same for the destination |
| `FlightRepository.FlightRepository.SaveFlightData` | datasets/flight-aware/src/main/java/org/visallo/flightTrack/FlightRepository.java:89-108 | the whole new state of one save, the short-circuit and the eviction included |
| `FlightRepository.SaveFlightExact` | datasets/flight-aware/src/main/java/org/visallo/flightTrack/FlightRepository.java:89-108 | from any sound state a save leaves a sound one: cached snapshots agree with the graph and no airplane has two origins or destinations; the origin becomes the recorded one, the destination unless the origin had to change, and no other airplane is affected |
| `FlightRepository.OneSaveExactly` | datasets/flight-aware/src/main/java/org/visallo/flightTrack/FlightRepository.java:102-105 | one save gets the destination right exactly when the origin or the destination was right before |
| `FlightRepository.CachedExactly` | datasets/flight-aware/src/main/java/org/visallo/flightTrack/FlightRepository.java:89-108 | after a save its airports are cached, its airplane exactly when the route was right before, and no other airplane's caching changes |
| `FlightRepository.TwoSavesConverge` | datasets/flight-aware/src/main/java/org/visallo/flightTrack/FlightRepository.java:102-105 | two saves of a record yield exactly its origin and destination, and a third changes no edge |
| `FlightRepository.ReachableSound` | datasets/flight-aware/src/main/java/org/visallo/flightTrack/FlightRepository.java:89-108 | every reachable state is sound |
| `FlightRepository.RouteAfterRepeatedSave` | datasets/flight-aware/src/main/java/org/visallo/flightTrack/FlightRepository.java:89-108 | after any history a flight recorded twice in a row has its route in the graph |
| `FlightRepository.RouteIsOne` | datasets/flight-aware/src/main/java/org/visallo/flightTrack/FlightRepository.java:89-108 | an airplane has one route at a time, and it tells the codes of both airports |
| `FlightRepository.FindAirline` | datasets/flight-aware/src/main/java/org/visallo/flightTrack/FlightRepository.java:271-281 | the airline of the longest known prefix of at least two characters, or none |
| `ClusterStrategy.BuildClusters` | web/war/src/main/webapp/js/map/clusterStrategy.js:73-89 | the nested loops place each located feature with the latest near cluster, or in a new one |
| `ClusterStrategy.ApplyThreshold` | web/war/src/main/webapp/js/map/clusterStrategy.js:94-106 | small clusters are replaced by their members, in place of order |
| `ClusterStrategy.ClustersPartition` | web/war/src/main/webapp/js/map/clusterStrategy.js:73-89 | each located feature is in exactly one cluster, near its seed, and no seed is near an earlier one |
| `ClusterStrategy.ClustersAreSieved` | web/war/src/main/webapp/js/map/clusterStrategy.js:73-89 | clustering in place equals an independent sieve: the seeds are the located features no earlier seed is near, and each cluster holds, in order, its seed and the features whose latest near seed it is |
| `ClusterStrategy.ElementsKeepFeatures` | web/war/src/main/webapp/js/map/clusterStrategy.js:94-106 | the threshold keeps every feature, once |
| `ClusterStrategy.ThresholdExactly` | web/war/src/main/webapp/js/map/clusterStrategy.js:94-106 | a cluster is shown as one exactly when there is no threshold above one or it reaches it, and its members by themselves otherwise |
| `ClusterStrategy.ClusteringPartitions` | web/war/src/main/webapp/js/map/clusterStrategy.js:68-114 | every located feature is shown in exactly one element, and clusters shown are near their seeds and reach the threshold |
| `ClusterStrategy.Strategy.Cluster` | web/war/src/main/webapp/js/map/clusterStrategy.js:57-114 | clusters anew exactly when there is a list of features, the event changed the zoom or there is none, and resolution, layer or number of features has changed |
| `ClusterStrategy.Strategy.CacheFeatures` | web/war/src/main/webapp/js/map/clusterStrategy.js:177-198 | appends the features whose ids are not known yet and clusters, or lets the event pass while the strategy itself changes the layer |
| `ClusterStrategy.Strategy.RemoveFeatures` | web/war/src/main/webapp/js/map/clusterStrategy.js:200-207 | drops the features with the given ids, except while the strategy itself changes the layer |
| `ClusterStrategy.ZoomRefreshesExactly` | web/war/src/main/webapp/js/map/clusterStrategy.js:60-65 | a zoom clusters anew when the resolution, the number of features or the number of elements on the layer has changed, and else changes nothing |
| `ClusterStrategy.ResolutionFollows` | web/war/src/main/webapp/js/map/clusterStrategy.js:61-68 | a zoom with features known, and an addition, leave clusters of the resolution of the map |
| `ClusterStrategy.FreshUnlessRemoved` | web/war/src/main/webapp/js/map/clusterStrategy.js:57-116 | over all runs, while no known feature is removed after a clustering, the layer shows the clustering of all features known at the resolution of the map at the last zoom or addition |
| `ClusterStrategy.StepCurrentExactly` | web/war/src/main/webapp/js/map/clusterStrategy.js:57-207 | when the layer shows exactly the located features known, it does so after the next event exactly when that clusters anew, or takes no member of a shown cluster away and brings no new located feature |
| `ClusterStrategy.AlwaysCurrentExactly` | web/war/src/main/webapp/js/map/clusterStrategy.js:57-207 | over all runs, the layer shows exactly the located features known in every state exactly when no event does either without clustering anew |
| `ClusterStrategy.ReplacementIsMissed` | web/war/src/main/webapp/js/map/map.js:246-279 | members of shown clusters that are removed and replaced by as many new features, at the same resolution, stay on the layer, and the new ones are missing |
| `ClusterStrategy.ReplacedMemberStays` | web/war/src/main/webapp/js/map/map.js:246-279 | a run to that from a new strategy: of two features in one cluster one is removed and a third added, and the layer goes on showing the two |
| `ClusterStrategy.RemoveUndoesAdd` | web/war/src/main/webapp/js/map/clusterStrategy.js:177-207 | removing what was just added restores the list exactly when no id was there before |
| `Menubar.GroupsForProper` | web/war/src/main/webapp/js/menubar/menubar.js:102-115 | any number of extensions with identifiers of their own leaves the two groups disjoint |
| `Menubar.JoinsItsGroup` | web/war/src/main/webapp/js/menubar/menubar.js:102-115 | every extension is in the group of its kind and in no other, as are the icons of the application |
| `Menubar.TriggerExact` | web/war/src/main/webapp/js/menubar/menubar.js:228-267 | a toggle from outside, nested toggles included and in either order of the listeners, turns the icon and its pane on or off and the rest of its group off, and nothing else |
| `Menubar.TriggerMirrored` | web/war/src/main/webapp/js/app.js:573-605 | at most one icon a group is active, and an icon is active just when its pane is visible, after every toggle |
| `Menubar.CollapseMirroredExactly` | web/war/src/main/webapp/js/menubar/menubar.js:240-257 | a collapsing toggle keeps that exactly when its icon is active or in no group |
| `Menubar.RunMirrored` | web/war/src/main/webapp/js/menubar/menubar.js:47-75 | the same over all runs of clicks, frames and toggles |
| `Menubar.LogoutBlinks` | web/war/src/main/webapp/js/menubar/menubar.js:258-266 | the logout icon lights up until its timer ends, and no pane and no other icon changes |
| `Menubar.FrameKeepsFullExactly` | web/war/src/main/webapp/js/menubar/menubar.js:64-74 | the toggle of a frame leaves a full view on exactly unless it is for the one that is on |
| `Menubar.AlwaysFullExactly` | web/war/src/main/webapp/js/menubar/menubar.js:47-75 | over all runs of clicks, frames and toggles, a full view is on in every state exactly when no toggle is handled for the one that is on |
| `Menubar.ClicksKeepOneFullView` | web/war/src/main/webapp/js/menubar/menubar.js:53-66 | once a full view is on, clicks that are handled one by one keep exactly one on |
| `Menubar.DoubleClickLeavesNoFullView` | web/war/src/main/webapp/js/menubar/menubar.js:67-73 | two clicks before the next frame leave no full view on |
| `Menubar.MenubarAndPanes.OnMenubarToggle` | web/war/src/main/webapp/js/menubar/menubar.js:228-267 | the listener of the menu bar, nested events included |
| `Menubar.MenubarAndPanes.ShowOrHide` | web/war/src/main/webapp/js/app.js:573-599 | the listener of the application |
| `PaneResize.CompressPanes` | web/war/src/main/webapp/js/app.js:703-731 | the loop narrows the panes in place |
| `PaneResize.CompressExactly` | web/war/src/main/webapp/js/app.js:716-731 | panes above their minimum give exactly the missing pixels or all they have, earlier ones first |
| `PaneResize.CompressConserves` | web/war/src/main/webapp/js/app.js:722-730 | pixels found equal the width lost, even when a pane below its minimum is widened |
| `PaneResize.CompressStops` | web/war/src/main/webapp/js/app.js:716-731 | each pane is left as it is once the pixels are found before it, and else gives what is missing down to its minimum |
| `DataRequest.ReachableSound` | web/war/src/main/webapp/js/util/withDataRequest.js:41-48 | a promise has settled at most once, never while its request is in the table, and armed timers belong to requests in the table |
| `DataRequest.InTableExactly` | web/war/src/main/webapp/js/util/withDataRequest.js:41-75 | an id is in the table exactly when it is registered and neither completed, timed out nor cancelled since |
| `DataRequest.SettlesExactly` | web/war/src/main/webapp/js/util/withDataRequest.js:30-39 | a promise settles exactly by the first completion or time-out while its request is open, with that outcome |
| `DataRequest.TimerArmedExactly` | web/war/src/main/webapp/js/util/withDataRequest.js:17-75 | a timer is armed exactly while its request is registered and neither started nor ended |
| `DataRequest.CancelsAnnouncedExactly` | web/war/src/main/webapp/js/util/withDataRequest.js:86-93 | exactly the cancels of open requests are announced, in order, each once |
| `DataRequest.LegalExactly` | web/war/src/main/webapp/js/util/withDataRequest.js:50-96 | any event may come at any time, but that an id is registered once and a timer fires only while its request is registered and neither started nor ended |
| `DataRequest.StartedNeverTimesOut` | web/war/src/main/webapp/js/util/withDataRequest.js:18-23 | a request that has been started never times out |
| `DataRequest.CancelledNeverSettles` | web/war/src/main/webapp/js/util/withDataRequest.js:86-93 | after a registered request is cancelled its promise never settles |
| `DataRequest.Requests.OnCompleted` | web/war/src/main/webapp/js/util/withDataRequest.js:30-39 | a completion settles a request in the table and is ignored otherwise |
| `DataRequest.Requests.OnCancel` | web/war/src/main/webapp/js/util/withDataRequest.js:86-93 | cancelling cleans the request and announces it, or does nothing |
| `ApplicationMaster.RunAccounted` | tools/yarn-base/src/main/java/org/visallo/yarn/ApplicationMasterBase.java:120-191 | in every state of every run successes + waiting = instances, asks + start-up asks to make = instances + failures, and outstanding + live + start-up asks to make = waiting |
| `ApplicationMaster.EventsCounted` | tools/yarn-base/src/main/java/org/visallo/yarn/ApplicationMasterBase.java:120-191 | in every state of every run each counter is the number of asks, grants, successes and failures before it |
| `ApplicationMaster.StopsExactlyWhenDone` | tools/yarn-base/src/main/java/org/visallo/yarn/ApplicationMasterBase.java:87-97 | the master can stop exactly after as many successes as instances, with nothing outstanding or running |
| `ApplicationMaster.NeverStuck` | tools/yarn-base/src/main/java/org/visallo/yarn/ApplicationMasterBase.java:166-191 | until then something remains for start-up or the cluster to do |
| `ApplicationMaster.ReportCounts` | tools/yarn-base/src/main/java/org/visallo/yarn/ApplicationMasterBase.java:166-180 | a batch of reports takes its successes off the counter and asks again for its failures |
| `ApplicationMaster.Master.MakeContainerRequests` | tools/yarn-base/src/main/java/org/visallo/yarn/ApplicationMasterBase.java:120-126 | sets the counter and asks once an instance |
| `ApplicationMaster.Master.OnContainersCompleted` | tools/yarn-base/src/main/java/org/visallo/yarn/ApplicationMasterBase.java:166-180 | the loop over the reports |
| `SelectionHistory.MoveToEnd` | web/war/src/main/webapp/js/data/withObjectSelection.js:344-368 | marks the entries, then moves the listed one to the end or pushes a new one |
| `SelectionHistory.HistoryIsLastUse` | web/war/src/main/webapp/js/data/withObjectSelection.js:329-368 | after any non-empty selections the history holds each distinct one once, in last-use order, and hides exactly the current one |
| `SelectionHistory.PublishedExactly` | web/war/src/main/webapp/js/data/withObjectSelection.js:382-404 | the published ones are the most recent others, at most max |
| `SelectionHistory.ObjectSelection.AppendToStack` | web/war/src/main/webapp/js/data/withObjectSelection.js:329-368 | one workspace's stack is changed and a publication will follow; an empty selection changes nothing |
| `SelectionHistory.ObjectSelection.PublishStack` | web/war/src/main/webapp/js/data/withObjectSelection.js:370-404 | publishes later, from the stack of the workspace as it is by then: whatever selections made that stack, the most recent of them but the current one, at most max |
| `AsyncQueue.RunInOrder` | web/war/src/main/webapp/js/util/withAsyncQueue.js:19-61 | in every state the promise is resolved exactly when an object is stored, and the callbacks that ran, then those that wait, are the registered ones in order |
| `AsyncQueue.RunsAtMostOnce` | web/war/src/main/webapp/js/util/withAsyncQueue.js:19-56 | no callback runs more often than it was registered, repeats included |
| `AsyncQueue.MarkReadyRunsAll` | web/war/src/main/webapp/js/util/withAsyncQueue.js:40-56 | marking ready runs every waiting callback with the object |
| `AsyncQueue.PromiseValueExactly` | web/war/src/main/webapp/js/util/withAsyncQueue.js:43-50 | after a mark the promise carries the stored object exactly when none was stored before, or the same |
| `AsyncQueue.PendingPromiseExactly` | web/war/src/main/webapp/js/util/withAsyncQueue.js:24-60 | a pending promise is resolved later exactly when it is still the one handed out and an object is marked ready before the next unload, with the first such object; one pending at an unload never is |
| `AsyncQueue.ResolvedPromiseStays` | web/war/src/main/webapp/js/util/withAsyncQueue.js:40-56 | a resolved promise keeps its object |
| `AsyncQueue.Queue.MarkAsReady` | web/war/src/main/webapp/js/util/withAsyncQueue.js:40-56 | rejects a missing object, otherwise resolves, stores and runs the queue in order |

## Left out

- Rendering: DOM, jQuery, Cytoscape and OpenLayers calls, animation and layout; only the maps, sequences and flags the handlers maintain are modelled.
- Highlighting: the construction of items from term mentions, and the JSON of an item, which is a given string. The kind and resolved vertex that break ties between equal offsets are one number, `rank`. Class names are taken to hold no '>' and no newline, as those the items produce do.
- HTML entities: characters above U+007F other than U+00A0 are escaped by number; the table of named entities is not modelled.
- The priority queue of end offsets is a sorted sequence, and the sort of the item list a stable insertion sort; both stand for library code.
- Page: children of a text element are text nodes and elements whose text only line breaks divide; elements within elements are not modelled, nor the warning shown instead of an empty text, nor a browser's rewriting of carriage returns. Offsets of video transcripts, whose packing the page's formatter decodes, are a parameter, `transform`.
- RDF: `\u` escapes, for which `GetString` has no value and the import reports an error outside the model; characters are Unicode scalar values where the source has UTF-16 units.
- RDF import: conversion of typed values (dates, numbers, geo points, streams), which become the text together with its type; metadata, and authorizations. Writes are a list, so that the graph's own handling of repeated writes is not modelled.
- UndoManager.RunConsistent: for arbitrary actions only runs that perform none while redos wait; Workspaces.WorkspaceRunSoundExactly covers the others for the actions the application records.
- UndoManager: whether there is anything to undo or redo, as a menu would ask; the names of actions, which a transfer loses, and the keyboard events. An action is a pair of total functions on the state.
- Workspaces: the server, which is taken to accept what is sent, and the delay until its answer arrives: an update takes effect at once, and no save aborts an earlier one. Titles and users. Coordinates are real numbers, and a layout is a string, as it is sent. Workspaces.InverseRestoresExactly takes no vertex to have the id "undefined", and stored positions to be whole, as the server keeps them.
- Graph edges: the map to class names is taken to be injective, so that a compound id stands for itself; the display name in a label, transformer extensions, removal of vertices with their edges, and the side index of edge ids. The drawing library is taken to refuse an element whose id exists.
- Flights: locations, queues and the airline vertices and edges made with a new airplane; of these only the search for the airline is modelled. Edges are keyed by airplane, kind and airport instead of by their concatenated id, and a snapshot never changes by itself. One writer at a time.
- Clustering: `shouldCluster` is a fixed predicate on seed and feature for each resolution, features are identified by their ids, also by the layer; the highlighting of selected clusters is not modelled, nor the layer's own events while the strategy changes it, which are ignored.
- Menu bar: loading a pane for the first time, tooltips, the separate two- and three-dimensional graph panes, and the placement of extensions.
- Pane widths: only the compression loop; the measuring of available width is not modelled.
- Data requests: a cancel before registration is a cancel of an unknown id and does nothing; progress events.
- Application master: a container that is granted but cannot be launched is taken to be reported as failed; threads are interleaved steps.
- Selection history: the later phase that fetches titles and may hide entries; ids in the order given.
- Ready-queue: callbacks that call back into the queue while it runs them.
