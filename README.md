# Syndicating a JSON Canvas: a Dafny model

json-canvas-syndication watches a JSON Canvas file. A JSON Canvas is a map of nodes joined by
directed edges. The program publishes every non-empty red text node that it has not published before.
This project models the core of that pipeline and proves properties of the model:

- **Selection** (`Graph`, file `graph.dfy`). The edges are indexed into out- and
  in-adjacency lists (`BuildAdjacency`). Every node is then run through a processor, and the
  results are collected into a map keyed by node id (`Collect`, `ToSyndicationFormat`). The
  default processor keeps non-empty red text nodes and records their neighbour ids
  (`DefaultProcessNode`). Hash-map iteration order is an explicit parameter: `order` lists
  the node map's keys, each once, in the order the map happens to be visited.
- **The jj sink's rendering** (`JjContent`, file `jj_content.dfy`). This covers the slug of
  an item's first eight words, its file name `<slug>-<id>.md`, and YAML escaping. The
  markdown file holds front matter with a title, a date and the `context_for_this` and
  `further_thinking` link lists. The commit message is also modelled here. Whitespace
  splitting, `take` and `join` live in `Strings` (file `strings.dfy`).
- **The jj sink's publish** (`JjSink`, file `jj_sink.dfy`). For a non-empty batch it issues
  `jj git fetch` and then `jj new --insert-after <bookmark> -m <message>`. Next come one file
  write per item, `jj bookmark move <bookmark>`, and finally
  `jj git push --remote <remote> --bookmark <bookmark>`. The first failing step stops the
  run.
  - The plan of steps is a function (`Plan`), and its execution is specified by `Run`.
  - An oracle `succeeds` says whether each command or write succeeds.
  - The method `Publish` performs the steps one at a time. It is proved to return exactly
    the outcome and the trace of attempted steps that `Run` gives.
- **One processing cycle** (`Orchestrator`, file `orchestrator.dfy`). This is
  `process_canvas`. A read or parse failure ends the cycle. Otherwise the selection is
  filtered against the tracker's set of published ids. An empty remainder ends the cycle,
  and a non-empty remainder goes to the sink. After a successful publish outside a dry run,
  the batch is recorded in the tracker and the tracker is saved.
  - The tracker is a class whose `published` set is updated in place.
  - `validate_canvas_path`'s extension check is modelled on `/`-separated paths.

Shared `Option`/`Outcome` types and generic sequence facts are in `Wrappers`
(file `wrappers.dfy`).

The main proved properties, by area:

- **Selection:**
  - exactly the red non-empty text nodes are selected;
  - each selected node carries the ids of its adjacency lists, in edge order;
  - every edge between two selected nodes shows up as a neighbour on both ends.
- **Publish:**
  - every item is written exactly once, under its own file name, and with ids free of `-`
    no two writes share a file;
  - no file is written before the new change has succeeded;
  - the push happens only after every other step has succeeded;
  - a failure reports the first failing step.
- **Rendering:**
  - the front matter can be parsed back into the title, the date, the two link lists and
    the body, so each batch neighbour is linked in the right list with the href of its own
    file;
  - the slug is idempotent, and escaping is a one-pass, invertible transformation.
- **Cycle:**
  - a cycle that published and saved leaves the next cycle on the same canvas with nothing
    to do;
  - a failed publish leaves the tracker unchanged, so the next cycle retries the same batch, and records it when that retry succeeds.

Two file names can collide when node ids contain `-`. `FilenameCollision` gives an example:
slug `a` with id `b-c` and slug `a-b` with id `c` both give `a-b-c.md`. So `WritesDistinct`
assumes ids without `-`. Canvas node ids are usually hexadecimal strings, so this case is
recorded but not claimed as a defect.

## Model

| member | source | states |
|---|---|---|
| Graph.Push | syndicate-json-canvas-lib/src/lib.rs:60-63 | `entry(..).or_insert_with(Vec::new).push(..)`: the key is added, its list gains the entry at the end, and every other list is unchanged |
| Graph.IndexIsIncident | syndicate-json-canvas-lib/src/lib.rs:56-69 | a node's adjacency list is the subsequence of edges it owns in that direction (from-node for out, to-node for in), in edge iteration order |
| Graph.IndexKeys | syndicate-json-canvas-lib/src/lib.rs:56-69 | a node has an adjacency entry exactly when some edge starts (out) or ends (in) at it |
| Graph.EdgeRecorded | syndicate-json-canvas-lib/src/lib.rs:59-69 | every edge is recorded in its owner's list as the (other end, edge id) pair |
| Graph.UntouchedNodeIsEmpty | syndicate-json-canvas-lib/src/lib.rs:74-82 | a node no edge touches has no entry, and `unwrap_or_default` gives it the empty list |
| Graph.IndexTotal | syndicate-json-canvas-lib/src/lib.rs:59-69 | each map holds exactly one entry per edge in total |
| Graph.BuildAdjacency | syndicate-json-canvas-lib/src/lib.rs:56-69 | the loop builds both maps, each equal to the index of the edges in its direction |
| Graph.DefaultProcessNode | syndicate-json-canvas-lib/src/lib.rs:100-139 | an item exactly for a non-empty text node coloured preset red, with the node's id and text and the neighbour ids of both lists, in order |
| Graph.Neighbors | syndicate-json-canvas-lib/src/lib.rs:125-131 | the node id of every adjacency entry, position by position |
| Graph.CollectSound | syndicate-json-canvas-lib/src/lib.rs:71-95 | every collected item is keyed by its own id and is the processor's result for some visited node |
| Graph.CollectComplete | syndicate-json-canvas-lib/src/lib.rs:71-95 | every item the processor yields has its id among the collected keys |
| Graph.CollectUnique | syndicate-json-canvas-lib/src/lib.rs:93-95 | an item whose id no other item shares survives `collect` unchanged |
| Graph.DefaultSelection | syndicate-json-canvas-lib/src/lib.rs:87-93 | with the default processor, an id is selected iff it names a marked node, and its item holds the node's text and the neighbours from the in- and out-index |
| Graph.EdgeBecomesNeighbor | syndicate-json-canvas-lib/src/lib.rs:44-96 | for an edge A to B, a selected B lists A among its in-neighbours and a selected A lists B among its out-neighbours |
| Graph.ToSyndicationFormat | syndicate-json-canvas-lib/src/lib.rs:44-96 | `to_syndication_format` returns the collected selection over the indexed edges |
| JjContent.CleanWords | syndicate-json-canvas-sinks/src/jj_sink.rs:64-71 | every cleaned word is non-empty and consists of lower-case ASCII letters, digits or '-' |
| JjContent.SlugChars | syndicate-json-canvas-sinks/src/jj_sink.rs:61-74 | a slug holds only lower-case ASCII letters, digits and '-' |
| JjContent.SlugIgnoresTail | syndicate-json-canvas-sinks/src/jj_sink.rs:62-63 | text after the eighth word does not change the slug |
| JjContent.SlugIdempotent | syndicate-json-canvas-sinks/src/jj_sink.rs:61-74 | the slug of a slug is the slug itself |
| JjContent.FilenameInjective | syndicate-json-canvas-sinks/src/jj_sink.rs:77-79 | with equal-length slugs, equal file names mean equal slugs and ids |
| JjContent.ReplaceCharAppend | syndicate-json-canvas-sinks/src/jj_sink.rs:83 | `replace` of a character distributes over concatenation |
| JjContent.EscapeIsSinglePass | syndicate-json-canvas-sinks/src/jj_sink.rs:82-84 | the two chained replacements equal one pass that escapes each backslash and quote |
| JjContent.EscapeLength | syndicate-json-canvas-sinks/src/jj_sink.rs:82-84 | escaping adds one character per backslash and per quote |
| JjContent.EscapeRoundTrip | syndicate-json-canvas-sinks/src/jj_sink.rs:82-84 | escaped text has no bare quote, and unescaping gives the original back |
| JjContent.Links | syndicate-json-canvas-sinks/src/jj_sink.rs:104-117 | the `filter_map` over the neighbour ids: one link per id present in both the slug map and the batch, in neighbour order; its order and multiplicity are stated by `LinksSingle` and `LinksAppend` |
| JjContent.LinksSingle | syndicate-json-canvas-sinks/src/jj_sink.rs:106-116 | one neighbour id gives its link when it has a slug and an item, and nothing otherwise |
| JjContent.LinksAppend | syndicate-json-canvas-sinks/src/jj_sink.rs:104-117 | the links of concatenated neighbour lists are the links of each part, in order, so each occurrence of a present id (repeated ones included) gives one entry at its position |
| JjContent.LinkTo | syndicate-json-canvas-sinks/src/jj_sink.rs:107-115 | the link of a neighbour: its first eight words and the href `/t/<slug>-<id>.md`; `CrossReference` proves the href is `/t/` plus the neighbour's file name |
| JjContent.LinksSound | syndicate-json-canvas-sinks/src/jj_sink.rs:104-117 | every link is that of a neighbour present in both the slug map and the batch |
| JjContent.LinksComplete | syndicate-json-canvas-sinks/src/jj_sink.rs:104-117 | every neighbour present in both maps gets its link |
| JjContent.LinksOneToOne | syndicate-json-canvas-sinks/src/jj_sink.rs:121-134 | when every neighbour is in the batch, the links follow the neighbours one to one, in order |
| JjContent.LinksEmpty | syndicate-json-canvas-sinks/src/jj_sink.rs:121-134 | neighbours outside the batch give no links |
| JjContent.EntriesCons | syndicate-json-canvas-sinks/src/jj_sink.rs:144-147 | the entries of a list are the first entry's two lines followed by the rest's |
| JjContent.NoSectionsWithoutLinks | syndicate-json-canvas-sinks/src/jj_sink.rs:142-158 | with no neighbour in the batch, the file is the title block, the closing delimiter and the text |
| JjContent.ParseQuotedEscaped | syndicate-json-canvas-sinks/src/jj_sink.rs:145 | an escaped value followed by a closing quote parses back to the value |
| JjContent.ParseEntryText | syndicate-json-canvas-sinks/src/jj_sink.rs:145-146 | one rendered link entry parses back to the link |
| JjContent.ParseEntriesText | syndicate-json-canvas-sinks/src/jj_sink.rs:144-147 | the rendered entries parse back to the whole link list |
| JjContent.ParseSectionText | syndicate-json-canvas-sinks/src/jj_sink.rs:142-148 | a rendered section parses back to its links |
| JjContent.SectionStart | syndicate-json-canvas-sinks/src/jj_sink.rs:142-148 | a non-empty section starts with its header, and an empty one adds nothing |
| JjContent.ParseSectionsParts | syndicate-json-canvas-sinks/src/jj_sink.rs:142-158 | both sections and the delimiter parse back to both link lists and the body |
| JjContent.ParseDocumentParts | syndicate-json-canvas-sinks/src/jj_sink.rs:137-140 | the title block parses back to the title and the date |
| JjContent.FileContentsRoundTrip | syndicate-json-canvas-sinks/src/jj_sink.rs:87-161 | the file parses back to the first-eight-words title, the date, the in-neighbour links, the out-neighbour links and the text |
| JjContent.CrossReference | syndicate-json-canvas-sinks/src/jj_sink.rs:104-156 | a batch in-neighbour is linked under `context_for_this`, an out-neighbour under `further_thinking`, each with href `/t/` plus that neighbour's file name |
| JjContent.GenerateFileContents | syndicate-json-canvas-sinks/src/jj_sink.rs:87-161 | the step-by-step rendering equals the specified file contents |
| JjContent.AppendSection | syndicate-json-canvas-sinks/src/jj_sink.rs:142-148 | appending a non-empty section's header and entries gives the front matter followed by the section |
| JjContent.AppendEntries | syndicate-json-canvas-sinks/src/jj_sink.rs:144-147 | the loop appends exactly the entries of the list |
| JjContent.Preview | syndicate-json-canvas-sinks/src/jj_sink.rs:238-242 | text of at most 50 characters is kept, and longer text becomes its first 50 characters and "..." |
| JjContent.CommitMessageForms | syndicate-json-canvas-sinks/src/jj_sink.rs:235-246 | a one-item batch names its slug and previews its text; any other batch states its size as canonical decimal digits (digits only, no leading zero) whose value is the batch size |
| JjSink.JjArgs | syndicate-json-canvas-sinks/src/jj_sink.rs:225-289 | the arguments of each command are the literal lists of the source: `git fetch` (line 226), `new --insert-after <bookmark> -m <message>` (250-256), `bookmark move <bookmark>` (276) and `git push --remote <remote> --bookmark <bookmark>` (280-287) |
| JjSink.Slugs | syndicate-json-canvas-sinks/src/jj_sink.rs:229-232 | a slug for exactly the visited ids |
| JjSink.SlugsOfBatch | syndicate-json-canvas-sinks/src/jj_sink.rs:229-232 | the slug map has the batch's keys, and each slug is that of the item's text |
| JjSink.Writes | syndicate-json-canvas-sinks/src/jj_sink.rs:261-273 | one write per visited item, each into the sink's folder |
| JjSink.WritesAt | syndicate-json-canvas-sinks/src/jj_sink.rs:261-273 | the i-th write is that of the i-th visited item |
| JjSink.WritesPrefix | syndicate-json-canvas-sinks/src/jj_sink.rs:261-273 | the first k writes are those of the first k items |
| JjSink.Steps | syndicate-json-canvas-sinks/src/jj_sink.rs:225-289 | fetch, the new change, the writes in order, the bookmark move and the push, with nothing else |
| JjSink.RunStopsAtFirstFailure | syndicate-json-canvas-sinks/src/jj_sink.rs:226-289 | the attempted steps are a prefix of the plan; the run passes iff every step succeeds, and then all were attempted; a failure reports the error of the last attempted step, which is the first failing one |
| JjSink.RunAfterSuccesses | syndicate-json-canvas-sinks/src/jj_sink.rs:226-289 | after k succeeding steps, the run continues as the run of the remaining steps |
| JjSink.NothingToDo | syndicate-json-canvas-sinks/src/jj_sink.rs:220-223 | an empty batch or a dry run succeeds and changes nothing |
| JjSink.PlanShape | syndicate-json-canvas-sinks/src/jj_sink.rs:225-289 | a non-empty batch's plan has |items|+4 steps: fetch, the new change with the commit message, the writes, then move and push |
| JjSink.PlanWrite | syndicate-json-canvas-sinks/src/jj_sink.rs:261-273 | the i-th write puts the rendering of the i-th item into the folder, under the file name of its slug and id |
| JjSink.FilenameInjectiveWithoutDash | syndicate-json-canvas-sinks/src/jj_sink.rs:77-79 | for ids without '-', the file name determines slug and id |
| JjSink.DashInLongerId | syndicate-json-canvas-sinks/src/jj_sink.rs:77-79 | when two ids of different lengths give the same file name, the longer id holds a '-' |
| JjSink.WritesCoverBatch | syndicate-json-canvas-sinks/src/jj_sink.rs:261-273 | every item of the batch is written under its file name |
| JjSink.WriteFilenameAt | syndicate-json-canvas-sinks/src/jj_sink.rs:262-263 | the i-th write's file name is built from the i-th item's slug and id |
| JjSink.WritesWithinBatch | syndicate-json-canvas-sinks/src/jj_sink.rs:261-273 | every write goes under the file name of some batch item (`GenerateFilename` of that item's slug and id) |
| JjSink.WritesDistinct | syndicate-json-canvas-sinks/src/jj_sink.rs:261-273 | for ids without '-', no two writes go to the same file |
| JjSink.StepsKinds | syndicate-json-canvas-sinks/src/jj_sink.rs:248-276 | exactly the steps between the new change and the bookmark move are file writes |
| JjSink.WritesAfterNewChange | syndicate-json-canvas-sinks/src/jj_sink.rs:225-273 | if any file was written, fetch and the new change were attempted first and succeeded |
| JjSink.PushOnlyAfterEveryWrite | syndicate-json-canvas-sinks/src/jj_sink.rs:275-289 | the push is attempted only after every earlier step was attempted and succeeded |
| JjSink.RunConcat | syndicate-json-canvas-sinks/src/jj_sink.rs:226-289 | running two step lists one after the other is the run of their concatenation |
| JjSink.RunThrough | syndicate-json-canvas-sinks/src/jj_sink.rs:260-273 | a block of steps that passes lets the run continue past it, and one that fails ends the whole run with its error |
| JjSink.Attempt | syndicate-json-canvas-sinks/src/jj_sink.rs:164-213 | a step counts as successful in a dry run or when the oracle says so, and outside a dry run it joins the trace |
| JjSink.ComputeSlugs | syndicate-json-canvas-sinks/src/jj_sink.rs:229-232 | the loop computes the slug map |
| JjSink.WriteFiles | syndicate-json-canvas-sinks/src/jj_sink.rs:260-273 | the loop's outcome and trace are those of executing the writes |
| JjSink.AttemptAt | syndicate-json-canvas-sinks/src/jj_sink.rs:226-289 | attempting step k of the plan either extends the trace to the first k+1 steps or ends the run with that step's error |
| JjSink.CommitAndPush | syndicate-json-canvas-sinks/src/jj_sink.rs:248-292 | after a successful fetch, the rest of the publish gives exactly the executed plan's outcome and trace |
| JjSink.Publish | syndicate-json-canvas-sinks/src/jj_sink.rs:217-293 | `publish` returns exactly the outcome and the attempted steps of executing its plan |
| JjSink.Name | syndicate-json-canvas-sinks/src/jj_sink.rs:295-297 | the sink's name is a non-empty word |
| Orchestrator.SyndicationTracker.MarkPublished | syndicate-json-canvas-lib/src/orchestrator.rs:84-87 | the save outcome is reported; after a successful save, the record gains exactly the given ids |
| Orchestrator.Unpublished | syndicate-json-canvas-lib/src/orchestrator.rs:54-57 | exactly the selected items whose id is not published, with their values |
| Orchestrator.BatchIsNew | syndicate-json-canvas-lib/src/orchestrator.rs:54-57 | the batch is disjoint from the published ids and part of the selection |
| Orchestrator.AlreadyPublishedCount | syndicate-json-canvas-lib/src/orchestrator.rs:50-59 | the subtraction cannot underflow, and it counts the selected ids already published |
| Orchestrator.CycleBatch | syndicate-json-canvas-lib/src/orchestrator.rs:33-57 | a read or parse failure gives no batch, and a batch never holds a published id |
| Orchestrator.DefaultProcessorIsDefault | syndicate-json-canvas-lib/src/lib.rs:87-91 | passing `Some(default_process_node)` selects the same items as passing no processor |
| Orchestrator.BatchContents | syndicate-json-canvas-lib/src/orchestrator.rs:49-57 | an id is in the batch iff it names a marked node that is not published, and its item holds the node's text and neighbours |
| Orchestrator.BatchKeyedById | syndicate-json-canvas-lib/src/orchestrator.rs:49-57 | every batch item is keyed by its own id |
| Orchestrator.SecondCycleIsEmpty | syndicate-json-canvas-lib/src/orchestrator.rs:53-88 | once a batch is recorded, the same canvas yields an empty batch |
| Orchestrator.BatchIds | syndicate-json-canvas-lib/src/orchestrator.rs:77 | the ids listed are the batch's keys, each once |
| Orchestrator.ProcessCanvas | syndicate-json-canvas-lib/src/orchestrator.rs:33-91 | the sink is called iff the cycle's batch is non-empty, and with that batch. The record is unchanged on a read or parse failure, an empty batch, a dry run or a failed publish. It gains exactly the batch after a publish and save that both succeed |
| Orchestrator.RepeatedCycle | syndicate-json-canvas-lib/src/orchestrator.rs:105-125 | for two consecutive cycles: the first calls the sink iff its batch is non-empty, and with that batch; after a successful publish the second calls no sink and the record has gained exactly the batch; after no call the record is unchanged and the second finds nothing; after a failed first publish the second retries the same batch, and the record ends with exactly that batch added when the retry passes and unchanged when it fails |
| Orchestrator.Segments | syndicate-json-canvas-lib/src/orchestrator.rs:20 | the components between separators, none containing '/' |
| Orchestrator.LastName | syndicate-json-canvas-lib/src/orchestrator.rs:20 | the file name is a non-empty, non-"." component of the path |
| Orchestrator.FileName | syndicate-json-canvas-lib/src/orchestrator.rs:20 | a file name holds no '/' and is not empty, "." or ".." |
| Orchestrator.LastIndexOf | syndicate-json-canvas-lib/src/orchestrator.rs:20 | the position of the last occurrence, or none when the character is absent |
| Orchestrator.ValidateCanvasPath | syndicate-json-canvas-lib/src/orchestrator.rs:16-24 | a non-file is rejected with the file message first, and any other rejection uses the extension message |
| Orchestrator.NameExtensionCanvas | syndicate-json-canvas-lib/src/orchestrator.rs:20 | a name's extension is `canvas` iff the name ends in ".canvas" after at least one other character |
| Orchestrator.ValidationAcceptsCanvasFiles | syndicate-json-canvas-lib/src/orchestrator.rs:16-24 | a path is accepted iff it is a file whose file name ends in ".canvas" after at least one other character |
| Orchestrator.SegmentsJoin | syndicate-json-canvas-lib/src/orchestrator.rs:20 | joining with '/' concatenates the components |
| Orchestrator.ValidateInDirectory | syndicate-json-canvas-lib/src/orchestrator.rs:16-24 | in `dir/name`, the file name is `name`, and the path is accepted iff `name` ends in ".canvas" after another character |
| Strings.IsWhitespace | syndicate-json-canvas-sinks/src/jj_sink.rs:62 | `char::is_whitespace`, the Unicode White_Space characters that `split_whitespace` splits on |
| Strings.Words | syndicate-json-canvas-sinks/src/jj_sink.rs:62 | `split_whitespace`: every word is non-empty and free of whitespace; joining words with single spaces and splitting gives them back (`WordsOfJoin`) |
| Strings.WordsOfJoin | syndicate-json-canvas-sinks/src/jj_sink.rs:96-100 | splitting non-empty whitespace-free words joined by single spaces gives the words back |
| Strings.FirstWords | syndicate-json-canvas-sinks/src/jj_sink.rs:96-100 | the title: the first eight words joined by single spaces (its properties in `FirstWordsAreLeadingWords` and `FirstWordsIgnoreTail`) |
| Strings.FirstWordsAreLeadingWords | syndicate-json-canvas-sinks/src/jj_sink.rs:96-100 | splitting the title gives back exactly the first eight words of the text |
| Strings.FirstWordsIgnoreTail | syndicate-json-canvas-sinks/src/jj_sink.rs:96-100 | text after the eighth word does not change the title |
| Strings.NatToString | syndicate-json-canvas-sinks/src/jj_sink.rs:245 | `{}` of a count: non-empty, digits only, starting with '0' exactly for zero, and reading back to the number (`NatToStringValue`) |
| Strings.NatToStringValue | syndicate-json-canvas-sinks/src/jj_sink.rs:245 | the printed digits denote the number |
| JjContent.CleanWord | syndicate-json-canvas-sinks/src/jj_sink.rs:66-69 | one slug word: only lower-case ASCII letters, digits and '-' remain |
| JjContent.GenerateSlug | syndicate-json-canvas-sinks/src/jj_sink.rs:61-74 | `generate_slug`: the first eight words, cleaned, the non-empty ones joined by '-' (properties in `SlugChars`, `SlugIgnoresTail`, `SlugIdempotent`) |
| JjContent.GenerateFilename | syndicate-json-canvas-sinks/src/jj_sink.rs:77-79 | `<slug>-<id>.md` (its structure in `FilenameParts`, injectivity in `FilenameInjective` and `FilenameInjectiveWithoutDash`) |
| JjContent.FilenameParts | syndicate-json-canvas-sinks/src/jj_sink.rs:77-79 | the file name is the slug, '-', the id and `.md`, at known positions |
| JjContent.EscapeYamlString | syndicate-json-canvas-sinks/src/jj_sink.rs:82-84 | backslashes doubled, then quotes escaped (properties in `EscapeIsSinglePass`, `EscapeLength`, `EscapeRoundTrip`) |
| JjContent.FileContents | syndicate-json-canvas-sinks/src/jj_sink.rs:87-161 | the rendered file: title block, the non-empty link sections, the closing delimiter and the text (round trip in `FileContentsRoundTrip`) |
| JjContent.CommitMessage | syndicate-json-canvas-sinks/src/jj_sink.rs:235-246 | the commit message of a batch visited in a given order (its two forms in `CommitMessageForms`) |
| Graph.Lookup | syndicate-json-canvas-lib/src/lib.rs:74-82 | `get(..).cloned().unwrap_or_default()`: a node's list, or the empty list when it has no entry |
| Graph.Index | syndicate-json-canvas-lib/src/lib.rs:56-69 | the adjacency map after pushing every edge in order (equal to the independent `Incident` filter by `IndexIsIncident`) |
| Graph.IsMarked | syndicate-json-canvas-lib/src/lib.rs:107-122 | the default filter: a text node with non-empty text and preset colour red |
| Graph.Collect | syndicate-json-canvas-lib/src/lib.rs:71-95 | the `filter_map(..).collect()` over the nodes in visiting order, a later item with the same id replacing an earlier one (properties in `CollectSound`, `CollectComplete`, `CollectUnique`) |
| Graph.SyndicationItems | syndicate-json-canvas-lib/src/lib.rs:44-96 | `to_syndication_format` as a function of the canvas, the visiting order and the processor (selection in `DefaultSelection`) |
| JjSink.WriteOf | syndicate-json-canvas-sinks/src/jj_sink.rs:262-272 | the write of one item: into the sink's folder, under its file name, holding its rendering |
| JjSink.WrittenOnce | syndicate-json-canvas-sinks/src/jj_sink.rs:261-273 | every batch item is written at exactly one position, with its rendering under its own file name |
| JjSink.Plan | syndicate-json-canvas-sinks/src/jj_sink.rs:225-289 | the steps of a publish: none for an empty batch, otherwise fetch, new change, writes, move, push (shape in `PlanShape`) |
| JjSink.Run | syndicate-json-canvas-sinks/src/jj_sink.rs:226-289 | running steps with `?`: stop at the first failing step with its error (properties in `RunStopsAtFirstFailure`) |
| JjSink.Execute | syndicate-json-canvas-sinks/src/jj_sink.rs:164-213 | a dry run performs nothing and passes; otherwise the steps are run |
| Orchestrator.SyndicationTracker.constructor | syndicate-json-canvas-lib/src/orchestrator.rs:30 | the record of published ids that `process_canvas` receives and consults, created holding the given ids (its file handling lives in `tracker.rs`, which is not part of this model) |
| Orchestrator.Selected | syndicate-json-canvas-lib/src/orchestrator.rs:49 | `to_syndication_format(canvas, Some(default_process_node))` (equal to the default selection by `DefaultProcessorIsDefault`) |
| Orchestrator.NameExtension | syndicate-json-canvas-lib/src/orchestrator.rs:20 | the `OsStr` extension of a file name: the text after the last '.', none for ".." or when the only '.' is the first character (characterised by `NameExtensionCanvas`) |
| Orchestrator.Extension | syndicate-json-canvas-lib/src/orchestrator.rs:20 | `Path::extension`: the extension of the file name, none without a file name |

## Left out

- The file watcher (`watch_and_process`'s debouncer and event loop) and the command line in `src/main.rs` are left out. They are I/O; only two consecutive cycles on the same file are modelled (`RepeatedCycle`).
- Running `jj` (`run_jj_command`) and writing files (`write_file`) are effects on the outside world. A step oracle `succeeds` gives their success. Their stdout and the error text from stderr are not modelled; an error carries the failing command's arguments or the file name.
- The oracle is a function of the step. A flaky command that fails once and then succeeds with the same arguments is not captured.
- In a dry run, `publish` logs each step instead of performing it. The model gives an empty trace and success, and does not model the log lines.
- The clock is an input: `Local::now()` is read once per file, and the model takes one `date` for the whole publish. A publish that spans midnight could give files different dates; the model does not capture that.
- `JjRepositorySink::new` checks that the repository exists and is a directory. Those checks are filesystem queries and are left out; `JjRepositorySink` is a plain value.
- Reading and parsing the canvas file (`read_to_string`, `JsonCanvas::from_str`) are inputs to the model: a `Load` that is a read error, a parse error or a parsed canvas. JSON decoding is not modelled.
- `Path::is_file` is a parameter of `ValidateCanvasPath`. Paths follow Unix `/` semantics, with no Windows separators or prefixes.
- JjSink.Plan / JjSink.Publish / JjContent.CommitMessage: a single-item batch whose one item has an id different from its key makes `publish` panic at the slug lookup (`unwrap` at jj_sink.rs:237), after the fetch has run. The model excludes that case with a requires (the single item's id is its key, or is among the slugs). `process_canvas` never builds such a batch: `Orchestrator.BatchKeyedById` proves every batch item is keyed by its own id. The panic itself is not modelled.
- Orchestrator.SyndicationTracker.MarkPublished: after a failed save, the content of the record is not stated. The tracker's file format, `is_published` and persistence live in `tracker.rs`, which is not part of this model.
- `char::is_alphanumeric` and `to_lowercase` are modelled for ASCII only. Other Unicode letters are dropped from slugs instead of kept, and multi-character lowercase mappings are not modelled.
- JjContent.Preview: lengths count characters, not UTF-8 bytes. The source's `text.len() > 50` and `&text[..50]` work on bytes and panic when byte 50 falls inside a multi-byte character; that panic is not modelled.
- Hash-map iteration order is a parameter: an enumeration of the keys, each once. No order of the writes across items is claimed beyond "the order in which the map is visited".
- Hrefs are written unescaped, as in the source. The round-trip lemmas therefore require slugs and ids free of `"`; slugs always are.
- Logging (`tracing`), the `SyndicationSink` trait in `sink.rs` and the Twitter sink are left out. The orchestrator's sink is a function from the batch and the dry-run flag to an outcome; in `RepeatedCycle` each cycle's sink call has its own such function, so a retry may succeed where the first call failed.
