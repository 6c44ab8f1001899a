/** One processing cycle of the syndication pipeline: select the marked nodes of a canvas,
    drop those already published, hand the rest to a sink and record them as published
    (syndicate-json-canvas-lib/src/orchestrator.rs). */
module Orchestrator {
  import opened Wrappers
  import opened Graph

  /** The items of one publish call, keyed by node id. */
  type Batch = map<NodeId, SyndicationFormat>

  /** What reading and parsing the canvas file produced: the read error, the parse error, or
      the parsed canvas together with the order in which its node map is iterated. */
  datatype Load =
    | ReadFailed(readError: string)
    | ParseFailed(parseError: string)
    | Loaded(canvas: Canvas, nodeOrder: seq<NodeId>)

  /** The record of the node ids already published. */
  class SyndicationTracker {
    var published: set<NodeId>

    constructor(initial: set<NodeId>)
      ensures published == initial
    {
      published := initial;
    }

    /** `mark_published`: record `ids` and save the record. The save's success is
        `saveOk`; only after a successful save is the new content of the record stated. */
    method MarkPublished(ids: seq<NodeId>, saveOk: bool) returns (saved: Outcome<string>)
      modifies this
      ensures saved.Pass? <==> saveOk
      ensures saveOk ==> published == old(published) + (set i | 0 <= i < |ids| :: ids[i])
    {
      published := published + (set i | 0 <= i < |ids| :: ids[i]);
      saved := if saveOk then Pass else Fail("Failed to save tracker");
    }
  }

  // ---------------------------------------------------------------------------------------
  // The batch of a cycle

  /** The filter of `process_canvas`: the items whose id is not yet published. */
  function Unpublished(all: Batch, published: set<NodeId>): (batch: Batch)
    ensures forall k :: k in batch <==> k in all && k !in published
    ensures forall k :: k in batch ==> batch[k] == all[k]
  {
    map k | k in all && k !in published :: all[k]
  }

  /** No id of the batch is published, and the batch is part of the selection. */
  lemma BatchIsNew(all: Batch, published: set<NodeId>)
    ensures Unpublished(all, published).Keys !! published
    ensures Unpublished(all, published).Keys <= all.Keys
  {
  }

  /** `already_published = total_count - new_items.len()` cannot underflow, and it counts the
      selected items the tracker already holds. */
  lemma AlreadyPublishedCount(all: Batch, published: set<NodeId>)
    ensures |Unpublished(all, published)| <= |all|
    ensures |all| - |Unpublished(all, published)| == |all.Keys * published|
  {
    var batch := Unpublished(all, published);
    assert batch.Keys == all.Keys - published;
    assert all.Keys == batch.Keys + (all.Keys * published);
    assert batch.Keys !! (all.Keys * published);
  }

  /** Once the batch is recorded, filtering the same selection again leaves nothing. */
  lemma FilterIdempotent(all: Batch, published: set<NodeId>)
    ensures Unpublished(all, published + Unpublished(all, published).Keys) == map[]
  {
  }

  /** The items the default processor selects from a parsed canvas. */
  function Selected(canvas: Canvas, nodeOrder: seq<NodeId>): Batch
    requires IsEnumeration(nodeOrder, canvas.nodes.Keys)
  {
    SyndicationItems(canvas, nodeOrder, Some(DefaultProcessNode))
  }

  /** The batch a cycle hands to the sink: nothing when the file could not be read or parsed,
      otherwise the selected items whose ids are not yet published. */
  function CycleBatch(load: Load, published: set<NodeId>): (batch: Batch)
    requires load.Loaded? ==> IsEnumeration(load.nodeOrder, load.canvas.nodes.Keys)
    ensures !load.Loaded? ==> batch == map[]
    ensures batch.Keys !! published
  {
    if load.Loaded? then Unpublished(Selected(load.canvas, load.nodeOrder), published) else map[]
  }

  /** Passing `Some(default_process_node)` selects what the built-in default selects. */
  lemma {:induction false} DefaultProcessorIsDefault(
    nodes: map<NodeId, Node>, order: seq<NodeId>, outMap: AdjacencyMap, inMap: AdjacencyMap)
    requires forall i :: 0 <= i < |order| ==> order[i] in nodes
    ensures Collect(nodes, order, outMap, inMap, Some(DefaultProcessNode))
         == Collect(nodes, order, outMap, inMap, None)
    decreases |order|
  {
    if order != [] {
      DefaultProcessorIsDefault(nodes, order[..|order| - 1], outMap, inMap);
    }
  }

  /** The batch of a cycle holds exactly the marked nodes of the canvas that are not yet
      published, each with its node id, its text and its neighbour ids. */
  lemma BatchContents(load: Load, published: set<NodeId>, k: NodeId)
    requires load.Loaded? && IsEnumeration(load.nodeOrder, load.canvas.nodes.Keys)
    requires WellKeyed(load.canvas.nodes)
    ensures k in CycleBatch(load, published)
        <==> k in load.canvas.nodes && IsMarked(load.canvas.nodes[k]) && k !in published
    ensures k in CycleBatch(load, published) ==>
              var edges := load.canvas.edges;
              CycleBatch(load, published)[k]
              == SyndicationFormat(k, load.canvas.nodes[k].text,
                                   Neighbors(Lookup(Index(edges, In), k)),
                                   Neighbors(Lookup(Index(edges, Out), k)))
  {
    var canvas := load.canvas;
    DefaultProcessorIsDefault(canvas.nodes, load.nodeOrder, Index(canvas.edges, Out), Index(canvas.edges, In));
    DefaultSelection(canvas, load.nodeOrder, k);
  }

  /** Every item of a batch is keyed by its own id, as the reference sink expects. */
  lemma BatchKeyedById(load: Load, published: set<NodeId>)
    requires load.Loaded? && IsEnumeration(load.nodeOrder, load.canvas.nodes.Keys)
    ensures forall k :: k in CycleBatch(load, published) ==> CycleBatch(load, published)[k].id == k
  {
    var canvas := load.canvas;
    var outMap, inMap := Index(canvas.edges, Out), Index(canvas.edges, In);
    forall k | k in CycleBatch(load, published) ensures CycleBatch(load, published)[k].id == k {
      CollectSound(canvas.nodes, load.nodeOrder, outMap, inMap, Some(DefaultProcessNode), k);
    }
  }

  /** A second cycle on the same file, after the first recorded its batch, has nothing to
      publish and so makes no sink call. */
  lemma SecondCycleIsEmpty(load: Load, published: set<NodeId>)
    requires load.Loaded? ==> IsEnumeration(load.nodeOrder, load.canvas.nodes.Keys)
    ensures CycleBatch(load, published + CycleBatch(load, published).Keys) == map[]
  {
    if load.Loaded? {
      FilterIdempotent(Selected(load.canvas, load.nodeOrder), published);
    }
  }

  // ---------------------------------------------------------------------------------------
  // The cycle

  /** `new_items.keys().cloned().collect()`: the batch's ids, each once, in an unspecified
      order. */
  method BatchIds(batch: Batch) returns (ids: seq<NodeId>)
    ensures IsEnumeration(ids, batch.Keys)
  {
    ids := [];
    var rest := batch.Keys;
    while rest != {}
      invariant rest <= batch.Keys
      invariant forall i :: 0 <= i < |ids| ==> ids[i] in batch.Keys && ids[i] !in rest
      invariant forall i, j :: 0 <= i < j < |ids| ==> ids[i] != ids[j]
      invariant forall k :: k in batch.Keys ==> k in rest || k in ids
      decreases rest
    {
      var k :| k in rest;
      ids := ids + [k];
      rest := rest - {k};
    }
  }

  /** `process_canvas`: return on a read or parse failure; otherwise select the marked nodes,
      drop the published ones, return when none is left, and else publish the batch with the
      sink (`publish` is its outcome) and, when it succeeded outside a dry run, record the
      batch's ids (`saveOk` is the outcome of saving the record). The result is the batch the
      sink was given, if it was called. */
  method ProcessCanvas(load: Load, tracker: SyndicationTracker, dryRun: bool,
                       publish: (Batch, bool) -> Outcome<string>, saveOk: bool)
    returns (sinkCall: Option<Batch>)
    requires load.Loaded? ==> IsEnumeration(load.nodeOrder, load.canvas.nodes.Keys)
    modifies tracker
    ensures var batch := CycleBatch(load, old(tracker.published));
            sinkCall == if batch == map[] then None else Some(batch)
    ensures sinkCall.None? ==> tracker.published == old(tracker.published)
    ensures sinkCall.Some? && (dryRun || publish(sinkCall.value, dryRun).Fail?)
            ==> tracker.published == old(tracker.published)
    ensures sinkCall.Some? && !dryRun && publish(sinkCall.value, dryRun).Pass? && saveOk
            ==> tracker.published == old(tracker.published) + sinkCall.value.Keys
  {
    if !load.Loaded? {
      return None;
    }
    var canvas := load.canvas;
    var allItems := ToSyndicationFormat(canvas, load.nodeOrder, Some(DefaultProcessNode));
    var totalCount := |allItems|;
    var newItems := Unpublished(allItems, tracker.published);
    AlreadyPublishedCount(allItems, tracker.published);
    var alreadyPublished := totalCount - |newItems|;
    if newItems == map[] {
      return None;
    }
    var publishedIds := BatchIds(newItems);
    sinkCall := Some(newItems);
    var outcome := publish(newItems, dryRun);
    if outcome.Pass? && !dryRun {
      var saved := tracker.MarkPublished(publishedIds, saveOk);
      assert (set i | 0 <= i < |publishedIds| :: publishedIds[i]) == newItems.Keys;
    }
  }

  /** Two consecutive cycles on the same file, as the watcher runs them, outside a dry run
      and with the record saved. Each cycle's sink call has its own outcome: `publish` for
      the first and `retry` for the second. Once the first cycle's batch is published the
      second has nothing to publish; when the first publish fails the second retries the
      same batch, and records it only if that retry succeeds. */
  method RepeatedCycle(load: Load, tracker: SyndicationTracker,
                       publish: (Batch, bool) -> Outcome<string>,
                       retry: (Batch, bool) -> Outcome<string>)
    returns (first: Option<Batch>, second: Option<Batch>)
    requires load.Loaded? ==> IsEnumeration(load.nodeOrder, load.canvas.nodes.Keys)
    modifies tracker
    ensures var batch := CycleBatch(load, old(tracker.published));
            first == if batch == map[] then None else Some(batch)
    ensures first.None? ==> second == None && tracker.published == old(tracker.published)
    ensures first.Some? && publish(first.value, false).Pass?
            ==> second == None && tracker.published == old(tracker.published) + first.value.Keys
    ensures first.Some? && publish(first.value, false).Fail? ==> second == first
    ensures first.Some? && publish(first.value, false).Fail? && retry(first.value, false).Pass?
            ==> tracker.published == old(tracker.published) + first.value.Keys
    ensures first.Some? && publish(first.value, false).Fail? && retry(first.value, false).Fail?
            ==> tracker.published == old(tracker.published)
  {
    ghost var before := tracker.published;
    first := ProcessCanvas(load, tracker, false, publish, true);
    SecondCycleIsEmpty(load, before);
    second := ProcessCanvas(load, tracker, false, retry, true);
  }

  // ---------------------------------------------------------------------------------------
  // Path validation

  /** The segments of a path between '/' separators. */
  function Segments(path: string): (r: seq<string>)
    ensures |r| > 0
    ensures forall i :: 0 <= i < |r| ==> '/' !in r[i]
  {
    if path == [] then [[]]
    else
      var rest := Segments(path[1..]);
      if path[0] == '/' then [[]] + rest else [[path[0]] + rest[0]] + rest[1..]
  }

  /** The last segment that is a name: empty segments (repeated or trailing separators) and
      "." segments are not components of the path. */
  function LastName(segments: seq<string>): (r: Option<string>)
    ensures r.Some? ==> r.value in segments && r.value != [] && r.value != "."
  {
    if segments == [] then None
    else
      var last := segments[|segments| - 1];
      if last == [] || last == "." then LastName(segments[..|segments| - 1]) else Some(last)
  }

  /** `Path::file_name` for '/'-separated paths: the last component, unless it is "..". */
  function FileName(path: string): (r: Option<string>)
    ensures r.Some? ==> '/' !in r.value && r.value != "" && r.value != "." && r.value != ".."
  {
    match LastName(Segments(path))
    case Some(name) => if name == ".." then None else Some(name)
    case None => None
  }

  /** The position of the last occurrence of `c` in `s`. */
  function LastIndexOf(s: string, c: char): (r: Option<nat>)
    ensures r.None? ==> c !in s
    ensures r.Some? ==> r.value < |s| && s[r.value] == c && c !in s[r.value + 1..]
  {
    if s == [] then None
    else if s[|s| - 1] == c then Some(|s| - 1)
    else
      match LastIndexOf(s[..|s| - 1], c)
      case Some(i) =>
        assert s[i + 1..] == s[..|s| - 1][i + 1..] + [s[|s| - 1]];
        Some(i)
      case None =>
        assert s == s[..|s| - 1] + [s[|s| - 1]];
        None
  }

  /** `OsStr` extension of a file name: the text after the last '.', unless the name is ".."
      or has no '.' except at its start. */
  function NameExtension(name: string): Option<string>
  {
    if name == ".." then None
    else
      match LastIndexOf(name, '.')
      case None => None
      case Some(i) => if i == 0 then None else Some(name[i + 1..])
  }

  /** `Path::extension`. */
  function Extension(path: string): Option<string>
  {
    match FileName(path)
    case Some(name) => NameExtension(name)
    case None => None
  }

  /** `validate_canvas_path`; whether the path names a regular file is given by `isFile`. */
  function ValidateCanvasPath(path: string, isFile: bool): (r: Outcome<string>)
    ensures !isFile ==> r == Fail("Provided path must be a file")
    ensures isFile && r.Fail? ==> r == Fail("Expect the extension to be .canvas")
  {
    if !isFile then Fail("Provided path must be a file")
    else if Extension(path) != Some("canvas") then Fail("Expect the extension to be .canvas")
    else Pass
  }

  /** A file name has the extension `canvas` exactly when it ends in ".canvas" after at least
      one other character. */
  lemma NameExtensionCanvas(name: string)
    ensures NameExtension(name) == Some("canvas")
        <==> |name| > 7 && name[|name| - 7..] == ".canvas"
  {
    var tail := ".canvas";
    if |name| > 7 && name[|name| - 7..] == tail {
      var i := |name| - 7;
      assert name[i] == '.';
      assert name[i + 1..] == "canvas";
      assert '.' !in name[i + 1..];
    }
    if NameExtension(name) == Some("canvas") {
      var j := LastIndexOf(name, '.').value;
      assert name[j + 1..] == "canvas";
      assert name[|name| - 7..] == [name[j]] + name[j + 1..];
    }
  }

  /** A path is accepted exactly when it names a file whose last component ends in
      ".canvas" after at least one other character. */
  lemma ValidationAcceptsCanvasFiles(path: string, isFile: bool)
    ensures ValidateCanvasPath(path, isFile) == Pass
        <==> isFile && FileName(path).Some?
             && |FileName(path).value| > 7
             && FileName(path).value[|FileName(path).value| - 7..] == ".canvas"
  {
    if FileName(path).Some? {
      NameExtensionCanvas(FileName(path).value);
    }
  }

  lemma {:induction false} SegmentsOfName(name: string)
    requires '/' !in name
    ensures Segments(name) == [name]
  {
    if name != [] {
      SegmentsOfName(name[1..]);
      assert [name[0]] + name[1..] == name;
    }
  }

  lemma {:induction false} SegmentsJoin(dir: string, name: string)
    ensures Segments(dir + "/" + name) == Segments(dir) + Segments(name)
  {
    var path := dir + "/" + name;
    if dir == [] {
      assert path == "/" + name && path[1..] == name;
    } else {
      assert path[0] == dir[0] && path[1..] == dir[1..] + "/" + name;
      SegmentsJoin(dir[1..], name);
    }
  }

  /** A name inside a directory is the path's file name, so such a path is accepted exactly
      when the name ends in ".canvas" after at least one other character. */
  lemma ValidateInDirectory(dir: string, name: string)
    requires '/' !in name && name != "" && name != "." && name != ".."
    ensures FileName(dir + "/" + name) == Some(name)
    ensures ValidateCanvasPath(dir + "/" + name, true) == Pass
        <==> |name| > 7 && name[|name| - 7..] == ".canvas"
  {
    SegmentsJoin(dir, name);
    SegmentsOfName(name);
    var segments := Segments(dir) + [name];
    assert segments[|segments| - 1] == name;
    NameExtensionCanvas(name);
  }
}
