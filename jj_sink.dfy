/** The jj repository sink's `publish`: the sequence of repository commands and file writes it
    issues for one batch, and where that sequence stops
    (syndicate-json-canvas-sinks/src/jj_sink.rs). Running a command and writing a file are
    effects on the outside world; whether each one succeeds is given by an oracle. */
module JjSink {
  import opened Wrappers
  import opened Strings
  import opened Graph
  import opened JjContent

  /** The sink's configuration: the repository, the bookmark to move, the remote to push to
      and the folder the files go into. */
  datatype JjRepositorySink = JjRepositorySink(repoPath: string, bookmarkName: string,
                                               remoteName: string, folderPath: string)

  /** One effect of a publish: a `jj` command, or a file written into the sink's folder. */
  datatype Step =
    | GitFetch
    | NewChange(bookmark: string, message: string)
    | WriteFile(folder: string, filename: string, contents: string)
    | MoveBookmark(bookmark: string)
    | GitPush(remote: string, bookmark: string)

  /** The arguments a command step passes to `jj`. */
  function JjArgs(step: Step): (args: seq<string>)
    requires !step.WriteFile?
    ensures |args| >= 2
  {
    match step
    case GitFetch => ["git", "fetch"]
    case NewChange(bookmark, message) => ["new", "--insert-after", bookmark, "-m", message]
    case MoveBookmark(bookmark) => ["bookmark", "move", bookmark]
    case GitPush(remote, bookmark) => ["git", "push", "--remote", remote, "--bookmark", bookmark]
  }

  /** How a publish fails: a command that could not run or exited unsuccessfully, or a file
      that could not be written. */
  datatype SinkError = CommandFailed(args: seq<string>) | Io(filename: string)

  /** The error a failing step reports. */
  function StepError(step: Step): SinkError
  {
    if step.WriteFile? then Io(step.filename) else CommandFailed(JjArgs(step))
  }

  // ---------------------------------------------------------------------------------------
  // The steps of a publish

  function FetchStep(): Step
  {
    GitFetch
  }

  function NewStep(sink: JjRepositorySink, message: string): Step
  {
    NewChange(sink.bookmarkName, message)
  }

  function MoveStep(sink: JjRepositorySink): Step
  {
    MoveBookmark(sink.bookmarkName)
  }

  function PushStep(sink: JjRepositorySink): Step
  {
    GitPush(sink.remoteName, sink.bookmarkName)
  }

  /** The slug of every item visited in `ids`, inserted one after another: step 2 of
      `publish` (each slug is computed once, before any file is written). The slugs are keyed
      by exactly the visited ids. */
  function Slugs(items: map<NodeId, SyndicationFormat>, ids: seq<NodeId>): (slugs: map<NodeId, string>)
    requires forall i :: 0 <= i < |ids| ==> ids[i] in items
    ensures forall k :: k in slugs <==> k in ids
  {
    if ids == [] then map[]
    else
      var last := ids[|ids| - 1];
      var init := ids[..|ids| - 1];
      assert forall k :: k in ids <==> k in init || k == last by {
        assert ids == init + [last];
      }
      Slugs(items, init)[last := GenerateSlug(items[last].text)]
  }

  /** Each slug is that of its item's text. */
  lemma {:induction false} SlugsValues(items: map<NodeId, SyndicationFormat>, ids: seq<NodeId>)
    requires forall i :: 0 <= i < |ids| ==> ids[i] in items
    ensures forall k :: k in Slugs(items, ids) ==> Slugs(items, ids)[k] == GenerateSlug(items[k].text)
  {
    if ids != [] {
      SlugsValues(items, ids[..|ids| - 1]);
    }
  }

  /** For a batch visited in enumeration order, every item has its slug. */
  lemma SlugsOfBatch(items: map<NodeId, SyndicationFormat>, order: seq<NodeId>)
    requires IsEnumeration(order, items.Keys)
    ensures Slugs(items, order).Keys == items.Keys
    ensures forall k :: k in items ==> Slugs(items, order)[k] == GenerateSlug(items[k].text)
  {
    SlugsValues(items, order);
  }

  /** The write of one item: its rendering, into the sink's folder, under the file name made
      of its slug and id. */
  function WriteOf(sink: JjRepositorySink, items: map<NodeId, SyndicationFormat>,
                   slugs: map<NodeId, string>, date: string, id: NodeId): (step: Step)
    requires id in items && id in slugs
    ensures step.WriteFile? && step.folder == sink.folderPath
  {
    WriteFile(sink.folderPath, GenerateFilename(slugs[id], id), FileContents(items[id], slugs, items, date))
  }

  /** The writes of the items visited in `ids`, in that order. */
  function Writes(sink: JjRepositorySink, items: map<NodeId, SyndicationFormat>,
                  slugs: map<NodeId, string>, date: string, ids: seq<NodeId>): (r: seq<Step>)
    requires forall i :: 0 <= i < |ids| ==> ids[i] in items && ids[i] in slugs
    ensures |r| == |ids|
    ensures forall i :: 0 <= i < |r| ==> r[i].WriteFile? && r[i].folder == sink.folderPath
  {
    if ids == [] then []
    else Writes(sink, items, slugs, date, ids[..|ids| - 1]) + [WriteOf(sink, items, slugs, date, ids[|ids| - 1])]
  }

  /** The `i`-th write is that of the `i`-th visited item. */
  lemma {:induction false} WritesAt(sink: JjRepositorySink, items: map<NodeId, SyndicationFormat>,
                                    slugs: map<NodeId, string>, date: string, ids: seq<NodeId>, i: nat)
    requires forall i :: 0 <= i < |ids| ==> ids[i] in items && ids[i] in slugs
    requires i < |ids|
    ensures Writes(sink, items, slugs, date, ids)[i] == WriteOf(sink, items, slugs, date, ids[i])
  {
    if i < |ids| - 1 {
      var init := ids[..|ids| - 1];
      WritesAt(sink, items, slugs, date, init, i);
      assert init[i] == ids[i];
    }
  }

  /** The first `k` writes are those of the first `k` visited items. */
  lemma {:induction false} WritesPrefix(sink: JjRepositorySink, items: map<NodeId, SyndicationFormat>,
                                        slugs: map<NodeId, string>, date: string, ids: seq<NodeId>, k: nat)
    requires forall i :: 0 <= i < |ids| ==> ids[i] in items && ids[i] in slugs
    requires k <= |ids|
    ensures Writes(sink, items, slugs, date, ids)[..k] == Writes(sink, items, slugs, date, ids[..k])
  {
    if k < |ids| {
      var init := ids[..|ids| - 1];
      WritesPrefix(sink, items, slugs, date, init, k);
      assert init[..k] == ids[..k];
    } else {
      assert ids[..k] == ids;
    }
  }

  /** The steps of a non-empty publish: fetch, a new change carrying the commit message, the
      writes in order, the bookmark move and the push. */
  function Steps(sink: JjRepositorySink, message: string, writes: seq<Step>): (r: seq<Step>)
    ensures |r| == |writes| + 4
    ensures r[0] == FetchStep() && r[1] == NewStep(sink, message)
    ensures forall i :: 0 <= i < |writes| ==> r[2 + i] == writes[i]
    ensures r[|r| - 2] == MoveStep(sink) && r[|r| - 1] == PushStep(sink)
  {
    [FetchStep(), NewStep(sink, message)] + writes + [MoveStep(sink), PushStep(sink)]
  }

  /** What a publish issues for a batch whose items are visited in `order`: nothing for an
      empty batch; otherwise the steps carrying the batch's commit message and one write per
      item, with the slugs of step 2. */
  function Plan(sink: JjRepositorySink, items: map<NodeId, SyndicationFormat>, order: seq<NodeId>,
                date: string): seq<Step>
    requires IsEnumeration(order, items.Keys)
    requires |items| == 1 ==> forall k :: k in items ==> items[k].id == k
  {
    if |items| == 0 then []
    else
      var slugs := Slugs(items, order);
      Steps(sink, CommitMessage(items, slugs, order), Writes(sink, items, slugs, date, order))
  }

  /** Perform `steps` in order until one fails (the `?` after each step): the outcome, and
      the steps that were attempted, the failing one included. */
  function Run(steps: seq<Step>, succeeds: Step -> bool): (Outcome<SinkError>, seq<Step>)
  {
    if steps == [] then (Pass, [])
    else if !succeeds(steps[0]) then (Fail(StepError(steps[0])), [steps[0]])
    else
      var (r, t) := Run(steps[1..], succeeds);
      (r, [steps[0]] + t)
  }

  /** A dry run reports success and has no effect; otherwise the steps are run. */
  function Execute(steps: seq<Step>, succeeds: Step -> bool, dryRun: bool): (Outcome<SinkError>, seq<Step>)
  {
    if dryRun then (Pass, []) else Run(steps, succeeds)
  }

  // ---------------------------------------------------------------------------------------
  // Properties of the plan and of running it

  /** Running stops at the first failure: what was attempted is a prefix of the steps, every
      attempted step but the last succeeded, the run succeeds exactly when every step does
      (and then all were attempted), and a failure reports the error of the failing step,
      which is the first failing one. */
  lemma {:induction false} RunStopsAtFirstFailure(steps: seq<Step>, succeeds: Step -> bool)
    ensures var (r, t) := Run(steps, succeeds);
            && |t| <= |steps| && t == steps[..|t|]
            && (r == Pass <==> forall i :: 0 <= i < |steps| ==> succeeds(steps[i]))
            && (r == Pass ==> t == steps)
            && (r.Fail? ==> && |t| > 0
                            && !succeeds(t[|t| - 1])
                            && r.error == StepError(t[|t| - 1])
                            && forall i :: 0 <= i < |t| - 1 ==> succeeds(t[i]))
  {
    if steps != [] && succeeds(steps[0]) {
      RunStopsAtFirstFailure(steps[1..], succeeds);
      var (r, t) := Run(steps[1..], succeeds);
      assert Run(steps, succeeds) == (r, [steps[0]] + t);
      assert steps == [steps[0]] + steps[1..];
      if r == Pass {
        assert forall i :: 0 <= i < |steps| ==> succeeds(steps[i]) by {
          forall i | 0 <= i < |steps| ensures succeeds(steps[i]) {
            if i > 0 {
              assert steps[i] == steps[1..][i - 1];
            }
          }
        }
      } else {
        assert !succeeds(steps[1..][|t| - 1]);
      }
    }
  }

  /** Running a sequence whose first `k` steps succeed attempts those steps and continues
      with the rest. */
  lemma {:induction false} RunAfterSuccesses(steps: seq<Step>, succeeds: Step -> bool, k: nat)
    requires k <= |steps|
    requires forall i :: 0 <= i < k ==> succeeds(steps[i])
    ensures Run(steps, succeeds).0 == Run(steps[k..], succeeds).0
    ensures Run(steps, succeeds).1 == steps[..k] + Run(steps[k..], succeeds).1
  {
    if k > 0 {
      assert steps[1..][k - 1..] == steps[k..];
      RunAfterSuccesses(steps[1..], succeeds, k - 1);
      assert steps[..k] == [steps[0]] + steps[1..][..k - 1];
    }
  }

  /** An empty batch and a dry run both succeed without any effect. */
  lemma {:induction false} NothingToDo(sink: JjRepositorySink, items: map<NodeId, SyndicationFormat>,
                                       order: seq<NodeId>, date: string, dryRun: bool,
                                       succeeds: Step -> bool)
    requires IsEnumeration(order, items.Keys)
    requires |items| == 1 ==> forall k :: k in items ==> items[k].id == k
    requires |items| == 0 || dryRun
    ensures Execute(Plan(sink, items, order, date), succeeds, dryRun) == (Pass, [])
  {
  }

  /** A non-empty batch issues `|items| + 4` steps: fetch and the new change carrying the
      commit message first, then the writes, then the bookmark move and the push last. */
  lemma PlanShape(sink: JjRepositorySink, items: map<NodeId, SyndicationFormat>, order: seq<NodeId>,
                  date: string)
    requires IsEnumeration(order, items.Keys)
    requires |items| == 1 ==> forall k :: k in items ==> items[k].id == k
    requires |items| > 0
    ensures var slugs := Slugs(items, order);
            var writes := Writes(sink, items, slugs, date, order);
            var plan := Plan(sink, items, order, date);
            && plan == Steps(sink, CommitMessage(items, slugs, order), writes)
            && |plan| == |items| + 4
            && plan[0] == FetchStep()
            && plan[1] == NewStep(sink, CommitMessage(items, slugs, order))
            && (forall i :: 0 <= i < |order| ==> plan[2 + i] == writes[i])
            && plan[|plan| - 2] == MoveStep(sink)
            && plan[|plan| - 1] == PushStep(sink)
  {
    EnumerationLength(order, items.Keys);
  }

  /** The write of the `i`-th visited item goes into the sink's folder, under the file name
      of its slug and id, and holds its rendering. */
  lemma PlanWrite(sink: JjRepositorySink, items: map<NodeId, SyndicationFormat>, order: seq<NodeId>,
                  date: string, i: nat)
    requires IsEnumeration(order, items.Keys)
    requires i < |order|
    ensures Writes(sink, items, Slugs(items, order), date, order)[i]
            == WriteFile(sink.folderPath, GenerateFilename(GenerateSlug(items[order[i]].text), order[i]),
                         FileContents(items[order[i]], Slugs(items, order), items, date))
  {
    WritesAt(sink, items, Slugs(items, order), date, order, i);
    SlugsOfBatch(items, order);
  }

  /** When node ids contain no '-', a file name determines the slug and the id. */
  lemma FilenameInjectiveWithoutDash(s1: string, id1: NodeId, s2: string, id2: NodeId)
    requires '-' !in id1 && '-' !in id2
    requires GenerateFilename(s1, id1) == GenerateFilename(s2, id2)
    ensures s1 == s2 && id1 == id2
  {
    if |id1| < |id2| {
      DashInLongerId(s1, id1, s2, id2);
    } else if |id2| < |id1| {
      DashInLongerId(s2, id2, s1, id1);
    } else {
      FilenameInjective(s1, id1, s2, id2);
    }
  }

  /** Of two ids read from the same file name, the longer one holds the dash that follows
      the other one's slug. */
  lemma DashInLongerId(s1: string, id1: NodeId, s2: string, id2: NodeId)
    requires GenerateFilename(s1, id1) == GenerateFilename(s2, id2)
    requires |id1| < |id2|
    ensures '-' in id2
  {
    var f := GenerateFilename(s1, id1);
    FilenameParts(s1, id1);
    FilenameParts(s2, id2);
    assert id2[|id2| - |id1| - 1] == f[|s1|];
  }

  /** With dashes allowed in ids, two different items can be given the same file name: slug
      "a" with id "b-c" and slug "a-b" with id "c" both give "a-b-c.md". */
  lemma FilenameCollision()
    ensures GenerateFilename("a", "b-c") == GenerateFilename("a-b", "c")
  {
  }

  /** Every item of the batch gets a write under its file name. */
  lemma WritesCoverBatch(sink: JjRepositorySink, items: map<NodeId, SyndicationFormat>,
                         order: seq<NodeId>, date: string, k: NodeId)
    requires IsEnumeration(order, items.Keys)
    requires k in items
    ensures exists i :: 0 <= i < |order|
                        && Writes(sink, items, Slugs(items, order), date, order)[i].filename
                           == GenerateFilename(GenerateSlug(items[k].text), k)
  {
    var i :| 0 <= i < |order| && order[i] == k;
    WriteFilenameAt(sink, items, order, date, i);
  }

  /** Every item of the batch is written exactly once: at the one position where the visit
      reaches it, with its rendering under its file name. */
  lemma WrittenOnce(sink: JjRepositorySink, items: map<NodeId, SyndicationFormat>,
                    order: seq<NodeId>, date: string, k: NodeId)
    requires IsEnumeration(order, items.Keys)
    requires k in items
    ensures exists i :: 0 <= i < |order| && order[i] == k
              && Writes(sink, items, Slugs(items, order), date, order)[i]
                 == WriteFile(sink.folderPath, GenerateFilename(GenerateSlug(items[k].text), k),
                              FileContents(items[k], Slugs(items, order), items, date))
              && forall j :: 0 <= j < |order| && order[j] == k ==> j == i
  {
    var i :| 0 <= i < |order| && order[i] == k;
    PlanWrite(sink, items, order, date, i);
  }

  /** The file name of the `i`-th write is made of the slug and the id of the `i`-th visited
      item. */
  lemma WriteFilenameAt(sink: JjRepositorySink, items: map<NodeId, SyndicationFormat>,
                        order: seq<NodeId>, date: string, i: nat)
    requires IsEnumeration(order, items.Keys)
    requires i < |order|
    ensures Writes(sink, items, Slugs(items, order), date, order)[i].filename
            == GenerateFilename(GenerateSlug(items[order[i]].text), order[i])
  {
    WritesAt(sink, items, Slugs(items, order), date, order, i);
    SlugsValues(items, order);
  }

  /** Every write is that of an item of the batch. */
  lemma WritesWithinBatch(sink: JjRepositorySink, items: map<NodeId, SyndicationFormat>,
                          order: seq<NodeId>, date: string)
    requires IsEnumeration(order, items.Keys)
    ensures var writes := Writes(sink, items, Slugs(items, order), date, order);
            forall i :: 0 <= i < |writes| ==>
              exists k :: k in items && writes[i].filename == GenerateFilename(GenerateSlug(items[k].text), k)
  {
    var writes := Writes(sink, items, Slugs(items, order), date, order);
    forall i | 0 <= i < |writes|
      ensures exists k :: k in items && writes[i].filename == GenerateFilename(GenerateSlug(items[k].text), k)
    {
      WriteFilenameAt(sink, items, order, date, i);
      var k := order[i];
      assert k in items;
    }
  }

  /** When ids contain no '-', different items of the batch are written to different files,
      so no write of a batch overwrites another. */
  lemma WritesDistinct(sink: JjRepositorySink, items: map<NodeId, SyndicationFormat>,
                       order: seq<NodeId>, date: string)
    requires IsEnumeration(order, items.Keys)
    requires forall k :: k in items ==> '-' !in k
    ensures var writes := Writes(sink, items, Slugs(items, order), date, order);
            forall i, j :: 0 <= i < j < |writes| ==> writes[i].filename != writes[j].filename
  {
    var writes := Writes(sink, items, Slugs(items, order), date, order);
    forall i, j | 0 <= i < j < |writes| ensures writes[i].filename != writes[j].filename {
      WriteFilenameAt(sink, items, order, date, i);
      WriteFilenameAt(sink, items, order, date, j);
      var a, b := order[i], order[j];
      if writes[i].filename == writes[j].filename {
        FilenameInjectiveWithoutDash(GenerateSlug(items[a].text), a, GenerateSlug(items[b].text), b);
      }
    }
  }

  /** Exactly the steps between the new change and the bookmark move are writes. */
  lemma StepsKinds(sink: JjRepositorySink, message: string, writes: seq<Step>)
    requires forall i :: 0 <= i < |writes| ==> writes[i].WriteFile?
    ensures var r := Steps(sink, message, writes);
            forall i :: 0 <= i < |r| ==> (2 <= i < |r| - 2 <==> r[i].WriteFile?)
  {
    var r := Steps(sink, message, writes);
    forall i | 0 <= i < |r| ensures 2 <= i < |r| - 2 <==> r[i].WriteFile? {
      if 2 <= i < |r| - 2 {
        assert r[i] == writes[i - 2];
      }
    }
  }

  /** No file is written unless fetch and the new change were attempted first and
      succeeded. */
  lemma WritesAfterNewChange(sink: JjRepositorySink, message: string, writes: seq<Step>,
                             succeeds: Step -> bool)
    requires forall i :: 0 <= i < |writes| ==> writes[i].WriteFile?
    ensures var t := Run(Steps(sink, message, writes), succeeds).1;
            (exists i :: 0 <= i < |t| && t[i].WriteFile?) ==>
              t[0] == FetchStep() && succeeds(t[0]) && t[1] == NewStep(sink, message) && succeeds(t[1])
  {
    var plan := Steps(sink, message, writes);
    RunStopsAtFirstFailure(plan, succeeds);
    StepsKinds(sink, message, writes);
    var t := Run(plan, succeeds).1;
    if exists i :: 0 <= i < |t| && t[i].WriteFile? {
      var i :| 0 <= i < |t| && t[i].WriteFile?;
      assert t[i] == plan[i];
      assert t[0] == plan[0] && t[1] == plan[1];
    }
  }

  /** The push is attempted only as the last step, after every other step was attempted and
      succeeded. */
  lemma PushOnlyAfterEveryWrite(sink: JjRepositorySink, message: string, writes: seq<Step>,
                                succeeds: Step -> bool)
    requires forall i :: 0 <= i < |writes| ==> writes[i].WriteFile?
    ensures var plan := Steps(sink, message, writes);
            var t := Run(plan, succeeds).1;
            (exists i :: 0 <= i < |t| && t[i].GitPush?) ==>
              t == plan && forall i :: 0 <= i < |plan| - 1 ==> succeeds(plan[i])
  {
    var plan := Steps(sink, message, writes);
    RunStopsAtFirstFailure(plan, succeeds);
    StepsKinds(sink, message, writes);
    var t := Run(plan, succeeds).1;
    if exists i :: 0 <= i < |t| && t[i].GitPush? {
      var i :| 0 <= i < |t| && t[i].GitPush?;
      assert t[i] == plan[i];
      assert i == |plan| - 1;
    }
  }

  // ---------------------------------------------------------------------------------------
  // The publish method

  /** One call of `run_jj_command` or `write_file`: a dry run only logs the step and
      succeeds; otherwise the step is performed and appended to the trace. */
  method Attempt(step: Step, dryRun: bool, succeeds: Step -> bool, trace: seq<Step>)
    returns (ok: bool, trace': seq<Step>)
    ensures ok == (dryRun || succeeds(step))
    ensures trace' == if dryRun then trace else trace + [step]
  {
    if dryRun {
      return true, trace;
    }
    return succeeds(step), trace + [step];
  }

  lemma SlugsStep(items: map<NodeId, SyndicationFormat>, order: seq<NodeId>, i: nat)
    requires forall j :: 0 <= j < |order| ==> order[j] in items
    requires i < |order|
    ensures Slugs(items, order[..i + 1]) == Slugs(items, order[..i])[order[i] := GenerateSlug(items[order[i]].text)]
  {
    assert order[..i + 1][..i] == order[..i];
  }

  /** Step 2 of `publish`: the slug of every item, inserted in visiting order. */
  method ComputeSlugs(items: map<NodeId, SyndicationFormat>, order: seq<NodeId>)
    returns (slugs: map<NodeId, string>)
    requires IsEnumeration(order, items.Keys)
    ensures slugs == Slugs(items, order)
  {
    slugs := map[];
    var i := 0;
    while i < |order|
      invariant 0 <= i <= |order|
      invariant slugs == Slugs(items, order[..i])
    {
      SlugsStep(items, order, i);
      slugs := slugs[order[i] := GenerateSlug(items[order[i]].text)];
      i := i + 1;
    }
    assert order[..|order|] == order;
  }

  /** The run of `steps` has attempted the first `i` of them, all successfully, and
      continues with the rest. */
  ghost predicate RunReaches(steps: seq<Step>, succeeds: Step -> bool, i: nat)
    requires i <= |steps|
  {
    Run(steps, succeeds) == (Run(steps[i..], succeeds).0, steps[..i] + Run(steps[i..], succeeds).1)
  }

  /** Every run reaches its start. */
  lemma RunStarts(steps: seq<Step>, succeeds: Step -> bool)
    ensures RunReaches(steps, succeeds, 0)
  {
    assert steps[0..] == steps && steps[..0] + Run(steps, succeeds).1 == Run(steps, succeeds).1;
  }

  /** A run that has reached a succeeding step reaches the next one. */
  lemma RunAdvance(steps: seq<Step>, succeeds: Step -> bool, i: nat)
    requires i < |steps| && RunReaches(steps, succeeds, i) && succeeds(steps[i])
    ensures RunReaches(steps, succeeds, i + 1)
  {
    TakeSnoc(steps, i);
    var rest := Run(steps[i + 1..], succeeds).1;
    AppendAssoc(steps[..i], [steps[i]], rest);
  }

  /** A run that has reached a failing step stops there, with that step's error. */
  lemma RunStopsAt(steps: seq<Step>, succeeds: Step -> bool, i: nat)
    requires i < |steps| && RunReaches(steps, succeeds, i) && !succeeds(steps[i])
    ensures Run(steps, succeeds) == (Fail(StepError(steps[i])), steps[..i + 1])
    ensures steps[..i + 1] == steps[..i] + [steps[i]]
  {
    TakeSnoc(steps, i);
    assert Run(steps[i..], succeeds) == (Fail(StepError(steps[i])), [steps[i]]);
  }

  /** A run that has reached the end has run every step successfully. */
  lemma RunEnds(steps: seq<Step>, succeeds: Step -> bool)
    requires RunReaches(steps, succeeds, |steps|)
    ensures Run(steps, succeeds) == (Pass, steps) && steps[..|steps|] == steps
  {
    assert steps[|steps|..] == [] && steps[..|steps|] + [] == steps;
  }

  /** The trace so far followed by the next step is the trace one step further. */
  lemma TraceExtend(start: seq<Step>, steps: seq<Step>, i: nat)
    requires i < |steps|
    ensures start + steps[..i] + [steps[i]] == start + steps[..i + 1]
  {
    TakeSnoc(steps, i);
    AppendAssoc(start, steps[..i], [steps[i]]);
  }

  /** The two steps before and the two steps after the middle part of a plan. */
  lemma EndsOf(a: seq<Step>, b: seq<Step>, c: seq<Step>)
    requires |a| == 2 && |c| == 2
    ensures |a + b + c| == |b| + 4
    ensures (a + b + c)[0] == a[0] && (a + b + c)[1] == a[1]
    ensures (a + b + c)[|b| + 2] == c[0] && (a + b + c)[|b| + 3] == c[1]
    ensures (a + b + c)[..1] == [a[0]] && (a + b + c)[..2] == [a[0]] + [a[1]] && a == [a[0]] + [a[1]]
    ensures (a + b + c)[..|b| + 2] == a + b && (a + b + c)[..|b| + 3] == a + b + [c[0]]
    ensures a + b + c == a + b + [c[0]] + [c[1]]
  {
    assert c == [c[0]] + [c[1]];
  }

  /** A run that has reached a part of the steps continues through it: when the part
      succeeds the run reaches the end of it, and when it fails the run stops with it. */
  lemma RunThrough(a: seq<Step>, b: seq<Step>, c: seq<Step>, succeeds: Step -> bool)
    requires RunReaches(a + b + c, succeeds, |a|)
    ensures Run(b, succeeds).0 == Pass ==> RunReaches(a + b + c, succeeds, |a| + |b|)
    ensures Run(b, succeeds).0.Fail? ==> Run(a + b + c, succeeds) == (Run(b, succeeds).0, a + Run(b, succeeds).1)
  {
    AppendParts(a, b, c);
    RunConcat(b, c, succeeds);
    RunPassesAll(b, succeeds);
    if Run(b, succeeds).0 == Pass {
      AppendAssoc(a, b, Run(c, succeeds).1);
    }
  }

  /** A run that succeeds has attempted every step. */
  lemma {:induction false} RunPassesAll(steps: seq<Step>, succeeds: Step -> bool)
    ensures Run(steps, succeeds).0 == Pass ==> Run(steps, succeeds).1 == steps
  {
    if steps != [] && succeeds(steps[0]) {
      RunPassesAll(steps[1..], succeeds);
      assert [steps[0]] + steps[1..] == steps;
    }
  }

  /** Running two sequences one after the other: the second runs only when the first
      succeeds. */
  lemma {:induction false} RunConcat(a: seq<Step>, b: seq<Step>, succeeds: Step -> bool)
    ensures Run(a + b, succeeds)
            == if Run(a, succeeds).0 == Pass then (Run(b, succeeds).0, Run(a, succeeds).1 + Run(b, succeeds).1)
               else Run(a, succeeds)
  {
    if a == [] {
      assert a + b == b;
      assert Run(a, succeeds).1 + Run(b, succeeds).1 == Run(b, succeeds).1;
    } else {
      assert (a + b)[0] == a[0] && (a + b)[1..] == a[1..] + b;
      RunConcat(a[1..], b, succeeds);
      if succeeds(a[0]) {
        var (r, t) := Run(a[1..], succeeds);
        if r == Pass {
          assert [a[0]] + (t + Run(b, succeeds).1) == ([a[0]] + t) + Run(b, succeeds).1;
        }
      }
    }
  }

  /** Step 3 of `publish`: each item's file is rendered and written in visiting order, up to
      and including the first write that fails. The outcome and the writes performed are
      those of running the writes; a dry run performs none. */
  method WriteFiles(sink: JjRepositorySink, items: map<NodeId, SyndicationFormat>,
                    slugs: map<NodeId, string>, order: seq<NodeId>, date: string, dryRun: bool,
                    succeeds: Step -> bool)
    returns (result: Outcome<SinkError>, trace: seq<Step>)
    requires forall i :: 0 <= i < |order| ==> order[i] in items && order[i] in slugs
    ensures (result, trace) == Execute(Writes(sink, items, slugs, date, order), succeeds, dryRun)
  {
    trace := [];
    ghost var writes := Writes(sink, items, slugs, date, order);
    RunStarts(writes, succeeds);
    var i := 0;
    while i < |order|
      invariant 0 <= i <= |order|
      invariant dryRun ==> trace == []
      invariant !dryRun ==> trace == writes[..i] && RunReaches(writes, succeeds, i)
    {
      var id := order[i];
      var filename := GenerateFilename(slugs[id], id);
      var contents := GenerateFileContents(items[id], slugs[id], slugs, items, date);
      var step := WriteFile(sink.folderPath, filename, contents);
      WritesAt(sink, items, slugs, date, order, i);
      var ok;
      ok, trace := AttemptAt(step, dryRun, succeeds, trace, writes, i);
      if !ok {
        return Fail(StepError(step)), trace;
      }
      i := i + 1;
    }
    if !dryRun {
      RunEnds(writes, succeeds);
    }
    result := Pass;
  }

  /** `publish`: the outcome and the effects performed are those of executing the plan —
      nothing for an empty batch or a dry run, otherwise the planned steps up to and
      including the first that fails. */
  method Publish(sink: JjRepositorySink, items: map<NodeId, SyndicationFormat>, order: seq<NodeId>,
                 date: string, dryRun: bool, succeeds: Step -> bool)
    returns (result: Outcome<SinkError>, trace: seq<Step>)
    requires IsEnumeration(order, items.Keys)
    requires |items| == 1 ==> forall k :: k in items ==> items[k].id == k
    ensures (result, trace) == Execute(Plan(sink, items, order, date), succeeds, dryRun)
  {
    if |items| == 0 {
      return Pass, [];
    }
    ghost var spec := Slugs(items, order);
    ghost var plan := Steps(sink, CommitMessage(items, spec, order), Writes(sink, items, spec, date, order));
    assert plan == Plan(sink, items, order, date);
    RunStarts(plan, succeeds);
    var ok;
    ok, trace := AttemptAt(FetchStep(), dryRun, succeeds, [], plan, 0);
    if !ok {
      return Fail(StepError(FetchStep())), trace;
    }
    var slugs := ComputeSlugs(items, order);
    var message := CommitMessage(items, slugs, order);
    result, trace := CommitAndPush(sink, items, slugs, order, date, message, dryRun, succeeds,
                                   trace, plan);
  }

  /** Steps 2 to 5 of `publish`, once the fetch has succeeded: the change is created, the
      files are written, and the bookmark is moved and pushed, stopping at the first step
      that fails. */
  method CommitAndPush(sink: JjRepositorySink, items: map<NodeId, SyndicationFormat>,
                       slugs: map<NodeId, string>, order: seq<NodeId>, date: string,
                       message: string, dryRun: bool, succeeds: Step -> bool,
                       trace: seq<Step>, ghost plan: seq<Step>)
    returns (result: Outcome<SinkError>, trace': seq<Step>)
    requires forall i :: 0 <= i < |order| ==> order[i] in items && order[i] in slugs
    requires plan == Steps(sink, message, Writes(sink, items, slugs, date, order))
    requires dryRun ==> trace == []
    requires !dryRun ==> trace == plan[..1] && RunReaches(plan, succeeds, 1)
    ensures (result, trace') == Execute(plan, succeeds, dryRun)
  {
    ghost var writes := Writes(sink, items, slugs, date, order);
    ghost var head := [FetchStep(), NewStep(sink, message)];
    ghost var tail := [MoveStep(sink), PushStep(sink)];
    assert plan == head + writes + tail;
    EndsOf(head, writes, tail);
    var ok;
    ok, trace' := AttemptAt(NewStep(sink, message), dryRun, succeeds, trace, plan, 1);
    if !ok {
      return Fail(StepError(NewStep(sink, message))), trace';
    }
    if !dryRun {
      RunThrough(head, writes, tail, succeeds);
      RunPassesAll(writes, succeeds);
      assert trace' == head;
    }
    var written;
    result, written := WriteFiles(sink, items, slugs, order, date, dryRun, succeeds);
    trace' := trace' + written;
    if result.Fail? {
      assert Run(plan, succeeds) == (result, trace');
      return;
    }
    assert !dryRun ==> trace' == plan[..|plan| - 2];
    ok, trace' := AttemptAt(MoveStep(sink), dryRun, succeeds, trace', plan, |plan| - 2);
    if !ok {
      return Fail(StepError(MoveStep(sink))), trace';
    }
    ok, trace' := AttemptAt(PushStep(sink), dryRun, succeeds, trace', plan, |plan| - 1);
    if !ok {
      return Fail(StepError(PushStep(sink))), trace';
    }
    if !dryRun {
      RunEnds(plan, succeeds);
      assert trace' == plan;
    }
    result := Pass;
  }

  /** One step of the plan attempted after every earlier one succeeded: the trace grows by
      the step, and a failing step ends the run of the plan there. */
  method AttemptAt(step: Step, dryRun: bool, succeeds: Step -> bool, trace: seq<Step>,
                   ghost plan: seq<Step>, ghost k: nat)
    returns (ok: bool, trace': seq<Step>)
    requires k < |plan| && step == plan[k]
    requires dryRun ==> trace == []
    requires !dryRun ==> trace == plan[..k] && RunReaches(plan, succeeds, k)
    ensures ok == (dryRun || succeeds(step))
    ensures dryRun ==> trace' == []
    ensures !dryRun && ok ==> trace' == plan[..k + 1] && RunReaches(plan, succeeds, k + 1)
    ensures !dryRun && !ok ==> Run(plan, succeeds) == (Fail(StepError(step)), trace')
  {
    ok, trace' := Attempt(step, dryRun, succeeds, trace);
    if !dryRun {
      TraceExtend([], plan, k);
      if ok {
        RunAdvance(plan, succeeds, k);
      } else {
        RunStopsAt(plan, succeeds, k);
      }
    }
  }

  /** The name the sink reports. */
  function Name(): (r: string)
    ensures |r| > 0 && ' ' !in r
  {
    "jj"
  }
}
