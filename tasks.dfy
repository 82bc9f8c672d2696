/**
 * `XamlColorizer.HighlightTask`: the input snapshot of one line, the status
 * of the task that scans it, the `Invalid` flag and the published results.
 * The task's run on a worker thread is one atomic step, `Process`.
 */
module Tasks {
  import opened Wrappers
  import opened Highlighting
  import opened Document
  import opened TokenScan

  /**
   * The status of the task object a HighlightTask currently holds. A task
   * that throws ends `Faulted`; the cancelled task that `Invalidate` drops is
   * no longer observed.
   */
  datatype TaskStatus = Created | Running | RanToCompletion | Faulted

  /** The snapshot a task takes of the file and of one of its lines. */
  function SnapshotOf(fileContent: string, fileName: string, line: DocumentLine): (s: Snapshot)
    ensures s.lineText == line.text && s.lineNumber == line.lineNumber && s.offset == line.offset
    ensures s.fileContent == fileContent && s.fileName == fileName
  {
    Snapshot(fileContent, fileName, line.lineNumber, line.text, line.offset)
  }

  /** The observable state of a HighlightTask. */
  datatype TaskState = TaskState(snapshot: Snapshot, invalid: bool, status: TaskStatus, results: Option<seq<Highlight>>)
  {
    /** `CompletedSuccessfully`: the current task ran to completion and no edit has marked it since. */
    predicate CompletedSuccessfully()
    {
      status == RanToCompletion && !invalid
    }

    /** Results of a completed run are exactly what scanning and resolving the current snapshot gives. */
    ghost predicate Consistent(rc: ContextResolver, rm: MemberResolver)
    {
      status == RanToCompletion ==>
        Highlights(snapshot, rc, rm).Success? && results == Some(Highlights(snapshot, rc, rm).value)
    }
  }

  /** A task just constructed for a snapshot: not started, not invalid, no results. */
  function NewTask(snap: Snapshot): TaskState
  {
    TaskState(snap, false, Created, None)
  }

  /** `Invalidate`: rebind to a new snapshot, clear `Invalid` and run a new task; old results stay until replaced. */
  function Rebound(t: TaskState, snap: Snapshot): TaskState
  {
    t.(snapshot := snap, invalid := false, status := Running)
  }

  /** The end of a run: publish the results and clear `Invalid`, or fault on an exception. */
  function Finished(t: TaskState, outcome: Result<seq<Highlight>, ArgumentError>): TaskState
  {
    match outcome
    case Success(rs) => t.(results := Some(rs), invalid := false, status := RanToCompletion)
    case Failure(_) => t.(status := Faulted)
  }

  /** In the model, a rebound task is not painted before its new run completes, so its old results are not painted. */
  lemma ReboundNotPainted(t: TaskState, snap: Snapshot, rc: ContextResolver, rm: MemberResolver)
    ensures !Rebound(t, snap).CompletedSuccessfully()
    ensures Rebound(t, snap).Consistent(rc, rm)
    ensures Rebound(t, snap).snapshot == snap && !Rebound(t, snap).invalid
  {
  }

  /**
   * A run that completes publishes results for the snapshot it read and
   * makes the task paintable, even when an edit marked the task invalid
   * while it was running: publication clears the mark.
   */
  lemma FinishedPaintsItsSnapshot(t: TaskState, rc: ContextResolver, rm: MemberResolver)
    requires Highlights(t.snapshot, rc, rm).Success?
    ensures Finished(t, Highlights(t.snapshot, rc, rm)).Consistent(rc, rm)
    ensures Finished(t, Highlights(t.snapshot, rc, rm)).CompletedSuccessfully()
    ensures Finished(t.(invalid := true), Highlights(t.snapshot, rc, rm)).CompletedSuccessfully()
  {
  }

  class HighlightTask {
    var FileContent: string
    var FileName: string
    var LineText: string
    var LineNumber: int
    var Offset: int
    var Invalid: bool
    var status: TaskStatus
    var results: Option<seq<Highlight>>
    const resolveContext: ContextResolver
    const resolveMember: MemberResolver

    /** The input fields the task's run reads. */
    function Input(): Snapshot
      reads this
    {
      Snapshot(FileContent, FileName, LineNumber, LineText, Offset)
    }

    function State(): TaskState
      reads this
    {
      TaskState(Input(), Invalid, status, results)
    }

    ghost predicate Valid()
      reads this
    {
      State().Consistent(resolveContext, resolveMember)
    }

    constructor (fileContent: string, fileName: string, currentLine: DocumentLine,
                 rc: ContextResolver, rm: MemberResolver)
      ensures State() == NewTask(SnapshotOf(fileContent, fileName, currentLine))
      ensures resolveContext == rc && resolveMember == rm
      ensures Valid()
    {
      FileContent := fileContent;
      FileName := fileName;
      LineNumber := currentLine.lineNumber;
      LineText := currentLine.text;
      Offset := currentLine.offset;
      Invalid := false;
      status := Created;
      results := None;
      resolveContext := rc;
      resolveMember := rm;
    }

    /** `Start`: hand the task to the scheduler. */
    method Start()
      requires status == Created
      modifies this
      ensures State() == old(State()).(status := Running)
      ensures Valid()
    {
      status := Running;
    }

    predicate CompletedSuccessfully()
      reads this
    {
      State().CompletedSuccessfully()
    }

    function GetResults(): Option<seq<Highlight>>
      reads this
    {
      results
    }

    /** `Invalidate`: cancel the running task, rebind the snapshot to the line's current state and start anew. */
    method Invalidate(fileContent: string, fileName: string, currentLine: DocumentLine)
      modifies this
      ensures State() == Rebound(old(State()), SnapshotOf(fileContent, fileName, currentLine))
      ensures Valid()
    {
      Invalid := false;
      FileContent := fileContent;
      FileName := fileName;
      LineNumber := currentLine.lineNumber;
      LineText := currentLine.text;
      Offset := currentLine.offset;
      status := Running;
    }

    /**
     * `Process`, run to its end as one step: scan the snapshot, resolve each
     * info, then publish the results and clear `Invalid` under the lock. An
     * exception from the scan faults the task and publishes nothing.
     */
    method Process()
      requires status == Running
      modifies this
      ensures State() == Finished(old(State()), Highlights(old(Input()), resolveContext, resolveMember))
      ensures Valid()
    {
      var snap := Input();
      var infos := GetInfo(snap, resolveContext);
      match infos {
        case Failure(e) =>
          assert Highlights(snap, resolveContext, resolveMember) == Failure(e);
          status := Faulted;
        case Success(found) =>
          var rs := ResolveInfos(found, FileContent, resolveMember);
          assert rs == ResolveAll(found, snap.fileContent, resolveMember);
          assert Highlights(snap, resolveContext, resolveMember) == Success(rs);
          results := Some(rs);
          Invalid := false;
          status := RanToCompletion;
      }
    }
  }
}
