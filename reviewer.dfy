/** The reviewer step of the agent loop (`ReviewingChain.review_tasks`): it
    offers the language model the next task id and the names of the pending
    tasks, and turns the model's reply into an ordered task list, one task per
    reply line that contains a '.', split at that first '.'. The model call
    itself is not modelled: its reply is an input. */
module Reviewer {
  import opened PyStr

  datatype Option<T> = None | Some(value: T)

  /** One `{"task_id": ..., "task_name": ...}` record. The parser keeps the id
      as the text it found, which need not be a number. */
  datatype Task = Task(taskId: string, taskName: string)

  /** The prompt variables the reviewer hands to the language model. */
  datatype ReviewRequest = ReviewRequest(
    completedTasks: seq<string>,
    pendingTasks: seq<string>,
    context: string,
    nextTaskId: int)

  /** The marker lines the prompt template asks the model to start with. */
  const CanAnswerMarker: string := "Review: Can answer"
  const MustContinueMarker: string := "Review: Must continue"

  /** The names of the pending tasks, in queue order. */
  function PendingNames(pending: seq<Task>): (names: seq<string>)
    ensures |names| == |pending|
    ensures forall i :: 0 <= i < |pending| ==> names[i] == pending[i].taskName
  {
    if pending == [] then [] else [pending[0].taskName] + PendingNames(pending[1..])
  }

  /** What one reply line contributes: nothing when it is blank after
      stripping or has no '.', otherwise the stripped text before and after
      the first '.' of the stripped line. */
  function ParseLine(line: string): Option<Task> {
    var s := Strip(line);
    if s == [] then None
    else
      var parts := SplitFirst(s, '.');
      if |parts| == 2 then Some(Task(Strip(parts[0]), Strip(parts[1]))) else None
  }

  function LineTasks(line: string): seq<Task> {
    match ParseLine(line)
    case Some(t) => [t]
    case None => []
  }

  /** The task list built from `lines`, in line order. */
  function ParseLines(lines: seq<string>): (tasks: seq<Task>)
    ensures |tasks| <= |lines|
  {
    if lines == [] then []
    else ParseLines(lines[..|lines| - 1]) + LineTasks(lines[|lines| - 1])
  }

  /** The task list the reviewer returns for the model's reply. */
  function ParseResponse(response: string): seq<Task> {
    ParseLines(Split(response, '\n'))
  }

  /** `review_tasks` with the language model's reply given as `response`:
      `request` is what the model is asked with, `prioritizedTaskList` what
      the reviewer returns. */
  method ReviewTasks(thisTaskId: int, completedTasks: seq<string>, pendingTasks: seq<Task>,
                     context: string, response: string)
    returns (request: ReviewRequest, prioritizedTaskList: seq<Task>)
    ensures request.nextTaskId == thisTaskId + 1
    ensures |request.pendingTasks| == |pendingTasks|
    ensures forall i :: 0 <= i < |pendingTasks| ==> request.pendingTasks[i] == pendingTasks[i].taskName
    ensures request.completedTasks == completedTasks && request.context == context
    ensures prioritizedTaskList == ParseResponse(response)
  {
    var pendingNames := PendingNames(pendingTasks);
    var nextTaskId := thisTaskId + 1;
    request := ReviewRequest(completedTasks, pendingNames, context, nextTaskId);
    var newTasks := Split(response, '\n');
    prioritizedTaskList := [];
    for i := 0 to |newTasks|
      invariant prioritizedTaskList == ParseLines(newTasks[..i])
    {
      var taskString := newTasks[i];
      assert ParseLines(newTasks[..i + 1]) == ParseLines(newTasks[..i]) + LineTasks(taskString) by {
        assert newTasks[..i + 1][..i] == newTasks[..i];
      }
      var stripped := Strip(taskString);
      if stripped == [] {
        assert LineTasks(taskString) == [];
        continue;
      }
      var taskParts := SplitFirst(stripped, '.');
      if |taskParts| == 2 {
        var taskId := Strip(taskParts[0]);
        var taskName := Strip(taskParts[1]);
        prioritizedTaskList := prioritizedTaskList + [Task(taskId, taskName)];
      }
    }
    assert newTasks[..|newTasks|] == newTasks;
  }
}
