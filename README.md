# Reviewer-response parser of the autolang agent

autolang is an autonomous task agent. After each completed task, its
reviewer (`ReviewingChain.review_tasks`) asks a language model to re-plan the
remaining work. It then turns the model's free-text reply into the new
ordered task list. This project models that step in Dafny:

- the prompt variables the reviewer sends: the completed task names, the
  pending task names projected from the pending records, the context, and
  the next task id `this_task_id + 1`;
- the parsing loop. It splits the reply on `'\n'` and skips lines that are
  blank after `strip()`. It splits each remaining stripped line at its first
  `'.'`. For every line that has a `'.'` it appends a record
  `{task_id, task_name}` holding the two stripped parts. The id stays a
  string.

The Python string builtins the loop uses are written out as functions in
module `PyStr` (`pystr.dfy`):

- `str.strip()`, with `IsWs` as Python's `str.isspace()` over the full
  Unicode set;
- `str.split('\n')` and `str.split('.', 1)`, as `Split` and `SplitFirst`.

The loop itself never joins strings. `PyStr.Join` (Python's `sep.join(...)`)
is modelled only as the inverse of `Split`: the round-trip lemmas use it to
build replies from task lists.

Module `Reviewer` (`reviewer.dfy`) holds the task record, the specification
function `ParseResponse` and the method `ReviewTasks`. `ReviewTasks` keeps
the source's `for` loop and is proved equal to `ParseResponse`. Module
`ReviewerLemmas` (`reviewer_lemmas.dfy`) proves what the parser guarantees:

- which lines become tasks, and in what order;
- the shape of each id and name;
- how replies compose;
- that the `<id>. <name>` line format the prompt asks for round-trips.

The code differs from the intended protocol in two places, and the model
follows the code:

- The code never looks at the `Review: Can answer` / `Review: Must continue`
  marker line. Neither marker contains a `'.'`, so the parser drops it like
  any other dotless line. A bare "Can answer" reply yields an empty list. A
  "Can answer" reply that goes on with numbered lines still yields those
  tasks (`MarkerLineIgnored`). No "answerable" decision exists in this code.
- The parsed `task_id` is whatever text precedes the first `'.'`, kept as a
  string. It need not be a number: `"abc. x"` gives id `"abc"` and `". x"`
  gives id `""`.

## Model

| member | source | states |
|---|---|---|
| `Reviewer.ReviewTasks` | autolang/reviewer.py:37-50 | the id offered for new tasks is exactly `this_task_id + 1`; the pending names sent are the `task_name` fields of the pending tasks, in order and of the same length; completed tasks and context are passed through unchanged; the returned list is `ParseResponse(response)`, built by the line loop |
| `Reviewer.PendingNames` | autolang/reviewer.py:38 | the projection has the length of the pending list, and its i-th entry is the i-th task's name |
| `Reviewer.ParseLines` | autolang/reviewer.py:43-49 | a list of lines never yields more tasks than it has lines |
| `PyStr.Split` | autolang/reviewer.py:41 | `split('\n')` yields at least one piece, and no piece contains the separator |
| `PyStr.JoinSplit` | autolang/reviewer.py:41 | joining the pieces of a split with the separator restores the original string |
| `PyStr.SplitJoin` | autolang/reviewer.py:41 | splitting a join of one or more separator-free parts gives back exactly those parts |
| `PyStr.SplitAround` | autolang/reviewer.py:41 | the pieces of `x + sep + y` are the pieces of `x` followed by the pieces of `y` |
| `PyStr.SplitCount` | autolang/reviewer.py:41 | the number of pieces is the number of separators plus one |
| `PyStr.SplitFirstSpec` | autolang/reviewer.py:45 | `split('.', 1)` gives one part (the whole string) exactly when there is no `'.'`, and otherwise two parts, the first without `'.'`, that rebuild the string around one `'.'` |
| `PyStr.SplitFirstAt` | autolang/reviewer.py:45 | the two parts of `split('.', 1)` are the text before and the text after the first `'.'` |
| `PyStr.Strip` | autolang/reviewer.py:44-48 | the result of `strip()` has no whitespace at either end |
| `PyStr.StripInfix` | autolang/reviewer.py:44-48 | the result of `strip()` is an infix of the input, and everything around it is whitespace |
| `PyStr.StripOf` | autolang/reviewer.py:44-48 | `strip()` of a stripped string padded with whitespace on both sides is that string, so `Strip` is exactly Python's `strip()` |
| `PyStr.StripKeeps` | autolang/reviewer.py:44-45 | a non-whitespace character such as `'.'` occurs in the stripped line exactly when it occurs in the line |
| `PyStr.StripEmpty` | autolang/reviewer.py:44 | a line strips to the empty string exactly when it is all whitespace |
| `ReviewerLemmas.DotLines` | autolang/reviewer.py:41-49 | the indices of the dot-containing lines are in range, strictly increasing, and include a line exactly when it contains `'.'` |
| `ReviewerLemmas.ParseLineContributes` | autolang/reviewer.py:44-46 | a line yields a task if and only if it contains `'.'`, equivalently if and only if its stripped form is non-empty and contains `'.'`; whitespace-only lines yield nothing |
| `ReviewerLemmas.ParseLineFields` | autolang/reviewer.py:45-48 | for a contributing line, the id is the stripped text before the first `'.'` of the stripped line, and the name is the stripped text after it (it may hold further dots) |
| `ReviewerLemmas.ParsedLineCanonical` | autolang/reviewer.py:45-48 | a task from a newline-free line has stripped id and name, neither containing `'\n'`, and an id without `'.'` |
| `ReviewerLemmas.ParseFormatTask` | autolang/reviewer.py:45-48 | a canonical task written as `id + ". " + name` parses back to itself, including an empty id or an empty name |
| `ReviewerLemmas.ParseLinesAppend` | autolang/reviewer.py:43-49 | lines are parsed independently: the tasks of `a + b` are the tasks of `a` followed by those of `b` |
| `ReviewerLemmas.ParseLinesOrigins` | autolang/reviewer.py:43-49 | task k is what the k-th dot-containing line parses to, so there is one task per such line, in line order |
| `ReviewerLemmas.ParseResponseOrigins` | autolang/reviewer.py:41-49 | for a whole reply, the tasks correspond one-to-one, in order, to the `'\n'`-separated lines that contain `'.'`; task k comes from a strictly earlier line than task k+1 |
| `ReviewerLemmas.ParseResponseLength` | autolang/reviewer.py:41-49 | a reply never yields more tasks than it has lines, which is its number of `'\n'` plus one |
| `ReviewerLemmas.ParseResponseCanonical` | autolang/reviewer.py:41-48 | every returned id and name has no surrounding whitespace and no `'\n'`, and no id contains `'.'` |
| `ReviewerLemmas.ParseResponseConcat` | autolang/reviewer.py:41-49 | the tasks of `x + "\n" + y` are the tasks of `x` followed by the tasks of `y` |
| `ReviewerLemmas.ParseResponseEmpty` | autolang/reviewer.py:41-49 | a reply yields an empty list exactly when it contains no `'.'` at all |
| `ReviewerLemmas.DotlessLineDropped` | autolang/reviewer.py:44-46 | inserting a line without `'.'` between two parts of a reply changes nothing: the result is the tasks of the parts before and after it |
| `ReviewerLemmas.MarkerLineIgnored` | autolang/reviewer.py:41-49 | each template marker (`Review: Can answer`, `Review: Must continue`) yields no task on its own, and a marker line in front of further lines leaves their tasks unchanged |
| `ReviewerLemmas.RoundTrip` | autolang/reviewer.py:41-49 | tasks with stripped, newline-free fields and dot-free ids, written as `id. name` lines joined by `'\n'`, parse back to the identical list (the empty list included) |
| `ReviewerLemmas.ParseFormatLines` | autolang/reviewer.py:43-49 | the formatted lines of canonical tasks parse line by line back to those tasks |
| `ReviewerLemmas.ParseIdempotent` | autolang/reviewer.py:41-49 | reformatting the parsed tasks and parsing again gives the same list, so parsing is a normalisation |
| `ReviewerLemmas.ParseTwoTasks` | autolang/reviewer.py:41-49 | two canonical tasks on consecutive lines parse to exactly those two tasks |
| `ReviewerLemmas.MustContinueReply` | autolang/reviewer.py:41-49 | a `Review: Must continue` reply with two task lines around a dotless line parses to exactly those two tasks |

## Left out

- The language model call (autolang/reviewer.py:40) is non-deterministic and external. Its reply is the `response` parameter of `ReviewTasks`, and the keyword arguments of the call are returned as a `ReviewRequest` value.
- The prompt template, `reviewing_prompt` and `from_llm` (autolang/reviewer.py:5-35) are prompt-library plumbing. The template's marker lines appear as two constants, and its `#. task` format appears as `FormatTask`.
- Python's `int(this_task_id)` (autolang/reviewer.py:39) is not modelled: `thisTaskId` is an `int` parameter.
- `Reviewer.ReviewTasks` reads only the `task_name` of each pending task, as the source does. Pending records are modelled with the same `Task` type as parsed ones, so their id is a string here, whatever type the caller used. Because every pending record has a string `taskName`, the model does not capture the `KeyError` that `t["task_name"]` raises on a record without that key, nor names of other types. Those names reach only the model call, which is left out.
- Each Python dict is modelled as a `Task` datatype with exactly the two keys the parser writes.
- `Reviewer.ReviewTasks` strips each line once and reuses the result. The source calls `strip()` twice on the same line, which gives the same value.
- autolang/__main__.py (CLI input, model clients, tool loading, vector store, agent launch) is I/O and library wiring, not part of this model.
- The agent control loop (`AutoAgent`) is not part of this model. Its source is not among the files modelled.
- An "answerable versus continue" decision, and re-numbering of model-supplied ids, are not modelled: the code implements neither.
- Idempotence in the sense "parsing the same reply twice gives the same list" holds trivially for a Dafny function. The stronger normalisation property is stated as `ParseIdempotent`.
