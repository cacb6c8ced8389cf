/** What the reviewer's parser guarantees: which reply lines become tasks and in
    what order, what the id and name of a task look like, how replies compose,
    and that the `<id>. <name>` line format the prompt asks for parses back to
    the tasks it was written from. */
module ReviewerLemmas {
  import opened PyStr
  import opened Reviewer

  /** A task as the parser can return it: both fields stripped and on one
      line, and no '.' in the id. */
  predicate IsCanonicalTask(t: Task) {
    IsStripped(t.taskId) && IsStripped(t.taskName)
    && '.' !in t.taskId && '\n' !in t.taskId && '\n' !in t.taskName
  }

  /** The line format the prompt template asks the model to use. */
  function FormatTask(t: Task): string {
    t.taskId + ". " + t.taskName
  }

  function FormatLines(tasks: seq<Task>): (lines: seq<string>)
    ensures |lines| == |tasks|
  {
    if tasks == [] then [] else FormatLines(tasks[..|tasks| - 1]) + [FormatTask(tasks[|tasks| - 1])]
  }

  /** A reply listing `tasks`, one per line. */
  function FormatTasks(tasks: seq<Task>): string {
    Join(FormatLines(tasks), '\n')
  }

  /** The indices, in increasing order, of the lines that contain a '.'. */
  function DotLines(lines: seq<string>): (idx: seq<nat>)
    ensures forall k :: 0 <= k < |idx| ==> idx[k] < |lines|
    ensures forall k, l :: 0 <= k < l < |idx| ==> idx[k] < idx[l]
    ensures forall j :: 0 <= j < |lines| ==> ('.' in lines[j] <==> j in idx)
  {
    if lines == [] then []
    else
      var init := lines[..|lines| - 1];
      assert forall j :: 0 <= j < |init| ==> init[j] == lines[j];
      DotLines(init) + (if '.' in lines[|lines| - 1] then [|lines| - 1] else [])
  }

  // ---------------------------------------------------------------------
  // One line

  /** A line yields a task exactly when it contains a '.'; equivalently, when
      its stripped form is non-empty and contains a '.'. Blank lines and
      dotless lines yield nothing. */
  lemma ParseLineContributes(line: string)
    ensures ParseLine(line).Some? <==> '.' in line
    ensures ParseLine(line).Some? <==> Strip(line) != [] && '.' in Strip(line)
    ensures AllWs(line) ==> ParseLine(line) == None
  {
    StripEmpty(line);
    StripKeeps(line, '.');
    SplitFirstSpec(Strip(line), '.');
  }

  /** The id is the stripped text before the first '.' of the stripped line,
      the name the stripped text after it (which may contain more dots). */
  lemma ParseLineFields(line: string)
    requires '.' in line
    ensures var s := Strip(line);
            '.' in s &&
            var k := IndexOf(s, '.');
            ParseLine(line) == Some(Task(Strip(s[..k]), Strip(s[k + 1..])))
  {
    StripKeeps(line, '.');
    SplitFirstAt(Strip(line), '.');
  }

  /** A task parsed from a line without a newline is canonical. */
  lemma ParsedLineCanonical(line: string)
    requires '\n' !in line
    requires ParseLine(line).Some?
    ensures IsCanonicalTask(ParseLine(line).value)
  {
    var s := Strip(line);
    StripAvoids(line, '\n');
    var parts := SplitFirst(s, '.');
    SplitFirstSpec(s, '.');
    assert parts[0] + ['.'] + parts[1] == s;
    StripAvoids(parts[0], '.');
    StripAvoids(parts[0], '\n');
    StripAvoids(parts[1], '\n');
  }

  /** `split(sep, 1)` cuts at the first separator. */
  lemma {:induction false} SplitFirstOf(x: string, sep: char, y: string)
    requires sep !in x
    ensures SplitFirst(x + [sep] + y, sep) == [x, y]
    decreases |x|
  {
    var s := x + [sep] + y;
    if x == [] {
      assert s[1..] == y;
    } else {
      assert s[1..] == x[1..] + [sep] + y;
      SplitFirstOf(x[1..], sep, y);
      assert [x[0]] + x[1..] == x;
    }
  }

  /** A canonical task printed in the prompt's format parses back to itself. */
  lemma ParseFormatTask(t: Task)
    requires IsCanonicalTask(t)
    ensures ParseLine(FormatTask(t)) == Some(t)
  {
    var line := FormatTask(t);
    var id, name := t.taskId, t.taskName;
    var rest := if name == [] then [] else " " + name;
    if name == [] {
      assert line == [] + (id + ".") + " ";
      StripOf([], id + ".", " ");
    } else {
      StripStripped(line);
    }
    assert Strip(line) == id + ['.'] + rest;
    SplitFirstOf(id, '.', rest);
    StripStripped(id);
    if name != [] {
      assert rest == " " + name + [];
      StripOf(" ", name, []);
    }
  }

  // ---------------------------------------------------------------------
  // Sequences of lines

  /** Lines are parsed independently: the tasks of `a + b` are the tasks of
      `a` followed by the tasks of `b`. */
  lemma {:induction false} ParseLinesAppend(a: seq<string>, b: seq<string>)
    ensures ParseLines(a + b) == ParseLines(a) + ParseLines(b)
    decreases |b|
  {
    if b == [] {
      assert a + b == a;
    } else {
      var b' := b[..|b| - 1];
      assert (a + b)[..|a + b| - 1] == a + b';
      ParseLinesAppend(a, b');
    }
  }

  /** Task k comes from the k-th line that contains a '.', so tasks appear in
      line order and there is one task per such line. */
  lemma {:induction false} ParseLinesOrigins(lines: seq<string>)
    ensures |ParseLines(lines)| == |DotLines(lines)|
    ensures forall k :: 0 <= k < |DotLines(lines)| ==>
              ParseLine(lines[DotLines(lines)[k]]) == Some(ParseLines(lines)[k])
  {
    if lines != [] {
      var n := |lines|;
      var init, last := lines[..n - 1], lines[n - 1];
      ParseLinesOrigins(init);
      ParseLineContributes(last);
      var tasks, idx := ParseLines(lines), DotLines(lines);
      assert tasks == ParseLines(init) + LineTasks(last);
      assert idx == DotLines(init) + (if '.' in last then [n - 1] else []);
      forall k | 0 <= k < |idx|
        ensures ParseLine(lines[idx[k]]) == Some(tasks[k])
      {
        if k < |DotLines(init)| {
          assert lines[DotLines(init)[k]] == init[DotLines(init)[k]];
        }
      }
    }
  }

  lemma {:induction false} ParseLinesCanonical(lines: seq<string>)
    requires forall j :: 0 <= j < |lines| ==> '\n' !in lines[j]
    ensures forall k :: 0 <= k < |ParseLines(lines)| ==> IsCanonicalTask(ParseLines(lines)[k])
  {
    if lines != [] {
      var last := lines[|lines| - 1];
      ParseLinesCanonical(lines[..|lines| - 1]);
      if ParseLine(last).Some? {
        ParsedLineCanonical(last);
      }
    }
  }

  // ---------------------------------------------------------------------
  // Whole replies

  /** The tasks of a reply come from its dot-containing lines, one each and in
      order; `DotLines` says those lines are exactly the ones with a '.'. */
  lemma ParseResponseOrigins(response: string)
    ensures var lines := Split(response, '\n');
            |ParseResponse(response)| == |DotLines(lines)| &&
            forall k :: 0 <= k < |DotLines(lines)| ==>
              ParseLine(lines[DotLines(lines)[k]]) == Some(ParseResponse(response)[k])
  {
    ParseLinesOrigins(Split(response, '\n'));
  }

  /** There are never more tasks than reply lines, i.e. than newlines plus one. */
  lemma ParseResponseLength(response: string)
    ensures |ParseResponse(response)| <= |Split(response, '\n')| == multiset(response)['\n'] + 1
  {
    SplitCount(response, '\n');
  }

  /** Every returned task is canonical: id and name stripped and newline-free,
      no '.' in the id. */
  lemma ParseResponseCanonical(response: string)
    ensures forall k :: 0 <= k < |ParseResponse(response)| ==> IsCanonicalTask(ParseResponse(response)[k])
  {
    ParseLinesCanonical(Split(response, '\n'));
  }

  /** Replies compose line-wise. */
  lemma ParseResponseConcat(x: string, y: string)
    ensures ParseResponse(x + "\n" + y) == ParseResponse(x) + ParseResponse(y)
  {
    SplitAround(x, '\n', y);
    ParseLinesAppend(Split(x, '\n'), Split(y, '\n'));
  }

  /** A single line parses to what `ParseLine` makes of it. */
  lemma ParseResponseLine(line: string)
    requires '\n' !in line
    ensures ParseResponse(line) == LineTasks(line)
  {
    SplitNoSep(line, '\n');
    assert ParseLines([line]) == ParseLines([]) + LineTasks(line);
  }

  /** A reply yields no task at all exactly when it contains no '.'. */
  lemma {:induction false} ParseResponseEmpty(response: string)
    ensures ParseResponse(response) == [] <==> '.' !in response
    decreases |response|
  {
    if '\n' !in response {
      ParseResponseLine(response);
      ParseLineContributes(response);
    } else {
      var k := IndexOf(response, '\n');
      var x, y := response[..k], response[k + 1..];
      assert response == x + "\n" + y;
      ParseResponseConcat(x, y);
      ParseResponseEmpty(x);
      ParseResponseEmpty(y);
    }
  }

  /** A line without a '.' between two parts of a reply disturbs neither. */
  lemma DotlessLineDropped(x: string, m: string, y: string)
    requires '.' !in m
    ensures ParseResponse(x + "\n" + m + "\n" + y) == ParseResponse(x) + ParseResponse(y)
    ensures ParseResponse(x + "\n" + m + "\n" + y) == ParseResponse(x + "\n" + y)
  {
    var r := m + "\n" + y;
    assert x + "\n" + m + "\n" + y == x + "\n" + r;
    ParseResponseEmpty(m);
    ParseResponseConcat(m, y);
    assert ParseResponse(r) == ParseResponse(y);
    ParseResponseConcat(x, r);
    ParseResponseConcat(x, y);
  }

  /** The two marker lines of the prompt template contain no '.', so the
      parser drops them like any other line: a bare "Can answer" reply gives
      an empty list, and a marker does not stop the lines after it from being
      parsed. */
  lemma MarkerLineIgnored(marker: string, rest: string)
    requires marker == CanAnswerMarker || marker == MustContinueMarker
    ensures ParseResponse(marker) == []
    ensures ParseResponse(marker + "\n" + rest) == ParseResponse(rest)
  {
    assert forall i :: 0 <= i < |marker| ==> marker[i] != '.';
    ParseResponseEmpty(marker);
    ParseResponseConcat(marker, rest);
  }

  /** Round trip: canonical tasks written one per line as `<id>. <name>` parse
      back to the same list. */
  lemma RoundTrip(tasks: seq<Task>)
    requires forall k :: 0 <= k < |tasks| ==> IsCanonicalTask(tasks[k])
    ensures ParseResponse(FormatTasks(tasks)) == tasks
  {
    var lines := FormatLines(tasks);
    ParseFormatLines(tasks);
    if tasks == [] {
      assert ParseLines([[]]) == ParseLines([]) + LineTasks([]);
    } else {
      FormatLinesSingleLine(tasks);
      SplitJoin(lines, '\n');
    }
  }

  lemma {:induction false} ParseFormatLines(tasks: seq<Task>)
    requires forall k :: 0 <= k < |tasks| ==> IsCanonicalTask(tasks[k])
    ensures ParseLines(FormatLines(tasks)) == tasks
  {
    if tasks != [] {
      var n := |tasks|;
      var lines := FormatLines(tasks);
      ParseFormatLines(tasks[..n - 1]);
      ParseFormatTask(tasks[n - 1]);
      assert lines[..n - 1] == FormatLines(tasks[..n - 1]);
      assert LineTasks(lines[n - 1]) == [tasks[n - 1]];
      assert ParseLines(lines) == tasks[..n - 1] + [tasks[n - 1]];
      assert tasks == tasks[..n - 1] + [tasks[n - 1]];
    }
  }

  lemma {:induction false} FormatLinesSingleLine(tasks: seq<Task>)
    requires forall k :: 0 <= k < |tasks| ==> IsCanonicalTask(tasks[k])
    ensures forall j :: 0 <= j < |tasks| ==> '\n' !in FormatLines(tasks)[j]
  {
    if tasks != [] {
      FormatLinesSingleLine(tasks[..|tasks| - 1]);
    }
  }

  /** Parsing is a normalisation: re-formatting the parsed tasks and parsing
      again gives the same list. */
  lemma ParseIdempotent(response: string)
    ensures ParseResponse(FormatTasks(ParseResponse(response))) == ParseResponse(response)
  {
    ParseResponseCanonical(response);
    RoundTrip(ParseResponse(response));
  }

  /** Two canonical tasks written on consecutive lines parse back to them. */
  lemma ParseTwoTasks(t1: Task, t2: Task)
    requires IsCanonicalTask(t1) && IsCanonicalTask(t2)
    ensures ParseResponse(FormatTask(t1) + "\n" + FormatTask(t2)) == [t1, t2]
  {
    var l1, l2 := FormatTask(t1), FormatTask(t2);
    assert FormatLines([t1, t2]) == [l1, l2] by {
      assert [t1, t2][..1] == [t1];
    }
    assert FormatTasks([t1, t2]) == l1 + "\n" + l2 by {
      var ls := [l1, l2];
      assert ls[1..] == [l2];
      assert Join(ls, '\n') == l1 + ['\n'] + Join([l2], '\n');
    }
    RoundTrip([t1, t2]);
  }

  /** A "Must continue" reply listing two tasks with a dotless line between
      them parses to exactly those two tasks. */
  lemma MustContinueReply(t1: Task, m: string, t2: Task)
    requires IsCanonicalTask(t1) && IsCanonicalTask(t2) && '.' !in m
    ensures ParseResponse(MustContinueMarker + "\n" + FormatTask(t1) + "\n" + m + "\n" + FormatTask(t2))
            == [t1, t2]
  {
    var l1, l2 := FormatTask(t1), FormatTask(t2);
    var body := l1 + "\n" + m + "\n" + l2;
    assert MustContinueMarker + "\n" + l1 + "\n" + m + "\n" + l2 == MustContinueMarker + "\n" + body;
    MarkerLineIgnored(MustContinueMarker, body);
    DotlessLineDropped(l1, m, l2);
    ParseTwoTasks(t1, t2);
  }
}
