/** The row logic of `export_tasks_csv` and `import_tasks_csv`, over rows that
    are already split into fields. */
module Csv {
  import opened Tasks
  import opened Text

  /** The header row export writes first. */
  const Header: seq<string> := ["Title", "Description", "Due Date", "Priority", "Completed", "Category"]

  /** The words import reads as completed, after stripping and lower-casing:
      "yes", "true" and "1". */
  predicate IsCompletedWord(w: string) {
    w == "yes" || w == "true" || w == "1"
  }

  /** How export writes the completed flag. */
  function CompletedText(completed: bool): (r: string)
    ensures r == "Yes" || r == "No"
  {
    if completed then "Yes" else "No"
  }

  /** The six fields export writes for one task. */
  function ExportRow(t: Task): (r: seq<string>)
    ensures |r| == |Header|
  {
    [t.title, t.description, t.dueDate, t.priority, CompletedText(t.completed), t.category]
  }

  /** Everything export writes: the header, then one row per task in order. */
  function ExportRows(ts: seq<Task>): (r: seq<seq<string>>)
    ensures |r| == |ts| + 1 && r[0] == Header
    ensures forall i :: 0 <= i < |ts| ==> r[i + 1] == ExportRow(ts[i])
  {
    [Header] + seq(|ts|, i requires 0 <= i < |ts| => ExportRow(ts[i]))
  }

  /** The rows import looks at: `next(reader, None)` always consumes the first
      row, header or not. */
  function Body(rows: seq<seq<string>>): (r: seq<seq<string>>)
    ensures |r| == if rows == [] then 0 else |rows| - 1
    ensures forall i :: 0 <= i < |r| ==> r[i] == rows[i + 1]
  {
    if rows == [] then [] else rows[1..]
  }

  /** `completed_str.strip().lower() in ["yes", "true", "1"]`: a field that
      is blank once stripped reads as not completed. */
  function ParseCompleted(s: string): (r: bool)
    ensures r ==> Strip(s) != []
  {
    IsCompletedWord(Lower(Strip(s)))
  }

  /** What import makes of one row: nothing for fewer than six fields or a
      blank title; otherwise a new, unsaved task from the first six fields,
      each stripped. */
  function ParseRow(row: seq<string>): (r: Option<Task>)
    ensures r.Some? <==> |row| >= 6 && Strip(row[0]) != []
    ensures r.Some? ==> r.value.id == None && r.value.completed == ParseCompleted(row[4])
  {
    if |row| < 6 then None
    else if Strip(row[0]) == [] then None
    else Some(Task(None, Strip(row[0]), Strip(row[1]), Strip(row[2]), Strip(row[3]),
                   ParseCompleted(row[4]), Strip(row[5])))
  }

  /** A task import could produce: a non-blank title and every text field free
      of surrounding whitespace. */
  predicate Clean(t: Task) {
    && t.title != [] && IsTrimmed(t.title) && IsTrimmed(t.description) && IsTrimmed(t.dueDate)
    && IsTrimmed(t.priority) && IsTrimmed(t.category)
  }

  /** A task import makes has a non-blank title and no surrounding whitespace
      in any field. */
  lemma ParseRowClean(row: seq<string>)
    ensures ParseRow(row).Some? ==> Clean(ParseRow(row).value)
  {
    if ParseRow(row).Some? {
      StripTrimmed(row[0]);
      StripTrimmed(row[1]);
      StripTrimmed(row[2]);
      StripTrimmed(row[3]);
      StripTrimmed(row[5]);
    }
  }

  /** What import adds for one row: the task it parses to, or nothing. */
  function Added(row: seq<string>): (r: seq<Task>)
    ensures |r| <= 1 && (r != [] <==> ParseRow(row).Some?)
  {
    if ParseRow(row).Some? then [ParseRow(row).value] else []
  }

  /** The tasks import adds for `rows`, in order. */
  function ParseRows(rows: seq<seq<string>>): (r: seq<Task>)
    ensures |r| <= |rows|
  {
    if rows == [] then [] else Added(rows[0]) + ParseRows(rows[1..])
  }

  /** The count import reports: the rows it accepted. */
  function Accepted(rows: seq<seq<string>>): (n: nat)
    ensures n <= |rows|
  {
    if rows == [] then 0 else (if ParseRow(rows[0]).Some? then 1 else 0) + Accepted(rows[1..])
  }

  // ---------------------------------------------------------------------------
  // Import

  /** Every task import adds is new (no id) and clean. */
  lemma {:induction false} ParseRowsClean(rows: seq<seq<string>>)
    ensures forall t :: t in ParseRows(rows) ==> t.id == None && Clean(t)
  {
    if rows != [] {
      ParseRowsClean(rows[1..]);
      ParseRowClean(rows[0]);
      assert ParseRows(rows) == Added(rows[0]) + ParseRows(rows[1..]);
    }
  }

  /** The reported count is the number of tasks added. */
  lemma {:induction false} AcceptedCountsAdded(rows: seq<seq<string>>)
    ensures Accepted(rows) == |ParseRows(rows)|
  {
    if rows != [] {
      AcceptedCountsAdded(rows[1..]);
    }
  }

  /** Import handles rows one at a time: a further row adds what that row
      alone adds. */
  lemma {:induction false} ParseRowsSnoc(rows: seq<seq<string>>, row: seq<string>)
    ensures ParseRows(rows + [row]) == ParseRows(rows) + Added(row)
  {
    if rows == [] {
      assert rows + [row] == [row];
      assert [row][1..] == [];
    } else {
      var tail := rows[1..];
      assert (rows + [row])[0] == rows[0];
      assert (rows + [row])[1..] == tail + [row];
      ParseRowsSnoc(tail, row);
    }
  }

  /** The same, for the first `i + 1` rows of a file. */
  lemma ParseRowsStep(rows: seq<seq<string>>, i: int)
    requires 0 <= i < |rows|
    ensures ParseRows(rows[..i + 1]) == ParseRows(rows[..i]) + Added(rows[i])
  {
    assert rows[..i + 1] == rows[..i] + [rows[i]];
    ParseRowsSnoc(rows[..i], rows[i]);
  }

  /** Rows with fewer than six fields, or with a blank title, add nothing. */
  lemma RejectedRowsAddNothing(rows: seq<seq<string>>, row: seq<string>)
    requires |row| < 6 || (forall i :: 0 <= i < |row[0]| ==> IsSpace(row[0][i]))
    ensures ParseRows(rows + [row]) == ParseRows(rows)
  {
    if |row| >= 6 {
      AllSpaceAt(row[0]);
      StripEmpty(row[0]);
    }
    ParseRowsSnoc(rows, row);
  }

  /** "Yes" and "No", as export writes them, read back as true and false. */
  lemma ParseCompletedYesNo()
    ensures ParseCompleted("Yes") && !ParseCompleted("No")
  {
    assert Strip("Yes") == "Yes";
    assert Strip("No") == "No";
  }

  /** Case does not matter: "TRUE" reads as completed. */
  lemma ParseCompletedUpperCase()
    ensures ParseCompleted("TRUE")
  {
    assert Strip("TRUE") == "TRUE";
  }

  /** Surrounding whitespace does not matter: " True " reads as completed. */
  lemma ParseCompletedPadded()
    ensures ParseCompleted(" True ")
  {
    assert TrimStart(" True ") == "True ";
    assert TrimEnd("True ") == "True";
    assert Lower("True") == "true";
  }

  /** "1" reads as completed; "0" and the empty field do not. */
  lemma ParseCompletedDigits()
    ensures ParseCompleted("1") && !ParseCompleted("0") && !ParseCompleted("")
  {
    assert Strip("") == "";
    assert Strip("1") == "1";
    assert Strip("0") == "0";
  }

  /** A row of at least six fields whose title is not empty, and whose fields
      other than the completed one have no surrounding whitespace, is
      imported exactly as written. */
  lemma TrimmedRowParses(row: seq<string>)
    requires |row| >= 6 && row[0] != []
    requires IsTrimmed(row[0]) && IsTrimmed(row[1]) && IsTrimmed(row[2]) && IsTrimmed(row[3]) && IsTrimmed(row[5])
    ensures ParseRow(row) == Some(Task(None, row[0], row[1], row[2], row[3], ParseCompleted(row[4]), row[5]))
  {
    StripFixedPoint(row[0]);
    StripFixedPoint(row[1]);
    StripFixedPoint(row[2]);
    StripFixedPoint(row[3]);
    StripFixedPoint(row[5]);
  }

  /** A file holding one task row after the header imports exactly that task,
      with its fields as written. */
  lemma ImportOneRowExample()
    ensures ParseRows(Body([Header, ["Milk", "", "2024-01-01", "Low", "No", ""]]))
         == [Task(None, "Milk", "", "2024-01-01", "Low", false, "")]
  {
    var row: seq<string> := ["Milk", "", "2024-01-01", "Low", "No", ""];
    assert Body([Header, row]) == [row];
    assert row[0] == "Milk" && row[1] == "" && row[2] == "2024-01-01" && row[3] == "Low";
    assert row[4] == "No" && row[5] == "";
    TrimmedRowParses(row);
    ParseCompletedYesNo();
    assert Added(row) == [Task(None, "Milk", "", "2024-01-01", "Low", false, "")];
    assert ParseRows([row]) == Added(row) + ParseRows([]);
  }

  // ---------------------------------------------------------------------------
  // Export, then import

  /** What an exported task becomes after import: its fields stripped, its
      completed flag kept, its id gone. */
  function Reimported(t: Task): (r: Task)
    ensures r.id == None && r.completed == t.completed
  {
    Task(None, Strip(t.title), Strip(t.description), Strip(t.dueDate), Strip(t.priority),
         t.completed, Strip(t.category))
  }

  /** The tasks an export-then-import keeps: those with a non-blank title. */
  function Survivors(ts: seq<Task>): (r: seq<Task>)
    ensures |r| <= |ts|
    ensures forall u :: u in r ==> u.id == None
  {
    if ts == [] then []
    else (if Strip(ts[0].title) != [] then [Reimported(ts[0])] else []) + Survivors(ts[1..])
  }

  /** "Yes" and "No" read back as the flag they were written for. */
  lemma CompletedRoundTrip(b: bool)
    ensures ParseCompleted(CompletedText(b)) == b
  {
    ParseCompletedYesNo();
  }

  /** Export writes rows of six fields after the header, so import skips none
      of them for their length; the tasks it adds are the exported tasks with
      non-blank titles, in order, their fields stripped and their completed
      flag kept. */
  lemma {:induction false} ImportOfExport(ts: seq<Task>)
    ensures ParseRows(Body(ExportRows(ts))) == Survivors(ts)
  {
    var body := seq(|ts|, i requires 0 <= i < |ts| => ExportRow(ts[i]));
    assert Body(ExportRows(ts)) == body;
    if ts != [] {
      assert body[1..] == Body(ExportRows(ts[1..]));
      ImportOfExport(ts[1..]);
      CompletedRoundTrip(ts[0].completed);
    }
  }

  /** A stripped field is kept by a second strip, so a clean task survives
      the round trip unchanged but for its id. */
  lemma ReimportedClean(t: Task)
    requires Clean(t)
    ensures Reimported(t) == t.(id := None)
  {
    StripFixedPoint(t.title);
    StripFixedPoint(t.description);
    StripFixedPoint(t.dueDate);
    StripFixedPoint(t.priority);
    StripFixedPoint(t.category);
  }

  /** Round trip: exporting tasks that have non-blank titles and no
      surrounding whitespace, then importing the result, gives back every
      task, in order, with the same fields and completed flag, and no id. */
  lemma {:induction false} RoundTrip(ts: seq<Task>)
    requires forall i :: 0 <= i < |ts| ==> Clean(ts[i])
    ensures ParseRows(Body(ExportRows(ts))) == seq(|ts|, i requires 0 <= i < |ts| => ts[i].(id := None))
  {
    ImportOfExport(ts);
    SurvivorsOfClean(ts);
  }

  /** Clean tasks all survive the round trip, unchanged but for their ids. */
  lemma SurvivorsOfClean(ts: seq<Task>)
    requires forall i :: 0 <= i < |ts| ==> Clean(ts[i])
    ensures Survivors(ts) == seq(|ts|, i requires 0 <= i < |ts| => ts[i].(id := None))
  {
    SurvivorsOfCleanAt(ts);
  }

  /** The same, one position at a time. */
  lemma {:induction false} SurvivorsOfCleanAt(ts: seq<Task>)
    requires forall i :: 0 <= i < |ts| ==> Clean(ts[i])
    ensures |Survivors(ts)| == |ts|
    ensures forall i :: 0 <= i < |ts| ==> Survivors(ts)[i] == ts[i].(id := None)
  {
    if ts != [] {
      var rest := ts[1..];
      assert forall i :: 0 <= i < |rest| ==> rest[i] == ts[i + 1];
      SurvivorsOfCleanAt(rest);
      ReimportedClean(ts[0]);
      StripFixedPoint(ts[0].title);
      assert Survivors(ts) == [ts[0].(id := None)] + Survivors(rest);
    }
  }

  /** Import of what import produced, exported again, is stable: a second
      round trip changes nothing. */
  lemma RoundTripStable(rows: seq<seq<string>>)
    ensures var once := ParseRows(Body(rows));
            ParseRows(Body(ExportRows(once))) == once
  {
    var once := ParseRows(Body(rows));
    ParseRowsClean(Body(rows));
    RoundTrip(once);
    assert seq(|once|, i requires 0 <= i < |once| => once[i].(id := None)) == once;
  }
}
