/** The browsing-history file `history.txt`, one address per line.

    The shell appends to it on typed navigation and on every address change
    a tab reports (`add_to_history`, `navigate_to_url`), reads it line by line
    when the history dialog opens, and rewrites it whole when the dialog
    deletes rows. The file is modelled as its text; `None` stands for a file
    that does not exist yet.
 */
module HistoryStore {
  import opened Results
  import opened Text

  type File = Option<string>

  /** What reading the file sees; a missing file reads as nothing only for appending. */
  function Contents(f: File): string {
    match f
    case None => ""
    case Some(text) => text
  }

  /** The file holds complete lines only. */
  predicate WellFormed(f: File) {
    EndsLine(Contents(f))
  }

  /** A row as the history dialog shows it: stripped and on a single line. */
  predicate IsRow(s: string) {
    IsStripped(s) && '\n' !in s
  }

  /** Opening in append mode creates a missing file, then writes `url` and a line break. */
  function Append(f: File, url: string): (g: File)
    ensures g.Some? && WellFormed(g)
    ensures Contents(f) <= Contents(g) && |Contents(g)| == |Contents(f)| + |url| + 1
  {
    Some(Contents(f) + url + "\n")
  }

  /** Each line, stripped. */
  function StripAll(ls: seq<string>): (rows: seq<string>)
    ensures |rows| == |ls|
    ensures forall i :: 0 <= i < |ls| ==> rows[i] == Strip(ls[i])
  {
    seq(|ls|, i requires 0 <= i < |ls| => Strip(ls[i]))
  }

  lemma StripAllAppend(a: seq<string>, b: seq<string>)
    ensures StripAll(a + b) == StripAll(a) + StripAll(b)
  {
    var l, r := StripAll(a + b), StripAll(a) + StripAll(b);
    forall i | 0 <= i < |l|
      ensures l[i] == r[i]
    {
      if i < |a| {
        calc {
          l[i];
          Strip((a + b)[i]);
          { assert (a + b)[i] == a[i]; }
          Strip(a[i]);
          StripAll(a)[i];
          r[i];
        }
      } else {
        calc {
          l[i];
          Strip((a + b)[i]);
          { assert (a + b)[i] == b[i - |a|]; }
          Strip(b[i - |a|]);
          StripAll(b)[i - |a|];
          r[i];
        }
      }
    }
    assert l == r;
  }

  /** The rows a reader of the file sees: every line, stripped. */
  function Entries(f: File): (rows: seq<string>)
    ensures |rows| == |Lines(Contents(f))|
    ensures forall i :: 0 <= i < |rows| ==> rows[i] == Strip(Lines(Contents(f))[i])
    ensures forall i :: 0 <= i < |rows| ==> IsRow(rows[i])
  {
    var ls := Lines(Contents(f));
    LinesShape(Contents(f));
    forall i | 0 <= i < |ls|
      ensures IsRow(Strip(ls[i]))
    {
      StripLineBreak(ls[i], i == |ls| - 1);
    }
    StripAll(ls)
  }

  /** `load_history`: reading a missing file raises, otherwise every line is stripped. */
  function Load(f: File): (r: Result<seq<string>>)
    ensures r.Err? <==> f.None?
    ensures r.Err? ==> r.error == HistoryFileMissing
    ensures r.Ok? ==> |r.value| == |Lines(Contents(f))|
    ensures r.Ok? ==> forall i :: 0 <= i < |r.value| ==> r.value[i] == Strip(Lines(Contents(f))[i])
    ensures r.Ok? ==> forall i :: 0 <= i < |r.value| ==> IsRow(r.value[i])
  {
    if f.None? then Err(HistoryFileMissing) else Ok(Entries(f))
  }

  /** The text written when the file is rewritten with `rows`, each followed by '\n'. */
  function Render(rows: seq<string>): (text: string)
    ensures EndsLine(text)
    ensures |rows| == 0 <==> |text| == 0
  {
    if |rows| == 0 then "" else rows[0] + "\n" + Render(rows[1..])
  }

  /** Opening in write mode and writing `rows` (`delete_selected`; `delete_all` writes none). */
  function Rewrite(rows: seq<string>): (f: File)
    ensures f.Some? && WellFormed(f)
  {
    Some(Render(rows))
  }

  /** Appending a single-line address adds exactly one row, the stripped
      address, after the rows already there. */
  lemma AppendThenLoad(f: File, url: string)
    requires WellFormed(f) && '\n' !in url
    ensures Load(Append(f, url)) == Ok(Entries(f) + [Strip(url)])
  {
    var text, g := Contents(f), Append(f, url);
    assert Lines(Contents(g)) == Lines(text) + [url + "\n"] by {
      assert Contents(g) == text + (url + "\n");
      LinesAppend(text, url + "\n");
      LinesOfOne(url);
    }
    assert StripAll([url + "\n"]) == [Strip(url)] by {
      StripBreak(url);
    }
    calc {
      Entries(g);
      StripAll(Lines(Contents(g)));
      StripAll(Lines(text) + [url + "\n"]);
    == { StripAllAppend(Lines(text), [url + "\n"]); }
      StripAll(Lines(text)) + StripAll([url + "\n"]);
      Entries(f) + [Strip(url)];
    }
  }

  /** Appending a clean row and reading the file back ends with that very row. */
  lemma AppendLastRow(f: File, url: string)
    requires WellFormed(f) && IsRow(url)
    ensures Load(Append(f, url)).Ok?
    ensures var rows := Load(Append(f, url)).value;
      |rows| > 0 && rows[|rows| - 1] == url
  {
    AppendThenLoad(f, url);
    StripStripped(url);
  }

  /** Each row followed by its line break. */
  function Terminated(rows: seq<string>): (ls: seq<string>)
    ensures |ls| == |rows|
  {
    seq(|rows|, i requires 0 <= i < |rows| => rows[i] + "\n")
  }

  lemma TerminatedStep(rows: seq<string>)
    requires |rows| > 0
    ensures Terminated(rows) == [rows[0] + "\n"] + Terminated(rows[1..])
  {
  }

  /** Rewritten rows are read back line for line. */
  lemma {:induction false} LinesOfRender(rows: seq<string>)
    requires forall i :: 0 <= i < |rows| ==> '\n' !in rows[i]
    ensures Lines(Render(rows)) == Terminated(rows)
  {
    if |rows| > 0 {
      var first := rows[0] + "\n";
      calc {
        Lines(Render(rows));
        Lines(first + Render(rows[1..]));
      == { LinesAppend(first, Render(rows[1..])); }
        Lines(first) + Lines(Render(rows[1..]));
      == { LinesOfOne(rows[0]); LinesOfRender(rows[1..]); }
        [first] + Terminated(rows[1..]);
      == { TerminatedStep(rows); }
        Terminated(rows);
      }
    }
  }

  /** Rewriting the file with rows the dialog showed and reading it again gives
      back exactly those rows, in the same order. */
  lemma RewriteThenLoad(rows: seq<string>)
    requires forall i :: 0 <= i < |rows| ==> IsRow(rows[i])
    ensures Load(Rewrite(rows)) == Ok(rows)
  {
    LinesOfRender(rows);
    var back := Entries(Rewrite(rows));
    forall i | 0 <= i < |rows|
      ensures back[i] == rows[i]
    {
      StripLine(rows[i]);
    }
    assert back == rows;
  }

  /** A file rewritten with no rows reads back empty, whatever it held before. */
  lemma ClearedIsEmpty()
    ensures Load(Rewrite([])) == Ok([])
  {
  }
}
