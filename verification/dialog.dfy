/** The history dialog (`HistoryDialog`): it shows the history file one row
    per line, navigates the window to a clicked row, and rewrites the file
    after deleting the selected rows or all of them.
 */
module HistoryDialog {
  import opened Results
  import opened Text
  import opened Address
  import opened HistoryStore
  import opened Browser

  datatype Dialog = Dialog(rows: seq<string>)

  /** `show_history` / `load_history`: one stripped row per line of the file;
      a missing file makes opening the dialog fail. */
  function Show(w: Window): (r: Result<Dialog>)
    ensures r.Err? <==> w.history.None?
    ensures r.Ok? ==> |r.value.rows| == |Lines(Contents(w.history))|
    ensures r.Ok? ==> forall i :: 0 <= i < |r.value.rows| ==>
      r.value.rows[i] == Strip(Lines(Contents(w.history))[i])
    ensures r.Ok? ==> forall i :: 0 <= i < |r.value.rows| ==> IsRow(r.value.rows[i])
  {
    match Load(w.history)
    case Err(e) => Err(e)
    case Ok(rows) => Ok(Dialog(rows))
  }

  /** A click on a row hands the row's text to the window's `navigate_to_url`,
      which applies the address heuristic to it once more. */
  function ClickRow(w: Window, d: Dialog, i: nat): (r: Result<Window>)
    requires i < |d.rows|
    ensures r.Err? <==> CurrentTab(w).None?
    ensures r.Ok? ==> CurrentTab(r.value) == Some(Tab(Resolve(d.rows[i])))
    ensures r.Ok? ==> r.value.history == Append(w.history, Resolve(d.rows[i]))
    ensures r.Ok? ==> r.value.addressBar == w.addressBar
    ensures r.Ok? ==> |r.value.tabs| == |w.tabs| && r.value.current == w.current
    ensures r.Ok? ==> forall k :: 0 <= k < |w.tabs| && k != w.current ==> r.value.tabs[k] == w.tabs[k]
  {
    Navigate(w, d.rows[i])
  }

  /** After typed navigation, the dialog's last row is the stripped resolved
      address, and clicking it loads exactly that row: the second pass of the
      heuristic leaves it unchanged. */
  lemma RevisitLastRow(w: Window, text: string)
    requires Valid(w) && |w.tabs| > 0 && WellFormed(w.history) && '\n' !in text
    ensures var w1 := Navigate(w, text).value;
      var d := Show(w1);
      && d.Ok? && |d.value.rows| > 0
      && d.value.rows[|d.value.rows| - 1] == Strip(Resolve(text))
      && ClickRow(w1, d.value, |d.value.rows| - 1).Ok?
      && CurrentTab(ClickRow(w1, d.value, |d.value.rows| - 1).value) == Some(Tab(Strip(Resolve(text))))
  {
    NavigateRecordsOne(w, text);
    RevisitIsStable(text);
  }

  // ---------------------------------------------------------------------
  // Deleting selected rows
  // ---------------------------------------------------------------------

  /** The positions 0, 1, ..., n - 1. */
  function Range(n: nat): (r: seq<nat>)
    ensures |r| == n && forall i :: 0 <= i < n ==> r[i] == i
  {
    seq(n, i => i)
  }

  /** `xs` with the members of `gone` left out, the rest in their order. */
  function Without(xs: seq<nat>, gone: set<nat>): seq<nat> {
    if |xs| == 0 then [] else (if xs[0] in gone then [] else [xs[0]]) + Without(xs[1..], gone)
  }

  predicate Increasing(xs: seq<nat>) {
    forall i, j :: 0 <= i < j < |xs| ==> xs[i] < xs[j]
  }

  lemma {:induction false} WithoutMembers(xs: seq<nat>, gone: set<nat>)
    ensures forall x :: x in Without(xs, gone) <==> x in xs && x !in gone
  {
    if |xs| > 0 {
      WithoutMembers(xs[1..], gone);
      assert xs == [xs[0]] + xs[1..];
    }
  }

  lemma {:induction false} WithoutIncreasing(xs: seq<nat>, gone: set<nat>)
    requires Increasing(xs)
    ensures Increasing(Without(xs, gone))
  {
    if |xs| > 0 {
      WithoutIncreasing(xs[1..], gone);
      WithoutMembers(xs[1..], gone);
      var rest := Without(xs[1..], gone);
      forall y | y in rest
        ensures xs[0] < y
      {
        var k :| 0 <= k < |xs[1..]| && xs[1..][k] == y;
        assert xs[k + 1] == y;
      }
      if xs[0] !in gone {
        var r := Without(xs, gone);
        assert r == [xs[0]] + rest;
        forall i, j | 0 <= i < j < |r|
          ensures r[i] < r[j]
        {
          assert r[j] == rest[j - 1];
          if i > 0 {
            assert r[i] == rest[i - 1];
          } else {
            assert rest[j - 1] in rest;
          }
        }
      }
    }
  }

  lemma {:induction false} WithoutConcat(a: seq<nat>, b: seq<nat>, gone: set<nat>)
    ensures Without(a + b, gone) == Without(a, gone) + Without(b, gone)
  {
    if |a| > 0 {
      assert (a + b)[0] == a[0];
      assert (a + b)[1..] == a[1..] + b;
      WithoutConcat(a[1..], b, gone);
    } else {
      assert a + b == b;
    }
  }

  lemma {:induction false} WithoutNone(xs: seq<nat>, gone: set<nat>)
    requires forall i :: 0 <= i < |xs| ==> xs[i] !in gone
    ensures Without(xs, gone) == xs
  {
    if |xs| > 0 {
      WithoutNone(xs[1..], gone);
    }
  }

  lemma {:induction false} WithoutTwice(xs: seq<nat>, s: set<nat>, t: set<nat>)
    ensures Without(Without(xs, s), t) == Without(xs, s + t)
  {
    if |xs| > 0 {
      WithoutTwice(xs[1..], s, t);
      var head := if xs[0] in s then [] else [xs[0]];
      WithoutConcat(head, Without(xs[1..], s), t);
    }
  }

  /** Removing a set that holds `p` but nothing of `before` or `after`
      splices the two together. */
  lemma WithoutAround(before: seq<nat>, p: nat, after: seq<nat>, gone: set<nat>)
    requires p in gone
    requires forall i :: 0 <= i < |before| ==> before[i] !in gone
    requires forall i :: 0 <= i < |after| ==> after[i] !in gone
    ensures Without(before + ([p] + after), gone) == before + after
  {
    WithoutConcat(before, [p] + after, gone);
    WithoutNone(before, gone);
    assert ([p] + after)[1..] == after;
    assert Without([p] + after, gone) == Without(after, gone);
    WithoutNone(after, gone);
  }

  /** Taking out the item at `j`, whose value occurs nowhere else in the
      list, removes that value and nothing else. */
  lemma TakeOut(ys: seq<nat>, j: nat)
    requires j < |ys| && ys[j] !in ys[..j] && ys[j] !in ys[j + 1..]
    ensures ys[..j] + ys[j + 1..] == Without(ys, {ys[j]})
  {
    var before, p, after := ys[..j], ys[j], ys[j + 1..];
    assert forall i :: 0 <= i < |before| ==> before[i] !in {p} by {
      forall i | 0 <= i < |before| ensures before[i] != p { assert before[i] in before; }
    }
    assert forall i :: 0 <= i < |after| ==> after[i] !in {p} by {
      forall i | 0 <= i < |after| ensures after[i] != p { assert after[i] in after; }
    }
    Reassemble(ys, j);
    WithoutAround(before, p, after, {p});
  }

  lemma Reassemble(ys: seq<nat>, j: nat)
    requires j < |ys|
    ensures ys == ys[..j] + ([ys[j]] + ys[j + 1..])
  {
  }

  /** The first `k` selected positions, as a set. */
  function Taken(selected: seq<nat>, k: nat): (s: set<nat>)
    requires k <= |selected|
    ensures forall x :: x in s <==> x in selected[..k]
  {
    set i | 0 <= i < k :: selected[i]
  }

  /** `history_list.row(item)`: where the value `x` currently sits. */
  function Position(xs: seq<nat>, x: nat): (j: nat)
    requires x in xs
    ensures j < |xs| && xs[j] == x
  {
    if xs[0] == x then 0 else 1 + Position(xs[1..], x)
  }

  /** The rows at the given positions, in that order. */
  function Pick(rows: seq<string>, at: seq<nat>): (r: seq<string>)
    requires forall i :: 0 <= i < |at| ==> at[i] < |rows|
    ensures |r| == |at| && forall i :: 0 <= i < |at| ==> r[i] == rows[at[i]]
  {
    seq(|at|, i requires 0 <= i < |at| => rows[at[i]])
  }

  /** The reference meaning of deleting rows: the positions not selected, in
      increasing order, and exactly those. */
  lemma KeptPositions(n: nat, gone: set<nat>)
    ensures Increasing(Without(Range(n), gone))
    ensures forall x: nat :: x in Without(Range(n), gone) <==> x < n && x !in gone
  {
    WithoutIncreasing(Range(n), gone);
    WithoutMembers(Range(n), gone);
    forall x: nat
      ensures x in Range(n) <==> x < n
    {
      if x < n {
        assert Range(n)[x] == x;
      }
    }
  }

  lemma TakenStep(selected: seq<nat>, k: nat)
    requires k < |selected|
    ensures Taken(selected, k + 1) == Taken(selected, k) + {selected[k]}
  {
    assert selected[..k + 1] == selected[..k] + [selected[k]];
  }

  lemma NotYetTaken(selected: seq<nat>, k: nat)
    requires k < |selected|
    requires forall a, b :: 0 <= a < b < |selected| ==> selected[a] != selected[b]
    ensures selected[k] !in Taken(selected, k)
  {
  }

  /** Taking a still-listed row out of the list is deleting its position. */
  lemma TakeOutSelected(n: nat, gone: set<nat>, j: nat)
    requires j < |Without(Range(n), gone)|
    ensures var shown := Without(Range(n), gone);
      shown[..j] + shown[j + 1..] == Without(Range(n), gone + {shown[j]})
  {
    var shown := Without(Range(n), gone);
    KeptPositions(n, gone);
    assert shown[j] !in shown[..j] by {
      forall i | 0 <= i < j ensures shown[..j][i] != shown[j] { assert shown[..j][i] == shown[i]; }
    }
    assert shown[j] !in shown[j + 1..] by {
      forall i | j < i < |shown| ensures shown[i] != shown[j] { }
    }
    TakeOut(shown, j);
    WithoutTwice(Range(n), gone, {shown[j]});
  }

  /** `delete_selected`: each selected item is taken out of the list at the
      row it currently occupies, one after another, and the file is then
      rewritten with the rows left. `selected` holds the selected rows'
      original positions, each once, in whatever order the toolkit lists them.
      The outcome is the original rows minus the selected positions, in their
      original order, and the file reads back as exactly those rows. */
  method DeleteSelected(d: Dialog, selected: seq<nat>) returns (d': Dialog, file: File)
    requires forall k :: 0 <= k < |selected| ==> selected[k] < |d.rows|
    requires forall a, b :: 0 <= a < b < |selected| ==> selected[a] != selected[b]
    ensures var kept := Without(Range(|d.rows|), Taken(selected, |selected|));
      (forall i :: 0 <= i < |kept| ==> kept[i] < |d.rows|) && d'.rows == Pick(d.rows, kept)
    ensures |d'.rows| == |d.rows| - |selected|
    ensures file == Rewrite(d'.rows)
    ensures (forall i :: 0 <= i < |d.rows| ==> IsRow(d.rows[i])) ==> Load(file) == Ok(d'.rows)
  {
    var n := |d.rows|;
    var shown := Range(n);  // original positions of the rows still listed
    var k := 0;
    WithoutNone(shown, Taken(selected, 0));
    while k < |selected|
      invariant k <= |selected|
      invariant shown == Without(Range(n), Taken(selected, k))
      invariant |shown| == n - k
    {
      var p := selected[k];
      NotYetTaken(selected, k);
      KeptPositions(n, Taken(selected, k));
      var j := Position(shown, p);
      TakeOutSelected(n, Taken(selected, k), j);
      TakenStep(selected, k);
      shown := shown[..j] + shown[j + 1..];
      k := k + 1;
    }
    KeptPositions(n, Taken(selected, k));
    forall i | 0 <= i < |shown|
      ensures shown[i] < n
    {
      assert shown[i] in shown;
    }
    d' := Dialog(Pick(d.rows, shown));
    file := Rewrite(d'.rows);
    if forall i :: 0 <= i < |d.rows| ==> IsRow(d.rows[i]) {
      RewriteThenLoad(d'.rows);
    }
  }

  /** Deleting the middle one of three rows keeps the outer two, in order. */
  method DeleteMiddle(a: string, b: string, c: string) returns (rows: seq<string>)
    ensures rows == [a, c]
  {
    var d', file := DeleteSelected(Dialog([a, b, c]), [1]);
    assert [1][..1] == [1];
    assert Taken([1], 1) == {1};
    assert Range(3) == [0, 1, 2];
    assert Without(Range(3), {1}) == [0, 2];
    rows := d'.rows;
  }

  /** `delete_all`: the list is emptied and the file truncated. */
  function DeleteAll(d: Dialog): (r: (Dialog, File))
    ensures r.0.rows == [] && Load(r.1) == Ok([])
  {
    ClearedIsEmpty();
    (Dialog([]), Rewrite([]))
  }

  /** Deleting everything twice ends where deleting once does. */
  lemma DeleteAllIdempotent(d: Dialog)
    ensures DeleteAll(DeleteAll(d).0) == DeleteAll(d)
  {
  }
}
