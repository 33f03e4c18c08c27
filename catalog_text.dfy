/**
 * The text side of the editor's catalog: the add box's joined line, the
 * file lines turned into rows, and the lines a save writes.
 */
module CatalogText {
  import opened Wrappers

  /** `Collectors.joining(sep)`: the texts in order with `sep` between neighbours. */
  function Join(xs: seq<string>, sep: string): string
  {
    if xs == [] then ""
    else if |xs| == 1 then xs[0]
    else xs[0] + sep + Join(xs[1..], sep)
  }

  /** The first position of c in s. */
  function IndexOf(s: string, c: char): (k: nat)
    requires c in s
    ensures k < |s| && s[k] == c && forall j :: 0 <= j < k ==> s[j] != c
  {
    if s[0] == c then 0 else IndexOf(s[1..], c) + 1
  }

  /** Cuts s at each c; the inverse of Join for a one-character separator (see SplitJoin). */
  function Split(s: string, c: char): (parts: seq<string>)
    ensures |parts| >= 1
    decreases |s|
  {
    if c in s then
      var k := IndexOf(s, c);
      [s[..k]] + Split(s[k + 1..], c)
    else
      [s]
  }

  /**
   * Joining with a one-character separator that occurs in no text can be
   * undone: cutting the line at the separator gives back the texts.
   */
  lemma {:induction false} SplitJoin(xs: seq<string>, c: char)
    requires |xs| >= 1
    requires forall i :: 0 <= i < |xs| ==> c !in xs[i]
    ensures Split(Join(xs, [c]), c) == xs
  {
    if |xs| > 1 {
      var rest := Join(xs[1..], [c]);
      var line := xs[0] + [c] + rest;
      assert line[|xs[0]|] == c;
      var k := IndexOf(line, c);
      assert k == |xs[0]|;
      assert line[..k] == xs[0];
      assert line[k + 1..] == rest;
      SplitJoin(xs[1..], c);
    }
  }

  /** `lines.map(newInstance).filter(row -> row != null)`: the rows of the lines that parse, in line order. */
  function Parsed<Row>(lines: seq<string>, newInstance: string -> Option<Row>): seq<Row>
  {
    if lines == [] then []
    else
      (match newInstance(lines[0]) case Some(r) => [r] case None => []) + Parsed(lines[1..], newInstance)
  }

  lemma {:induction false} ParsedAppend<Row>(a: seq<string>, b: seq<string>, newInstance: string -> Option<Row>)
    ensures Parsed(a + b, newInstance) == Parsed(a, newInstance) + Parsed(b, newInstance)
  {
    if a == [] {
      assert a + b == b;
    } else {
      assert (a + b)[1..] == a[1..] + b;
      ParsedAppend(a[1..], b, newInstance);
    }
  }

  /** At most one row per line, and a row is produced exactly for the lines that parse into it. */
  lemma {:induction false} ParsedRows<Row>(lines: seq<string>, newInstance: string -> Option<Row>)
    ensures |Parsed(lines, newInstance)| <= |lines|
    ensures forall r :: r in Parsed(lines, newInstance) <==>
      exists i :: 0 <= i < |lines| && newInstance(lines[i]) == Some(r)
  {
    if lines != [] {
      ParsedRows(lines[1..], newInstance);
      forall r | (exists i :: 0 <= i < |lines| && newInstance(lines[i]) == Some(r))
        ensures r in Parsed(lines, newInstance)
      {
        var i :| 0 <= i < |lines| && newInstance(lines[i]) == Some(r);
        if i > 0 {
          assert lines[1..][i - 1] == lines[i];
        }
      }
    }
  }

  /** When every line parses, the rows are the lines' rows one for one, in line order. */
  lemma {:induction false} ParsedAllValid<Row>(lines: seq<string>, newInstance: string -> Option<Row>)
    requires forall i :: 0 <= i < |lines| ==> newInstance(lines[i]).Some?
    ensures |Parsed(lines, newInstance)| == |lines|
    ensures forall i :: 0 <= i < |lines| ==> Parsed(lines, newInstance)[i] == newInstance(lines[i]).value
  {
    if lines != [] {
      ParsedAllValid(lines[1..], newInstance);
    }
  }

  /**
   * `rows.stream().map(f)`: f of each row, in table order; the saved lines
   * for `CSVRow::toString`, the search texts for the property values.
   */
  function EachRow<Row, T>(rows: seq<Row>, f: Row -> T): seq<T>
  {
    seq(|rows|, i requires 0 <= i < |rows| => f(rows[i]))
  }

  /** The header line: the column titles joined by tabs. */
  function HeaderLine(titles: seq<string>): string
  {
    Join(titles, "\t")
  }

  /**
   * Saving and reloading: when the header line is not a row and every row
   * reads back from its own text, loading the saved lines gives back the rows.
   */
  lemma {:induction false} ReloadSaved<Row>(header: string, rows: seq<Row>,
                                            newInstance: string -> Option<Row>, rowText: Row -> string)
    requires newInstance(header).None?
    requires forall r :: r in rows ==> newInstance(rowText(r)) == Some(r)
    ensures Parsed([header] + EachRow(rows, rowText), newInstance) == rows
  {
    var lines := [header] + EachRow(rows, rowText);
    assert lines[1..] == EachRow(rows, rowText);
    ReloadRows(rows, newInstance, rowText);
  }

  lemma {:induction false} ReloadRows<Row>(rows: seq<Row>, newInstance: string -> Option<Row>, rowText: Row -> string)
    requires forall r :: r in rows ==> newInstance(rowText(r)) == Some(r)
    ensures Parsed(EachRow(rows, rowText), newInstance) == rows
  {
    if rows != [] {
      assert EachRow(rows, rowText)[1..] == EachRow(rows[1..], rowText);
      ReloadRows(rows[1..], newInstance, rowText);
    }
  }
}
