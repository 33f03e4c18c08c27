/**
 * The quick-search rule of `handleSearch`: the first row, in table order,
 * one of whose field texts contains the query, both compared lower-cased.
 */
module QuickSearch {
  import opened Wrappers
  import JavaInt
  import Converters

  /** `Character.toLowerCase` on ASCII letters; every other character is kept. */
  function LowerChar(c: char): char
  {
    if 'A' <= c <= 'Z' then (c as int + ('a' as int - 'A' as int)) as char else c
  }

  /** `String.toLowerCase`, restricted to ASCII letters. */
  function Lower(s: string): string
  {
    seq(|s|, i requires 0 <= i < |s| => LowerChar(s[i]))
  }

  /** `needle` occurs in `hay` starting at position i. */
  ghost predicate OccursAt(hay: string, needle: string, i: int)
  {
    0 <= i && i + |needle| <= |hay| && hay[i..i + |needle|] == needle
  }

  /** `hay.contains(needle)`. */
  function Contains(hay: string, needle: string): (b: bool)
    ensures b <==> exists i :: OccursAt(hay, needle, i)
    decreases |hay|
  {
    if needle <= hay then
      assert OccursAt(hay, needle, 0);
      true
    else if hay == [] then
      false
    else
      OccursShift(hay, needle);
      Contains(hay[1..], needle)
  }

  /** An occurrence past the first character is an occurrence in the rest of the text. */
  lemma OccursShift(hay: string, needle: string)
    requires hay != [] && !(needle <= hay)
    ensures (exists i :: OccursAt(hay, needle, i)) <==> (exists i :: OccursAt(hay[1..], needle, i))
  {
    if exists i :: OccursAt(hay, needle, i) {
      var i :| OccursAt(hay, needle, i);
      assert i != 0;
      assert hay[1..][i - 1..i - 1 + |needle|] == hay[i..i + |needle|];
      assert OccursAt(hay[1..], needle, i - 1);
    }
    if exists i :: OccursAt(hay[1..], needle, i) {
      var i :| OccursAt(hay[1..], needle, i);
      assert hay[1..][i..i + |needle|] == hay[i + 1..i + 1 + |needle|];
      assert OccursAt(hay, needle, i + 1);
    }
  }

  /** Text lacking one of the query's characters does not contain the query. */
  lemma MissingCharacter(hay: string, needle: string, k: nat)
    requires k < |needle| && needle[k] !in hay
    ensures !Contains(hay, needle)
  {
  }

  /** A row matches when the lower-cased text of one of its fields contains the lower-cased query. */
  predicate RowMatches(fields: seq<string>, query: string)
  {
    exists j :: 0 <= j < |fields| && Contains(Lower(fields[j]), Lower(query))
  }

  /**
   * `filter(RowMatches).findFirst()` over the rows' field texts: the index of
   * the first matching row, None when no row matches.
   */
  function FirstMatch(rows: seq<seq<string>>, query: string): (r: Option<nat>)
    ensures r.Some? ==> r.value < |rows| && RowMatches(rows[r.value], query)
    ensures r.Some? ==> forall k :: 0 <= k < r.value ==> !RowMatches(rows[k], query)
    ensures r.None? <==> forall k :: 0 <= k < |rows| ==> !RowMatches(rows[k], query)
  {
    if rows == [] then
      None
    else if RowMatches(rows[0], query) then
      Some(0)
    else
      match FirstMatch(rows[1..], query)
      case None => None
      case Some(i) => Some(i + 1)
  }

  /** The matched row is determined by the rows alone: any first matching index is the one found. */
  lemma FirstMatchIsFirst(rows: seq<seq<string>>, query: string, k: nat)
    requires k < |rows| && RowMatches(rows[k], query)
    requires forall j :: 0 <= j < k ==> !RowMatches(rows[j], query)
    ensures FirstMatch(rows, query) == Some(k)
  {
  }

  /** Queries that differ only in the case of ASCII letters select the same row. */
  lemma SearchIgnoresCase(rows: seq<seq<string>>, q1: string, q2: string)
    requires Lower(q1) == Lower(q2)
    ensures FirstMatch(rows, q1) == FirstMatch(rows, q2)
  {
    assert forall k :: 0 <= k < |rows| ==> (RowMatches(rows[k], q1) <==> RowMatches(rows[k], q2));
  }

  /**
   * Appending rows never moves an existing hit; without one, the search
   * continues into the appended rows.
   */
  lemma {:induction false} FirstMatchAppend(rows: seq<seq<string>>, more: seq<seq<string>>, query: string)
    ensures FirstMatch(rows + more, query) ==
      match FirstMatch(rows, query)
      case Some(i) => Some(i)
      case None =>
        match FirstMatch(more, query)
        case Some(j) => Some(|rows| + j)
        case None => None
  {
    var all := rows + more;
    match FirstMatch(rows, query)
    case Some(i) =>
      assert all[i] == rows[i];
      assert forall k :: 0 <= k < i ==> all[k] == rows[k];
      FirstMatchIsFirst(all, query, i);
    case None =>
      assert forall k :: 0 <= k < |rows| ==> all[k] == rows[k];
      assert forall k :: 0 <= k < |more| ==> all[|rows| + k] == more[k];
      match FirstMatch(more, query)
      case Some(j) =>
        assert forall k :: |rows| <= k < |rows| + j ==> !RowMatches(all[k], query) by {
          forall k | |rows| <= k < |rows| + j
            ensures !RowMatches(all[k], query)
          {
            assert all[k] == more[k - |rows|];
          }
        }
        FirstMatchIsFirst(all, query, |rows| + j);
      case None =>
        assert forall k :: 0 <= k < |all| ==> !RowMatches(all[k], query) by {
          forall k | 0 <= k < |all|
            ensures !RowMatches(all[k], query)
          {
            if k >= |rows| {
              assert all[k] == more[k - |rows|];
            }
          }
        }
  }

  /** The empty query selects the first row that has at least one field. */
  lemma EmptyQuerySelectsFirstNonEmptyRow(rows: seq<seq<string>>)
    ensures FirstMatch(rows, "") ==
      if exists k :: 0 <= k < |rows| && rows[k] != [] then Some(FirstNonEmpty(rows)) else None
  {
    assert Lower("") == "";
    forall fields: seq<string> | fields != []
      ensures RowMatches(fields, "")
    {
      assert Contains(Lower(fields[0]), "");
    }
    if exists k :: 0 <= k < |rows| && rows[k] != [] {
      FirstMatchIsFirst(rows, "", FirstNonEmpty(rows));
    }
  }

  function FirstNonEmpty(rows: seq<seq<string>>): (k: nat)
    requires exists k :: 0 <= k < |rows| && rows[k] != []
    ensures k < |rows| && rows[k] != [] && forall j :: 0 <= j < k ==> rows[j] == []
  {
    if rows[0] != [] then 0 else FirstNonEmpty(rows[1..]) + 1
  }

  /**
   * The rows of a price list holding article numbers 1 and 2, as the search
   * sees them: the raw `toString` of each value.
   */
  function ExampleRows(): seq<seq<string>>
  {
    [[JavaInt.IntToString(1), "Widget"], [JavaInt.IntToString(2), "Gadget"]]
  }

  lemma ExampleRowsText()
    ensures ExampleRows() == [["1", "Widget"], ["2", "Gadget"]]
  {
    assert JavaInt.Digits(1) == "1" && JavaInt.Digits(2) == "2";
  }

  /** Letters match in either case. */
  lemma SearchIgnoresLetterCase()
    ensures FirstMatch(ExampleRows(), "GAD") == Some(1)
  {
    ExampleRowsText();
    var rows := ExampleRows();
    assert Lower("Widget") == "widget" && Lower("Gadget") == "gadget" && Lower("GAD") == "gad";
    assert Lower("1") == "1";
    assert !RowMatches(rows[0], "GAD") by {
      MissingCharacter("widget", "gad", 1);
      MissingCharacter("1", "gad", 0);
    }
    assert RowMatches(rows[1], "GAD") by {
      assert Contains(Lower(rows[1][1]), Lower("GAD")) by {
        assert OccursAt("gadget", "gad", 0);
      }
    }
    FirstMatchIsFirst(rows, "GAD", 1);
  }

  /** An article number is found by its raw digits. */
  lemma SearchFindsRawNumber()
    ensures FirstMatch(ExampleRows(), "2") == Some(1)
  {
    ExampleRowsText();
    var rows := ExampleRows();
    assert Lower("Widget") == "widget" && Lower("1") == "1" && Lower("2") == "2";
    assert !RowMatches(rows[0], "2") by {
      MissingCharacter("widget", "2", 0);
      MissingCharacter("1", "2", 0);
    }
    assert RowMatches(rows[1], "2") by {
      assert Contains(Lower(rows[1][0]), Lower("2")) by {
        assert OccursAt("2", "2", 0);
      }
    }
    FirstMatchIsFirst(rows, "2", 1);
  }

  /** The zero-padded display text of an article number is not what the search reads. */
  lemma SearchMissesDisplayText()
    ensures Converters.ToString(Converters.ArtNo, 2) == "00002"
    ensures FirstMatch(ExampleRows(), "00002") == None
  {
    assert JavaInt.Digits(2) == "2" && JavaInt.Zeros(4) == "0000";
    ExampleRowsText();
    var rows := ExampleRows();
    assert Lower("Widget") == "widget" && Lower("Gadget") == "gadget";
    assert Lower("1") == "1" && Lower("2") == "2" && Lower("00002") == "00002";
    assert !RowMatches(rows[0], "00002") by {
      MissingCharacter("widget", "00002", 0);
      MissingCharacter("1", "00002", 0);
    }
    assert !RowMatches(rows[1], "00002") by {
      MissingCharacter("gadget", "00002", 0);
      MissingCharacter("2", "00002", 0);
    }
  }
}
