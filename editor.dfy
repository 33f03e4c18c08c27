/**
 * The editor controller as a state machine: the table's rows, the
 * process-wide "changed" flag, whether the process has exited, the columns
 * and add-fields built at start-up, and the table's selection. Dialog
 * answers and file contents are inputs of the handlers; what they write is
 * an output.
 */
module Editor {
  import opened Wrappers
  import opened Columns
  import opened CatalogText
  import QuickSearch

  class CatalogEditor<Row> {
    // The sample row's interface; these belong to the record library.
    /** `getNewInstance(line)`, None where it returns null. */
    const newInstance: string -> Option<Row>
    /** `CSVRow.toString`. */
    const rowText: Row -> string
    /** `getProperties()`, each value's `toString`. */
    const fieldTexts: Row -> seq<string>
    /** `getPropNames()` with the runtime kind of each property of the sample. */
    const sampleProps: seq<Prop>
    /** `getPropWidth(name)`. */
    const propWidth: string -> int
    /** `CSVRow.SEPARATOR`. */
    const separator: string

    var items: seq<Row>
    var changed: bool
    var exited: bool
    var columns: seq<Column>
    var addFields: seq<AddField>
    var selection: Option<nat>

    /** One add-field per column, named alike, and a selection inside the table. */
    ghost predicate Valid()
      reads this
    {
      && |columns| == |addFields|
      && (forall i :: 0 <= i < |columns| ==> columns[i].title == addFields[i].prompt)
      && (selection.Some? ==> selection.value < |items|)
    }

    constructor (newInstance: string -> Option<Row>, rowText: Row -> string,
                 fieldTexts: Row -> seq<string>, sampleProps: seq<Prop>,
                 propWidth: string -> int, separator: string)
      ensures Valid()
      ensures this.newInstance == newInstance && this.rowText == rowText
      ensures this.fieldTexts == fieldTexts && this.sampleProps == sampleProps
      ensures this.propWidth == propWidth && this.separator == separator
      ensures items == [] && !changed && !exited
      ensures columns == [] && addFields == [] && selection == None
    {
      this.newInstance := newInstance;
      this.rowText := rowText;
      this.fieldTexts := fieldTexts;
      this.sampleProps := sampleProps;
      this.propWidth := propWidth;
      this.separator := separator;
      items := [];
      changed := false;
      exited := false;
      columns := [];
      addFields := [];
      selection := None;
    }

    /** The column and add-field loop of `initialize`. */
    method Initialize()
      requires Valid() && !exited
      modifies this`columns, this`addFields
      ensures Valid()
      ensures columns == old(columns) + ColumnsFor(sampleProps, propWidth)
      ensures addFields == old(addFields) + FieldsFor(sampleProps, propWidth)
    {
      var i := 0;
      while i < |sampleProps|
        invariant 0 <= i <= |sampleProps|
        invariant columns == old(columns) + ColumnsFor(sampleProps[..i], propWidth)
        invariant addFields == old(addFields) + FieldsFor(sampleProps[..i], propWidth)
      {
        var p := sampleProps[i];
        assert sampleProps[..i + 1][..i] == sampleProps[..i];
        var cell;
        match p.kind {
          case StringProp => cell := Some(TextCell);
          case DoubleProp => cell := Some(DoubleCell);
          case IntegerProp => cell := Some(IntegerCell(Converters.PlainInt));
          case ArtNoProp => cell := Some(IntegerCell(Converters.ArtNo));
          case OtherProp => cell := None;
        }
        if cell.Some? {
          columns := columns + [Column(p.name, cell.value, propWidth(p.name))];
          addFields := addFields + [AddField(p.name, propWidth(p.name))];
        }
        i := i + 1;
      }
      assert sampleProps[..|sampleProps|] == sampleProps;
      ColumnsMatchFields(sampleProps, propWidth);
    }

    /**
     * `handleAdd`: the add-field texts, joined in field order with the
     * separator, become a new last row and mark the catalog changed; text
     * that does not parse changes nothing (the source shows an alert).
     */
    method HandleAdd(texts: seq<string>) returns (accepted: bool)
      requires Valid() && !exited && |texts| == |addFields|
      modifies this`items, this`changed
      ensures Valid()
      ensures accepted <==> newInstance(Join(texts, separator)).Some?
      ensures accepted ==> items == old(items) + [newInstance(Join(texts, separator)).value] && changed
      ensures !accepted ==> items == old(items) && changed == old(changed)
    {
      var row := newInstance(Join(texts, separator));
      if row.Some? {
        items := items + [row.value];
        changed := true;
        accepted := true;
      } else {
        accepted := false;
      }
    }

    /**
     * `handleOpen`: the rows of the chosen file's lines that parse are
     * appended after the existing rows, in line order; the changed flag is
     * not touched. None stands for a cancelled chooser or an unreadable file.
     */
    method HandleOpen(file: Option<seq<string>>)
      requires Valid() && !exited
      modifies this`items
      ensures Valid()
      ensures items == old(items) + if file.Some? then Parsed(file.value, newInstance) else []
    {
      if file.Some? {
        var lines := file.value;
        for i := 0 to |lines|
          invariant items == old(items) + Parsed(lines[..i], newInstance)
        {
          assert lines[..i + 1] == lines[..i] + [lines[i]];
          ParsedAppend(lines[..i], [lines[i]], newInstance);
          var row := newInstance(lines[i]);
          if row.Some? {
            items := items + [row.value];
          }
        }
        assert lines[..|lines|] == lines;
      }
    }

    /**
     * `handleSave`: the header line (column titles joined by tabs) and one
     * line per row in table order; the catalog is clean afterwards only when
     * the write succeeded. The rows are never touched.
     */
    method HandleSave(fileChosen: bool, writeSucceeds: bool) returns (data: seq<string>, saved: bool)
      requires Valid() && !exited
      modifies this`changed
      ensures Valid()
      ensures saved <==> fileChosen && writeSucceeds
      ensures fileChosen ==> data == [HeaderLine(Titles(columns))] + EachRow(items, rowText)
      ensures fileChosen ==> |data| == |items| + 1 && data[0] == HeaderLine(Titles(columns))
      ensures fileChosen ==> forall i :: 0 <= i < |items| ==> data[i + 1] == rowText(items[i])
      ensures !fileChosen ==> data == []
      ensures changed == if saved then false else old(changed)
    {
      data, saved := [], false;
      if fileChosen {
        var i := 0;
        while i < |items|
          invariant 0 <= i <= |items|
          invariant data == EachRow(items[..i], rowText)
        {
          data := data + [rowText(items[i])];
          i := i + 1;
        }
        assert items[..|items|] == items;
        data := [HeaderLine(Titles(columns))] + data;
        if writeSucceeds {
          changed := false;
          saved := true;
        }
      }
    }

    /**
     * `handleClose`: an empty table exits; otherwise the rows are discarded
     * and the flag cleared unless the catalog is changed and the user
     * declines. The dialog is only asked when there are changes.
     */
    method HandleClose(confirmDiscard: bool) returns (asked: bool)
      requires Valid() && !exited
      modifies this`items, this`changed, this`exited, this`selection
      ensures Valid()
      ensures asked <==> old(items) != [] && old(changed)
      ensures old(items) == [] ==> exited && items == [] && changed == old(changed) && selection == old(selection)
      ensures old(items) != [] && (!old(changed) || confirmDiscard) ==>
        !exited && items == [] && !changed && selection == None
      ensures old(items) != [] && old(changed) && !confirmDiscard ==>
        !exited && items == old(items) && changed && selection == old(selection)
    {
      asked := false;
      if items == [] {
        exited := true;
        return;
      }
      asked := changed;
      if !changed || confirmDiscard {
        changed := false;
        // Clearing the table's rows also clears its selection.
        items, selection := [], None;
      }
    }

    /**
     * The listener on the search text: the selection is cleared, then set to
     * the first row one of whose values contains the query, ignoring case.
     * The result does not depend on the previous selection.
     */
    method HandleSearch(query: string) returns (notFound: bool)
      requires Valid() && !exited
      modifies this`selection
      ensures Valid()
      ensures selection == QuickSearch.FirstMatch(EachRow(items, fieldTexts), query)
      ensures notFound <==> selection == None
    {
      selection := None;
      var hit := QuickSearch.FirstMatch(EachRow(items, fieldTexts), query);
      if hit.Some? {
        selection := hit;
      }
      notFound := selection == None;
    }
  }
}
