/**
 * What `initialize` builds from the sample row: for every property, in
 * `getPropNames` order, one table column and one add-field when the value is
 * a String, Double or Integer, and nothing otherwise.
 */
module Columns {
  import opened Wrappers
  import opened Converters

  /** The runtime class of a property's value, with ArtNoProperty singled out among the Integers. */
  datatype Kind = StringProp | DoubleProp | IntegerProp | ArtNoProp | OtherProp

  datatype Prop = Prop(name: string, kind: Kind)

  /** The cell factory a column gets. */
  datatype CellKind = TextCell | DoubleCell | IntegerCell(converter: IntConverter)

  datatype Column = Column(title: string, cell: CellKind, minWidth: int)

  /** A text field of the add box: its prompt text and minimum width. */
  datatype AddField = AddField(prompt: string, minWidth: int)

  predicate Shown(p: Prop) {
    p.kind != OtherProp
  }

  function CellFor(k: Kind): CellKind
    requires k != OtherProp
  {
    match k
    case StringProp => TextCell
    case DoubleProp => DoubleCell
    case IntegerProp => IntegerCell(PlainInt)
    case ArtNoProp => IntegerCell(ArtNo)
  }

  function ColumnOf(p: Prop, width: string -> int): Column
    requires Shown(p)
  {
    Column(p.name, CellFor(p.kind), width(p.name))
  }

  function FieldOf(p: Prop, width: string -> int): AddField
    requires Shown(p)
  {
    AddField(p.name, width(p.name))
  }

  /** The columns appended for `props`, in order. */
  function ColumnsFor(props: seq<Prop>, width: string -> int): seq<Column>
  {
    if props == [] then []
    else
      var last := props[|props| - 1];
      ColumnsFor(props[..|props| - 1], width) + if Shown(last) then [ColumnOf(last, width)] else []
  }

  /** The add-fields appended for `props`, in order. */
  function FieldsFor(props: seq<Prop>, width: string -> int): seq<AddField>
  {
    if props == [] then []
    else
      var last := props[|props| - 1];
      FieldsFor(props[..|props| - 1], width) + if Shown(last) then [FieldOf(last, width)] else []
  }

  /** The column titles, in column order. */
  function Titles(columns: seq<Column>): seq<string>
  {
    seq(|columns|, i requires 0 <= i < |columns| => columns[i].title)
  }

  /** The construction is compositional: the columns of a concatenation are the concatenated columns. */
  lemma {:induction false} ColumnsAppend(a: seq<Prop>, b: seq<Prop>, width: string -> int)
    ensures ColumnsFor(a + b, width) == ColumnsFor(a, width) + ColumnsFor(b, width)
    ensures FieldsFor(a + b, width) == FieldsFor(a, width) + FieldsFor(b, width)
  {
    if b != [] {
      var b' := b[..|b| - 1];
      assert (a + b)[..|a + b| - 1] == a + b';
      assert (a + b)[|a + b| - 1] == b[|b| - 1];
      ColumnsAppend(a, b', width);
    } else {
      assert a + b == a;
    }
  }

  lemma {:induction false} SingleProp(p: Prop, width: string -> int)
    ensures ColumnsFor([p], width) == if Shown(p) then [ColumnOf(p, width)] else []
    ensures FieldsFor([p], width) == if Shown(p) then [FieldOf(p, width)] else []
  {
    assert [p][..0] == [];
  }

  /** Columns and add-fields come in equal numbers and in the same order, with the same names and widths. */
  lemma {:induction false} ColumnsMatchFields(props: seq<Prop>, width: string -> int)
    ensures |ColumnsFor(props, width)| == |FieldsFor(props, width)|
    ensures forall i :: 0 <= i < |ColumnsFor(props, width)| ==>
      ColumnsFor(props, width)[i].title == FieldsFor(props, width)[i].prompt &&
      ColumnsFor(props, width)[i].minWidth == FieldsFor(props, width)[i].minWidth
  {
    if props != [] {
      ColumnsMatchFields(props[..|props| - 1], width);
    }
  }

  /**
   * A shown property at position i yields the column at position "number of
   * columns for the properties before i", built from that property.
   */
  lemma {:induction false} ColumnPosition(props: seq<Prop>, width: string -> int, i: nat)
    requires i < |props| && Shown(props[i])
    ensures |ColumnsFor(props[..i], width)| < |ColumnsFor(props, width)|
    ensures ColumnsFor(props, width)[|ColumnsFor(props[..i], width)|] == ColumnOf(props[i], width)
    ensures |FieldsFor(props[..i], width)| < |FieldsFor(props, width)|
    ensures FieldsFor(props, width)[|FieldsFor(props[..i], width)|] == FieldOf(props[i], width)
  {
    assert props == props[..i] + [props[i]] + props[i + 1..];
    ColumnsAppend(props[..i] + [props[i]], props[i + 1..], width);
    ColumnsAppend(props[..i], [props[i]], width);
    SingleProp(props[i], width);
  }

  /** Shown properties keep their relative order among the columns. */
  lemma {:induction false} ColumnOrder(props: seq<Prop>, width: string -> int, i: nat, j: nat)
    requires i < j <= |props| && Shown(props[i])
    ensures |ColumnsFor(props[..i], width)| < |ColumnsFor(props[..j], width)|
  {
    assert props[..j] == props[..i] + props[i..j];
    ColumnsAppend(props[..i], props[i..j], width);
    assert props[i..j] == [props[i]] + props[i + 1..j];
    ColumnsAppend([props[i]], props[i + 1..j], width);
    SingleProp(props[i], width);
  }

  /** Every column stems from a shown property, at the position that property's rank gives. */
  lemma {:induction false} ColumnSource(props: seq<Prop>, width: string -> int, k: nat)
    requires k < |ColumnsFor(props, width)|
    ensures exists i :: 0 <= i < |props| && Shown(props[i]) && |ColumnsFor(props[..i], width)| == k
  {
    var n := |props|;
    var init := props[..n - 1];
    if k < |ColumnsFor(init, width)| {
      ColumnSource(init, width, k);
      var i :| 0 <= i < |init| && Shown(init[i]) && |ColumnsFor(init[..i], width)| == k;
      assert init[..i] == props[..i];
      assert props[i] == init[i];
    } else {
      assert props[..n - 1] == init;
      assert Shown(props[n - 1]);
    }
  }

  /** A property of any other kind contributes neither a column nor an add-field. */
  lemma {:induction false} OtherPropIgnored(props: seq<Prop>, width: string -> int, i: nat)
    requires i < |props| && props[i].kind == OtherProp
    ensures ColumnsFor(props[..i] + props[i + 1..], width) == ColumnsFor(props, width)
    ensures FieldsFor(props[..i] + props[i + 1..], width) == FieldsFor(props, width)
  {
    var before, p, after := props[..i], props[i], props[i + 1..];
    assert props == (before + [p]) + after;
    ColumnsAppend(before + [p], after, width);
    ColumnsAppend(before, [p], width);
    ColumnsAppend(before, after, width);
    SingleProp(p, width);
    calc {
      ColumnsFor(props, width);
      ColumnsFor(before + [p], width) + ColumnsFor(after, width);
      ColumnsFor(before, width) + [] + ColumnsFor(after, width);
      { assert ColumnsFor(before, width) + [] == ColumnsFor(before, width); }
      ColumnsFor(before + after, width);
    }
    calc {
      FieldsFor(props, width);
      FieldsFor(before + [p], width) + FieldsFor(after, width);
      FieldsFor(before, width) + [] + FieldsFor(after, width);
      { assert FieldsFor(before, width) + [] == FieldsFor(before, width); }
      FieldsFor(before + after, width);
    }
  }
}
