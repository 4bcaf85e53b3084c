/**
 * The selection list the application holds in its session, as an object
 * the page owns. Each sidebar button or dialog action is one method: Add,
 * Paste, Edit, Delete, Clear and Copy. Every method keeps the invariant
 * that no id occurs twice, and states its new list in terms of the old
 * one through the functions of module Records.
 */
module Session {
  import opened Records
  import Styles

  class SelectionList {
    /** `st.session_state['selection']`, in list order. */
    var records: seq<Record>

    ghost predicate Valid()
      reads this
    {
      Unique(records)
    }

    /** The session starts with an empty selection. */
    constructor ()
      ensures Valid() && records == []
    {
      records := [];
    }

    /** The Add dialog's submit: refuse an id already present, or append the new record. */
    method Add(id: int, color: string, opacity: Opacity) returns (error: Option<AddError>)
      requires Valid()
      modifies this
      ensures Valid()
      ensures error.Some? <==> exists i :: 0 <= i < |old(records)| && old(records)[i].id == id
      ensures error.Some? ==> error.value == DuplicateId(id) && records == old(records)
      ensures error.None? ==> records == old(records) + [Record(id, color, opacity)]
    {
      var rec := Record(id, color, opacity);
      AddEffect(records, rec);
      AddKeepsUnique(records, rec);
      match AddRecord(records, rec)
      case Rejected(e) =>
        error := Some(e);
      case Added(t) =>
        records := t;
        error := None;
    }

    /**
     * The Paste dialog: the pasted text and its parse are checked first and a
     * refused input changes nothing; otherwise each row in turn replaces any
     * record with its id and goes to the end of the list.
     */
    method Paste(text: string, parsed: Option<Table>) returns (error: Option<PasteError>)
      requires Valid()
      modifies this
      ensures Valid()
      ensures error == CheckPaste(text, parsed)
      ensures error.Some? ==> records == old(records)
      ensures error.None? ==> records == PasteRows(old(records), parsed.value.rows)
    {
      error := CheckPaste(text, parsed);
      if error.Some? {
        return;
      }
      var rows := parsed.value.rows;
      var i := 0;
      while i < |rows|
        invariant 0 <= i <= |rows|
        invariant Unique(records)
        invariant PasteRows(records, rows[i..]) == PasteRows(old(records), rows)
      {
        var row := rows[i];
        var color := NormalizeColor(row.color);
        PasteRowKeepsUnique(records, row);
        assert rows[i..][0] == row && rows[i..][1..] == rows[i + 1..];
        if row.id in Ids(records) {
          records := Remove(records, row.id);
        }
        records := records + [Record(row.id, color, row.opacity)];
        i := i + 1;
      }
    }

    /** The Edit dialog's save: the record with the id takes the new colour and opacity where it stands. */
    method Edit(id: int, color: string, opacity: Opacity)
      requires Valid()
      modifies this
      ensures Valid()
      ensures records == Replace(old(records), id, color, opacity)
    {
      ReplaceKeepsIds(records, id, color, opacity);
      records := Replace(records, id, color, opacity);
    }

    /** The Delete button: drop the record with the selected id. */
    method Delete(id: int)
      requires Valid()
      modifies this
      ensures Valid()
      ensures records == Remove(old(records), id)
    {
      RemoveKeepsUnique(records, id);
      records := Remove(records, id);
    }

    /** The Clear button. */
    method Clear()
      requires Valid()
      modifies this
      ensures Valid() && records == []
    {
      records := [];
    }

    /** The Copy dialog: the table of the current records, or nothing to display. */
    method Copy() returns (view: CopyView)
      requires Valid()
      ensures view.NothingToDisplay? <==> records == []
      ensures view.Tsv? ==> view.header == Header && view.rows == Rows(records)
    {
      view := Export(records);
    }

    /** The stylesheet and id list the page hands to the widget. */
    method Show(opacityText: Opacity -> string) returns (page: Styles.Page)
      requires Valid()
      ensures page.NoGoIdsSelected? <==> records == []
      ensures page.Widget? ==> page.gos == Styles.GosAttribute(records) &&
                               page.styles == Styles.GoStyles(records, opacityText)
    {
      Styles.RenderStops(records, opacityText);
      page := Styles.Render(records, opacityText);
    }
  }

  /** Adding an id twice: the second call is refused and changes nothing. */
  method ScenarioAddTwice()
  {
    var list := new SelectionList();
    var e := list.Add(5045, "#FF0000", 0.5);
    assert e.None? && list.records == [Record(5045, "#FF0000", 0.5)];
    e := list.Add(5045, "#00FF00", 0.3);
    assert list.records[0].id == 5045;
    assert e == Some(DuplicateId(5045)) && list.records == [Record(5045, "#FF0000", 0.5)];
  }

  /** Pasting a row for an id already present overwrites it and moves it to the end. */
  method ScenarioPasteOverwrites()
  {
    var list := new SelectionList();
    var e := list.Add(5045, "#FF0000", 0.5);
    e := list.Add(5829, "#0000FF", 0.7);
    assert list.records == [Record(5045, "#FF0000", 0.5), Record(5829, "#0000FF", 0.7)];
    var text := "ID\tColor\tOpacity\n5045\t00FF00\t0.3\n";
    assert !IsSpace(text[0]) && !IsBlank(text);
    var row := Row(5045, "00FF00", 0.3);
    ExportedTableAccepted(text, [row]);
    HeaderColumns();
    var p := list.Paste(text, Some(Table({"ID", "Color", "Opacity"}, [row])));
    assert p.None?;
    assert list.records == PasteRow([Record(5045, "#FF0000", 0.5), Record(5829, "#0000FF", 0.7)], row);
    PasteRowShape([Record(5045, "#FF0000", 0.5), Record(5829, "#0000FF", 0.7)], row);
    RemoveAt([Record(5045, "#FF0000", 0.5), Record(5829, "#0000FF", 0.7)], 0);
    assert NormalizeColor("00FF00") == "#00FF00";
    assert list.records == [Record(5829, "#0000FF", 0.7), Record(5045, "#00FF00", 0.3)];
  }

  /** A paste whose header lacks Opacity is refused, naming the missing column, and changes nothing. */
  method ScenarioMissingColumn()
  {
    var list := new SelectionList();
    var e := list.Add(5045, "#FF0000", 0.5);
    var text := "ID\tColor\n1\t#000000\n";
    assert !IsSpace(text[0]);
    var p := list.Paste(text, Some(Table({"ID", "Color"}, [Row(1, "#000000", 1.0)])));
    assert RequiredColumns - {"ID", "Color"} == {"Opacity"};
    assert p == Some(MissingColumns({"Opacity"}));
    assert list.records == [Record(5045, "#FF0000", 0.5)];
  }

  /** After Clear the page shows the no-selection warning instead of the widget. */
  method ScenarioClear(opacityText: Opacity -> string)
  {
    var list := new SelectionList();
    var e := list.Add(5045, "#FF0000", 0.5);
    list.Clear();
    var page := list.Show(opacityText);
    assert page == Styles.NoGoIdsSelected;
  }
}
