/**
 * The annotation records the application keeps in its session, and the pure
 * list transformations that its dialogs and sidebar buttons apply to them.
 *
 * A selection is an ordered sequence of (GO id, colour, opacity) records.
 * The functions here are the specification of the state changes that
 * `SelectionList` (selection.dfy) performs; the lemmas state what each of
 * them promises: uniqueness of ids is kept, Edit keeps positions, Delete
 * keeps order, Paste moves the pasted id to the end, and Copy then Paste
 * restores a non-empty list whose colours start with '#', provided reading
 * the copied text yields exactly the exported table.
 */
module Records {

  datatype Option<+T> = None | Some(value: T)

  /** The opacity a record carries (a Python float in the application). */
  type Opacity = real

  /** One entry of the selection list. */
  datatype Record = Record(id: int, color: string, opacity: Opacity)

  /** One data row of the tab-separated clipboard table, cells already typed. */
  datatype Row = Row(id: int, color: string, opacity: Opacity)

  /** The ids of a selection, in list order. */
  function Ids(s: seq<Record>): seq<int>
  {
    seq(|s|, i requires 0 <= i < |s| => s[i].id)
  }

  /** The invariant of the selection: at most one record per id. */
  predicate Unique(s: seq<Record>)
  {
    forall i, j :: 0 <= i < j < |s| ==> s[i].id != s[j].id
  }

  lemma InIds(s: seq<Record>, id: int)
    ensures id in Ids(s) <==> exists i :: 0 <= i < |s| && s[i].id == id
  {
    if id in Ids(s) {
      var i :| 0 <= i < |Ids(s)| && Ids(s)[i] == id;
      assert s[i].id == id;
    }
    if exists i :: 0 <= i < |s| && s[i].id == id {
      var i :| 0 <= i < |s| && s[i].id == id;
      assert Ids(s)[i] == id;
    }
  }

  lemma MemberId(s: seq<Record>, x: Record)
    requires x in s
    ensures x.id in Ids(s)
  {
    var i :| 0 <= i < |s| && s[i] == x;
    assert Ids(s)[i] == x.id;
  }

  lemma UniqueCons(x: Record, t: seq<Record>)
    ensures Unique([x] + t) <==> x.id !in Ids(t) && Unique(t)
  {
    var s := [x] + t;
    if Unique(s) {
      forall j | 0 <= j < |t| ensures t[j].id != x.id {
        assert s[0] == x && s[j + 1] == t[j];
      }
      InIds(t, x.id);
      forall i, j | 0 <= i < j < |t| ensures t[i].id != t[j].id {
        assert s[i + 1] == t[i] && s[j + 1] == t[j];
      }
    }
    if x.id !in Ids(t) && Unique(t) {
      forall i, j | 0 <= i < j < |s| ensures s[i].id != s[j].id {
        if i == 0 {
          assert s[j] == t[j - 1];
          InIds(t, x.id);
        } else {
          assert s[i] == t[i - 1] && s[j] == t[j - 1];
        }
      }
    }
  }

  // ---------------------------------------------------------------------
  // Add

  datatype AddError = DuplicateId(id: int)

  datatype AddOutcome = Added(selection: seq<Record>) | Rejected(error: AddError)

  /** The Add dialog: an id already in the list is refused, otherwise the record is appended. */
  function AddRecord(s: seq<Record>, rec: Record): AddOutcome
  {
    if rec.id in Ids(s) then Rejected(DuplicateId(rec.id)) else Added(s + [rec])
  }

  /** Add either refuses an id that is present and leaves the list alone, or appends at the end. */
  lemma AddEffect(s: seq<Record>, rec: Record)
    ensures AddRecord(s, rec).Rejected? <==> exists i :: 0 <= i < |s| && s[i].id == rec.id
    ensures AddRecord(s, rec).Added? ==>
              var t := AddRecord(s, rec).selection;
              |t| == |s| + 1 && t[..|s|] == s && t[|s|] == rec
  {
    InIds(s, rec.id);
    if AddRecord(s, rec).Added? {
      assert (s + [rec])[..|s|] == s;
    }
  }

  /** Add keeps ids unique. */
  lemma AddKeepsUnique(s: seq<Record>, rec: Record)
    requires Unique(s)
    ensures AddRecord(s, rec).Added? ==> Unique(AddRecord(s, rec).selection)
  {
    if rec.id !in Ids(s) {
      InIds(s, rec.id);
    }
  }

  /** A second Add with the same id is refused, whatever its colour and opacity. */
  lemma AddTwiceRejected(s: seq<Record>, rec: Record, again: Record)
    requires again.id == rec.id
    requires AddRecord(s, rec).Added?
    ensures AddRecord(AddRecord(s, rec).selection, again) == Rejected(DuplicateId(rec.id))
  {
    var t := s + [rec];
    assert Ids(t)[|s|] == rec.id;
  }

  // ---------------------------------------------------------------------
  // Delete

  /** The records whose id differs from `id`, in their original order. */
  function Remove(s: seq<Record>, id: int): seq<Record>
  {
    if s == [] then []
    else if s[0].id == id then Remove(s[1..], id)
    else [s[0]] + Remove(s[1..], id)
  }

  /** Delete keeps exactly the records whose id differs. */
  lemma {:induction false} RemoveMembers(s: seq<Record>, id: int)
    ensures forall x :: x in Remove(s, id) <==> x in s && x.id != id
  {
    if s != [] {
      assert s == [s[0]] + s[1..];
      RemoveMembers(s[1..], id);
    }
  }

  /** Deleting an id that is not present changes nothing. */
  lemma {:induction false} RemoveAbsent(s: seq<Record>, id: int)
    requires id !in Ids(s)
    ensures Remove(s, id) == s
  {
    if s != [] {
      assert Ids(s)[0] == s[0].id;
      assert Ids(s[1..]) == Ids(s)[1..];
      RemoveAbsent(s[1..], id);
      assert s == [s[0]] + s[1..];
    }
  }

  /** After a delete, the id is gone. */
  lemma RemoveGone(s: seq<Record>, id: int)
    ensures id !in Ids(Remove(s, id))
  {
    RemoveMembers(s, id);
    InIds(Remove(s, id), id);
  }

  /** Deleting twice is deleting once. */
  lemma RemoveIdempotent(s: seq<Record>, id: int)
    ensures Remove(Remove(s, id), id) == Remove(s, id)
  {
    RemoveGone(s, id);
    RemoveAbsent(Remove(s, id), id);
  }

  /** Delete works piecewise on a concatenation, so it keeps relative order. */
  lemma {:induction false} RemoveAppend(a: seq<Record>, b: seq<Record>, id: int)
    ensures Remove(a + b, id) == Remove(a, id) + Remove(b, id)
  {
    if a == [] {
      assert a + b == b;
    } else {
      assert (a + b)[0] == a[0];
      assert (a + b)[1..] == a[1..] + b;
      RemoveAppend(a[1..], b, id);
    }
  }

  /** On a valid selection, Delete removes exactly the one record carrying the id. */
  lemma {:induction false} RemoveAt(s: seq<Record>, k: int)
    requires Unique(s)
    requires 0 <= k < |s|
    ensures Remove(s, s[k].id) == s[..k] + s[k + 1..]
  {
    var id := s[k].id;
    assert s == [s[0]] + s[1..];
    UniqueCons(s[0], s[1..]);
    if k == 0 {
      RemoveAbsent(s[1..], id);
    } else {
      assert s[0].id != id;
      assert s[1..][k - 1] == s[k];
      RemoveAt(s[1..], k - 1);
      assert s[1..][..k - 1] == s[1..k];
      assert s[1..][k..] == s[k + 1..];
      assert s[..k] == [s[0]] + s[1..k];
    }
  }

  /** Delete keeps ids unique. */
  lemma {:induction false} RemoveKeepsUnique(s: seq<Record>, id: int)
    requires Unique(s)
    ensures Unique(Remove(s, id))
  {
    if s != [] {
      assert s == [s[0]] + s[1..];
      UniqueCons(s[0], s[1..]);
      RemoveKeepsUnique(s[1..], id);
      if s[0].id != id {
        var t := Remove(s[1..], id);
        RemoveMembers(s[1..], id);
        forall j | 0 <= j < |t| ensures t[j].id != s[0].id {
          assert t[j] in s[1..];
          MemberId(s[1..], t[j]);
        }
        InIds(t, s[0].id);
        UniqueCons(s[0], t);
      }
    }
  }

  // ---------------------------------------------------------------------
  // Edit

  /** The Edit dialog's save: every record with the id gets the new colour and opacity. */
  function Replace(s: seq<Record>, id: int, color: string, opacity: Opacity): seq<Record>
  {
    seq(|s|, i requires 0 <= i < |s| => if s[i].id == id then Record(id, color, opacity) else s[i])
  }

  /** Edit keeps every id and its position. */
  lemma ReplaceKeepsIds(s: seq<Record>, id: int, color: string, opacity: Opacity)
    ensures Ids(Replace(s, id, color, opacity)) == Ids(s)
    ensures Unique(s) ==> Unique(Replace(s, id, color, opacity))
  {
  }

  /** On a valid selection, Edit is an update of the one position holding the id. */
  lemma ReplaceAt(s: seq<Record>, k: int, color: string, opacity: Opacity)
    requires Unique(s)
    requires 0 <= k < |s|
    ensures Replace(s, s[k].id, color, opacity) == s[k := Record(s[k].id, color, opacity)]
  {
  }

  /** Editing an id that is not present changes nothing. */
  lemma ReplaceAbsent(s: seq<Record>, id: int, color: string, opacity: Opacity)
    requires id !in Ids(s)
    ensures Replace(s, id, color, opacity) == s
  {
    forall i | 0 <= i < |s| ensures s[i].id != id {
      assert Ids(s)[i] == s[i].id;
    }
  }

  // ---------------------------------------------------------------------
  // Paste

  predicate StartsWithHash(c: string)
  {
    |c| > 0 && c[0] == '#'
  }

  /** The colour of a pasted row, with a leading '#' added when it has none. */
  function NormalizeColor(c: string): (r: string)
    ensures StartsWithHash(r)
    ensures StartsWithHash(c) ==> r == c
    ensures !StartsWithHash(c) ==> r[1..] == c
  {
    if StartsWithHash(c) then c else "#" + c
  }

  lemma NormalizeIdempotent(c: string)
    ensures NormalizeColor(NormalizeColor(c)) == NormalizeColor(c)
  {
  }

  /** The record a pasted row becomes. */
  function RowRecord(row: Row): Record
  {
    Record(row.id, NormalizeColor(row.color), row.opacity)
  }

  /** One iteration of the paste loop: drop any record with the row's id, then append the row. */
  function PasteRow(s: seq<Record>, row: Row): seq<Record>
  {
    (if row.id in Ids(s) then Remove(s, row.id) else s) + [RowRecord(row)]
  }

  /** The membership test in the paste loop does not matter: it is a delete then an append. */
  lemma PasteRowShape(s: seq<Record>, row: Row)
    ensures PasteRow(s, row) == Remove(s, row.id) + [RowRecord(row)]
  {
    if row.id !in Ids(s) {
      RemoveAbsent(s, row.id);
    }
  }

  /** After a pasted row with id k, k occurs once, last, and the other records keep their order. */
  lemma PasteRowEffect(s: seq<Record>, row: Row)
    ensures var t := PasteRow(s, row);
            |t| > 0 && t[|t| - 1] == RowRecord(row) &&
            (forall i :: 0 <= i < |t| - 1 ==> t[i].id != row.id) &&
            Remove(t, row.id) == Remove(s, row.id)
  {
    PasteRowShape(s, row);
    var t := PasteRow(s, row);
    var r := Remove(s, row.id);
    RemoveMembers(s, row.id);
    forall i | 0 <= i < |t| - 1 ensures t[i].id != row.id {
      assert t[i] == r[i] && r[i] in r;
    }
    RemoveAppend(r, [RowRecord(row)], row.id);
    assert [RowRecord(row)][1..] == [];
    RemoveIdempotent(s, row.id);
  }

  /** A pasted row keeps ids unique. */
  lemma PasteRowKeepsUnique(s: seq<Record>, row: Row)
    requires Unique(s)
    ensures Unique(PasteRow(s, row))
  {
    PasteRowEffect(s, row);
    var t := PasteRow(s, row);
    RemoveKeepsUnique(s, row.id);
    PasteRowShape(s, row);
    var r := Remove(s, row.id);
    forall i, j | 0 <= i < j < |t| ensures t[i].id != t[j].id {
      if j < |t| - 1 {
        assert t[i] == r[i] && t[j] == r[j];
      }
    }
  }

  /** The paste loop over all rows, in order. */
  function PasteRows(s: seq<Record>, rows: seq<Row>): seq<Record>
    decreases |rows|
  {
    if rows == [] then s else PasteRows(PasteRow(s, rows[0]), rows[1..])
  }

  /** A whole paste keeps ids unique. */
  lemma {:induction false} PasteRowsKeepsUnique(s: seq<Record>, rows: seq<Row>)
    requires Unique(s)
    ensures Unique(PasteRows(s, rows))
    decreases |rows|
  {
    if rows != [] {
      PasteRowKeepsUnique(s, rows[0]);
      PasteRowsKeepsUnique(PasteRow(s, rows[0]), rows[1..]);
    }
  }

  // ---------------------------------------------------------------------
  // Paste input validation

  /** The characters Python's `str.isspace` accepts, i.e. what `str.strip()` removes. */
  predicate IsSpace(c: char)
  {
    c in {'\t', '\n', '\U{0B}', '\U{0C}', '\r', '\U{1C}', '\U{1D}', '\U{1E}', '\U{1F}', ' ',
          '\U{85}', '\U{A0}', '\U{1680}', '\U{2000}', '\U{2001}', '\U{2002}', '\U{2003}',
          '\U{2004}', '\U{2005}', '\U{2006}', '\U{2007}', '\U{2008}', '\U{2009}', '\U{200A}',
          '\U{2028}', '\U{2029}', '\U{202F}', '\U{205F}', '\U{3000}'}
  }

  predicate IsBlank(t: string)
  {
    forall i :: 0 <= i < |t| ==> IsSpace(t[i])
  }

  function StripStart(t: string): (r: string)
    ensures |r| <= |t| && r == t[|t| - |r|..]
    ensures forall i :: 0 <= i < |t| - |r| ==> IsSpace(t[i])
    ensures r == [] || !IsSpace(r[0])
    ensures r == [] <==> IsBlank(t)
  {
    if |t| > 0 && IsSpace(t[0]) then
      assert forall i :: 0 < i < |t| ==> t[1..][i - 1] == t[i];
      StripStart(t[1..])
    else t
  }

  function StripEnd(t: string): (r: string)
    ensures |r| <= |t| && r == t[..|r|]
    ensures forall i :: |r| <= i < |t| ==> IsSpace(t[i])
    ensures r == [] || !IsSpace(r[|r| - 1])
    ensures r == [] <==> IsBlank(t)
  {
    if |t| > 0 && IsSpace(t[|t| - 1]) then
      assert forall i :: 0 <= i < |t| - 1 ==> t[..|t| - 1][i] == t[i];
      StripEnd(t[..|t| - 1])
    else t
  }

  /** Python's `str.strip()`. */
  function Strip(t: string): string
  {
    StripEnd(StripStart(t))
  }

  /** `not text.strip()` holds exactly of the texts made only of whitespace. */
  lemma StripEmptyIffBlank(t: string)
    ensures Strip(t) == [] <==> IsBlank(t)
  {
    var u := StripStart(t);
    if u != [] {
      assert !IsSpace(u[0]);
      assert !IsBlank(u);
    }
  }

  lemma DifferenceEmpty(a: set<string>, b: set<string>)
    ensures a - b == {} <==> a <= b
  {
    if !(a <= b) {
      var x :| x in a && x !in b;
      assert x in a - b;
    }
  }

  /** The columns the paste dialog demands. */
  const RequiredColumns: set<string> := {"ID", "Color", "Opacity"}

  /** The pasted text as `pd.read_csv` parsed it: its column names and its typed data rows. */
  datatype Table = Table(columns: set<string>, rows: seq<Row>)

  datatype PasteError = EmptyInput | Unreadable | MissingColumns(missing: set<string>)

  /**
   * The checks the paste dialog makes before it offers the Add button:
   * blank text, text that could not be read as a table (`parsed` is None),
   * and a header missing one of the required columns.
   */
  function CheckPaste(text: string, parsed: Option<Table>): (e: Option<PasteError>)
    ensures e == Some(EmptyInput) <==> IsBlank(text)
    ensures e == Some(Unreadable) <==> !IsBlank(text) && parsed.None?
    ensures e.Some? && e.value.MissingColumns? <==>
              !IsBlank(text) && parsed.Some? && RequiredColumns - parsed.value.columns != {}
    ensures e.Some? && e.value.MissingColumns? ==> e.value.missing == RequiredColumns - parsed.value.columns
    ensures e.None? <==>
              !IsBlank(text) && parsed.Some? && RequiredColumns - parsed.value.columns == {}
  {
    StripEmptyIffBlank(text);
    if Strip(text) == [] then Some(EmptyInput)
    else if parsed.None? then Some(Unreadable)
    else
      DifferenceEmpty(RequiredColumns, parsed.value.columns);
      if !(RequiredColumns <= parsed.value.columns) then
      Some(MissingColumns(RequiredColumns - parsed.value.columns))
    else None
  }

  // ---------------------------------------------------------------------
  // Copy

  /** The header line of the clipboard table. */
  const Header: seq<string> := ["ID", "Color", "Opacity"]

  /** One data row per record, in list order. */
  function Rows(s: seq<Record>): seq<Row>
  {
    seq(|s|, i requires 0 <= i < |s| => Row(s[i].id, s[i].color, s[i].opacity))
  }

  /** The column names a header line declares. */
  function ColumnSet(header: seq<string>): set<string>
  {
    set c | c in header
  }

  datatype CopyView = NothingToDisplay | Tsv(header: seq<string>, rows: seq<Row>)

  /** The Copy dialog: a table of the records under the header, or a warning for an empty list. */
  function Export(s: seq<Record>): (v: CopyView)
    ensures v.NothingToDisplay? <==> s == []
    ensures v.Tsv? ==> v.header == Header && |v.rows| == |s|
    ensures v.Tsv? ==> forall i :: 0 <= i < |s| ==>
              v.rows[i].id == s[i].id && v.rows[i].color == s[i].color && v.rows[i].opacity == s[i].opacity
  {
    if s == [] then NothingToDisplay else Tsv(Header, Rows(s))
  }

  // ---------------------------------------------------------------------
  // Copy then Paste

  /** The records whose id is not among `ks`, in their original order. */
  function RemoveAll(s: seq<Record>, ks: seq<int>): seq<Record>
  {
    if s == [] then []
    else if s[0].id in ks then RemoveAll(s[1..], ks)
    else [s[0]] + RemoveAll(s[1..], ks)
  }

  /** The records with every colour given a leading '#'. */
  function Normalized(s: seq<Record>): seq<Record>
  {
    seq(|s|, i requires 0 <= i < |s| => s[i].(color := NormalizeColor(s[i].color)))
  }

  lemma {:induction false} RemoveAllNone(s: seq<Record>)
    ensures RemoveAll(s, []) == s
  {
    if s != [] {
      RemoveAllNone(s[1..]);
      assert s == [s[0]] + s[1..];
    }
  }

  lemma {:induction false} RemoveAllAppend(a: seq<Record>, b: seq<Record>, ks: seq<int>)
    ensures RemoveAll(a + b, ks) == RemoveAll(a, ks) + RemoveAll(b, ks)
  {
    if a == [] {
      assert a + b == b;
    } else {
      assert (a + b)[0] == a[0];
      assert (a + b)[1..] == a[1..] + b;
      RemoveAllAppend(a[1..], b, ks);
    }
  }

  lemma {:induction false} RemoveThenRemoveAll(s: seq<Record>, k: int, ks: seq<int>)
    ensures RemoveAll(Remove(s, k), ks) == RemoveAll(s, [k] + ks)
  {
    if s != [] {
      RemoveThenRemoveAll(s[1..], k, ks);
      if s[0].id != k {
        var t := Remove(s[1..], k);
        assert ([s[0]] + t)[0] == s[0];
        assert ([s[0]] + t)[1..] == t;
      }
    }
  }

  lemma {:induction false} RemoveAllOwnIds(s: seq<Record>, ks: seq<int>)
    requires forall i :: 0 <= i < |s| ==> s[i].id in ks
    ensures RemoveAll(s, ks) == []
  {
    if s != [] {
      assert s[0].id in ks;
      RemoveAllOwnIds(s[1..], ks);
    }
  }

  /**
   * Pasting an exported table onto any list leaves that list's records with
   * other ids, in order, followed by the table's records with their colours
   * normalised.
   */
  lemma {:induction false} PasteTable(s: seq<Record>, a: seq<Record>)
    requires Unique(a)
    ensures PasteRows(s, Rows(a)) == RemoveAll(s, Ids(a)) + Normalized(a)
    decreases |a|
  {
    if a == [] {
      RemoveAllNone(s);
      assert Rows(a) == [] && Normalized(a) == [];
    } else {
      var x, rest := a[0], a[1..];
      assert a == [x] + rest;
      UniqueCons(x, rest);
      var row := Rows(a)[0];
      var rec := RowRecord(row);
      assert Rows(a)[1..] == Rows(rest);
      var t := Remove(s, x.id) + [rec];
      assert RemoveAll([rec], Ids(rest)) == [rec] by {
        assert rec.id == x.id;
        assert [rec][1..] == [];
      }
      assert Ids(a) == [x.id] + Ids(rest);
      assert Normalized(a) == [rec] + Normalized(rest);
      calc {
        PasteRows(s, Rows(a));
        PasteRows(PasteRow(s, row), Rows(rest));
        { PasteRowShape(s, row); }
        PasteRows(t, Rows(rest));
        { PasteTable(t, rest); }
        RemoveAll(t, Ids(rest)) + Normalized(rest);
        { RemoveAllAppend(Remove(s, x.id), [rec], Ids(rest)); }
        RemoveAll(Remove(s, x.id), Ids(rest)) + [rec] + Normalized(rest);
        { RemoveThenRemoveAll(s, x.id, Ids(rest)); }
        RemoveAll(s, Ids(a)) + ([rec] + Normalized(rest));
      }
    }
  }

  /** The header Copy writes declares exactly the columns Paste demands. */
  lemma HeaderColumns()
    ensures ColumnSet(Header) == RequiredColumns
  {
    assert Header[0] == "ID" && Header[1] == "Color" && Header[2] == "Opacity";
    assert forall c :: c in Header ==> c == "ID" || c == "Color" || c == "Opacity";
  }

  /** A table under the Copy header passes the paste dialog's checks, given non-blank text. */
  lemma ExportedTableAccepted(text: string, rows: seq<Row>)
    requires !IsBlank(text)
    ensures CheckPaste(text, Some(Table(ColumnSet(Header), rows))) == None
  {
    HeaderColumns();
  }

  /**
   * Copy then Paste of the whole table gives back the same list, whether it
   * is pasted onto the list itself or onto an empty one, when every colour
   * already starts with '#'. The table reader is not modelled: the round trip
   * holds when reading the copied text yields exactly the exported table,
   * its header's columns and its rows.
   */
  lemma CopyPasteRoundTrip(s: seq<Record>, text: string)
    requires Unique(s)
    requires forall i :: 0 <= i < |s| ==> StartsWithHash(s[i].color)
    requires s != [] && !IsBlank(text)
    ensures Export(s).Tsv?
    ensures var v := Export(s);
            CheckPaste(text, Some(Table(ColumnSet(v.header), v.rows))) == None &&
            PasteRows(s, v.rows) == s && PasteRows([], v.rows) == s
  {
    ExportedTableAccepted(text, Rows(s));
    assert Normalized(s) == s;
    PasteTable(s, s);
    forall i | 0 <= i < |s| ensures s[i].id in Ids(s) {
      assert Ids(s)[i] == s[i].id;
    }
    RemoveAllOwnIds(s, Ids(s));
    PasteTable([], s);
    assert RemoveAll([], Ids(s)) == [];
  }
}
