# SwissBioPicsApp selection list, in Dafny

The application is a single Streamlit page that lets a user build a list of
GO-id annotations, each an `(id, colour, opacity)` triple, and then colours the
matching regions of the embedded SwissBioPics cell diagram. Its one piece of
logic is the list manager held in the session:

- **Add** refuses an id already in the list and otherwise appends the new record.
- **Paste** imports a tab-separated table. It refuses blank text, text the
  table reader cannot read, and a header that lacks one of `ID`, `Color` and
  `Opacity`. Otherwise it walks the rows in order. For each row it adds a
  leading `#` to the colour when it has none, drops any record with the row's
  id, and appends the row. A re-pasted id therefore moves to the end.
- **Edit** replaces the record with the given id where it stands.
- **Delete** drops the record with the selected id.
- **Clear** empties the list.
- **Copy** shows the list as a table with the header `ID`/`Color`/`Opacity`, one row per record.

From the list the page derives the widget's id list and a stylesheet: nine
rules per record, three for each of the class families `GO<id>`, `mp_GO<id>`
and `part_GO<id>`. When the list is empty the page stops with
"No GO IDs selected".

The project has three modules:

- `Records` (records.dfy) holds the values and the pure list transformations
  that specify each operation, with the lemmas about them: uniqueness of ids
  is kept, Delete keeps the order, Edit keeps positions, Paste moves the id to
  the end, and Copy-then-Paste gives back a non-empty list whose colours start
  with `#`, provided reading the copied text yields exactly the exported table.
- `Styles` (styles.dfy) derives the id list and the stylesheet text.
- `Session` (selection.dfy) has the class `SelectionList`. Its one field is
  the session's list, and it has one method per button. The Paste method
  loops over the rows as the page does.

Three behaviours of the code that the model keeps as written:

- Edit of an id that is not in the list changes nothing. The code raises no
  error there; the page only offers Edit for a selected row.
- Delete of an absent id is a no-op.
- Paste does not check that an opacity lies in [0, 1]. Only the sliders of
  the Add and Edit dialogs bound it.

## Model

| member | source | states |
|---|---|---|
| Records.Ids | app.py:25 | the ids of the selection in list order, the comprehension `[x[0] for x in ...]` that Add (line 25) and the paste loop (line 71) test membership in; no contract of its own: InIds states that membership in it means some record carries the id |
| Records.InIds | app.py:25 | an id is in the id list exactly when some record of the selection carries it |
| Records.AddRecord | app.py:25-29 | the Add button's list transformation; no contract of its own: AddEffect, AddKeepsUnique and AddTwiceRejected state what it does |
| Records.AddEffect | app.py:24-29 | Add is refused exactly when some record already carries the id; otherwise the result is the old list with the new record as its one extra, last element |
| Records.AddKeepsUnique | app.py:25-29 | a successful Add keeps at most one record per id |
| Records.AddTwiceRejected | app.py:25-27 | after a successful Add, a second Add with the same id is refused with DuplicateId, whatever its colour and opacity |
| Records.Remove | app.py:139 | Delete's filter; no contract of its own: RemoveMembers, RemoveGone, RemoveAbsent, RemoveIdempotent, RemoveAppend, RemoveAt and RemoveKeepsUnique state what it does |
| Records.RemoveMembers | app.py:139 | Delete keeps exactly the records whose id differs from the deleted one |
| Records.RemoveGone | app.py:139 | after Delete the id no longer occurs |
| Records.RemoveAbsent | app.py:139 | deleting an id that is not present leaves the list unchanged |
| Records.RemoveIdempotent | app.py:139 | deleting twice equals deleting once |
| Records.RemoveAppend | app.py:139 | Delete acts on each part of a concatenation separately, so the survivors keep their relative order |
| Records.RemoveAt | app.py:139 | on a valid list, deleting the id at position k removes exactly position k and keeps the rest in order |
| Records.RemoveKeepsUnique | app.py:139 | Delete keeps at most one record per id |
| Records.Replace | app.py:108-109 | Edit's list comprehension; no contract of its own: ReplaceKeepsIds, ReplaceAt and ReplaceAbsent state what it does |
| Records.ReplaceKeepsIds | app.py:108-109 | Edit keeps the length, every id at its position, and hence uniqueness |
| Records.ReplaceAt | app.py:108-109 | on a valid list, Edit of the id at position k is the update of position k to the new colour and opacity, all else unchanged |
| Records.ReplaceAbsent | app.py:108-109 | editing an id that is not present leaves the list unchanged |
| Records.NormalizeColor | app.py:69 | the normalised colour always starts with '#', is the colour itself when that already starts with '#', and is otherwise the colour behind one added '#' |
| Records.NormalizeIdempotent | app.py:69 | normalising twice equals normalising once |
| Records.RowRecord | app.py:65-69 | the record a pasted row becomes: its id, its colour normalised, its opacity; no contract of its own: NormalizeColor, PasteRowEffect and PasteTable state what it yields |
| Records.PasteRow | app.py:65-77 | one row of the paste loop; no contract of its own: PasteRowShape, PasteRowEffect and PasteRowKeepsUnique state what it does |
| Records.PasteRows | app.py:64-77 | the whole paste loop, row by row in table order; no contract of its own: PasteRowsKeepsUnique, PasteTable and CopyPasteRoundTrip state what it does |
| Records.PasteRowShape | app.py:71-77 | the membership test before the filter makes no difference: a pasted row is a delete of its id followed by an append |
| Records.PasteRowEffect | app.py:71-77 | after one pasted row with id k, the normalised row is the last record, no earlier record has id k, and the records with other ids are those of before in the same order |
| Records.PasteRowKeepsUnique | app.py:71-77 | one pasted row keeps at most one record per id |
| Records.PasteRowsKeepsUnique | app.py:64-77 | a whole paste keeps at most one record per id |
| Records.IsSpace | app.py:40 | the 29 characters Python's `str.isspace` accepts, the ones `str.strip()` removes; no contract of its own: StripStart and StripEnd state that only such characters are removed |
| Records.IsBlank | app.py:40 | a text made only of those characters; no contract of its own: StripEmptyIffBlank states that `not text.strip()` holds exactly for such a text |
| Records.StripStart | app.py:40 | leading whitespace removal: yields a suffix of the text, everything removed is whitespace, it leaves nothing exactly for an all-whitespace text, else starts with a non-space |
| Records.StripEnd | app.py:40 | trailing whitespace removal: yields a prefix of the text, everything removed is whitespace, the result is empty exactly for an all-whitespace text and else ends with a non-space |
| Records.Strip | app.py:40 | `str.strip()`; no contract of its own: StripStart, StripEnd and StripEmptyIffBlank state what it does |
| Records.StripEmptyIffBlank | app.py:40 | `text.strip()` is empty exactly when every character is Python whitespace |
| Records.CheckPaste | app.py:39-56 | the paste is refused as empty exactly for blank text, as unreadable exactly when the reader failed on non-blank text, and for missing columns exactly when {ID, Color, Opacity} minus the header's columns is non-empty, that difference being the one reported; it is accepted in no other case |
| Records.Rows | app.py:89 | the DataFrame rows of the selection, one per record in list order; no contract of its own: Export states what they carry, and PasteTable and CopyPasteRoundTrip state what pasting them does |
| Records.ColumnSet | app.py:53-54 | the column set of a header; no contract of its own: HeaderColumns states that Copy's header gives exactly the required columns |
| Records.Export | app.py:88-93 | Copy shows nothing exactly for an empty list; otherwise the header ID/Color/Opacity and one row per record in list order carrying its id, colour and opacity |
| Records.HeaderColumns | app.py:52 | the columns of Copy's header are exactly the columns Paste demands |
| Records.ExportedTableAccepted | app.py:52-56 | a table under Copy's header passes every paste check when the text is not blank |
| Records.PasteTable | app.py:64-77 | pasting the rows of a valid list onto any list leaves that list's records with other ids, in order, followed by the pasted records with normalised colours |
| Records.CopyPasteRoundTrip | app.py:64-90 | for a valid non-empty list whose colours start with '#', when reading the copied text yields exactly the exported table, that table passes the paste checks and pasting it onto the list itself or onto an empty list gives back the same list |
| Styles.NatText | app.py:155 | the decimal text of a natural number is non-empty and starts with a digit, never a sign |
| Styles.IdText | app.py:155 | the text of an id is never empty |
| Styles.ParseIdText | app.py:155 | the text of an id reads back as that id |
| Styles.IdTextInjective | app.py:155 | distinct ids have distinct texts |
| Styles.GoIds | app.py:155 | `go_ids`; no contract of its own: GoIdsFaithful states what it does |
| Styles.JoinSnoc | app.py:156 | joining one more part adds the separator and that part at the end |
| Styles.JoinEmpty | app.py:156 | a join of non-empty parts is empty exactly when there are no parts |
| Styles.GosAttribute | app.py:183 | the comma-joined `gos` attribute; no contract of its own: RenderStops states that it is non-empty for a non-empty list |
| Styles.GoIdsFaithful | app.py:155 | the widget's id list has one entry per record, entry i reads back as record i's id, it is empty exactly for an empty list, and on a valid list no two entries are equal |
| Styles.GosAttributeAppend | app.py:183 | appending a record appends its id text to the `gos` attribute, preceded by a comma unless the list was empty |
| Styles.Rules | app.py:158-166 | every record yields nine rules |
| Styles.RulesShape | app.py:158-166 | for family f (GO, mp_GO, part_GO), rule 3f selects `svg .<family><id> *:not(text)` and sets fill and opacity, rule 3f+1 selects `svg .<family><id> *:not(path, .coloured)` and sets opacity, rule 3f+2 selects `svg .<family><id> .coloured` and sets a black stroke |
| Styles.FamilyRules | app.py:158-160 | the three f-string lines of one class family; no contract of its own: RulesShape states each rule's selector and declarations |
| Styles.RuleText | app.py:158-166 | one rule's text, selector then braced declarations; no contract of its own: FragmentsLayRules places it in the stylesheet |
| Styles.Lines | app.py:157-167 | rules one per indented line; no contract of its own: FragmentsLayRules states which rules each fragment lays out |
| Styles.Fragment | app.py:157-167 | one record's text block; no contract of its own: FragmentsLayRules and GoStylesAppend state what it holds and where it goes |
| Styles.Fragments | app.py:157-168 | the generator's text blocks, one per record in list order; no contract of its own: FragmentsLayRules states their number and which rules each lays out |
| Styles.Join | app.py:156 | Python's `sep.join`, used for `"\n".join` here and for `','.join` at line 183; no contract of its own: JoinSnoc and JoinEmpty state what it does |
| Styles.GoStyles | app.py:156-169 | `go_styles`; no contract of its own: GoStylesEmpty, GoStylesAppend and FragmentsLayRules state what it does |
| Styles.GoStylesEmpty | app.py:156-169 | the stylesheet is empty exactly when the list is |
| Styles.GoStylesAppend | app.py:156-169 | appending a record appends its fragment, preceded by a newline unless the list was empty |
| Styles.StyleRulesCount | app.py:156-169 | the stylesheet's rules number nine per record, and rules 9i to 9i+8 are those of record i |
| Styles.FragmentsLayRules | app.py:156-169 | there is one fragment per record, and fragment i is the newline-led, indented block of exactly rules 9i to 9i+8 of the stylesheet's rule sequence |
| Styles.Render | app.py:171-173 | the stop-or-embed decision; no contract of its own: RenderStops states what it does |
| Styles.RenderStops | app.py:171-173 | the page stops with the no-selection warning exactly for an empty list; otherwise both the id attribute and the stylesheet are non-empty |
| Styles.EditKeepsGoIds | app.py:108-109 | Edit leaves the widget's id list unchanged |
| Styles.PasteRowGoIds | app.py:71-77 | after a pasted row, its id's text is the last entry of the widget's id list and appears nowhere before it |
| Session.SelectionList.constructor | app.py:9-10 | the session starts with an empty, valid selection |
| Session.SelectionList.Add | app.py:24-29 | refuses with DuplicateId and leaves the list alone exactly when the id is present; otherwise appends the record; keeps ids unique |
| Session.SelectionList.Paste | app.py:39-77 | reports the outcome of the paste checks; a refused paste leaves the list alone; an accepted one leaves the list the row-by-row paste gives; keeps ids unique |
| Session.SelectionList.Edit | app.py:107-109 | the new list is the old one with the id's record replaced in place; keeps ids unique |
| Session.SelectionList.Delete | app.py:138-139 | the new list is the old one without the id's record; keeps ids unique |
| Session.SelectionList.Clear | app.py:143-144 | the list becomes empty |
| Session.SelectionList.Copy | app.py:88-93 | shows nothing exactly for an empty list, else the header and one row per record |
| Session.SelectionList.Show | app.py:155-173 | shows the no-selection warning exactly for an empty list, else the widget with the id list and the stylesheet of the current records |

## Left out

- The Streamlit page itself is out: page configuration, dialogs, buttons,
  columns, the sidebar table's row selection, and `st.rerun`/`st.stop`. Each
  button is modelled only by the state change it triggers.
- `st.session_state` is out. The list is a field of an explicitly owned object.
- Parsing the pasted text with `pd.read_csv` is a library call. Paste takes
  the text together with the parse outcome: no table, or a column set with
  typed rows.
- The exact bytes `DataFrame.to_csv` writes for Copy are out. Copy is
  modelled as the header plus the sequence of rows.
- Records.CheckPaste: the missing columns are reported as a set. The message
  text is out, and so is the order in which `", ".join` lists them.
- The `int()`, `str()` and `float()` conversions of table cells are out, and
  so is the float text of an opacity. Opacity is a `real`, and its text form
  in the stylesheet is a function passed in as `opacityText`.
- A paste row that fails halfway is out. The code has no rollback, and its
  `int()` can raise in the middle of the loop.
- Session.SelectionList.Add: the bounds the dialog widgets enforce are not
  modelled. These are an id of at least 1, a colour from the colour picker,
  and an opacity in [0, 1]. Add accepts any values.
- The HTML template, the external `swissbiopics.js` script, the
  `components.html` embedding and the taxonomy id input are out. They are a
  third-party widget and page output.
