/** The spreadsheet parser. Row 0 of the table is the header, which names
    the `type` column, the key column, one column per language and the
    `options` column; every later row is data. Each data row's type cell
    says which kind of resource it feeds; rows with an empty key cell are
    skipped. Python's IndexError on a row too short for a column becomes
    `CellMissing`, and every other exception its `Error` value. */
module Spreadsheet {
  import opened Errors
  import opened Strings
  import opened Collections
  import opened Resources

  type Row = seq<string>

  const TypeColumnName: string := "type"
  const OptionsColumnName: string := "options"
  const TypeString: string := "string"
  const TypeStringArray: string := "string-array"
  const TypePlurals: string := "plurals"

  // ---------------------------------------------------------------------
  // The header

  /** Column `i` is where `name` first occurs in the header. */
  predicate FirstAt(header: Row, name: string, i: nat)
  {
    i < |header| && header[i] == name && forall k :: 0 <= k < i ==> header[k] != name
  }

  /** `header.index(name)`, or the failure naming the missing column. */
  function Locate(header: Row, name: string): (r: Result<nat>)
    ensures r.Success? <==> name in header
    ensures r.Success? ==> FirstAt(header, name, r.value)
    ensures r.Failure? ==> r.error == MalformedHeader(name)
  {
    if name in header then Success(Position(header, name)) else Failure(MalformedHeader(name))
  }

  /** The columns of `languages`, resolved in list order; the first
      language missing from the header fails. */
  function LocateLanguages(header: Row, languages: seq<Lang>): (r: Result<map<Lang, nat>>)
    ensures r.Success? <==> forall l :: l in languages ==> l in header
    ensures r.Success? ==> r.value.Keys == Elements(languages)
    ensures r.Success? ==> forall l :: l in r.value ==> FirstAt(header, l, r.value[l])
    ensures r.Failure? ==> exists k :: 0 <= k < |languages| && languages[k] !in header &&
                                       r.error == MalformedHeader(languages[k]) &&
                                       forall m :: 0 <= m < k ==> languages[m] in header
    decreases |languages|
  {
    if |languages| == 0 then Success(map[])
    else
      var column :- Locate(header, languages[0]);
      var rest :- LocateLanguages(header, languages[1..]);
      assert Elements(languages) == {languages[0]} + Elements(languages[1..]);
      Success(rest[languages[0] := column])
  }

  /** Everything the header must name. */
  predicate HeaderComplete(header: Row, resourceColumn: string, languages: seq<Lang>)
  {
    && TypeColumnName in header
    && resourceColumn in header
    && (forall l :: l in languages ==> l in header)
    && OptionsColumnName in header
  }

  /** A loaded spreadsheet: the header, the data rows, and the resolved
      column of each field. */
  datatype Sheet = Sheet(
    resourceColumn: string,
    header: Row,
    data: seq<Row>,
    languages: seq<Lang>,
    typeColumn: nat,
    idColumn: nat,
    languageColumns: map<Lang, nat>,
    optionsColumn: nat)
  {
    /** What loading establishes about the columns. */
    predicate Valid()
    {
      && FirstAt(header, TypeColumnName, typeColumn)
      && FirstAt(header, resourceColumn, idColumn)
      && languageColumns.Keys == Elements(languages)
      && (forall l :: l in languageColumns ==> FirstAt(header, l, languageColumns[l]))
      && FirstAt(header, OptionsColumnName, optionsColumn)
    }
  }

  /** The constructor on a table of rows: split off the header, then
      resolve `type`, the key column, each language and `options`, in that
      order, failing on the first one missing. */
  function Load(resourceColumn: string, table: seq<Row>, languages: seq<Lang>): (r: Result<Sheet>)
    ensures |table| == 0 ==> r == Failure(EmptyTable)
    ensures r.Success? <==> |table| > 0 && HeaderComplete(table[0], resourceColumn, languages)
    ensures r.Success? ==> r.value.Valid()
    ensures r.Success? ==> r.value.header == table[0] && r.value.data == table[1..]
    ensures r.Success? ==> r.value.languages == languages && r.value.resourceColumn == resourceColumn
    ensures |table| > 0 && TypeColumnName !in table[0] ==> r == Failure(MalformedHeader(TypeColumnName))
    ensures |table| > 0 && TypeColumnName in table[0] && resourceColumn !in table[0] ==>
              r == Failure(MalformedHeader(resourceColumn))
    ensures |table| > 0 && TypeColumnName in table[0] && resourceColumn in table[0] &&
            !(forall l :: l in languages ==> l in table[0]) ==>
              exists k :: 0 <= k < |languages| && languages[k] !in table[0] &&
                          r == Failure(MalformedHeader(languages[k])) &&
                          forall m :: 0 <= m < k ==> languages[m] in table[0]
    ensures |table| > 0 && TypeColumnName in table[0] && resourceColumn in table[0] &&
            (forall l :: l in languages ==> l in table[0]) && OptionsColumnName !in table[0] ==>
              r == Failure(MalformedHeader(OptionsColumnName))
  {
    if |table| == 0 then Failure(EmptyTable)
    else
      var header := table[0];
      var typeColumn :- Locate(header, TypeColumnName);
      var idColumn :- Locate(header, resourceColumn);
      var languageColumns :- LocateLanguages(header, languages);
      var optionsColumn :- Locate(header, OptionsColumnName);
      Success(Sheet(resourceColumn, header, table[1..], languages, typeColumn, idColumn, languageColumns, optionsColumn))
  }

  /** Loading looks at the header row only: tables with the same header
      load alike, whatever their data rows. */
  lemma LoadReadsHeaderOnly(resourceColumn: string, header: Row, data1: seq<Row>, data2: seq<Row>, languages: seq<Lang>)
    ensures Load(resourceColumn, [header] + data1, languages).Success? ==
            Load(resourceColumn, [header] + data2, languages).Success?
    ensures Load(resourceColumn, [header] + data1, languages).Failure? ==>
              Load(resourceColumn, [header] + data1, languages) == Load(resourceColumn, [header] + data2, languages)
    ensures Load(resourceColumn, [header] + data1, languages).Success? ==>
              Load(resourceColumn, [header] + data1, languages).value.(data := data2) ==
              Load(resourceColumn, [header] + data2, languages).value
  {
    assert ([header] + data1)[0] == header && ([header] + data2)[0] == header;
    assert ([header] + data1)[1..] == data1 && ([header] + data2)[1..] == data2;
  }

  // ---------------------------------------------------------------------
  // Cells

  /** `row[column]`, failing on a row too short for the column. */
  function Cell(row: Row, column: nat): (r: Result<string>)
    ensures r.Success? <==> column < |row|
    ensures r.Success? ==> r.value == row[column]
    ensures r.Failure? ==> r.error == CellMissing
  {
    if column < |row| then Success(row[column]) else Failure(CellMissing)
  }

  /** The options of an options cell: spaces dropped, split at `;`. */
  function OptionsOf(cell: string): (options: seq<string>)
    ensures |options| > 0
    ensures forall i :: 0 <= i < |options| ==> ' ' !in options[i] && ';' !in options[i]
    ensures Join(options, ';') == Replace(cell, " ", "")
  {
    var squeezed := Replace(cell, " ", "");
    var options := Split(squeezed, ';');
    assert forall i :: 0 <= i < |options| ==> ' ' !in options[i] by {
      forall i | 0 <= i < |options|
        ensures ' ' !in options[i]
      {
        JoinedPieces(options, ';', i);
      }
    }
    options
  }

  /** A piece of a join occurs in the joined string. */
  lemma {:induction false} JoinedPieces(parts: seq<string>, sep: char, i: nat)
    requires i < |parts|
    ensures forall c :: c in parts[i] ==> c in Join(parts, sep)
    decreases |parts|
  {
    if i > 0 {
      JoinedPieces(parts[1..], sep, i - 1);
      assert parts[1..][i - 1] == parts[i];
    }
  }

  /** An empty options cell yields one empty option, not none. */
  lemma EmptyOptions()
    ensures OptionsOf("") == [""]
  {
    assert Replace("", " ", "") == "";
    assert Count("", ';') == 0;
  }

  /** Options written without spaces or separators inside come back as
      written. */
  lemma OptionsRoundTrip(options: seq<string>)
    requires |options| > 0
    requires forall i :: 0 <= i < |options| ==> ' ' !in options[i] && ';' !in options[i]
    ensures OptionsOf(Join(options, ';')) == options
  {
    var joined := Join(options, ';');
    assert ' ' !in joined by {
      if ' ' in joined {
        JoinHasOnly(options, ';', ' ');
      }
    }
    ReplaceAbsent(joined, " ", "");
    SplitJoin(options, ';');
  }

  /** Every character of a join is a separator or comes from a piece. */
  lemma {:induction false} JoinHasOnly(parts: seq<string>, sep: char, c: char)
    requires c != sep && c in Join(parts, sep)
    ensures exists i :: 0 <= i < |parts| && c in parts[i]
    decreases |parts|
  {
    if |parts| > 1 {
      var tail := Join(parts[1..], sep);
      assert Join(parts, sep) == parts[0] + [sep] + tail;
      if c !in parts[0] {
        JoinHasOnly(parts[1..], sep, c);
        var i :| 0 <= i < |parts[1..]| && c in parts[1..][i];
        assert parts[i + 1] == parts[1..][i];
      }
    }
  }

  /** A composite key cell `key:suffix`: the parts around its one colon. */
  datatype CompositeKey = CompositeKey(key: string, suffix: string)

  /** `key, suffix = cell.split(':')`: exactly one colon is required. */
  function SplitKey(cell: string): (r: Result<CompositeKey>)
    ensures r.Success? <==> Count(cell, ':') == 1
    ensures r.Failure? ==> r.error == MalformedKey(cell)
    ensures r.Success? ==> cell == r.value.key + [':'] + r.value.suffix
    ensures r.Success? ==> ':' !in r.value.key && ':' !in r.value.suffix
  {
    var parts := Split(cell, ':');
    if |parts| != 2 then Failure(MalformedKey(cell))
    else
      assert Join(parts, ':') == parts[0] + [':'] + Join(parts[1..], ':');
      assert parts[1..] == [parts[1]];
      Success(CompositeKey(parts[0], parts[1]))
  }

  /** Splitting a key written with one colon gives its two parts back. */
  lemma SplitKeyRoundTrip(key: string, suffix: string)
    requires ':' !in key && ':' !in suffix
    ensures SplitKey(key + [':'] + suffix) == Success(CompositeKey(key, suffix))
  {
    var parts := [key, suffix];
    assert Join(parts, ':') == key + [':'] + suffix by {
      assert parts[1..] == [suffix];
    }
    SplitJoin(parts, ':');
  }

  /** `int(text)` on an index, failing as a ValueError does. */
  function ParseIndex(text: string): (r: Result<int>)
    ensures r.Success? <==> ParseInt(text).Some?
    ensures r.Success? ==> r.value == ParseInt(text).value
    ensures r.Failure? ==> r.error == InvalidIndex(text)
  {
    match ParseInt(text)
    case Some(n) => Success(n)
    case None => Failure(InvalidIndex(text))
  }

  // ---------------------------------------------------------------------
  // Reading a data row

  /** `language_column(language)` then the cell: an undeclared language is
      a missing dict key. */
  function LanguageCell(sh: Sheet, row: Row, language: Lang): (r: Result<string>)
    ensures r.Success? <==> language in sh.languageColumns && sh.languageColumns[language] < |row|
    ensures r.Success? ==> r.value == row[sh.languageColumns[language]]
  {
    if language !in sh.languageColumns then Failure(MissingEntry)
    else Cell(row, sh.languageColumns[language])
  }

  /** `_get_row_options`: the options column always exists once loaded. */
  function RowOptions(sh: Sheet, row: Row): (r: Result<seq<string>>)
    ensures r.Success? <==> sh.optionsColumn < |row|
    ensures r.Success? ==> r.value == OptionsOf(row[sh.optionsColumn])
    ensures r.Failure? ==> r.error == CellMissing
  {
    var cell :- Cell(row, sh.optionsColumn);
    Success(OptionsOf(cell))
  }

  /** `_has_valid_key`: the key cell is non-empty. */
  function HasValidKey(sh: Sheet, row: Row): (r: Result<bool>)
    ensures r.Success? <==> sh.idColumn < |row|
    ensures r.Success? ==> (r.value <==> |row[sh.idColumn]| > 0)
  {
    var key :- Cell(row, sh.idColumn);
    Success(|key| > 0)
  }

  /** A row of the given kind with a non-empty key: the rows the loops act on. */
  predicate Selected(sh: Sheet, row: Row, kind: string)
  {
    && sh.typeColumn < |row| && row[sh.typeColumn] == kind
    && sh.idColumn < |row| && |row[sh.idColumn]| > 0
  }

  /** The row reaches every language column and, when there are languages,
      the options column. */
  predicate Readable(sh: Sheet, row: Row)
  {
    && (|sh.languages| > 0 ==> sh.optionsColumn < |row|)
    && forall l :: l in sh.languages ==> l in sh.languageColumns && sh.languageColumns[l] < |row|
  }

  /** The loop over a kind gets through `row` without a missing cell: its
      type cell exists, and for a row of that kind so does its key cell,
      and for a selected one every cell the loop reads. */
  predicate CellsPresent(sh: Sheet, row: Row, kind: string)
  {
    && sh.typeColumn < |row|
    && (row[sh.typeColumn] == kind ==> sh.idColumn < |row|)
    && (Selected(sh, row, kind) ==> Readable(sh, row))
  }

  /** The translation a row gives a language: its cell plus the row options. */
  function RowText(sh: Sheet, row: Row, language: Lang): Text
    requires language in sh.languageColumns && sh.languageColumns[language] < |row|
    requires sh.optionsColumn < |row|
  {
    Text(row[sh.languageColumns[language]], OptionsOf(row[sh.optionsColumn]))
  }

  // ---------------------------------------------------------------------
  // String rows

  /** The per-language loop of `__get_string`: read the language cell and
      the options, then add the text. */
  function FillString(sh: Sheet, res: StringResource, row: Row, langs: seq<Lang>): (r: Result<StringResource>)
    ensures r.Success? <==>
              (|langs| == 0 ||
               (sh.optionsColumn < |row| &&
                forall l :: l in langs ==> l in sh.languageColumns && sh.languageColumns[l] < |row| && l in res.Languages()))
    ensures r.Success? ==> r.value.key == res.key && r.value.Languages() == res.Languages()
    ensures r.Success? ==> forall l :: l in langs ==> r.value.strings[l] == RowText(sh, row, l)
    ensures r.Success? ==> forall l :: l in res.strings && l !in langs ==> r.value.strings[l] == res.strings[l]
    decreases |langs|
  {
    if |langs| == 0 then Success(res)
    else
      var text :- LanguageCell(sh, row, langs[0]);
      var options :- RowOptions(sh, row);
      var next :- res.Add(langs[0], Text(text, options));
      var r := FillString(sh, next, row, langs[1..]);
      assert forall l :: l in langs ==> l == langs[0] || l in langs[1..];
      r
  }

  /** `__get_string`: a fresh resource keyed by the key cell, filled in for
      every language. */
  function RowString(sh: Sheet, row: Row): (r: Result<StringResource>)
    requires sh.idColumn < |row|
    ensures sh.Valid() ==> (r.Success? <==> Readable(sh, row))
    ensures r.Success? ==> r.value.key == row[sh.idColumn] && r.value.Languages() == Elements(sh.languages)
    ensures sh.Valid() && r.Success? ==> forall l :: l in sh.languages ==> r.value.strings[l] == RowText(sh, row, l)
  {
    FillString(sh, NewStringResource(row[sh.idColumn], sh.languages), row, sh.languages)
  }

  /** One iteration of `get_strings`. */
  function StringStep(sh: Sheet, acc: seq<StringResource>, row: Row): (r: Result<seq<StringResource>>)
    ensures sh.Valid() ==> (r.Success? <==> CellsPresent(sh, row, TypeString))
    ensures r.Success? && !Selected(sh, row, TypeString) ==> r.value == acc
    ensures r.Success? && Selected(sh, row, TypeString) ==> |r.value| == |acc| + 1 && r.value[..|acc|] == acc
    ensures sh.Valid() && r.Success? && Selected(sh, row, TypeString) ==> r.value == acc + [ExpectedString(sh, row)]
  {
    var kind :- Cell(row, sh.typeColumn);
    if kind != TypeString then Success(acc)
    else
      var valid :- HasValidKey(sh, row);
      if !valid then Success(acc)
      else
        var s :- RowString(sh, row);
        assert (acc + [s])[..|acc|] == acc;
        assert sh.Valid() ==> s == ExpectedString(sh, row) by {
          if sh.Valid() {
            assert s.strings == ExpectedString(sh, row).strings;
          }
        }
        Success(acc + [s])
  }

  /** The loop of `get_strings` over `rows`, stopping at the first failure. */
  function StringRows(sh: Sheet, acc: seq<StringResource>, rows: seq<Row>): Result<seq<StringResource>>
    decreases |rows|
  {
    if |rows| == 0 then Success(acc)
    else
      var next :- StringStep(sh, acc, rows[0]);
      StringRows(sh, next, rows[1..])
  }

  /** `get_strings`. */
  function GetStrings(sh: Sheet): Result<seq<StringResource>>
  {
    StringRows(sh, [], sh.data)
  }

  /** The resource a selected, readable string row stands for. */
  function ExpectedString(sh: Sheet, row: Row): StringResource
    requires sh.Valid() && Selected(sh, row, TypeString) && Readable(sh, row)
  {
    StringResource(row[sh.idColumn], map l | l in sh.languages :: RowText(sh, row, l))
  }

  /** The rows of a kind with a non-empty key, in order. */
  function SelectedRows(sh: Sheet, rows: seq<Row>, kind: string): (selected: seq<Row>)
    ensures forall i :: 0 <= i < |selected| ==> Selected(sh, selected[i], kind) && selected[i] in rows
    ensures forall r :: r in rows && Selected(sh, r, kind) ==> r in selected
    decreases |rows|
  {
    if |rows| == 0 then []
    else (if Selected(sh, rows[0], kind) then [rows[0]] else []) + SelectedRows(sh, rows[1..], kind)
  }

  /** The string loop fails exactly when some row lacks a cell it reads. */
  lemma {:induction false} StringRowsSucceed(sh: Sheet, acc: seq<StringResource>, rows: seq<Row>)
    requires sh.Valid()
    ensures StringRows(sh, acc, rows).Success? <==>
            forall i :: 0 <= i < |rows| ==> CellsPresent(sh, rows[i], TypeString)
    decreases |rows|
  {
    if |rows| > 0 {
      assert forall i :: 0 < i < |rows| ==> rows[i] == rows[1..][i - 1];
      match StringStep(sh, acc, rows[0])
      case Failure(_) =>
      case Success(next) =>
        StringRowsSucceed(sh, next, rows[1..]);
    }
  }

  /** What `get_strings` should give for `rows`: in row order, the resource
      of each string row with a non-empty key. */
  function StringsOf(sh: Sheet, rows: seq<Row>): seq<StringResource>
    requires sh.Valid() && forall i :: 0 <= i < |rows| ==> CellsPresent(sh, rows[i], TypeString)
    decreases |rows|
  {
    if |rows| == 0 then []
    else
      assert CellsPresent(sh, rows[0], TypeString);
      assert forall i :: 0 < i < |rows| ==> rows[i] == rows[1..][i - 1];
      (if Selected(sh, rows[0], TypeString) then [ExpectedString(sh, rows[0])] else []) + StringsOf(sh, rows[1..])
  }

  /** The string loop appends `StringsOf` its rows to what it had. */
  lemma {:induction false} StringRowsSpec(sh: Sheet, acc: seq<StringResource>, rows: seq<Row>)
    requires sh.Valid() && StringRows(sh, acc, rows).Success?
    ensures && (forall i :: 0 <= i < |rows| ==> CellsPresent(sh, rows[i], TypeString))
            && StringRows(sh, acc, rows).value == acc + StringsOf(sh, rows)
    decreases |rows|
  {
    if |rows| > 0 {
      var next := StringStep(sh, acc, rows[0]).value;
      StringRowsSpec(sh, next, rows[1..]);
      assert forall i :: 0 < i < |rows| ==> rows[i] == rows[1..][i - 1];
      if Selected(sh, rows[0], TypeString) {
        assert next == acc + [ExpectedString(sh, rows[0])];
        assert StringsOf(sh, rows) == [ExpectedString(sh, rows[0])] + StringsOf(sh, rows[1..]);
        assert next + StringsOf(sh, rows[1..]) == acc + StringsOf(sh, rows);
      }
    }
  }

  /** `StringsOf` holds one resource per selected row, in order, and each
      is that row's resource. */
  lemma {:induction false} StringsOfSelected(sh: Sheet, rows: seq<Row>)
    requires sh.Valid() && forall i :: 0 <= i < |rows| ==> CellsPresent(sh, rows[i], TypeString)
    ensures var selected := SelectedRows(sh, rows, TypeString);
            && |StringsOf(sh, rows)| == |selected|
            && forall k :: 0 <= k < |selected| ==>
                 Readable(sh, selected[k]) && StringsOf(sh, rows)[k] == ExpectedString(sh, selected[k])
    decreases |rows|
  {
    if |rows| > 0 {
      assert forall i :: 0 < i < |rows| ==> rows[i] == rows[1..][i - 1];
      StringsOfSelected(sh, rows[1..]);
      var rest := SelectedRows(sh, rows[1..], TypeString);
      if Selected(sh, rows[0], TypeString) {
        var selected := SelectedRows(sh, rows, TypeString);
        assert selected == [rows[0]] + rest;
        forall k | 0 < k < |selected|
          ensures StringsOf(sh, rows)[k] == StringsOf(sh, rows[1..])[k - 1]
        {
        }
      }
    }
  }

  /** `get_strings` on a loaded sheet. */
  lemma GetStringsRows(sh: Sheet)
    requires sh.Valid()
    ensures GetStrings(sh).Success? <==> forall i :: 0 <= i < |sh.data| ==> CellsPresent(sh, sh.data[i], TypeString)
    ensures GetStrings(sh).Success? ==>
              var selected := SelectedRows(sh, sh.data, TypeString);
              && |GetStrings(sh).value| == |selected|
              && forall k :: 0 <= k < |selected| ==> Readable(sh, selected[k]) && GetStrings(sh).value[k] == ExpectedString(sh, selected[k])
  {
    var none: seq<StringResource> := [];
    StringRowsSucceed(sh, none, sh.data);
    if GetStrings(sh).Success? {
      StringRowsSpec(sh, none, sh.data);
      StringsOfSelected(sh, sh.data);
      assert GetStrings(sh).value == StringsOf(sh, sh.data);
    }
  }

  // ---------------------------------------------------------------------
  // Grouped rows: string-array and plurals

  /** The composite key of a selected row of `kind` whose key cell has
      exactly one colon. */
  function Composite(sh: Sheet, row: Row, kind: string): (c: Option<CompositeKey>)
    ensures c.Some? <==> Selected(sh, row, kind) && Count(row[sh.idColumn], ':') == 1
    ensures c.Some? ==> SplitKey(row[sh.idColumn]) == Success(c.value)
  {
    if Selected(sh, row, kind) && Count(row[sh.idColumn], ':') == 1 then Some(SplitKey(row[sh.idColumn]).value)
    else None
  }

  /** The group keys the rows of `kind` name, repeats included, in row order. */
  function GroupKeys(sh: Sheet, rows: seq<Row>, kind: string): (keys: seq<string>)
    ensures forall k :: k in keys <==>
              exists i :: 0 <= i < |rows| && Composite(sh, rows[i], kind).Some? && Composite(sh, rows[i], kind).value.key == k
    decreases |rows|
  {
    if |rows| == 0 then []
    else
      var rest := GroupKeys(sh, rows[1..], kind);
      assert forall i :: 0 < i < |rows| ==> rows[i] == rows[1..][i - 1];
      match Composite(sh, rows[0], kind)
      case None => rest
      case Some(c) => [c.key] + rest
  }

  /** The suffix after the colon: an `int()` index for arrays, one of the
      six category names for plurals. */
  predicate SuffixValid(kind: string, suffix: string)
  {
    if kind == TypeStringArray then ParseInt(suffix).Some? else ParseQuantity(suffix).Some?
  }

  /** The grouping loop over `kind` gets through `row`: its cells are
      there, a selected row's key has one colon, and when there are
      languages to fill in, its suffix is valid. */
  predicate GroupRowOk(sh: Sheet, row: Row, kind: string)
  {
    && CellsPresent(sh, row, kind)
    && (Selected(sh, row, kind) ==>
          Count(row[sh.idColumn], ':') == 1 &&
          (|sh.languages| > 0 ==> SuffixValid(kind, SplitKey(row[sh.idColumn]).value.suffix)))
  }

  // ---------------------------------------------------------------------
  // String-array rows

  /** What the array loop keeps about its dict: each entry is filed under
      its own key and has exactly the declared languages. */
  predicate ArraysWellFormed(sh: Sheet, g: Groups<StringArray>)
  {
    g.Valid() && forall k :: k in g.entries ==> g.entries[k].key == k && g.entries[k].Languages() == Elements(sh.languages)
  }

  /** The per-language loop of `get_string_arrays`: the language cell, the
      options, then `int(index)`, then the add. */
  function FillArray(sh: Sheet, a: StringArray, row: Row, langs: seq<Lang>, index: string): (r: Result<StringArray>)
    ensures r.Success? <==>
              (|langs| == 0 ||
               (sh.optionsColumn < |row| && ParseInt(index).Some? &&
                forall l :: l in langs ==> l in sh.languageColumns && sh.languageColumns[l] < |row| && l in a.Languages()))
    ensures r.Success? ==> r.value.key == a.key && r.value.Languages() == a.Languages()
    ensures r.Success? ==> forall l :: l in langs ==> r.value.arrays[l] == a.arrays[l][ParseInt(index).value := RowText(sh, row, l)]
    ensures r.Success? ==> forall l :: l in a.arrays && l !in langs ==> r.value.arrays[l] == a.arrays[l]
    decreases |langs|
  {
    if |langs| == 0 then Success(a)
    else
      var text :- LanguageCell(sh, row, langs[0]);
      var options :- RowOptions(sh, row);
      var i :- ParseIndex(index);
      var next :- a.Add(langs[0], i, Text(text, options));
      assert next.arrays[langs[0]] == a.arrays[langs[0]][i := RowText(sh, row, langs[0])];
      assert next.arrays[langs[0]][i := RowText(sh, row, langs[0])] == next.arrays[langs[0]];
      var r := FillArray(sh, next, row, langs[1..], index);
      assert forall l :: l in langs ==> l == langs[0] || l in langs[1..];
      r
  }

  /** The array the dict holds for `key`, or a fresh one. */
  function ArrayFor(sh: Sheet, acc: Groups<StringArray>, key: string): StringArray
  {
    if key in acc.entries then acc.entries[key] else NewStringArray(key, sh.languages)
  }

  /** The body of `get_string_arrays` for a row whose key cell splits into
      `c`: fill in the array kept under `c.key`, or a fresh one. */
  function AddArrayRow(sh: Sheet, acc: Groups<StringArray>, row: Row, c: CompositeKey): (r: Result<Groups<StringArray>>)
    ensures ArraysWellFormed(sh, acc) && r.Success? ==> ArraysWellFormed(sh, r.value)
    ensures r.Success? ==> c.key in r.value.entries && r.value == acc.Put(c.key, r.value.entries[c.key])
    ensures r.Success? ==> r.value.entries[c.key].Languages() == ArrayFor(sh, acc, c.key).Languages()
  {
    var a := ArrayFor(sh, acc, c.key);
    var filled := FillArray(sh, a, row, sh.languages, c.suffix);
    if filled.Failure? then Failure(filled.error)
    else
      var g := acc.Put(c.key, filled.value);
      assert g.entries[c.key] == filled.value;
      assert ArraysWellFormed(sh, acc) ==> ArraysWellFormed(sh, g) by {
        if ArraysWellFormed(sh, acc) {
          assert a.key == c.key && a.Languages() == Elements(sh.languages);
          assert forall k :: k in g.entries ==> k == c.key || k in acc.entries;
        }
      }
      Success(g)
  }

  /** The row goes through exactly when it reaches every cell read and,
      with languages to fill in, its index is an integer. */
  lemma AddArrayRowSucceeds(sh: Sheet, acc: Groups<StringArray>, row: Row, c: CompositeKey)
    requires sh.Valid() && ArraysWellFormed(sh, acc)
    ensures AddArrayRow(sh, acc, row, c).Success? <==> Readable(sh, row) && (|sh.languages| > 0 ==> ParseInt(c.suffix).Some?)
  {
    var a := ArrayFor(sh, acc, c.key);
    assert a.Languages() == Elements(sh.languages);
  }

  /** Every language's array gets the row's text at the row's index; the
      rest of the array is kept. */
  lemma AddArrayRowWrites(sh: Sheet, acc: Groups<StringArray>, row: Row, c: CompositeKey, l: Lang)
    requires sh.Valid() && AddArrayRow(sh, acc, row, c).Success?
    requires l in sh.languages && l in ArrayFor(sh, acc, c.key).arrays
    ensures ParseInt(c.suffix).Some? && Readable(sh, row)
    ensures AddArrayRow(sh, acc, row, c).value.entries[c.key].arrays[l] ==
            ArrayFor(sh, acc, c.key).arrays[l][ParseInt(c.suffix).value := RowText(sh, row, l)]
  {
    var filled := FillArray(sh, ArrayFor(sh, acc, c.key), row, sh.languages, c.suffix);
    assert AddArrayRow(sh, acc, row, c).value.entries[c.key] == filled.value;
  }

  /** One iteration of `get_string_arrays`. */
  function ArrayStep(sh: Sheet, acc: Groups<StringArray>, row: Row): (r: Result<Groups<StringArray>>)
    ensures ArraysWellFormed(sh, acc) && r.Success? ==> ArraysWellFormed(sh, r.value)
    ensures r.Success? && Composite(sh, row, TypeStringArray).None? ==> r.value == acc
    ensures Composite(sh, row, TypeStringArray).Some? ==> r == AddArrayRow(sh, acc, row, Composite(sh, row, TypeStringArray).value)
  {
    var kind :- Cell(row, sh.typeColumn);
    if kind != TypeStringArray then Success(acc)
    else
      var valid :- HasValidKey(sh, row);
      if !valid then Success(acc)
      else
        var c :- SplitKey(row[sh.idColumn]);
        AddArrayRow(sh, acc, row, c)
  }

  /** An array row goes through exactly when `GroupRowOk` holds of it. */
  lemma ArrayStepSucceeds(sh: Sheet, acc: Groups<StringArray>, row: Row)
    requires sh.Valid() && ArraysWellFormed(sh, acc)
    ensures ArrayStep(sh, acc, row).Success? <==> GroupRowOk(sh, row, TypeStringArray)
  {
    match Composite(sh, row, TypeStringArray)
    case None =>
    case Some(c) =>
      AddArrayRowSucceeds(sh, acc, row, c);
  }

  /** The loop of `get_string_arrays` over `rows`. */
  function ArrayRows(sh: Sheet, acc: Groups<StringArray>, rows: seq<Row>): (r: Result<Groups<StringArray>>)
    ensures ArraysWellFormed(sh, acc) && r.Success? ==> ArraysWellFormed(sh, r.value)
    decreases |rows|
  {
    if |rows| == 0 then Success(acc)
    else
      var next :- ArrayStep(sh, acc, rows[0]);
      ArrayRows(sh, next, rows[1..])
  }

  /** `get_string_arrays`: the dict's values in insertion order. */
  function GetStringArrays(sh: Sheet): Result<seq<StringArray>>
  {
    var g :- ArrayRows(sh, Groups([], map[]), sh.data);
    Success(g.Values())
  }

  /** The array loop fails exactly when some row is not `GroupRowOk`. */
  lemma {:induction false} ArrayRowsSucceed(sh: Sheet, acc: Groups<StringArray>, rows: seq<Row>)
    requires sh.Valid() && ArraysWellFormed(sh, acc)
    ensures ArrayRows(sh, acc, rows).Success? <==> forall i :: 0 <= i < |rows| ==> GroupRowOk(sh, rows[i], TypeStringArray)
    decreases |rows|
  {
    if |rows| > 0 {
      assert forall i :: 0 < i < |rows| ==> rows[i] == rows[1..][i - 1];
      ArrayStepSucceeds(sh, acc, rows[0]);
      match ArrayStep(sh, acc, rows[0])
      case Failure(_) =>
      case Success(next) =>
        ArrayRowsSucceed(sh, next, rows[1..]);
    }
  }

  /** Arrays are kept in the order in which their keys first appear. */
  lemma {:induction false} ArrayRowsOrder(sh: Sheet, acc: Groups<StringArray>, rows: seq<Row>)
    requires ArraysWellFormed(sh, acc)
    ensures ArrayRows(sh, acc, rows).Success? ==>
              ArrayRows(sh, acc, rows).value.order == DedupOnto(acc.order, GroupKeys(sh, rows, TypeStringArray))
    decreases |rows|
  {
    if |rows| > 0 {
      var keys := GroupKeys(sh, rows, TypeStringArray);
      var rest := GroupKeys(sh, rows[1..], TypeStringArray);
      match ArrayStep(sh, acc, rows[0])
      case Failure(_) =>
      case Success(next) =>
        ArrayRowsOrder(sh, next, rows[1..]);
        match Composite(sh, rows[0], TypeStringArray)
        case None =>
          assert keys == rest;
        case Some(c) =>
          assert keys == [c.key] + rest;
          assert keys[0] == c.key && keys[1..] == rest;
          assert c.key in acc.entries <==> c.key in acc.order;
    }
  }

  /** What `row` writes for `language` into the array of `key`: its text at
      its index when it is a readable row of that key with an integer index. */
  function WriteRow(sh: Sheet, m: map<int, Text>, row: Row, key: string, language: Lang): map<int, Text>
  {
    var c := Composite(sh, row, TypeStringArray);
    if && c.Some? && c.value.key == key && ParseInt(c.value.suffix).Some?
       && language in sh.languageColumns && sh.languageColumns[language] < |row| && sh.optionsColumn < |row|
    then m[ParseInt(c.value.suffix).value := RowText(sh, row, language)]
    else m
  }

  /** The texts the rows of `key` write for `language` onto `m`, in row
      order, a later row overwriting an earlier one at the same index. */
  function WrittenIndices(sh: Sheet, m: map<int, Text>, rows: seq<Row>, key: string, language: Lang): map<int, Text>
    decreases |rows|
  {
    if |rows| == 0 then m
    else WrittenIndices(sh, WriteRow(sh, m, rows[0], key, language), rows[1..], key, language)
  }

  /** The array a row's own key names gets what `WriteRow` says. */
  lemma AddArrayRowOwnKey(sh: Sheet, acc: Groups<StringArray>, row: Row, c: CompositeKey, language: Lang)
    requires sh.Valid() && ArraysWellFormed(sh, acc) && language in sh.languages
    requires Composite(sh, row, TypeStringArray) == Some(c) && AddArrayRow(sh, acc, row, c).Success?
    ensures ArrayFor(sh, AddArrayRow(sh, acc, row, c).value, c.key).arrays[language] ==
            WriteRow(sh, ArrayFor(sh, acc, c.key).arrays[language], row, c.key, language)
  {
    var next := AddArrayRow(sh, acc, row, c).value;
    assert language in ArrayFor(sh, acc, c.key).arrays;
    AddArrayRowWrites(sh, acc, row, c, language);
    assert language in sh.languageColumns;
    assert ArrayFor(sh, next, c.key) == next.entries[c.key];
  }

  /** The arrays of other keys are left alone. */
  lemma AddArrayRowOtherKey(sh: Sheet, acc: Groups<StringArray>, row: Row, c: CompositeKey, key: string, language: Lang)
    requires Composite(sh, row, TypeStringArray) == Some(c) && AddArrayRow(sh, acc, row, c).Success?
    requires c.key != key && language in ArrayFor(sh, acc, key).arrays
    ensures ArrayFor(sh, AddArrayRow(sh, acc, row, c).value, key) == ArrayFor(sh, acc, key)
    ensures WriteRow(sh, ArrayFor(sh, acc, key).arrays[language], row, key, language) == ArrayFor(sh, acc, key).arrays[language]
  {
    var next := AddArrayRow(sh, acc, row, c).value;
    assert next == acc.Put(c.key, next.entries[c.key]);
    assert key in next.entries <==> key in acc.entries;
  }

  /** One iteration of the array loop does to each array what `WriteRow` says. */
  lemma ArrayStepWrites(sh: Sheet, acc: Groups<StringArray>, row: Row, key: string, language: Lang)
    requires sh.Valid() && ArraysWellFormed(sh, acc) && language in sh.languages
    requires ArrayStep(sh, acc, row).Success?
    ensures ArrayFor(sh, ArrayStep(sh, acc, row).value, key).arrays[language] ==
            WriteRow(sh, ArrayFor(sh, acc, key).arrays[language], row, key, language)
  {
    var c := Composite(sh, row, TypeStringArray);
    if c.Some? && c.value.key == key {
      AddArrayRowOwnKey(sh, acc, row, c.value, language);
    } else if c.Some? {
      AddArrayRowOtherKey(sh, acc, row, c.value, key, language);
    } else {
      WriteRowSkips(sh, ArrayFor(sh, acc, key).arrays[language], row, key, language);
    }
  }

  /** A row without a composite key of its kind writes nothing. */
  lemma WriteRowSkips(sh: Sheet, m: map<int, Text>, row: Row, key: string, language: Lang)
    requires Composite(sh, row, TypeStringArray).None?
    ensures WriteRow(sh, m, row, key, language) == m
  {
  }

  /** Each array holds, per language, what the rows of its key wrote. */
  lemma {:induction false} ArrayRowsContent(sh: Sheet, acc: Groups<StringArray>, rows: seq<Row>, key: string, language: Lang)
    requires sh.Valid() && ArraysWellFormed(sh, acc) && language in sh.languages
    requires ArrayRows(sh, acc, rows).Success? && key in ArrayRows(sh, acc, rows).value.entries
    ensures ArrayRows(sh, acc, rows).value.entries[key].arrays[language] ==
            WrittenIndices(sh, ArrayFor(sh, acc, key).arrays[language], rows, key, language)
    decreases |rows|
  {
    if |rows| == 0 {
    } else {
      var next := ArrayStep(sh, acc, rows[0]).value;
      ArrayRowsContent(sh, next, rows[1..], key, language);
      ArrayStepWrites(sh, acc, rows[0], key, language);
    }
  }

  /** `get_string_arrays` on a loaded sheet: it fails exactly when some row
      is not `GroupRowOk`; otherwise there is one array per distinct key,
      in order of first appearance, holding per language what that key's
      rows wrote. */
  lemma GetStringArraysRows(sh: Sheet)
    requires sh.Valid() && GetStringArrays(sh).Success?
    ensures var keys := Dedup(GroupKeys(sh, sh.data, TypeStringArray));
            var arrays := GetStringArrays(sh).value;
            && |arrays| == |keys|
            && forall i :: 0 <= i < |arrays| ==>
                 && arrays[i].key == keys[i]
                 && arrays[i].Languages() == Elements(sh.languages)
                 && forall l :: l in sh.languages ==> arrays[i].arrays[l] == WrittenIndices(sh, map[], sh.data, keys[i], l)
  {
    var empty: Groups<StringArray> := Groups([], map[]);
    GetStringArraysValues(sh);
    ArrayRowsOrder(sh, empty, sh.data);
    var g := ArrayRows(sh, empty, sh.data).value;
    forall i, l | 0 <= i < |g.order| && l in sh.languages
      ensures g.entries[g.order[i]].arrays[l] == WrittenIndices(sh, map[], sh.data, g.order[i], l)
    {
      ArrayRowsContent(sh, empty, sh.data, g.order[i], l);
    }
  }

  /** `get_string_arrays` lists the values of the well-formed dict its
      loop builds. */
  lemma GetStringArraysValues(sh: Sheet)
    requires GetStringArrays(sh).Success?
    ensures && ArrayRows(sh, Groups([], map[]), sh.data).Success?
            && ArraysWellFormed(sh, ArrayRows(sh, Groups([], map[]), sh.data).value)
            && GetStringArrays(sh).value == ArrayRows(sh, Groups([], map[]), sh.data).value.Values()
  {
    var empty: Groups<StringArray> := Groups([], map[]);
    assert ArraysWellFormed(sh, empty);
  }

  /** `get_string_arrays` fails exactly when some row is not `GroupRowOk`:
      a key cell without exactly one colon, a short row, or, when there are
      languages to fill in, an index `int()` rejects. */
  lemma GetStringArraysSucceeds(sh: Sheet)
    requires sh.Valid()
    ensures GetStringArrays(sh).Success? <==>
            forall i :: 0 <= i < |sh.data| ==> GroupRowOk(sh, sh.data[i], TypeStringArray)
  {
    ArrayRowsSucceed(sh, Groups([], map[]), sh.data);
  }

  // ---------------------------------------------------------------------
  // Plurals rows

  /** What the plurals loop keeps about its dict: each entry is filed under
      its own key, has exactly the declared languages and all six
      categories for each. */
  predicate PluralsWellFormed(sh: Sheet, g: Groups<QuantityStrings>)
  {
    && g.Valid()
    && forall k :: k in g.entries ==>
         g.entries[k].key == k && g.entries[k].Languages() == Elements(sh.languages) && g.entries[k].Complete()
  }

  /** The per-language loop of `get_quantity_strings`: the language cell,
      the options, then `add_quantity_string`, which checks the category. */
  function FillPlurals(sh: Sheet, p: QuantityStrings, row: Row, langs: seq<Lang>, quantity: string): (r: Result<QuantityStrings>)
    ensures r.Success? <==>
              (|langs| == 0 ||
               (sh.optionsColumn < |row| && ParseQuantity(quantity).Some? &&
                forall l :: l in langs ==> l in sh.languageColumns && sh.languageColumns[l] < |row| && l in p.Languages()))
    ensures r.Success? ==> r.value.key == p.key && r.value.Languages() == p.Languages()
    ensures r.Success? && p.Complete() ==> r.value.Complete()
    ensures r.Success? ==> forall l :: l in langs ==> r.value.plurals[l] == p.plurals[l][ParseQuantity(quantity).value := RowText(sh, row, l)]
    ensures r.Success? ==> forall l :: l in p.plurals && l !in langs ==> r.value.plurals[l] == p.plurals[l]
    decreases |langs|
  {
    if |langs| == 0 then Success(p)
    else
      var text :- LanguageCell(sh, row, langs[0]);
      var options :- RowOptions(sh, row);
      var next :- p.AddQuantityText(langs[0], quantity, Text(text, options));
      var q := ParseQuantity(quantity).value;
      assert next.plurals[langs[0]] == p.plurals[langs[0]][q := RowText(sh, row, langs[0])];
      assert next.plurals[langs[0]][q := RowText(sh, row, langs[0])] == next.plurals[langs[0]];
      var r := FillPlurals(sh, next, row, langs[1..], quantity);
      assert forall l :: l in langs ==> l == langs[0] || l in langs[1..];
      r
  }

  /** The resource the dict holds for `key`, or a fresh one. */
  function PluralsFor(sh: Sheet, acc: Groups<QuantityStrings>, key: string): QuantityStrings
  {
    if key in acc.entries then acc.entries[key] else NewQuantityStrings(key, sh.languages)
  }

  /** The body of `get_quantity_strings` for a row whose key cell splits
      into `c`: fill in the resource kept under `c.key`, or a fresh one. */
  function AddPluralsRow(sh: Sheet, acc: Groups<QuantityStrings>, row: Row, c: CompositeKey): (r: Result<Groups<QuantityStrings>>)
    ensures PluralsWellFormed(sh, acc) && r.Success? ==> PluralsWellFormed(sh, r.value)
    ensures r.Success? ==> c.key in r.value.entries && r.value == acc.Put(c.key, r.value.entries[c.key])
    ensures r.Success? ==> r.value.entries[c.key].Languages() == PluralsFor(sh, acc, c.key).Languages()
  {
    var p := PluralsFor(sh, acc, c.key);
    var filled := FillPlurals(sh, p, row, sh.languages, c.suffix);
    if filled.Failure? then Failure(filled.error)
    else
      var g := acc.Put(c.key, filled.value);
      assert g.entries[c.key] == filled.value;
      assert PluralsWellFormed(sh, acc) ==> PluralsWellFormed(sh, g) by {
        if PluralsWellFormed(sh, acc) {
          assert p.key == c.key && p.Languages() == Elements(sh.languages) && p.Complete();
          assert forall k :: k in g.entries ==> k == c.key || k in acc.entries;
        }
      }
      Success(g)
  }

  /** The row goes through exactly when it reaches every cell read and,
      with languages to fill in, names one of the six categories. */
  lemma AddPluralsRowSucceeds(sh: Sheet, acc: Groups<QuantityStrings>, row: Row, c: CompositeKey)
    requires sh.Valid() && PluralsWellFormed(sh, acc)
    ensures AddPluralsRow(sh, acc, row, c).Success? <==> Readable(sh, row) && (|sh.languages| > 0 ==> ParseQuantity(c.suffix).Some?)
  {
    var p := PluralsFor(sh, acc, c.key);
    assert p.Languages() == Elements(sh.languages);
  }

  /** Every language gets the row's text under the row's category; the
      other categories are kept. */
  lemma AddPluralsRowWrites(sh: Sheet, acc: Groups<QuantityStrings>, row: Row, c: CompositeKey, l: Lang)
    requires sh.Valid() && AddPluralsRow(sh, acc, row, c).Success?
    requires l in sh.languages && l in PluralsFor(sh, acc, c.key).plurals
    ensures ParseQuantity(c.suffix).Some? && Readable(sh, row)
    ensures AddPluralsRow(sh, acc, row, c).value.entries[c.key].plurals[l] ==
            PluralsFor(sh, acc, c.key).plurals[l][ParseQuantity(c.suffix).value := RowText(sh, row, l)]
  {
    var filled := FillPlurals(sh, PluralsFor(sh, acc, c.key), row, sh.languages, c.suffix);
    assert AddPluralsRow(sh, acc, row, c).value.entries[c.key] == filled.value;
  }

  /** One iteration of `get_quantity_strings`. */
  function PluralsStep(sh: Sheet, acc: Groups<QuantityStrings>, row: Row): (r: Result<Groups<QuantityStrings>>)
    ensures PluralsWellFormed(sh, acc) && r.Success? ==> PluralsWellFormed(sh, r.value)
    ensures r.Success? && Composite(sh, row, TypePlurals).None? ==> r.value == acc
    ensures Composite(sh, row, TypePlurals).Some? ==> r == AddPluralsRow(sh, acc, row, Composite(sh, row, TypePlurals).value)
  {
    var kind :- Cell(row, sh.typeColumn);
    if kind != TypePlurals then Success(acc)
    else
      var valid :- HasValidKey(sh, row);
      if !valid then Success(acc)
      else
        var c :- SplitKey(row[sh.idColumn]);
        AddPluralsRow(sh, acc, row, c)
  }

  /** A plurals row goes through exactly when `GroupRowOk` holds of it. */
  lemma PluralsStepSucceeds(sh: Sheet, acc: Groups<QuantityStrings>, row: Row)
    requires sh.Valid() && PluralsWellFormed(sh, acc)
    ensures PluralsStep(sh, acc, row).Success? <==> GroupRowOk(sh, row, TypePlurals)
  {
    match Composite(sh, row, TypePlurals)
    case None =>
    case Some(c) =>
      AddPluralsRowSucceeds(sh, acc, row, c);
  }

  /** The loop of `get_quantity_strings` over `rows`. */
  function PluralsRows(sh: Sheet, acc: Groups<QuantityStrings>, rows: seq<Row>): (r: Result<Groups<QuantityStrings>>)
    ensures PluralsWellFormed(sh, acc) && r.Success? ==> PluralsWellFormed(sh, r.value)
    decreases |rows|
  {
    if |rows| == 0 then Success(acc)
    else
      var next :- PluralsStep(sh, acc, rows[0]);
      PluralsRows(sh, next, rows[1..])
  }

  function PluralsKey(p: QuantityStrings): string
  {
    p.key
  }

  /** `get_quantity_strings`: the dict's values sorted by key. */
  function GetQuantityStrings(sh: Sheet): Result<seq<QuantityStrings>>
  {
    match PluralsRows(sh, Groups([], map[]), sh.data)
    case Failure(e) => Failure(e)
    case Success(g) => Success(SortBy(g.Values(), PluralsKey))
  }

  /** The plurals loop fails exactly when some row is not `GroupRowOk`. */
  lemma {:induction false} PluralsRowsSucceed(sh: Sheet, acc: Groups<QuantityStrings>, rows: seq<Row>)
    requires sh.Valid() && PluralsWellFormed(sh, acc)
    ensures PluralsRows(sh, acc, rows).Success? <==> forall i :: 0 <= i < |rows| ==> GroupRowOk(sh, rows[i], TypePlurals)
    decreases |rows|
  {
    if |rows| > 0 {
      assert forall i :: 0 < i < |rows| ==> rows[i] == rows[1..][i - 1];
      PluralsStepSucceeds(sh, acc, rows[0]);
      match PluralsStep(sh, acc, rows[0])
      case Failure(_) =>
      case Success(next) =>
        PluralsRowsSucceed(sh, next, rows[1..]);
    }
  }

  /** The dict gets one entry per distinct key, in first-appearance order. */
  lemma {:induction false} PluralsRowsOrder(sh: Sheet, acc: Groups<QuantityStrings>, rows: seq<Row>)
    requires PluralsWellFormed(sh, acc)
    ensures PluralsRows(sh, acc, rows).Success? ==>
              PluralsRows(sh, acc, rows).value.order == DedupOnto(acc.order, GroupKeys(sh, rows, TypePlurals))
    decreases |rows|
  {
    if |rows| > 0 {
      var keys := GroupKeys(sh, rows, TypePlurals);
      var rest := GroupKeys(sh, rows[1..], TypePlurals);
      match PluralsStep(sh, acc, rows[0])
      case Failure(_) =>
      case Success(next) =>
        PluralsRowsOrder(sh, next, rows[1..]);
        match Composite(sh, rows[0], TypePlurals)
        case None =>
          assert keys == rest;
        case Some(c) =>
          assert keys == [c.key] + rest;
          assert keys[0] == c.key && keys[1..] == rest;
          assert c.key in acc.entries <==> c.key in acc.order;
    }
  }

  /** What `row` writes for `language` into the resource of `key`: its text
      under its category when it is a readable row of that key naming one
      of the six. */
  function WriteQuantity(sh: Sheet, m: map<Quantity, Text>, row: Row, key: string, language: Lang): map<Quantity, Text>
  {
    var c := Composite(sh, row, TypePlurals);
    if && c.Some? && c.value.key == key && ParseQuantity(c.value.suffix).Some?
       && language in sh.languageColumns && sh.languageColumns[language] < |row| && sh.optionsColumn < |row|
    then m[ParseQuantity(c.value.suffix).value := RowText(sh, row, language)]
    else m
  }

  /** The texts the rows of `key` write for `language` onto `m`, in row
      order, a later row overwriting an earlier one in the same category. */
  function WrittenQuantities(sh: Sheet, m: map<Quantity, Text>, rows: seq<Row>, key: string, language: Lang): map<Quantity, Text>
    decreases |rows|
  {
    if |rows| == 0 then m
    else WrittenQuantities(sh, WriteQuantity(sh, m, rows[0], key, language), rows[1..], key, language)
  }

  /** The resource a row's own key names gets what `WriteQuantity` says. */
  lemma AddPluralsRowOwnKey(sh: Sheet, acc: Groups<QuantityStrings>, row: Row, c: CompositeKey, language: Lang)
    requires sh.Valid() && PluralsWellFormed(sh, acc) && language in sh.languages
    requires Composite(sh, row, TypePlurals) == Some(c) && AddPluralsRow(sh, acc, row, c).Success?
    ensures PluralsFor(sh, AddPluralsRow(sh, acc, row, c).value, c.key).plurals[language] ==
            WriteQuantity(sh, PluralsFor(sh, acc, c.key).plurals[language], row, c.key, language)
  {
    var next := AddPluralsRow(sh, acc, row, c).value;
    assert language in PluralsFor(sh, acc, c.key).plurals;
    AddPluralsRowWrites(sh, acc, row, c, language);
    assert language in sh.languageColumns;
    assert PluralsFor(sh, next, c.key) == next.entries[c.key];
  }

  /** The resources of other keys are left alone. */
  lemma AddPluralsRowOtherKey(sh: Sheet, acc: Groups<QuantityStrings>, row: Row, c: CompositeKey, key: string, language: Lang)
    requires Composite(sh, row, TypePlurals) == Some(c) && AddPluralsRow(sh, acc, row, c).Success?
    requires c.key != key && language in PluralsFor(sh, acc, key).plurals
    ensures PluralsFor(sh, AddPluralsRow(sh, acc, row, c).value, key) == PluralsFor(sh, acc, key)
    ensures WriteQuantity(sh, PluralsFor(sh, acc, key).plurals[language], row, key, language) == PluralsFor(sh, acc, key).plurals[language]
  {
  }

  /** One iteration of the plurals loop does to each resource what
      `WriteQuantity` says. */
  lemma PluralsStepWrites(sh: Sheet, acc: Groups<QuantityStrings>, row: Row, key: string, language: Lang)
    requires sh.Valid() && PluralsWellFormed(sh, acc) && language in sh.languages
    requires PluralsStep(sh, acc, row).Success?
    ensures PluralsFor(sh, PluralsStep(sh, acc, row).value, key).plurals[language] ==
            WriteQuantity(sh, PluralsFor(sh, acc, key).plurals[language], row, key, language)
  {
    var c := Composite(sh, row, TypePlurals);
    if c.Some? && c.value.key == key {
      AddPluralsRowOwnKey(sh, acc, row, c.value, language);
    } else if c.Some? {
      AddPluralsRowOtherKey(sh, acc, row, c.value, key, language);
    } else {
      WriteQuantitySkips(sh, PluralsFor(sh, acc, key).plurals[language], row, key, language);
    }
  }

  /** A row without a composite key of its kind writes nothing. */
  lemma WriteQuantitySkips(sh: Sheet, m: map<Quantity, Text>, row: Row, key: string, language: Lang)
    requires Composite(sh, row, TypePlurals).None?
    ensures WriteQuantity(sh, m, row, key, language) == m
  {
  }

  /** Each resource holds, per language, what the rows of its key wrote. */
  lemma {:induction false} PluralsRowsContent(sh: Sheet, acc: Groups<QuantityStrings>, rows: seq<Row>, key: string, language: Lang)
    requires sh.Valid() && PluralsWellFormed(sh, acc) && language in sh.languages
    requires PluralsRows(sh, acc, rows).Success? && key in PluralsRows(sh, acc, rows).value.entries
    ensures PluralsRows(sh, acc, rows).value.entries[key].plurals[language] ==
            WrittenQuantities(sh, PluralsFor(sh, acc, key).plurals[language], rows, key, language)
    decreases |rows|
  {
    if |rows| == 0 {
    } else {
      var next := PluralsStep(sh, acc, rows[0]).value;
      PluralsRowsContent(sh, next, rows[1..], key, language);
      PluralsStepWrites(sh, acc, rows[0], key, language);
    }
  }

  /** The dict's values have distinct keys, so sorting them makes the
      keys strictly ascend. */
  lemma SortedPluralsAscend(sh: Sheet, g: Groups<QuantityStrings>)
    requires PluralsWellFormed(sh, g)
    ensures var ps := SortBy(g.Values(), PluralsKey);
            forall i, j :: 0 <= i < j < |ps| ==> Less(ps[i].key, ps[j].key)
  {
    var vs := g.Values();
    assert DistinctKeys(vs, PluralsKey) by {
      forall i, j | 0 <= i < j < |vs|
        ensures PluralsKey(vs[i]) != PluralsKey(vs[j])
      {
        assert vs[i].key == g.order[i] && vs[j].key == g.order[j];
      }
    }
    SortByStrict(vs, PluralsKey);
  }

  /** Each sorted value is the dict's entry for its key. */
  lemma SortedPluralsEntries(sh: Sheet, g: Groups<QuantityStrings>, i: nat)
    requires PluralsWellFormed(sh, g)
    requires i < |SortBy(g.Values(), PluralsKey)|
    ensures var p := SortBy(g.Values(), PluralsKey)[i];
            p.key in g.entries && p == g.entries[p.key]
  {
    var vs := g.Values();
    var ps := SortBy(vs, PluralsKey);
    assert ps[i] in multiset(vs);
    var j :| 0 <= j < |vs| && vs[j] == ps[i];
  }

  /** Each of the dict's entries is among the sorted values. */
  lemma SortedPluralsCover(sh: Sheet, g: Groups<QuantityStrings>, k: string)
    requires PluralsWellFormed(sh, g) && k in g.entries
    ensures exists i :: 0 <= i < |SortBy(g.Values(), PluralsKey)| && SortBy(g.Values(), PluralsKey)[i].key == k
  {
    var vs := g.Values();
    var ps := SortBy(vs, PluralsKey);
    assert k in g.order;
    var j := Position(g.order, k);
    assert vs[j].key == k;
    assert vs[j] in multiset(ps);
    var i :| 0 <= i < |ps| && ps[i] == vs[j];
    assert ps[i].key == k;
  }

  /** `get_quantity_strings` fails exactly when some row is not
      `GroupRowOk`: a key cell without exactly one colon, a short row, or,
      when there are languages to fill in, a category outside the six. */
  lemma GetQuantityStringsSucceeds(sh: Sheet)
    requires sh.Valid()
    ensures GetQuantityStrings(sh).Success? <==>
            forall i :: 0 <= i < |sh.data| ==> GroupRowOk(sh, sh.data[i], TypePlurals)
  {
    PluralsRowsSucceed(sh, Groups([], map[]), sh.data);
  }

  /** `get_quantity_strings` sorts the values of the well-formed dict its
      loop builds. */
  lemma GetQuantityStringsSorted(sh: Sheet)
    requires GetQuantityStrings(sh).Success?
    ensures && PluralsRows(sh, Groups([], map[]), sh.data).Success?
            && PluralsWellFormed(sh, PluralsRows(sh, Groups([], map[]), sh.data).value)
            && GetQuantityStrings(sh).value == SortBy(PluralsRows(sh, Groups([], map[]), sh.data).value.Values(), PluralsKey)
  {
    var empty: Groups<QuantityStrings> := Groups([], map[]);
    assert PluralsWellFormed(sh, empty);
  }

  /** The resources come in strictly ascending key order. */
  lemma GetQuantityStringsAscend(sh: Sheet)
    requires sh.Valid() && GetQuantityStrings(sh).Success?
    ensures var ps := GetQuantityStrings(sh).value;
            forall i, j :: 0 <= i < j < |ps| ==> Less(ps[i].key, ps[j].key)
  {
    GetQuantityStringsSorted(sh);
    SortedPluralsAscend(sh, PluralsRows(sh, Groups([], map[]), sh.data).value);
  }

  /** The sorted values carry exactly the dict's keys. */
  lemma SortedPluralsKeys(sh: Sheet, g: Groups<QuantityStrings>)
    requires PluralsWellFormed(sh, g)
    ensures forall k :: k in g.entries <==>
              exists i :: 0 <= i < |SortBy(g.Values(), PluralsKey)| && SortBy(g.Values(), PluralsKey)[i].key == k
  {
    forall k | k in g.entries
      ensures exists i :: 0 <= i < |SortBy(g.Values(), PluralsKey)| && SortBy(g.Values(), PluralsKey)[i].key == k
    {
      SortedPluralsCover(sh, g, k);
    }
    forall i | 0 <= i < |SortBy(g.Values(), PluralsKey)|
      ensures SortBy(g.Values(), PluralsKey)[i].key in g.entries
    {
      SortedPluralsEntries(sh, g, i);
    }
  }

  /** There is one resource per key the plurals rows name. */
  lemma GetQuantityStringsKeys(sh: Sheet)
    requires sh.Valid() && GetQuantityStrings(sh).Success?
    ensures var ps := GetQuantityStrings(sh).value;
            forall k :: k in GroupKeys(sh, sh.data, TypePlurals) <==> exists i :: 0 <= i < |ps| && ps[i].key == k
  {
    var empty: Groups<QuantityStrings> := Groups([], map[]);
    GetQuantityStringsSorted(sh);
    var g := PluralsRows(sh, empty, sh.data).value;
    var keys := GroupKeys(sh, sh.data, TypePlurals);
    PluralsGroupKeys(sh);
    var ps := GetQuantityStrings(sh).value;
    SortedPluralsKeys(sh, g);
    forall k
      ensures k in keys <==> exists i :: 0 <= i < |ps| && ps[i].key == k
    {
      assert k in keys <==> k in g.entries;
    }
  }

  /** The plurals dict holds an entry for exactly the keys the rows name. */
  lemma PluralsGroupKeys(sh: Sheet)
    requires sh.Valid() && PluralsRows(sh, Groups([], map[]), sh.data).Success?
    ensures PluralsRows(sh, Groups([], map[]), sh.data).value.entries.Keys == Elements(GroupKeys(sh, sh.data, TypePlurals))
  {
    var empty: Groups<QuantityStrings> := Groups([], map[]);
    PluralsRowsOrder(sh, empty, sh.data);
    var g := PluralsRows(sh, empty, sh.data).value;
    assert g.order == DedupOnto([], GroupKeys(sh, sh.data, TypePlurals));
  }

  /** Each resource is complete, has the declared languages, and holds
      per language what its key's rows wrote over the blank texts. */
  lemma GetQuantityStringsContent(sh: Sheet, i: nat, l: Lang)
    requires sh.Valid() && GetQuantityStrings(sh).Success?
    requires i < |GetQuantityStrings(sh).value| && l in sh.languages
    ensures var p := GetQuantityStrings(sh).value[i];
            && p.Languages() == Elements(sh.languages) && p.Complete()
            && p.plurals[l] == WrittenQuantities(sh, NewQuantityStrings(p.key, sh.languages).plurals[l], sh.data, p.key, l)
  {
    var empty: Groups<QuantityStrings> := Groups([], map[]);
    GetQuantityStringsSorted(sh);
    var g := PluralsRows(sh, empty, sh.data).value;
    SortedPluralsEntries(sh, g, i);
    var p := GetQuantityStrings(sh).value[i];
    PluralsRowsContent(sh, empty, sh.data, p.key, l);
    assert PluralsFor(sh, empty, p.key) == NewQuantityStrings(p.key, sh.languages);
  }

  // ---------------------------------------------------------------------
  // All resources

  /** `get_all_resources`: the strings, then the string arrays, then the
      plurals, each list as its own getter returns it; the first getter to
      fail decides the error. */
  function GetAllResources(sh: Sheet): (r: Result<seq<Resource>>)
    ensures r.Success? <==> GetStrings(sh).Success? && GetStringArrays(sh).Success? && GetQuantityStrings(sh).Success?
    ensures GetStrings(sh).Failure? ==> r == Failure(GetStrings(sh).error)
    ensures GetStrings(sh).Success? && GetStringArrays(sh).Failure? ==> r == Failure(GetStringArrays(sh).error)
    ensures GetStrings(sh).Success? && GetStringArrays(sh).Success? && GetQuantityStrings(sh).Failure? ==>
              r == Failure(GetQuantityStrings(sh).error)
  {
    match GetStrings(sh)
    case Failure(e) => Failure(e)
    case Success(strings) =>
      match GetStringArrays(sh)
      case Failure(e) => Failure(e)
      case Success(arrays) =>
        match GetQuantityStrings(sh)
        case Failure(e) => Failure(e)
        case Success(plurals) => Success(Concatenated(strings, arrays, plurals))
  }

  /** The strings, then the arrays, then the plurals, each as a `Resource`. */
  function Concatenated(strings: seq<StringResource>, arrays: seq<StringArray>, plurals: seq<QuantityStrings>): (r: seq<Resource>)
    ensures |r| == |strings| + |arrays| + |plurals|
    ensures forall i :: 0 <= i < |strings| ==> r[i] == StringRes(strings[i])
    ensures forall i :: 0 <= i < |arrays| ==> r[|strings| + i] == ArrayRes(arrays[i])
    ensures forall i :: 0 <= i < |plurals| ==> r[|strings| + |arrays| + i] == PluralsRes(plurals[i])
  {
    seq(|strings|, i requires 0 <= i < |strings| => StringRes(strings[i])) +
    seq(|arrays|, i requires 0 <= i < |arrays| => ArrayRes(arrays[i])) +
    seq(|plurals|, i requires 0 <= i < |plurals| => PluralsRes(plurals[i]))
  }

  /** `get_all_resources` lists the strings, then the arrays, then the
      plurals, each in the order its getter gives. */
  lemma GetAllResourcesLayout(sh: Sheet)
    requires GetAllResources(sh).Success?
    ensures var r := GetAllResources(sh).value;
            var strings := GetStrings(sh).value;
            var arrays := GetStringArrays(sh).value;
            var plurals := GetQuantityStrings(sh).value;
            && |r| == |strings| + |arrays| + |plurals|
            && (forall i :: 0 <= i < |strings| ==> r[i] == StringRes(strings[i]))
            && (forall i :: 0 <= i < |arrays| ==> r[|strings| + i] == ArrayRes(arrays[i]))
            && (forall i :: 0 <= i < |plurals| ==> r[|strings| + |arrays| + i] == PluralsRes(plurals[i]))
  {
    assert GetAllResources(sh).value == Concatenated(GetStrings(sh).value, GetStringArrays(sh).value, GetQuantityStrings(sh).value);
  }
}
