/** Catalogue building and scene selection of the level-2 ordering script.

    `produce_id_file` merges the product-id column of the bulk metadata files
    (already decompressed and split into fields; one sequence of rows per file,
    in the order the URLs are listed) into one catalogue, header first.
    `extract_products` selects from the catalogue's lines those of one
    path/row whose acquisition date lies in an inclusive window. */
module Catalogue {
  import opened Results
  import opened PyText

  /** One record of a bulk metadata file, split into its fields. */
  type Row = seq<string>

  const Header: string := "LANDSAT_PRODUCT_ID"

  /** The id column of the i-th bulk file: 26 for the first (TM), 29 for the
      second (ETM+) and 31 for every later one (OLI/TIRS). */
  function IdColumn(reader: nat): nat {
    if reader == 0 then 26 else if reader == 1 then 29 else 31
  }

  /** The row filter: the id does not end in `RT` and is not the header text. */
  predicate Keeps(id: string) {
    !(|id| >= 2 && id[|id| - 2] == 'R' && id[|id| - 1] == 'T') && id != Header
  }

  /** The filter is the source's test `row[id][-2:] != 'RT' and row[id] != 'LANDSAT_PRODUCT_ID'`,
      and it drops exactly the ids that end in `RT`, besides the header. */
  lemma KeepsIsRowTest(id: string)
    ensures Keeps(id) <==> Tail(id, 2) != "RT" && id != Header
    ensures Keeps(id) <==> !EndsWith(id, "RT") && id != Header
  {
    TailIsSuffix(id, "RT");
    if |id| >= 2 {
      assert id[|id| - 2..] == [id[|id| - 2], id[|id| - 1]];
    }
  }

  /** `row[id_field]` raised IndexError: the first row too short for its file's column. */
  datatype ShortRow = ShortRow(reader: nat, row: nat)

  /** The ids one file contributes, reading column col; Err(j) when row j is the
      first row that has no such column. */
  function KeptIds(rows: seq<Row>, col: nat): Result<seq<string>, nat>
    decreases |rows|
  {
    if rows == [] then Ok([])
    else
      var n := |rows| - 1;
      match KeptIds(rows[..n], col)
      case Err(j) => Err(j)
      case Ok(ids) =>
        if |rows[n]| <= col then Err(n)
        else Ok(ids + if Keeps(rows[n][col]) then [rows[n][col]] else [])
  }

  /** The lines of the merged catalogue file, or the short row that aborts the run. */
  function Catalogue(readers: seq<seq<Row>>): Result<seq<string>, ShortRow>
    decreases |readers|
  {
    if readers == [] then Ok([Header])
    else
      var n := |readers| - 1;
      match Catalogue(readers[..n])
      case Err(e) => Err(e)
      case Ok(lines) =>
        match KeptIds(readers[n], IdColumn(n))
        case Err(j) => Err(ShortRow(n, j))
        case Ok(ids) => Ok(lines + ids)
  }

  /** `produce_id_file` after the downloads: writes the header, then walks the
      files with the counter i, writing the kept ids of each. */
  method ProduceIdFile(readers: seq<seq<Row>>) returns (r: Result<seq<string>, ShortRow>)
    ensures r == Catalogue(readers)
  {
    var written := [Header];
    var i := 0;
    while i < |readers|
      invariant 0 <= i <= |readers|
      invariant Catalogue(readers[..i]) == Ok(written)
    {
      var ids := WriteRows(readers[i], i);
      CatalogueSnoc(readers, i);
      match ids {
        case Err(j) =>
          CatalogueErrorPersists(readers, i + 1);
          return Err(ShortRow(i, j));
        case Ok(more) =>
          written := written + more;
      }
      i := i + 1;
    }
    assert readers[..i] == readers;
    return Ok(written);
  }

  /** The inner loop of `produce_id_file` over the rows of the i-th file:
      the ids it writes, or the index of the row that raised IndexError. */
  method WriteRows(rows: seq<Row>, i: nat) returns (r: Result<seq<string>, nat>)
    ensures r == KeptIds(rows, IdColumn(i))
  {
    var ids := [];
    var j := 0;
    while j < |rows|
      invariant 0 <= j <= |rows|
      invariant KeptIds(rows[..j], IdColumn(i)) == Ok(ids)
    {
      var idField := if i == 0 then 26 else if i == 1 then 29 else 31;
      var row := rows[j];
      if |row| <= idField {
        KeptIdsStopsAt(rows, j, IdColumn(i), ids);
        KeptIdsErrorPersists(rows, j + 1, IdColumn(i));
        return Err(j);
      }
      KeptIdsGrows(rows, j, IdColumn(i), ids);
      KeepsIsRowTest(row[idField]);
      if Tail(row[idField], 2) != "RT" && row[idField] != Header {
        ids := ids + [row[idField]];
      } else {
        assert ids + [] == ids;
      }
      j := j + 1;
    }
    assert rows[..j] == rows;
    return Ok(ids);
  }

  lemma KeptIdsGrows(rows: seq<Row>, j: nat, col: nat, ids: seq<string>)
    requires j < |rows| && col < |rows[j]| && KeptIds(rows[..j], col) == Ok(ids)
    ensures KeptIds(rows[..j + 1], col) == Ok(ids + if Keeps(rows[j][col]) then [rows[j][col]] else [])
  {
    assert rows[..j + 1][..j] == rows[..j];
  }

  lemma KeptIdsStopsAt(rows: seq<Row>, j: nat, col: nat, ids: seq<string>)
    requires j < |rows| && |rows[j]| <= col && KeptIds(rows[..j], col) == Ok(ids)
    ensures KeptIds(rows[..j + 1], col) == Err(j)
  {
    assert rows[..j + 1][..j] == rows[..j];
  }

  lemma CatalogueSnoc(readers: seq<seq<Row>>, i: nat)
    requires i < |readers|
    ensures Catalogue(readers[..i + 1])
            == match Catalogue(readers[..i])
               case Err(e) => Err(e)
               case Ok(lines) =>
                 match KeptIds(readers[i], IdColumn(i))
                 case Err(j) => Err(ShortRow(i, j))
                 case Ok(ids) => Ok(lines + ids)
  {
    assert readers[..i + 1][..i] == readers[..i];
  }

  lemma {:induction false} KeptIdsErrorPersists(rows: seq<Row>, k: nat, col: nat)
    requires k <= |rows| && KeptIds(rows[..k], col).Err?
    ensures KeptIds(rows, col) == KeptIds(rows[..k], col)
    decreases |rows|
  {
    if k < |rows| {
      var n := |rows| - 1;
      assert rows[..n][..k] == rows[..k];
      KeptIdsErrorPersists(rows[..n], k, col);
    } else {
      assert rows[..k] == rows;
    }
  }

  lemma {:induction false} CatalogueErrorPersists(readers: seq<seq<Row>>, k: nat)
    requires k <= |readers| && Catalogue(readers[..k]).Err?
    ensures Catalogue(readers) == Catalogue(readers[..k])
    decreases |readers|
  {
    if k < |readers| {
      var n := |readers| - 1;
      assert readers[..n][..k] == readers[..k];
      CatalogueErrorPersists(readers[..n], k);
    } else {
      assert readers[..k] == readers;
    }
  }

  // ----- An independent reading of the merge: filter each file, concatenate -----

  predicate RowsWide(rows: seq<Row>, col: nat) {
    forall j :: 0 <= j < |rows| ==> col < |rows[j]|
  }

  predicate AllRowsWide(readers: seq<seq<Row>>) {
    forall i :: 0 <= i < |readers| ==> RowsWide(readers[i], IdColumn(i))
  }

  lemma RowsWideSlice(rows: seq<Row>, col: nat, a: nat, b: nat)
    requires RowsWide(rows, col) && a <= b <= |rows|
    ensures RowsWide(rows[a..b], col)
  {
    forall j | 0 <= j < b - a ensures col < |rows[a..b][j]| {
      assert rows[a..b][j] == rows[a + j];
    }
  }

  /** The kept ids of one file, front to back. */
  function Column(rows: seq<Row>, col: nat): seq<string>
    requires RowsWide(rows, col)
    decreases |rows|
  {
    if rows == [] then []
    else (if Keeps(rows[0][col]) then [rows[0][col]] else []) + Column(rows[1..], col)
  }

  /** All files' kept ids, file after file. */
  function Merged(readers: seq<seq<Row>>): seq<string>
    requires AllRowsWide(readers)
    decreases |readers|
  {
    if readers == [] then []
    else
      var n := |readers| - 1;
      Merged(readers[..n]) + Column(readers[n], IdColumn(n))
  }

  lemma {:induction false} ColumnSnoc(rows: seq<Row>, col: nat)
    requires rows != [] && RowsWide(rows, col)
    ensures var n := |rows| - 1;
            Column(rows, col) == Column(rows[..n], col)
                                 + if Keeps(rows[n][col]) then [rows[n][col]] else []
    decreases |rows|
  {
    var n := |rows| - 1;
    if n > 0 {
      var tl := rows[1..];
      RowsWideSlice(rows, col, 1, |rows|);
      RowsWideSlice(rows, col, 0, n);
      ColumnSnoc(tl, col);
      var head := if Keeps(rows[0][col]) then [rows[0][col]] else [];
      var last := if Keeps(rows[n][col]) then [rows[n][col]] else [];
      assert tl[..n - 1] == rows[..n][1..];
      assert tl[n - 1] == rows[n];
      assert Column(tl, col) == Column(tl[..n - 1], col) + last;
      assert Column(rows[..n], col) == head + Column(tl[..n - 1], col);
      calc {
        Column(rows, col);
        head + Column(tl, col);
        head + (Column(tl[..n - 1], col) + last);
        (head + Column(tl[..n - 1], col)) + last;
        Column(rows[..n], col) + last;
      }
    } else {
      var head := if Keeps(rows[0][col]) then [rows[0][col]] else [];
      assert rows[..n] == [];
      assert rows[1..] == [];
      assert Column(rows, col) == head + [];
      assert head + [] == [] + head;
    }
  }

  lemma {:induction false} KeptIdsIsColumn(rows: seq<Row>, col: nat)
    ensures KeptIds(rows, col).Ok? <==> RowsWide(rows, col)
    ensures KeptIds(rows, col).Ok? ==> KeptIds(rows, col).value == Column(rows, col)
    decreases |rows|
  {
    if rows != [] {
      var n := |rows| - 1;
      KeptIdsIsColumn(rows[..n], col);
      assert forall j :: 0 <= j < n ==> rows[..n][j] == rows[j];
      if RowsWide(rows, col) {
        ColumnSnoc(rows, col);
      }
    }
  }

  lemma AllRowsWideSnoc(readers: seq<seq<Row>>)
    requires readers != []
    ensures var n := |readers| - 1;
            AllRowsWide(readers) <==> AllRowsWide(readers[..n]) && RowsWide(readers[n], IdColumn(n))
  {
    var n := |readers| - 1;
    var front := readers[..n];
    assert forall i :: 0 <= i < n ==> front[i] == readers[i];
  }

  /** The catalogue is written in full exactly when every row of every file
      has the column that file is read at, and then it is the header
      followed by each file's kept ids in file order. */
  lemma {:induction false} CatalogueIsMerge(readers: seq<seq<Row>>)
    ensures Catalogue(readers).Ok? <==> AllRowsWide(readers)
    ensures Catalogue(readers).Ok? ==> Catalogue(readers).value == [Header] + Merged(readers)
    decreases |readers|
  {
    if readers != [] {
      var n := |readers| - 1;
      var front := readers[..n];
      var last := readers[n];
      CatalogueIsMerge(front);
      KeptIdsIsColumn(last, IdColumn(n));
      AllRowsWideSnoc(readers);
      if AllRowsWide(readers) {
        var body := Merged(front);
        var more := Column(last, IdColumn(n));
        assert Catalogue(front) == Ok([Header] + body);
        assert KeptIds(last, IdColumn(n)) == Ok(more);
        assert Catalogue(readers) == Ok(([Header] + body) + more);
        assert Merged(readers) == body + more;
        assert ([Header] + body) + more == [Header] + (body + more);
      }
    }
  }

  lemma {:induction false} ColumnMembers(rows: seq<Row>, col: nat, id: string)
    requires RowsWide(rows, col)
    ensures id in Column(rows, col) <==>
            Keeps(id) && exists j :: 0 <= j < |rows| && rows[j][col] == id
    decreases |rows|
  {
    if rows != [] {
      ColumnMembers(rows[1..], col, id);
      if exists j :: 0 <= j < |rows| && rows[j][col] == id {
        var j :| 0 <= j < |rows| && rows[j][col] == id;
        if j > 0 { assert rows[1..][j - 1] == rows[j]; }
      }
      if exists j :: 0 <= j < |rows[1..]| && rows[1..][j][col] == id {
        var j :| 0 <= j < |rows[1..]| && rows[1..][j][col] == id;
        assert rows[j + 1] == rows[1..][j];
      }
    }
  }

  /** Some row of some file holds id in that file's id column. */
  predicate InSomeRow(readers: seq<seq<Row>>, id: string) {
    exists i, j :: 0 <= i < |readers| && 0 <= j < |readers[i]|
                   && IdColumn(i) < |readers[i][j]| && readers[i][j][IdColumn(i)] == id
  }

  lemma InSomeRowSnoc(readers: seq<seq<Row>>, id: string)
    requires readers != []
    ensures var n := |readers| - 1;
            InSomeRow(readers, id) <==>
            || InSomeRow(readers[..n], id)
            || exists j :: 0 <= j < |readers[n]| && IdColumn(n) < |readers[n][j]| && readers[n][j][IdColumn(n)] == id
  {
    var n := |readers| - 1;
    var front := readers[..n];
    if InSomeRow(readers, id) {
      var i, j :| 0 <= i < |readers| && 0 <= j < |readers[i]|
                  && IdColumn(i) < |readers[i][j]| && readers[i][j][IdColumn(i)] == id;
      if i < n {
        assert front[i] == readers[i];
      }
    }
    if InSomeRow(front, id) {
      var i, j :| 0 <= i < |front| && 0 <= j < |front[i]|
                  && IdColumn(i) < |front[i][j]| && front[i][j][IdColumn(i)] == id;
      assert front[i] == readers[i];
    }
  }

  lemma {:induction false} MergedMembers(readers: seq<seq<Row>>, id: string)
    requires AllRowsWide(readers)
    ensures id in Merged(readers) <==> Keeps(id) && InSomeRow(readers, id)
    decreases |readers|
  {
    if readers != [] {
      var n := |readers| - 1;
      var front := readers[..n];
      AllRowsWideSnoc(readers);
      MergedMembers(front, id);
      ColumnMembers(readers[n], IdColumn(n), id);
      InSomeRowSnoc(readers, id);
      assert Merged(readers) == Merged(front) + Column(readers[n], IdColumn(n));
    }
  }

  /** A written id is exactly the id field of some source row (the file's own
      column) that neither ends in `RT` nor is the header text, and line 0 is
      the header. */
  lemma CatalogueMembers(readers: seq<seq<Row>>, id: string)
    requires Catalogue(readers).Ok?
    ensures |Catalogue(readers).value| >= 1 && Catalogue(readers).value[0] == Header
    ensures id in Catalogue(readers).value[1..] <==>
            !EndsWith(id, "RT") && id != Header && InSomeRow(readers, id)
  {
    CatalogueIsMerge(readers);
    assert Catalogue(readers).value[1..] == Merged(readers);
    MergedMembers(readers, id);
    KeepsIsRowTest(id);
  }

  /** When the run aborts, it names the first row (file by file, row by row)
      that lacks its file's id column. */
  lemma {:induction false} CatalogueFailsAtFirstShortRow(readers: seq<seq<Row>>)
    requires Catalogue(readers).Err?
    ensures var e := Catalogue(readers).error;
            && e.reader < |readers| && e.row < |readers[e.reader]|
            && |readers[e.reader][e.row]| <= IdColumn(e.reader)
            && AllRowsWide(readers[..e.reader])
            && RowsWide(readers[e.reader][..e.row], IdColumn(e.reader))
    decreases |readers|
  {
    var n := |readers| - 1;
    if Catalogue(readers[..n]).Err? {
      CatalogueFailsAtFirstShortRow(readers[..n]);
      var e := Catalogue(readers).error;
      assert readers[..n][..e.reader] == readers[..e.reader];
    } else {
      CatalogueIsMerge(readers[..n]);
      assert readers[..n] == readers[..Catalogue(readers).error.reader];
      KeptIdsFailsAtFirstShortRow(readers[n], IdColumn(n));
    }
  }

  lemma {:induction false} KeptIdsFailsAtFirstShortRow(rows: seq<Row>, col: nat)
    requires KeptIds(rows, col).Err?
    ensures var j := KeptIds(rows, col).error;
            j < |rows| && |rows[j]| <= col && RowsWide(rows[..j], col)
    decreases |rows|
  {
    var n := |rows| - 1;
    if KeptIds(rows[..n], col).Err? {
      KeptIdsFailsAtFirstShortRow(rows[..n], col);
      var j := KeptIds(rows, col).error;
      assert rows[..n][..j] == rows[..j];
    } else {
      KeptIdsIsColumn(rows[..n], col);
    }
  }

  // ----- extract_products -----

  /** `[line.strip() for line in lines if path_row in line]`. */
  function Candidates(lines: seq<string>, pathRow: string): seq<string>
    decreases |lines|
  {
    if lines == [] then []
    else
      var n := |lines| - 1;
      Candidates(lines[..n], pathRow) + if Contains(lines[n], pathRow) then [Strip(lines[n])] else []
  }

  /** `line.split('_')[3]`, or None where Python raises IndexError. */
  function DateField(id: string): Option<string> {
    var tokens := Split(id, '_');
    if |tokens| > 3 then Some(tokens[3]) else None
  }

  /** `ymd1 <= d <= ymd2` on strings. */
  predicate InWindow(d: string, ymd1: string, ymd2: string) {
    StrLe(ymd1, d) && StrLe(d, ymd2)
  }

  /** The loop of `extract_products` over the candidates: the kept lines, or
      the first candidate without a fourth `_` token (IndexError). */
  function Selected(cands: seq<string>, ymd1: string, ymd2: string): Result<seq<string>, string>
    decreases |cands|
  {
    if cands == [] then Ok([])
    else
      var n := |cands| - 1;
      match Selected(cands[..n], ymd1, ymd2)
      case Err(line) => Err(line)
      case Ok(kept) =>
        match DateField(cands[n])
        case None => Err(cands[n])
        case Some(d) => Ok(kept + if InWindow(d, ymd1, ymd2) then [cands[n]] else [])
  }

  function ExtractSpec(lines: seq<string>, pathRow: string, ymd1: string, ymd2: string): Result<seq<string>, string> {
    Selected(Candidates(lines, pathRow), ymd1, ymd2)
  }

  /** `extract_products(fn, path_row, ymd1, ymd2)` over the file's lines as read. */
  method ExtractProducts(lines: seq<string>, pathRow: string, ymd1: string, ymd2: string)
    returns (r: Result<seq<string>, string>)
    ensures r == ExtractSpec(lines, pathRow, ymd1, ymd2)
  {
    var cands := Candidates(lines, pathRow);
    var result := [];
    var k := 0;
    while k < |cands|
      invariant 0 <= k <= |cands|
      invariant Selected(cands[..k], ymd1, ymd2) == Ok(result)
    {
      var line := cands[k];
      assert cands[..k + 1][..k] == cands[..k];
      assert cands[..k + 1][k] == line;
      var tokens := Split(line, '_');
      if |tokens| <= 3 {
        assert DateField(line).None?;
        assert Selected(cands[..k + 1], ymd1, ymd2) == Err(line);
        SelectedErrorPersists(cands, k + 1, ymd1, ymd2);
        return Err(line);
      }
      assert DateField(line) == Some(tokens[3]);
      if StrLe(ymd1, tokens[3]) && StrLe(tokens[3], ymd2) {
        result := result + [line];
      } else {
        assert result + [] == result;
      }
      k := k + 1;
    }
    assert cands[..k] == cands;
    return Ok(result);
  }

  lemma {:induction false} SelectedErrorPersists(cands: seq<string>, k: nat, ymd1: string, ymd2: string)
    requires k <= |cands| && Selected(cands[..k], ymd1, ymd2).Err?
    ensures Selected(cands, ymd1, ymd2) == Selected(cands[..k], ymd1, ymd2)
    decreases |cands|
  {
    if k < |cands| {
      var n := |cands| - 1;
      assert cands[..n][..k] == cands[..k];
      SelectedErrorPersists(cands[..n], k, ymd1, ymd2);
    } else {
      assert cands[..k] == cands;
    }
  }

  lemma {:induction false} CandidatesMembers(lines: seq<string>, pathRow: string, x: string)
    ensures x in Candidates(lines, pathRow) <==>
            exists k :: 0 <= k < |lines| && Contains(lines[k], pathRow) && Strip(lines[k]) == x
  {
    if x in Candidates(lines, pathRow) {
      var k := CandidateSource(lines, pathRow, x);
    }
    if exists k :: 0 <= k < |lines| && Contains(lines[k], pathRow) && Strip(lines[k]) == x {
      var k :| 0 <= k < |lines| && Contains(lines[k], pathRow) && Strip(lines[k]) == x;
      CandidateKept(lines, pathRow, k);
    }
  }

  /** Every candidate is the stripped form of some line holding the path/row. */
  lemma {:induction false} CandidateSource(lines: seq<string>, pathRow: string, x: string) returns (k: nat)
    requires x in Candidates(lines, pathRow)
    ensures k < |lines| && Contains(lines[k], pathRow) && Strip(lines[k]) == x
    decreases |lines|
  {
    var n := |lines| - 1;
    var front := Candidates(lines[..n], pathRow);
    assert Candidates(lines, pathRow) == front + if Contains(lines[n], pathRow) then [Strip(lines[n])] else [];
    if x in front {
      k := CandidateSource(lines[..n], pathRow, x);
      assert lines[..n][k] == lines[k];
    } else {
      k := n;
    }
  }

  /** Every line holding the path/row yields a candidate. */
  lemma {:induction false} CandidateKept(lines: seq<string>, pathRow: string, k: nat)
    requires k < |lines| && Contains(lines[k], pathRow)
    ensures Strip(lines[k]) in Candidates(lines, pathRow)
    decreases |lines|
  {
    var n := |lines| - 1;
    var front := Candidates(lines[..n], pathRow);
    assert Candidates(lines, pathRow) == front + if Contains(lines[n], pathRow) then [Strip(lines[n])] else [];
    if k < n {
      assert lines[..n][k] == lines[k];
      CandidateKept(lines[..n], pathRow, k);
    }
  }

  lemma {:induction false} SelectedMembers(cands: seq<string>, ymd1: string, ymd2: string, x: string)
    ensures Selected(cands, ymd1, ymd2).Ok? <==> forall k :: 0 <= k < |cands| ==> DateField(cands[k]).Some?
    ensures Selected(cands, ymd1, ymd2).Ok? ==>
              (x in Selected(cands, ymd1, ymd2).value <==>
               x in cands && DateField(x).Some? && InWindow(DateField(x).value, ymd1, ymd2))
    decreases |cands|
  {
    if cands != [] {
      var n := |cands| - 1;
      SelectedMembers(cands[..n], ymd1, ymd2, x);
      assert forall k :: 0 <= k < n ==> cands[..n][k] == cands[k];
      assert cands == cands[..n] + [cands[n]];
    }
  }

  /** `extract_products` aborts exactly when some line holding the path/row
      has fewer than four `_` tokens; otherwise it returns exactly the
      stripped lines that hold the path/row and whose fourth token lies in
      the window, both ends included. */
  lemma ExtractedExactly(lines: seq<string>, pathRow: string, ymd1: string, ymd2: string, x: string)
    ensures ExtractSpec(lines, pathRow, ymd1, ymd2).Err? <==>
            exists k :: 0 <= k < |lines| && Contains(lines[k], pathRow) && DateField(Strip(lines[k])).None?
    ensures ExtractSpec(lines, pathRow, ymd1, ymd2).Ok? ==>
            (x in ExtractSpec(lines, pathRow, ymd1, ymd2).value <==>
             DateField(x).Some? && InWindow(DateField(x).value, ymd1, ymd2)
             && exists k :: 0 <= k < |lines| && Contains(lines[k], pathRow) && Strip(lines[k]) == x)
  {
    var cands := Candidates(lines, pathRow);
    SelectedMembers(cands, ymd1, ymd2, x);
    CandidatesMembers(lines, pathRow, x);
    if exists k :: 0 <= k < |lines| && Contains(lines[k], pathRow) && DateField(Strip(lines[k])).None? {
      var k :| 0 <= k < |lines| && Contains(lines[k], pathRow) && DateField(Strip(lines[k])).None?;
      CandidatesMembers(lines, pathRow, Strip(lines[k]));
      var i :| 0 <= i < |cands| && cands[i] == Strip(lines[k]);
    }
    if exists i :: 0 <= i < |cands| && DateField(cands[i]).None? {
      var i :| 0 <= i < |cands| && DateField(cands[i]).None?;
      CandidatesMembers(lines, pathRow, cands[i]);
    }
  }

  /** Both ends of the window are inclusive: an id dated exactly ymd1 or exactly ymd2 is kept. */
  lemma WindowInclusive(d: string, ymd1: string, ymd2: string)
    requires StrLe(ymd1, ymd2)
    requires d == ymd1 || d == ymd2
    ensures InWindow(d, ymd1, ymd2)
  {
    StrLeReflexive(d);
  }

  /** Selection keeps file order: the result for two consecutive blocks of
      lines is the result for the first followed by that for the second. */
  lemma {:induction false} ExtractKeepsFileOrder(a: seq<string>, b: seq<string>, pathRow: string, ymd1: string, ymd2: string)
    requires ExtractSpec(a + b, pathRow, ymd1, ymd2).Ok?
    ensures ExtractSpec(a, pathRow, ymd1, ymd2).Ok? && ExtractSpec(b, pathRow, ymd1, ymd2).Ok?
    ensures ExtractSpec(a + b, pathRow, ymd1, ymd2).value
            == ExtractSpec(a, pathRow, ymd1, ymd2).value + ExtractSpec(b, pathRow, ymd1, ymd2).value
  {
    CandidatesAppend(a, b, pathRow);
    SelectedAppend(Candidates(a, pathRow), Candidates(b, pathRow), ymd1, ymd2);
  }

  lemma {:induction false} CandidatesAppend(a: seq<string>, b: seq<string>, pathRow: string)
    ensures Candidates(a + b, pathRow) == Candidates(a, pathRow) + Candidates(b, pathRow)
    decreases |b|
  {
    if b == [] {
      assert a + b == a;
    } else {
      var n := |b| - 1;
      assert (a + b)[..|a + b| - 1] == a + b[..n];
      CandidatesAppend(a, b[..n], pathRow);
    }
  }

  lemma {:induction false} SelectedAppend(a: seq<string>, b: seq<string>, ymd1: string, ymd2: string)
    requires Selected(a + b, ymd1, ymd2).Ok?
    ensures Selected(a, ymd1, ymd2).Ok? && Selected(b, ymd1, ymd2).Ok?
    ensures Selected(a + b, ymd1, ymd2).value == Selected(a, ymd1, ymd2).value + Selected(b, ymd1, ymd2).value
    decreases |b|
  {
    if b == [] {
      assert a + b == a;
    } else {
      var n := |b| - 1;
      assert a + b == (a + b[..n]) + [b[n]];
      assert b == b[..n] + [b[n]];
      SelectedSnoc(a + b[..n], b[n], ymd1, ymd2);
      SelectedSnoc(b[..n], b[n], ymd1, ymd2);
      SelectedAppend(a, b[..n], ymd1, ymd2);
    }
  }

  lemma SelectedSnoc(cands: seq<string>, c: string, ymd1: string, ymd2: string)
    ensures Selected(cands + [c], ymd1, ymd2) ==
            if Selected(cands, ymd1, ymd2).Err? then Selected(cands, ymd1, ymd2)
            else if DateField(c).None? then Err(c)
            else Ok(Selected(cands, ymd1, ymd2).value + if InWindow(DateField(c).value, ymd1, ymd2) then [c] else [])
  {
    var k := cands + [c];
    assert k[..|k| - 1] == cands && k[|k| - 1] == c;
  }

  /** The path/row test is a plain substring test over the whole line: a
      product id of another path/row whose acquisition date (after `_20`)
      holds the key is still a candidate for it; for instance the id of a
      scene of path/row 090085 acquired on 2018-01-01 is a candidate for the
      key 180101. */
  lemma PathRowMatchIsLoose(tile: string, key: string, rest: string)
    requires |tile| == 6 && tile != key
    ensures var line := "LC08_L1TP_" + tile + "_20" + key + rest;
            line[10..16] != key && Candidates([line], key) == [Strip(line)]
  {
    var line := "LC08_L1TP_" + tile + "_20" + key + rest;
    assert line[10..16] == tile;
    assert key <= line[19..] by { assert line[19..] == key + rest; }
    ContainsAt(line, key);
    assert [line][..0] == [];
  }
}
