/**
 * The conversion of parsed CSV rows into film records: the first row holds
 * the column names, each later row becomes one record keyed by position.
 */
module Report {
  import opened Sequences
  import opened SfMovies

  /**
   * `data.headers[index]` used as a property name: past the end of the
   * headers the index reads `undefined`, which names the property "undefined".
   */
  function KeyAt(headers: seq<string>, index: nat): string
  {
    if index < |headers| then headers[index] else "undefined"
  }

  /**
   * One row as a record: the reduction over the cells, which assigns each
   * cell to the key of its position in turn.
   */
  function RowToObject(headers: seq<string>, cells: seq<string>): Record
  {
    if cells == [] then map[]
    else
      var n := |cells| - 1;
      RowToObject(headers, cells[..n])[KeyAt(headers, n) := cells[n]]
  }

  /** No position after `i` and before `n` names the same key as `i`. */
  ghost predicate LastWithKey(headers: seq<string>, n: nat, i: nat)
  {
    forall j :: i < j < n ==> KeyAt(headers, j) != KeyAt(headers, i)
  }

  /** A key is in a row's record exactly when some cell's position names it. */
  lemma {:induction false} RowToObjectKeys(headers: seq<string>, cells: seq<string>)
    ensures forall k :: k in RowToObject(headers, cells) <==> exists i :: 0 <= i < |cells| && KeyAt(headers, i) == k
  {
    if cells != [] {
      var n := |cells| - 1;
      var init := cells[..n];
      RowToObjectKeys(headers, init);
      assert RowToObject(headers, cells) == RowToObject(headers, init)[KeyAt(headers, n) := cells[n]];
      forall k | k in RowToObject(headers, cells)
        ensures exists i :: 0 <= i < |cells| && KeyAt(headers, i) == k
      {
        if k != KeyAt(headers, n) {
          assert k in RowToObject(headers, init);
          var i :| 0 <= i < |init| && KeyAt(headers, i) == k;
        }
      }
      forall k | exists i :: 0 <= i < |cells| && KeyAt(headers, i) == k
        ensures k in RowToObject(headers, cells)
      {
        var i :| 0 <= i < |cells| && KeyAt(headers, i) == k;
        if i < n {
          assert 0 <= i < |init| && KeyAt(headers, i) == k;
        }
      }
    }
  }

  /** A key holds the cell of the last position that names it: later duplicates win. */
  lemma {:induction false} RowToObjectValues(headers: seq<string>, cells: seq<string>)
    ensures forall i :: 0 <= i < |cells| && LastWithKey(headers, |cells|, i) ==>
      KeyAt(headers, i) in RowToObject(headers, cells) && RowToObject(headers, cells)[KeyAt(headers, i)] == cells[i]
  {
    if cells != [] {
      var n := |cells| - 1;
      var init := cells[..n];
      RowToObjectValues(headers, init);
      var r := RowToObject(headers, cells);
      forall i | 0 <= i < |cells| && LastWithKey(headers, |cells|, i)
        ensures KeyAt(headers, i) in r && r[KeyAt(headers, i)] == cells[i]
      {
        if i < n {
          assert KeyAt(headers, n) != KeyAt(headers, i);
          assert LastWithKey(headers, |init|, i);
          assert init[i] == cells[i];
        }
      }
    }
  }

  /** `rowsToObjects`: one record per row, in row order. */
  function RowsToObjects(headers: seq<string>, rows: seq<seq<string>>): (r: seq<Record>)
    ensures |r| == |rows|
    ensures forall i :: 0 <= i < |rows| ==> r[i] == RowToObject(headers, rows[i])
  {
    seq(|rows|, i requires 0 <= i < |rows| => RowToObject(headers, rows[i]))
  }

  /**
   * With distinct column names and a row no longer than the header row, the
   * record maps the first `|cells|` column names to the cells at their
   * positions and has no other key: the trailing columns of a short row are
   * absent.
   */
  lemma {:induction false} PositionalRecord(headers: seq<string>, cells: seq<string>)
    requires Distinct(headers) && |cells| <= |headers|
    ensures forall k :: k in RowToObject(headers, cells) <==> k in headers[..|cells|]
    ensures forall i :: 0 <= i < |cells| ==> headers[i] in RowToObject(headers, cells) && RowToObject(headers, cells)[headers[i]] == cells[i]
  {
    RowToObjectKeys(headers, cells);
    RowToObjectValues(headers, cells);
    var r := RowToObject(headers, cells);
    forall k
      ensures k in r <==> k in headers[..|cells|]
    {
      if k in headers[..|cells|] {
        var i :| 0 <= i < |cells| && headers[..|cells|][i] == k;
        assert KeyAt(headers, i) == k;
      }
    }
    forall i | 0 <= i < |cells|
      ensures headers[i] in r && r[headers[i]] == cells[i]
    {
      assert KeyAt(headers, i) == headers[i];
      assert LastWithKey(headers, |cells|, i);
    }
  }

  /**
   * A column name that occurs twice takes the cell of its later position, for
   * a row no longer than the header row.
   */
  lemma {:induction false} LaterDuplicateWins(headers: seq<string>, cells: seq<string>, i: nat, j: nat)
    requires |cells| <= |headers| && i < j < |cells| && headers[i] == headers[j]
    requires forall m :: j < m < |cells| ==> headers[m] != headers[j]
    ensures headers[i] in RowToObject(headers, cells) && RowToObject(headers, cells)[headers[i]] == cells[j]
  {
    RowToObjectValues(headers, cells);
    assert KeyAt(headers, j) == headers[j];
    assert LastWithKey(headers, |cells|, j);
  }

  /**
   * The value `getData` returns: for empty input the object
   * `{headers: [], rows: []}`, otherwise the list of records.
   */
  datatype Data = Table(headers: seq<string>, rows: seq<seq<string>>) | Records(records: seq<Record>)

  /**
   * `getData`: empty input gives the empty table object; otherwise the first
   * row is the header row and every later row becomes a record.
   */
  function GetData(parsed: seq<seq<string>>): (r: Data)
    ensures parsed == [] <==> r.Table?
    ensures r.Table? ==> r == Table([], [])
    ensures r.Records? ==> |r.records| == |parsed| - 1
    ensures r.Records? ==> forall i :: 0 <= i < |r.records| ==> r.records[i] == RowToObject(parsed[0], parsed[i + 1])
  {
    if |parsed| == 0 then Table([], [])
    else Records(RowsToObjects(parsed[0], parsed[1..]))
  }

  /**
   * On an empty CSV file `getData` gives the table object, not a list of
   * records, so the caller's `actorCounts(state)` has no array to reduce
   * over; a file with only a header row gives the empty list instead, and
   * so does the corrected conversion for the empty file.
   */
  lemma EmptyInputIsNotRecordList(header: seq<string>)
    ensures GetData([]) == Table([], []) && !GetData([]).Records?
    ensures GetData([header]) == Records([])
    ensures GetRecords([]) == [] && GetData([]) != Records(GetRecords([]))
  {
  }

  /**
   * The records `getData` evidently means to give: none for empty input,
   * as for a header row alone; otherwise one per row after the header row.
   */
  function GetRecords(parsed: seq<seq<string>>): (r: seq<Record>)
    ensures |parsed| <= 1 ==> r == []
    ensures |parsed| > 1 ==> |r| == |parsed| - 1
    ensures forall i :: 0 <= i < |r| ==> r[i] == RowToObject(parsed[0], parsed[i + 1])
    ensures parsed != [] ==> GetData(parsed) == Records(r)
  {
    if |parsed| == 0 then RowsToObjects([], []) else GetData(parsed).records
  }

  /**
   * The report's computation (without reading or printing): the actor
   * frequency table of the records of the parsed file. No actor occurs in
   * an empty file or one with only a header row.
   */
  method ReportActorCounts(parsed: seq<seq<string>>) returns (counts: map<string, nat>)
    ensures forall name :: name in counts <==> name != "" && Occurrences(GetRecords(parsed), name) > 0
    ensures forall name :: name in counts ==> counts[name] == Occurrences(GetRecords(parsed), name)
    ensures |parsed| <= 1 ==> counts == map[]
  {
    var state := GetRecords(parsed);
    counts := ActorCounts(state);
  }
}
