/** The user-activity table and the flat file that holds it
    (`initialize_file`, `read_user_activity`, `update_user_activity`,
    `reset_user_activity`). A file is a sequence of rows, each row the list
    of fields the `csv` module reads or writes; the table is a Python dict
    from username to record, so it has an insertion order, which is the
    order in which the file is rewritten. */
module Activity {
  import opened Wrappers
  import opened PyInt

  type Row = seq<string>

  const Header: Row := ["username", "comment_count", "last_post_date"]

  datatype Record = Record(commentCount: int, lastPostDate: string)

  /** A dict: its keys in insertion order, and the mapping itself. */
  datatype Table = Table(order: seq<string>, entries: map<string, Record>)

  /** Why reading the file raises: the file does not exist
      (`FileNotFoundError`), the header has no such column (`KeyError`), the
      row is too short to hold the column, or the count is not an integer
      (`ValueError`). */
  datatype ReadError =
    | FileMissing
    | MissingColumn(column: string)
    | MissingValue(column: string)
    | NotAnInteger(text: string)

  const Empty: Table := Table([], map[])

  predicate Distinct(s: seq<string>) {
    forall i, j :: 0 <= i < j < |s| ==> s[i] != s[j]
  }

  /** The insertion order lists every key exactly once. */
  ghost predicate WellFormed(t: Table) {
    && Distinct(t.order)
    && (forall u :: u in t.entries <==> u in t.order)
  }

  /** `user_activity[u] = r`: the entry for `u` is replaced, every other entry
      is kept, and a new key goes to the end of the insertion order. */
  function Put(t: Table, u: string, r: Record): (t': Table)
    ensures WellFormed(t) ==> WellFormed(t')
    ensures u in t'.entries && t'.entries[u] == r
    ensures forall v :: v in t.entries && v != u ==> v in t'.entries && t'.entries[v] == t.entries[v]
    ensures t'.entries.Keys == t.entries.Keys + {u}
    ensures |t.order| <= |t'.order| && t'.order[..|t.order|] == t.order
  {
    Table(if u in t.entries then t.order else t.order + [u], t.entries[u := r])
  }

  /** The row `writer.writerow([user, comment_count, last_post_date])`. */
  function RowOf(u: string, r: Record): Row {
    [u, IntToString(r.commentCount), r.lastPostDate]
  }

  function DataRows(order: seq<string>, entries: map<string, Record>): (rows: seq<Row>)
    requires forall u :: u in order ==> u in entries
    ensures |rows| == |order|
    decreases |order|
  {
    if order == [] then []
    else
      var u := order[|order| - 1];
      DataRows(order[..|order| - 1], entries) + [RowOf(u, entries[u])]
  }

  /** The file as `update_user_activity` writes it: the header, then one row
      per key, in insertion order. */
  function Render(t: Table): (rows: seq<Row>)
    requires WellFormed(t)
    ensures |rows| == |t.order| + 1 && rows[0] == Header
  {
    [Header] + DataRows(t.order, t.entries)
  }

  lemma {:induction false} DistinctSetSize(s: seq<string>)
    requires Distinct(s)
    ensures |set x | x in s| == |s|
    decreases |s|
  {
    if s != [] {
      var init := s[..|s| - 1];
      assert (set x | x in s) == (set x | x in init) + {s[|s| - 1]};
      assert s[|s| - 1] !in (set x | x in init);
      DistinctSetSize(init);
    }
  }

  /** A well-formed table has as many keys as its insertion order. */
  lemma DistinctCardinality(t: Table)
    requires WellFormed(t)
    ensures |t.entries| == |t.order|
  {
    assert t.entries.Keys == set x | x in t.order;
    DistinctSetSize(t.order);
  }

  lemma {:induction false} DataRowsAt(order: seq<string>, entries: map<string, Record>, i: nat)
    requires forall u :: u in order ==> u in entries
    requires i < |order|
    ensures DataRows(order, entries)[i] == RowOf(order[i], entries[order[i]])
    decreases |order|
  {
    if i < |order| - 1 {
      DataRowsAt(order[..|order| - 1], entries, i);
    }
  }

  /** The written file is the header followed by exactly one row per user:
      every user has a row holding their record, every row belongs to a
      user, and no user has two rows. */
  lemma RenderOneRowPerUser(t: Table)
    requires WellFormed(t)
    ensures |Render(t)| == |t.entries| + 1 && Render(t)[0] == Header
    ensures forall u :: u in t.entries ==>
      exists i :: 1 <= i < |Render(t)| && Render(t)[i] == RowOf(u, t.entries[u])
    ensures forall i :: 1 <= i < |Render(t)| ==> |Render(t)[i]| == 3 && Render(t)[i][0] in t.entries
    ensures forall i, j :: 1 <= i < j < |Render(t)| ==> Render(t)[i][0] != Render(t)[j][0]
  {
    var rows := Render(t);
    forall i | 1 <= i < |rows|
      ensures rows[i] == RowOf(t.order[i - 1], t.entries[t.order[i - 1]])
    {
      DataRowsAt(t.order, t.entries, i - 1);
    }
    forall u | u in t.entries
      ensures exists i :: 1 <= i < |rows| && rows[i] == RowOf(u, t.entries[u])
    {
      var k :| 0 <= k < |t.order| && t.order[k] == u;
      assert rows[k + 1] == RowOf(u, t.entries[u]);
    }
    DistinctCardinality(t);
  }

  /** The cell `csv.DictReader` puts under `name`: `dict(zip(header, row))`
      keeps the last header cell of that name. */
  function ColumnIndex(header: Row, name: string): (r: Option<nat>)
    ensures r.Some? ==> r.value < |header| && header[r.value] == name
    ensures r.Some? ==> forall j :: r.value < j < |header| ==> header[j] != name
    ensures r.None? <==> name !in header
    decreases |header|
  {
    if header == [] then None
    else if header[|header| - 1] == name then Some(|header| - 1)
    else
      assert header == header[..|header| - 1] + [header[|header| - 1]];
      ColumnIndex(header[..|header| - 1], name)
  }

  /** `row[name]` for a `DictReader` row. */
  function Lookup(header: Row, row: Row, name: string): Result<string, ReadError> {
    match ColumnIndex(header, name)
    case None => Err(MissingColumn(name))
    case Some(k) => if k < |row| then Ok(row[k]) else Err(MissingValue(name))
  }

  /** One iteration of the read loop. Python evaluates the right-hand side of
      `user_activity[row['username']] = {...}` first, so the columns are
      looked up in the order comment_count, last_post_date, username. */
  function ParseRow(header: Row, row: Row): (r: Result<(string, Record), ReadError>)
    ensures "comment_count" !in header ==> r == Err(MissingColumn("comment_count"))
    ensures r.Ok? <==>
      && Lookup(header, row, "comment_count").Ok?
      && ParseInt(Lookup(header, row, "comment_count").value).Some?
      && Lookup(header, row, "last_post_date").Ok?
      && Lookup(header, row, "username").Ok?
    ensures r.Ok? ==>
      && ParseInt(Lookup(header, row, "comment_count").value) == Some(r.value.1.commentCount)
      && Lookup(header, row, "last_post_date") == Ok(r.value.1.lastPostDate)
      && Lookup(header, row, "username") == Ok(r.value.0)
  {
    var countText :- Lookup(header, row, "comment_count");
    match ParseInt(countText)
    case None => Err(NotAnInteger(countText))
    case Some(count) =>
      var date :- Lookup(header, row, "last_post_date");
      var user :- Lookup(header, row, "username");
      Ok((user, Record(count, date)))
  }

  /** The dict built from the data rows under `header`: blank rows are
      skipped, each other row overwrites its user's entry, the first bad row
      raises. */
  function ParseData(header: Row, data: seq<Row>): (r: Result<Table, ReadError>)
    ensures r.Ok? ==> WellFormed(r.value)
    decreases |data|
  {
    if data == [] then Ok(Empty)
    else
      var t :- ParseData(header, data[..|data| - 1]);
      var row := data[|data| - 1];
      if row == [] then Ok(t)
      else
        var entry :- ParseRow(header, row);
        Ok(Put(t, entry.0, entry.1))
  }

  /** `read_user_activity` on an existing file: the first row is the header
      (an empty file has none and gives the empty dict). */
  function ParseTable(rows: seq<Row>): (r: Result<Table, ReadError>)
    ensures r.Ok? ==> WellFormed(r.value)
  {
    if rows == [] then Ok(Empty) else ParseData(rows[0], rows[1..])
  }

  /** `read_user_activity` on the file, `None` when it does not exist. */
  function Read(file: Option<seq<Row>>): (r: Result<Table, ReadError>)
    ensures r.Ok? ==> WellFormed(r.value)
  {
    match file
    case None => Err(FileMissing)
    case Some(rows) => ParseTable(rows)
  }

  /** The file after `update_user_activity(u, ...)`, or what it raises (in
      which case the file is not rewritten): the read error, exactly when
      the file does not read. A rewritten file holds the header and at
      least one data row; `UpdateWritesRow` proves the updated user's row
      is among them. */
  function Update(file: Option<seq<Row>>, u: string, r: Record): (out: Result<seq<Row>, ReadError>)
    ensures out.Err? <==> Read(file).Err?
    ensures out.Err? ==> out.error == Read(file).error
    ensures out.Ok? ==> |out.value| > 1 && out.value[0] == Header
  {
    match Read(file)
    case Err(e) => Err(e)
    case Ok(t) =>
      var t' := Put(t, u, r);
      assert u in t'.order;
      Ok(Render(t'))
  }

  /** `reset_user_activity(u)` on the day `today` (`YYYY-MM-DD`). */
  function Reset(file: Option<seq<Row>>, u: string, today: string): (out: Result<seq<Row>, ReadError>)
    ensures out.Err? <==> Read(file).Err?
    ensures out.Err? ==> out.error == Read(file).error
    ensures out.Ok? ==>
      && Read(Some(out.value)).Ok?
      && u in Read(Some(out.value)).value.entries
      && Read(Some(out.value)).value.entries[u] == Record(0, today)
  {
    UpdateSemantics(file, u, Record(0, today));
    Update(file, u, Record(0, today))
  }

  /** A written row reads back as the user and record it was written from. */
  lemma ParseRowOfRowOf(u: string, r: Record)
    ensures ParseRow(Header, RowOf(u, r)) == Ok((u, r))
  {
    ParseIntOfIntToString(r.commentCount);
    assert ColumnIndex(Header, "comment_count") == Some(1);
    assert ColumnIndex(Header, "last_post_date") == Some(2);
    assert ColumnIndex(Header, "username") == Some(0);
  }

  /** A non-blank last row overwrites the entry of its user. */
  lemma ParseDataLast(header: Row, data: seq<Row>, t: Table, u: string, r: Record)
    requires data != [] && data[|data| - 1] != []
    requires ParseData(header, data[..|data| - 1]) == Ok(t)
    requires ParseRow(header, data[|data| - 1]) == Ok((u, r))
    ensures ParseData(header, data) == Ok(Put(t, u, r))
  {
  }

  /** The dict obtained by assigning the keys of `order`, one after the other,
      their values in `entries`. */
  function Rebuild(order: seq<string>, entries: map<string, Record>): Table
    requires forall u :: u in order ==> u in entries
    decreases |order|
  {
    if order == [] then Empty
    else
      var u := order[|order| - 1];
      Put(Rebuild(order[..|order| - 1], entries), u, entries[u])
  }

  /** The written rows parse, one by one, into the dict they were written
      from. */
  lemma {:induction false} ParseDataRows(order: seq<string>, entries: map<string, Record>)
    requires forall u :: u in order ==> u in entries
    ensures ParseData(Header, DataRows(order, entries)) == Ok(Rebuild(order, entries))
    decreases |order|
  {
    if order != [] {
      var init := order[..|order| - 1];
      var u := order[|order| - 1];
      var data := DataRows(order, entries);
      assert data == DataRows(init, entries) + [RowOf(u, entries[u])];
      assert data[..|data| - 1] == DataRows(init, entries);
      ParseDataRows(init, entries);
      ParseRowOfRowOf(u, entries[u]);
      ParseDataLast(Header, data, Rebuild(init, entries), u, entries[u]);
    }
  }

  lemma RestrictSnoc(init: seq<string>, u: string, entries: map<string, Record>)
    requires u in entries && forall v :: v in init ==> v in entries
    ensures (map v | v in init :: entries[v])[u := entries[u]] == map v | v in init + [u] :: entries[v]
  {
  }

  /** Assigning distinct keys in order rebuilds the order and the entries. */
  lemma {:induction false} RebuildDistinct(order: seq<string>, entries: map<string, Record>)
    requires forall u :: u in order ==> u in entries
    requires Distinct(order)
    ensures Rebuild(order, entries) == Table(order, map v | v in order :: entries[v])
    decreases |order|
  {
    if order != [] {
      var init := order[..|order| - 1];
      var u := order[|order| - 1];
      assert order == init + [u];
      RebuildDistinct(init, entries);
      var m := map v | v in init :: entries[v];
      assert u !in m;
      RestrictSnoc(init, u, entries);
    }
  }

  /** Round trip: reading back the written file gives the same table, keys,
      order, counts and dates. */
  lemma RenderParse(t: Table)
    requires WellFormed(t)
    ensures ParseTable(Render(t)) == Ok(t)
  {
    ParseDataRows(t.order, t.entries);
    RebuildDistinct(t.order, t.entries);
    assert Render(t)[1..] == DataRows(t.order, t.entries);
    RestrictOrder(t);
  }

  /** A well-formed table's entries are its entries on its insertion order. */
  lemma RestrictOrder(t: Table)
    requires WellFormed(t)
    ensures (map v | v in t.order :: t.entries[v]) == t.entries
  {
  }

  /** Reading a file with a header and one more row: the row overwrites the
      entry of its user, whatever earlier rows said about that user. */
  lemma LaterRowWins(rows: seq<Row>, u: string, r: Record)
    requires rows != [] && rows[0] == Header && ParseTable(rows).Ok?
    ensures ParseTable(rows + [RowOf(u, r)]) == Ok(Put(ParseTable(rows).value, u, r))
    ensures ParseTable(rows + [RowOf(u, r)]).value.entries[u] == r
  {
    var rows' := rows + [RowOf(u, r)];
    assert rows'[1..] == rows[1..] + [RowOf(u, r)];
    assert rows'[1..][..|rows'[1..]| - 1] == rows[1..];
    ParseRowOfRowOf(u, r);
    assert rows'[0] == Header;
    ParseDataLast(Header, rows'[1..], ParseTable(rows).value, u, r);
  }

  /** After `update_user_activity(u, c, d)` the file reads back with `u`
      mapped to `(c, d)`, every other user's record as before and no user
      removed. A file that does not exist or does not parse is not
      rewritten. */
  lemma UpdateSemantics(file: Option<seq<Row>>, u: string, r: Record)
    ensures Read(file).Err? ==> Update(file, u, r) == Err(Read(file).error)
    ensures Read(file).Ok? ==> Update(file, u, r).Ok? && Read(Some(Update(file, u, r).value)).Ok?
    ensures Read(file).Ok? ==>
      var t := Read(file).value;
      var t' := Read(Some(Update(file, u, r).value)).value;
      && u in t'.entries && t'.entries[u] == r
      && (forall v :: v in t.entries && v != u ==> v in t'.entries && t'.entries[v] == t.entries[v])
      && t'.entries.Keys == t.entries.Keys + {u}
  {
    if Read(file).Ok? {
      RenderParse(Put(Read(file).value, u, r));
    }
  }

  /** Updating twice with the same values gives the same file as once. */
  lemma UpdateIdempotent(file: Option<seq<Row>>, u: string, r: Record)
    requires Update(file, u, r).Ok?
    ensures Update(Some(Update(file, u, r).value), u, r) == Update(file, u, r)
  {
    var t := Read(file).value;
    RenderParse(Put(t, u, r));
    assert Put(Put(t, u, r), u, r) == Put(t, u, r);
  }

  /** The rewritten file holds the updated user's row `[u, str(c), d]`. */
  lemma UpdateWritesRow(file: Option<seq<Row>>, u: string, r: Record)
    requires Update(file, u, r).Ok?
    ensures RowOf(u, r) in Update(file, u, r).value[1..]
  {
    var t' := Put(Read(file).value, u, r);
    assert u in t'.order;
    var k :| 0 <= k < |t'.order| && t'.order[k] == u;
    DataRowsAt(t'.order, t'.entries, k);
    assert Render(t')[1..] == DataRows(t'.order, t'.entries);
    assert Render(t')[1..][k] == RowOf(u, r);
  }

  /** The file `user_activity.csv`: `None` while it does not exist. */
  class ActivityFile {
    var contents: Option<seq<Row>>

    constructor (contents: Option<seq<Row>>)
      ensures this.contents == contents
    {
      this.contents := contents;
    }

    /** `initialize_file`: an existing file is left untouched, a missing one
        is created holding only the header, and then reads as the empty
        table. */
    method InitializeFile()
      modifies this
      ensures old(contents).Some? ==> contents == old(contents)
      ensures old(contents).None? ==> contents == Some([Header]) && Read(contents) == Ok(Empty)
    {
      if contents.None? {
        contents := Some([Header]);
      }
    }

    /** `read_user_activity`: builds the dict row by row. */
    method ReadUserActivity() returns (r: Result<Table, ReadError>)
      ensures r == Read(contents)
    {
      if contents.None? {
        return Err(FileMissing);
      }
      var rows := contents.value;
      if rows == [] {
        return Ok(Empty);
      }
      var header := rows[0];
      var data := rows[1..];
      var userActivity := Empty;
      assert data[..0] == [];
      for j := 0 to |data|
        invariant ParseData(header, data[..j]) == Ok(userActivity)
      {
        ParseDataStep(header, data, j);
        var row := data[j];
        if row != [] {
          var entry := ParseRow(header, row);
          if entry.Err? {
            ParseErrorPersists(header, data, j + 1);
            return Err(entry.error);
          }
          userActivity := Put(userActivity, entry.value.0, entry.value.1);
        }
      }
      assert data[..|data|] == data;
      r := Ok(userActivity);
    }

    /** `update_user_activity`: read the whole table, overwrite one entry,
        truncate the file and write the header and every entry back. What
        the read raises propagates and leaves the file as it was. */
    method UpdateUserActivity(username: string, commentCount: int, lastPostDate: string)
      returns (raised: Option<ReadError>)
      modifies this
      ensures match Update(old(contents), username, Record(commentCount, lastPostDate))
        case Ok(rows) => raised.None? && contents == Some(rows)
        case Err(e) => raised == Some(e) && contents == old(contents)
    {
      var read := ReadUserActivity();
      if read.Err? {
        return Some(read.error);
      }
      var userActivity := Put(read.value, username, Record(commentCount, lastPostDate));
      WriteUserActivity(userActivity);
      raised := None;
    }

    /** The rewrite at the end of `update_user_activity`: the file is
        truncated, then the header and one row per entry are written. */
    method WriteUserActivity(userActivity: Table)
      requires WellFormed(userActivity)
      modifies this
      ensures contents == Some(Render(userActivity))
    {
      var order := userActivity.order;
      contents := Some([Header]);
      assert [Header] + DataRows(order[..0], userActivity.entries) == [Header];
      for i := 0 to |order|
        invariant contents == Some([Header] + DataRows(order[..i], userActivity.entries))
      {
        var user := order[i];
        assert order[..i + 1][..i] == order[..i];
        assert DataRows(order[..i + 1], userActivity.entries)
            == DataRows(order[..i], userActivity.entries) + [RowOf(user, userActivity.entries[user])];
        ghost var before := contents.value;
        contents := Some(contents.value + [RowOf(user, userActivity.entries[user])]);
        assert contents.value == before + [RowOf(user, userActivity.entries[user])];
        assert before == [Header] + DataRows(order[..i], userActivity.entries);
        assert contents.value == [Header] + DataRows(order[..i + 1], userActivity.entries);
      }
      assert order[..|order|] == order;
    }

    /** `reset_user_activity`: the user's record becomes `(0, today)`. */
    method ResetUserActivity(username: string, today: string) returns (raised: Option<ReadError>)
      modifies this
      ensures match Reset(old(contents), username, today)
        case Ok(rows) => raised.None? && contents == Some(rows)
        case Err(e) => raised == Some(e) && contents == old(contents)
    {
      raised := UpdateUserActivity(username, 0, today);
    }
  }

  /** One more data row: skipped when blank, otherwise parsed and put. */
  lemma ParseDataStep(header: Row, data: seq<Row>, j: nat)
    requires j < |data|
    ensures ParseData(header, data[..j + 1])
         == if ParseData(header, data[..j]).Err? then ParseData(header, data[..j])
            else if data[j] == [] then ParseData(header, data[..j])
            else if ParseRow(header, data[j]).Err? then Err(ParseRow(header, data[j]).error)
            else Ok(Put(ParseData(header, data[..j]).value, ParseRow(header, data[j]).value.0,
                        ParseRow(header, data[j]).value.1))
  {
    assert data[..j + 1][..j] == data[..j];
  }

  /** Once a prefix of the data rows raises, the whole read raises the same
      error. */
  lemma {:induction false} ParseErrorPersists(header: Row, data: seq<Row>, k: nat)
    requires 0 < k <= |data| && data[k - 1] != []
    requires ParseData(header, data[..k - 1]).Ok? && ParseRow(header, data[k - 1]).Err?
    ensures ParseData(header, data) == Err(ParseRow(header, data[k - 1]).error)
    decreases |data|
  {
    if |data| == k {
      assert data[..k - 1] == data[..|data| - 1];
    } else {
      var init := data[..|data| - 1];
      assert init[..k - 1] == data[..k - 1];
      ParseErrorPersists(header, init, k);
    }
  }

  /** A count field with FS before the digits and a non-ASCII space after
      them. */
  const SeparatorField: string := [0x1C as char, '5', 0xA0 as char]

  /** Such a count field does not parse. */
  lemma SeparatorRowRaises()
    ensures ParseRow(Header, ["bob", SeparatorField, "d"]) == Err(NotAnInteger(SeparatorField))
  {
    ParseIntSeparatorNotSpace();
    assert ColumnIndex(Header, "comment_count") == Some(1);
    assert Lookup(Header, ["bob", SeparatorField, "d"], "comment_count") == Ok(SeparatorField);
  }

  /** Such a field makes the whole read raise `ValueError`. */
  lemma SeparatorCountRaises()
    ensures Read(Some([Header, ["bob", SeparatorField, "d"]])) == Err(NotAnInteger(SeparatorField))
  {
    var row := ["bob", SeparatorField, "d"];
    SeparatorRowRaises();
    var data := [row];
    assert data[..0] == [] && data[0] == row;
    assert ParseData(Header, data[..0]) == Ok(Empty);
    ParseErrorPersists(Header, data, 1);
    var rows := [Header, row];
    assert rows[0] == Header && rows[1..] == data;
    assert ParseTable(rows) == ParseData(Header, data);
  }
}
