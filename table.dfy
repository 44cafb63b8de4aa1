/** The table TRAINING_FILES.PDF_FILES and the effect of the SQL statements that
    PDFManager sends to it, as functions on the sequence of its rows in ascending id order. */
module Table {
  import opened Common

  /** (section_name, button_name): the two columns every statement filters on. */
  type Key = (string, string)

  /** One row; `id` is the auto-incremented column that `get_button_dict` sorts on. */
  datatype Row = Row(id: nat, section: string, button: string, content: Bytes)

  /** The text `base64.b64encode(data).decode('utf-8')`, standard alphabet of section 4 of
      RFC 4648. The encoding is injective, which the constructor makes true by construction. */
  datatype Base64Text = Base64Of(data: Bytes) {
    /** Python truthiness of the text: base64 text is 4 * ceil(n / 3) characters long for n
        input bytes, so it is empty exactly when the input is. */
    predicate NonEmpty() {
      |data| > 0
    }
  }

  /** `WHERE section_name = :section_name AND button_name = :button_name` */
  predicate Matches(r: Row, section: string, button: string) {
    r.section == section && r.button == button
  }

  predicate Absent(rows: seq<Row>, section: string, button: string) {
    forall i :: 0 <= i < |rows| ==> !Matches(rows[i], section, button)
  }

  ghost predicate IdsAscending(rows: seq<Row>) {
    forall i, j :: 0 <= i < j < |rows| ==> rows[i].id < rows[j].id
  }

  /** A table as the database keeps it: ids strictly increasing and all below the next id. */
  ghost predicate TableValid(rows: seq<Row>, nextId: nat) {
    IdsAscending(rows) && forall i :: 0 <= i < |rows| ==> rows[i].id < nextId
  }

  /** `SELECT section_name, button_name ... order by id asc` on a table kept in id order. */
  function KeysOf(rows: seq<Row>): seq<Key> {
    seq(|rows|, i requires 0 <= i < |rows| => (rows[i].section, rows[i].button))
  }

  /** `UPDATE ... SET pdf_content = :pdf_data WHERE <key matches>` */
  function UpdatedRows(rows: seq<Row>, section: string, button: string, data: Bytes): (r: seq<Row>)
    ensures |r| == |rows|
    ensures forall i :: 0 <= i < |rows| ==>
      r[i].id == rows[i].id && r[i].section == rows[i].section && r[i].button == rows[i].button
    ensures forall i :: 0 <= i < |rows| && Matches(rows[i], section, button) ==> r[i].content == data
    ensures forall i :: 0 <= i < |rows| && !Matches(rows[i], section, button) ==> r[i] == rows[i]
  {
    if rows == [] then []
    else
      var head := if Matches(rows[0], section, button) then rows[0].(content := data) else rows[0];
      [head] + UpdatedRows(rows[1..], section, button, data)
  }

  /** `DELETE FROM ... WHERE <key matches>` */
  function DeletedRows(rows: seq<Row>, section: string, button: string): (r: seq<Row>)
    ensures forall x :: x in r <==> x in rows && !Matches(x, section, button)
    ensures IdsAscending(rows) ==> IdsAscending(r)
  {
    if rows == [] then []
    else
      var rest := DeletedRows(rows[1..], section, button);
      if Matches(rows[0], section, button) then rest
      else
        TailIdsAbove(rows, rest);
        [rows[0]] + rest
  }

  /** In an id-ordered table every row drawn from the tail has a larger id than the head. */
  lemma TailIdsAbove(rows: seq<Row>, rest: seq<Row>)
    requires rows != [] && forall x :: x in rest ==> x in rows[1..]
    ensures IdsAscending(rows) ==> forall k :: 0 <= k < |rest| ==> rows[0].id < rest[k].id
  {
    if IdsAscending(rows) {
      forall k | 0 <= k < |rest| ensures rows[0].id < rest[k].id {
        assert rest[k] in rows[1..];
        var m :| 0 <= m < |rows[1..]| && rows[1..][m] == rest[k];
        assert rows[m + 1] == rest[k];
      }
    }
  }

  /** `SELECT pdf_content ... WHERE <key matches>` then `fetchone()` and its first column:
      the content of a matching row, or None when no row matches. The statement has no
      ORDER BY; the model takes the first match in id order. */
  function SelectContent(rows: seq<Row>, section: string, button: string): (r: Option<Bytes>)
    ensures r.None? <==> Absent(rows, section, button)
    ensures r.Some? ==> exists i :: 0 <= i < |rows| && Matches(rows[i], section, button) && rows[i].content == r.value
  {
    if rows == [] then None
    else if Matches(rows[0], section, button) then Some(rows[0].content)
    else
      var r := SelectContent(rows[1..], section, button);
      assert r.Some? ==> exists i :: 1 <= i < |rows| && Matches(rows[i], section, button) && rows[i].content == r.value;
      r
  }

  /** Reading back a key that no row held before the insert returns exactly the inserted bytes. */
  lemma {:induction false} SelectAfterInsert(rows: seq<Row>, row: Row)
    requires Absent(rows, row.section, row.button)
    ensures SelectContent(rows + [row], row.section, row.button) == Some(row.content)
  {
    if rows != [] {
      assert (rows + [row])[1..] == rows[1..] + [row];
      SelectAfterInsert(rows[1..], row);
    }
  }

  /** Appending a row never changes what an already present key reads. */
  lemma {:induction false} SelectUnchangedByAppend(rows: seq<Row>, row: Row, section: string, button: string)
    requires !Absent(rows, section, button)
    ensures SelectContent(rows + [row], section, button) == SelectContent(rows, section, button)
  {
    if !Matches(rows[0], section, button) {
      assert (rows + [row])[1..] == rows[1..] + [row];
      SelectUnchangedByAppend(rows[1..], row, section, button);
    }
  }

  /** After an update of a key that some row holds, reading the key returns the new bytes. */
  lemma SelectAfterUpdate(rows: seq<Row>, section: string, button: string, data: Bytes)
    requires !Absent(rows, section, button)
    ensures SelectContent(UpdatedRows(rows, section, button, data), section, button) == Some(data)
  {
    var i :| 0 <= i < |rows| && Matches(rows[i], section, button);
    assert Matches(UpdatedRows(rows, section, button, data)[i], section, button);
  }

  /** After a delete, reading the key finds no row. */
  lemma SelectAfterDelete(rows: seq<Row>, section: string, button: string)
    ensures SelectContent(DeletedRows(rows, section, button), section, button) == None
  {
    var r := DeletedRows(rows, section, button);
    forall i | 0 <= i < |r| ensures !Matches(r[i], section, button) {
      assert r[i] in r;
    }
  }

  /** An update or delete of a key that no row holds leaves the table as it was. */
  lemma {:induction false} NoMatchNoEffect(rows: seq<Row>, section: string, button: string, data: Bytes)
    requires Absent(rows, section, button)
    ensures UpdatedRows(rows, section, button, data) == rows
    ensures DeletedRows(rows, section, button) == rows
  {
    if rows != [] {
      NoMatchNoEffect(rows[1..], section, button, data);
    }
  }

  /** An update changes contents only: the keys, in order, stay as they were. */
  lemma UpdateKeepsKeys(rows: seq<Row>, section: string, button: string, data: Bytes)
    ensures KeysOf(UpdatedRows(rows, section, button, data)) == KeysOf(rows)
  {
  }

  /** Deleting keeps every other key in the table and removes this one. */
  lemma DeleteKeys(rows: seq<Row>, section: string, button: string)
    ensures forall k :: k in KeysOf(DeletedRows(rows, section, button)) <==> k in KeysOf(rows) && k != (section, button)
  {
    var r := DeletedRows(rows, section, button);
    forall k ensures k in KeysOf(r) <==> k in KeysOf(rows) && k != (section, button) {
      if k in KeysOf(r) {
        var i :| 0 <= i < |r| && KeysOf(r)[i] == k;
        assert r[i] in r;
        var j :| 0 <= j < |rows| && rows[j] == r[i];
        assert KeysOf(rows)[j] == k;
      }
      if k in KeysOf(rows) && k != (section, button) {
        var j :| 0 <= j < |rows| && KeysOf(rows)[j] == k;
        assert rows[j] in rows;
        var i :| 0 <= i < |r| && r[i] == rows[j];
        assert KeysOf(r)[i] == k;
      }
    }
  }
}
