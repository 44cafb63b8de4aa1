/** PDFManager: the data-access object over TRAINING_FILES.PDF_FILES, holding a live
    connection. Each write runs one statement and commits it, or, when the driver raises,
    rolls back to the last commit and reports False. */
module Pdf {
  import opened Common
  import opened OrderedDict
  import opened Table
  import opened Catalog

  class PdfManager {
    /** The committed rows of the table, in ascending id order. */
    var rows: seq<Row>
    /** The value the id column's auto-increment hands out next. */
    var nextId: nat

    ghost predicate Valid()
      reads this
    {
      TableValid(rows, nextId)
    }

    /** A manager connected to a database whose table already holds `table`. */
    constructor (table: seq<Row>, next: nat)
      requires TableValid(table, next)
      ensures Valid() && rows == table && nextId == next
    {
      rows, nextId := table, next;
    }

    /** `insert_pdf`: INSERT one row. `raised` is whether the driver raised (a constraint
        of the unseen schema, a lost connection); then the transaction is rolled back. */
    method InsertPdf(section: string, button: string, data: Bytes, raised: bool) returns (ok: bool)
      requires Valid()
      modifies this
      ensures Valid()
      ensures ok == !raised
      ensures ok ==> rows == old(rows) + [Row(old(nextId), section, button, data)] && nextId == old(nextId) + 1
      ensures !ok ==> rows == old(rows) && nextId == old(nextId)
    {
      if raised {
        ok := false;
      } else {
        rows := rows + [Row(nextId, section, button, data)];
        nextId := nextId + 1;
        ok := true;
      }
    }

    /** `update_pdf`: UPDATE the content of every row with this key. Reports True whenever
        the driver did not raise, also when no row matched. */
    method UpdatePdf(section: string, button: string, data: Bytes, raised: bool) returns (ok: bool)
      requires Valid()
      modifies this`rows
      ensures Valid()
      ensures ok == !raised
      ensures rows == if ok then UpdatedRows(old(rows), section, button, data) else old(rows)
    {
      if raised {
        ok := false;
      } else {
        rows := UpdatedRows(rows, section, button, data);
        ok := true;
      }
    }

    /** `delete_pdf`: DELETE every row with this key. Reports True whenever the driver did
        not raise, also when no row matched. */
    method DeletePdf(section: string, button: string, raised: bool) returns (ok: bool)
      requires Valid()
      modifies this`rows
      ensures Valid()
      ensures ok == !raised
      ensures rows == if ok then DeletedRows(old(rows), section, button) else old(rows)
    {
      if raised {
        ok := false;
      } else {
        var kept := DeletedRows(rows, section, button);
        forall i | 0 <= i < |kept| ensures kept[i].id < nextId {
          assert kept[i] in rows;
        }
        rows := kept;
        ok := true;
      }
    }

    /** `get_pdf_content`: the base64 text of a matching row's content. With no matching row
        `fetch_result` is None and `bytes(None)` raises TypeError: the function never
        returns None. */
    function GetPdfContent(section: string, button: string): (r: Result<Base64Text>)
      reads this
      ensures r.Err? <==> Absent(rows, section, button)
      ensures r.Err? ==> r.error == TypeError
      ensures r.Ok? ==> exists i :: 0 <= i < |rows| && Matches(rows[i], section, button) &&
                                    r.value == Base64Of(rows[i].content)
    {
      match SelectContent(rows, section, button)
      case None => Err(TypeError)
      case Some(content) => Ok(Base64Of(content))
    }

    /** `get_button_dict`: fold the keys fetched in id order into section -> button -> None. */
    method GetButtonDict() returns (d: ButtonDict)
      requires Valid()
      ensures d == ButtonDictOf(KeysOf(rows))
      ensures Wellformed(d)
      ensures forall s, b :: Listed(d, s, b) <==> (s, b) in KeysOf(rows)
      ensures FirstOccurrenceOrder(d.order, SectionsOf(KeysOf(rows)))
      ensures forall s :: s in d.items ==> FirstOccurrenceOrder(d.items[s].order, ButtonsOf(KeysOf(rows), s))
    {
      var fetched := KeysOf(rows);
      d := Empty();
      assert fetched[..0] == [];
      for i := 0 to |fetched|
        invariant d == ButtonDictOf(fetched[..i])
      {
        ButtonDictOfAppend(fetched[..i], fetched[i]);
        assert fetched[..i + 1] == fetched[..i] + [fetched[i]];
        var (section, button) := fetched[i];
        if section !in d.items {
          d := d.Set(section, Empty());
        }
        d := d.Set(section, d.items[section].Set(button, PyNone));
      }
      assert fetched[..|fetched|] == fetched;
      ButtonDictFacts(fetched);
    }
  }
}
