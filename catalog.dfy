/** The catalogue that `get_button_dict` builds from the rows' keys: section -> button -> None,
    both levels in Python dict insertion order. */
module Catalog {
  import opened OrderedDict
  import opened Table

  /** The inner values are all Python None. */
  type ButtonDict = Dict<string, Dict<string, NoneType>>

  /** Both levels are valid dicts, and every section holds at least one button. */
  ghost predicate Wellformed(d: ButtonDict) {
    d.Valid() && forall s :: s in d.items ==> d.items[s].Valid() && d.items[s].order != []
  }

  /** The catalogue lists `button` under `section`. */
  predicate Listed(d: ButtonDict, section: string, button: string) {
    section in d.items && button in d.items[section].items
  }

  /** One pass of the loop body of `get_button_dict`: create the section's dict on its first
      row, then set `button_dict[section][button] = None`. */
  function AddButton(d: ButtonDict, key: Key): (d': ButtonDict)
    requires Wellformed(d)
    ensures Wellformed(d')
  {
    var (section, button) := key;
    var d1 := if section in d.items then d else d.Set(section, Empty());
    d1.Set(section, d1.items[section].Set(button, PyNone))
  }

  /** The dict `get_button_dict` returns after folding the fetched keys in order. */
  function ButtonDictOf(keys: seq<Key>): (d: ButtonDict)
    ensures Wellformed(d)
  {
    if keys == [] then Empty()
    else AddButton(ButtonDictOf(keys[..|keys| - 1]), keys[|keys| - 1])
  }

  /** Folding one more row is one more pass of the loop. */
  lemma ButtonDictOfAppend(keys: seq<Key>, k: Key)
    ensures ButtonDictOf(keys + [k]) == AddButton(ButtonDictOf(keys), k)
  {
    assert (keys + [k])[..|keys|] == keys;
  }

  /** The section column of the fetched rows. */
  function SectionsOf(keys: seq<Key>): seq<string> {
    seq(|keys|, i requires 0 <= i < |keys| => keys[i].0)
  }

  /** The button column of the fetched rows whose section is `section`. */
  function ButtonsOf(keys: seq<Key>, section: string): seq<string> {
    if keys == [] then []
    else
      var last := keys[|keys| - 1];
      ButtonsOf(keys[..|keys| - 1], section) + (if last.0 == section then [last.1] else [])
  }

  lemma {:induction false} ButtonsOfMembership(keys: seq<Key>, section: string, button: string)
    ensures button in ButtonsOf(keys, section) <==> (section, button) in keys
  {
    if keys != [] {
      var p := keys[..|keys| - 1];
      assert keys == p + [keys[|keys| - 1]];
      ButtonsOfMembership(p, section, button);
    }
  }

  lemma SectionsOfAppend(keys: seq<Key>, k: Key)
    ensures SectionsOf(keys + [k]) == SectionsOf(keys) + [k.0]
  {
  }

  /** What one pass of the loop does to the outer order and to each section's dict. */
  lemma AddButtonShape(d: ButtonDict, k: Key)
    requires Wellformed(d)
    ensures AddButton(d, k).order == if k.0 in d.items then d.order else d.order + [k.0]
    ensures k.0 in AddButton(d, k).items
    ensures AddButton(d, k).items[k.0] ==
      (if k.0 in d.items then d.items[k.0] else Empty()).Set(k.1, PyNone)
    ensures forall s :: s != k.0 ==>
      (s in AddButton(d, k).items <==> s in d.items) &&
      (s in d.items ==> AddButton(d, k).items[s] == d.items[s])
  {
  }

  /** The buttons of a section no row names. */
  lemma {:induction false} ButtonsOfUnnamed(keys: seq<Key>, section: string)
    requires section !in SectionsOf(keys)
    ensures ButtonsOf(keys, section) == []
  {
    if keys != [] {
      var p := keys[..|keys| - 1];
      assert SectionsOf(keys)[|keys| - 1] == keys[|keys| - 1].0;
      assert SectionsOf(p) == SectionsOf(keys)[..|keys| - 1];
      ButtonsOfUnnamed(p, section);
    }
  }

  /** The outer order, carried across one more row. */
  lemma LayoutOrderStep(p: seq<Key>, k: Key)
    requires ButtonDictOf(p).order == FromKeys(SectionsOf(p)).order
    ensures ButtonDictOf(p + [k]).order == FromKeys(SectionsOf(p + [k])).order
  {
    var keys := p + [k];
    assert keys[..|keys| - 1] == p;
    var d := ButtonDictOf(p);
    AddButtonShape(d, k);
    var secs := SectionsOf(p);
    SectionsOfAppend(p, k);
    assert SectionsOf(keys)[..|keys| - 1] == secs;
    assert k.0 in d.items <==> k.0 in FromKeys(secs).items;
  }

  /** One section's dict, carried across one more row. */
  lemma LayoutItemStep(p: seq<Key>, k: Key, s: string)
    requires ButtonDictOf(p).order == FromKeys(SectionsOf(p)).order
    requires s in ButtonDictOf(p).items ==> ButtonDictOf(p).items[s] == FromKeys(ButtonsOf(p, s))
    requires s in ButtonDictOf(p + [k]).items
    ensures ButtonDictOf(p + [k]).items[s] == FromKeys(ButtonsOf(p + [k], s))
  {
    var keys := p + [k];
    assert keys[..|keys| - 1] == p;
    var d := ButtonDictOf(p);
    AddButtonShape(d, k);
    var bs := ButtonsOf(p, s);
    if s == k.0 {
      assert ButtonsOf(keys, s) == bs + [k.1];
      assert ButtonsOf(keys, s)[..|ButtonsOf(keys, s)| - 1] == bs;
      if s !in d.items {
        assert s !in FromKeys(SectionsOf(p)).items;
        ButtonsOfUnnamed(p, s);
      }
    } else {
      assert ButtonsOf(keys, s) == bs;
    }
  }

  /** The outer dict is `dict.fromkeys` of the section column, and each section's dict is
      `dict.fromkeys` of that section's buttons. */
  lemma {:induction false} ButtonDictLayout(keys: seq<Key>)
    ensures ButtonDictOf(keys).order == FromKeys(SectionsOf(keys)).order
    ensures forall s :: s in ButtonDictOf(keys).items ==>
      ButtonDictOf(keys).items[s] == FromKeys(ButtonsOf(keys, s))
  {
    if keys != [] {
      var p, k := keys[..|keys| - 1], keys[|keys| - 1];
      assert keys == p + [k];
      ButtonDictLayout(p);
      LayoutOrderStep(p, k);
      forall s | s in ButtonDictOf(keys).items
        ensures ButtonDictOf(keys).items[s] == FromKeys(ButtonsOf(keys, s))
      {
        LayoutItemStep(p, k, s);
      }
    }
  }

  /** Key coverage: the catalogue lists a (section, button) pair exactly when some row has it. */
  lemma ButtonDictCoverage(keys: seq<Key>, section: string, button: string)
    ensures Listed(ButtonDictOf(keys), section, button) <==> (section, button) in keys
  {
    var d := ButtonDictOf(keys);
    ButtonDictSections(keys, section);
    ButtonsOfMembership(keys, section, button);
    if section in d.items {
      ButtonDictSection(keys, section);
    }
    if (section, button) in keys {
      var i :| 0 <= i < |keys| && keys[i] == (section, button);
      assert SectionsOf(keys)[i] == section;
    }
  }

  /** The dict of one listed section. */
  lemma ButtonDictSection(keys: seq<Key>, section: string)
    requires section in ButtonDictOf(keys).items
    ensures ButtonDictOf(keys).items[section] == FromKeys(ButtonsOf(keys, section))
  {
    ButtonDictLayout(keys);
  }

  /** A section is in the catalogue exactly when some row names it. */
  lemma ButtonDictSections(keys: seq<Key>, section: string)
    ensures section in ButtonDictOf(keys).items <==> section in SectionsOf(keys)
  {
    ButtonDictLayout(keys);
    assert section in ButtonDictOf(keys).items <==> section in FromKeys(SectionsOf(keys)).items;
  }

  /** Ordering: sections appear in the order of their first row, and the buttons of a section
      in the order of their first row within that section. */
  lemma ButtonDictOrder(keys: seq<Key>)
    ensures FirstOccurrenceOrder(ButtonDictOf(keys).order, SectionsOf(keys))
    ensures forall s :: s in ButtonDictOf(keys).items ==>
      FirstOccurrenceOrder(ButtonDictOf(keys).items[s].order, ButtonsOf(keys, s))
  {
    ButtonDictLayout(keys);
    FromKeysOrder(SectionsOf(keys));
    forall s | s in ButtonDictOf(keys).items
      ensures FirstOccurrenceOrder(ButtonDictOf(keys).items[s].order, ButtonsOf(keys, s))
    {
      FromKeysOrder(ButtonsOf(keys, s));
    }
  }

  /** Adding a pair the catalogue already lists changes nothing. */
  lemma AddListedButton(d: ButtonDict, k: Key)
    requires Wellformed(d) && Listed(d, k.0, k.1)
    ensures AddButton(d, k) == d
  {
    var inner := d.items[k.0];
    match inner.items[k.1] { case PyNone => }
    SetSameValue(inner, k.1, PyNone);
    SetSameValue(d, k.0, inner);
  }

  /** Coverage and ordering together, for every pair at once. */
  lemma ButtonDictFacts(keys: seq<Key>)
    ensures forall s, b :: Listed(ButtonDictOf(keys), s, b) <==> (s, b) in keys
    ensures FirstOccurrenceOrder(ButtonDictOf(keys).order, SectionsOf(keys))
    ensures forall s :: s in ButtonDictOf(keys).items ==>
      FirstOccurrenceOrder(ButtonDictOf(keys).items[s].order, ButtonsOf(keys, s))
  {
    forall s, b ensures Listed(ButtonDictOf(keys), s, b) <==> (s, b) in keys {
      ButtonDictCoverage(keys, s, b);
    }
    ButtonDictOrder(keys);
  }

  /** Rows that repeat an earlier (section, button) pair collapse into the entry already there. */
  lemma DuplicateRowCollapses(keys: seq<Key>, k: Key)
    requires k in keys
    ensures ButtonDictOf(keys + [k]) == ButtonDictOf(keys)
  {
    ButtonDictOfAppend(keys, k);
    ButtonDictCoverage(keys, k.0, k.1);
    AddListedButton(ButtonDictOf(keys), k);
  }

  /** A successful insert lists its key; a section seen for the first time goes last. */
  lemma InsertListsKey(rows: seq<Row>, row: Row)
    ensures var before, after := ButtonDictOf(KeysOf(rows)), ButtonDictOf(KeysOf(rows + [row]));
      Listed(after, row.section, row.button) &&
      after.order == (if row.section in before.items then before.order else before.order + [row.section]) &&
      forall s, b :: (s, b) != (row.section, row.button) ==> (Listed(after, s, b) <==> Listed(before, s, b))
  {
    var keys, k := KeysOf(rows), (row.section, row.button);
    assert KeysOf(rows + [row]) == keys + [k];
    assert (keys + [k])[..|keys|] == keys;
    forall s, b | (s, b) != k ensures Listed(ButtonDictOf(keys + [k]), s, b) <==> Listed(ButtonDictOf(keys), s, b) {
      ButtonDictCoverage(keys + [k], s, b);
      ButtonDictCoverage(keys, s, b);
    }
  }

  /** An update leaves the catalogue exactly as it was. */
  lemma UpdateKeepsCatalog(rows: seq<Row>, section: string, button: string, data: Common.Bytes)
    ensures ButtonDictOf(KeysOf(UpdatedRows(rows, section, button, data))) == ButtonDictOf(KeysOf(rows))
  {
    UpdateKeepsKeys(rows, section, button, data);
  }

  /** After a delete the pair is no longer listed and every other pair is listed as before. */
  lemma DeleteUnlistsKey(rows: seq<Row>, section: string, button: string)
    ensures !Listed(ButtonDictOf(KeysOf(DeletedRows(rows, section, button))), section, button)
    ensures forall s, b :: (s, b) != (section, button) ==>
      (Listed(ButtonDictOf(KeysOf(DeletedRows(rows, section, button))), s, b) <==> Listed(ButtonDictOf(KeysOf(rows)), s, b))
  {
    var keys, keys' := KeysOf(rows), KeysOf(DeletedRows(rows, section, button));
    DeleteKeys(rows, section, button);
    ButtonDictCoverage(keys', section, button);
    forall s, b | (s, b) != (section, button)
      ensures Listed(ButtonDictOf(keys'), s, b) <==> Listed(ButtonDictOf(keys), s, b)
    {
      ButtonDictCoverage(keys, s, b);
      ButtonDictCoverage(keys', s, b);
    }
  }

  /** After a delete, a section whose only button was the deleted one leaves the catalogue. */
  lemma DeleteDropsLastButton(rows: seq<Row>, section: string, button: string)
    requires forall b :: Listed(ButtonDictOf(KeysOf(rows)), section, b) ==> b == button
    ensures section !in ButtonDictOf(KeysOf(DeletedRows(rows, section, button))).items
  {
    var after := ButtonDictOf(KeysOf(DeletedRows(rows, section, button)));
    if section in after.items {
      var b := after.items[section].order[0];
      assert Listed(after, section, b);
      DeleteUnlistsKey(rows, section, button);
    }
  }
}
