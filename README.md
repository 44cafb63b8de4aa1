# PDF catalogue browser: document table and page state machine in Dafny

This project models the core of a small Streamlit application for browsing training PDFs.
A sidebar lists sections, and under each section the buttons (document names) it holds.
Clicking a button fetches that document's bytes from the PostgreSQL table
`TRAINING_FILES.PDF_FILES` and renders them as base64 text in a template. Upload, Edit and
Delete forms change the table.

There are two parts.

- **`PDFManager`** (`pdf_manager.py`) is modelled as the class `Pdf.PdfManager`.
  - It holds the table's committed rows `(id, section_name, button_name, pdf_content)` in
    ascending `id` order, plus the next auto-increment value.
  - `insert_pdf`, `update_pdf` and `delete_pdf` are methods. Each commits its one statement,
    or rolls back when the database driver raises. The driver's outcome is a `raised`
    parameter of the method, because the schema and the database are not visible.
    Each method reports `True` exactly when the driver did not raise. That includes an update
    or delete that matched no row.
  - What each SQL statement does to the rows is given by the functions `Table.UpdatedRows`,
    `Table.DeletedRows` and `Table.SelectContent`.
  - `get_pdf_content` is a function. When no row matches, `fetch_result` is None and
    `bytes(None)` raises `TypeError`. So despite its `Optional` annotation it never returns
    None; the model returns `Err(TypeError)`.
  - `get_button_dict` is a method with the source's loop. It folds the keys, fetched in `id`
    order, into a nested insertion-ordered dict. Its contract ties the result to the
    function `Catalog.ButtonDictOf` and states key coverage and first-occurrence order.
    Python's dict is modelled in `OrderedDict`: `d[k] = v` keeps an existing key in its place
    and puts a new key last.
- **`AppManager`** (`app_flow_manager.py`) is modelled as the class `AppFlow.AppManager`.
  - Its fields are `button_clicked` and `action` from `st.session_state`, the cache of
    `get_cached_pdf`, and `button_dict`.
  - Streamlit runs the script once per interaction. The widget values of a run are one
    `Widgets` value, and its `click` names the widget that started the run.
  - The constructor is the first run of a session. `Reload` is every later run: `main.py`
    builds the page again, while session state and cache survive.
  - `SetupSidebar`, `GetCachedPdf`, `MainPanelContent` (split into `ShowSelection` and
    `HandleAction`), `UploadPdf`, `EditPdf` and `DeletePdf` follow the source's methods
    branch by branch.
  - Every method keeps the invariant `CacheCoherent`: each cached text equals what the table
    answers now. A successful edit or delete clears the cache. An upload only appends a row,
    which, with the model's first-match SELECT, never changes what an already cached key reads.

Behaviour of the source that the contracts make explicit:

- Deleting the selected document does not clear `button_clicked`. Every later run then
  raises `TypeError` when it reads the selection (`Table.SelectAfterDelete` with
  `ShowSelection`), until another catalogue button is clicked.
- The edit and delete forms index `button_dict[section]` with the selectbox value. With an
  empty catalogue that value is None and the lookup raises `KeyError`, even before Submit is
  pressed.
- The "No PDF content available" message appears only for a row whose content is zero bytes,
  because base64 text is empty exactly when its input is.

Further facts about the code that the model keeps:

- There is no uniqueness check. Inserting an existing (section, button) succeeds unless the
  driver raises, and reads of that key keep returning the first row (in the model's
  first-match SELECT).
- An update or delete that matches no row reports True.
- Only PDF bytes are stored; there is no content-type column.

## Model

| member | source | states |
|---|---|---|
| `Pdf.PdfManager.constructor` | pdf_manager.py:7-10 | a manager over a live connection to a table whose ids are ascending and below the next id |
| `Pdf.PdfManager.InsertPdf` | pdf_manager.py:22-39 | returns True exactly when the driver did not raise; then the row (next id, section, button, data) is appended and the id advances; otherwise the table is rolled back unchanged |
| `Pdf.PdfManager.UpdatePdf` | pdf_manager.py:41-59 | returns True exactly when the driver did not raise, also when nothing matched; then the table is the UPDATE's result; otherwise it is unchanged |
| `Pdf.PdfManager.DeletePdf` | pdf_manager.py:61-77 | returns True exactly when the driver did not raise, also when nothing matched; then the table is the DELETE's result and stays in id order; otherwise it is unchanged |
| `Pdf.PdfManager.GetPdfContent` | pdf_manager.py:79-92 | fails with TypeError exactly when no row has the key (never None); otherwise returns the base64 text of the content of a row with that key |
| `Pdf.PdfManager.GetButtonDict` | pdf_manager.py:94-105 | the loop yields the fold of the keys in id order; it lists (s, b) exactly when some row has that key; sections come in order of their first row, and each section's buttons in order of their first row in that section |
| `Table.UpdatedRows` | pdf_manager.py:42-52 | every row with both key columns matching gets the new content; ids, keys and order of all rows are unchanged; every other row is untouched |
| `Table.DeletedRows` | pdf_manager.py:62-70 | a row remains exactly when it was there and does not match the key; id order is preserved |
| `Table.SelectContent` | pdf_manager.py:80-89 | None exactly when no row matches; otherwise the content of some matching row |
| `Table.SelectAfterInsert` | pdf_manager.py:22-32 | round trip: after inserting a key no row held, reading it returns exactly the inserted bytes |
| `Table.SelectUnchangedByAppend` | pdf_manager.py:22-32 | with the model's first-match SELECT, an insert never changes what an already present key reads |
| `Table.SelectAfterUpdate` | pdf_manager.py:41-52 | freshness: after updating a present key, reading it returns the new bytes and never the old |
| `Table.SelectAfterDelete` | pdf_manager.py:61-70 | after a delete, reading the key finds no row |
| `Table.NoMatchNoEffect` | pdf_manager.py:41-77 | an update or delete of a key no row holds leaves the table exactly as it was; `UpdatePdf`/`DeletePdf` still report True unless the driver raised |
| `Table.UpdateKeepsKeys` | pdf_manager.py:43-45 | an update changes contents only: the key column pairs, in order, are unchanged |
| `Table.DeleteKeys` | pdf_manager.py:63-64 | after a delete the remaining keys are exactly the previous keys other than the deleted one |
| `OrderedDict.Dict.Set` | pdf_manager.py:99-103 | Python dict assignment keeps the dict well formed; an existing key keeps its position and a new key goes last |
| `Catalog.AddButton` | pdf_manager.py:99-103 | one pass of the loop keeps the catalogue well formed: both levels are valid dicts and every section holds a button |
| `Catalog.ButtonDictOf` | pdf_manager.py:94-105 | the fold of any key sequence is a well-formed catalogue |
| `Catalog.ButtonDictLayout` | pdf_manager.py:96-103 | the outer dict is `dict.fromkeys` of the section column; each section's dict is `dict.fromkeys` of that section's buttons |
| `Catalog.ButtonDictCoverage` | pdf_manager.py:94-105 | key coverage: (s, b) is listed exactly when some row has that key; every value is None by its type |
| `Catalog.ButtonDictSections` | pdf_manager.py:98-100 | a section is a key of the result exactly when some row names it |
| `Catalog.ButtonDictOrder` | pdf_manager.py:95-103 | sections come in order of their first row by ascending id; buttons within a section in order of their first row there |
| `Catalog.ButtonDictFacts` | pdf_manager.py:94-105 | coverage and both orderings at once, for all pairs |
| `Catalog.DuplicateRowCollapses` | pdf_manager.py:101-103 | a row repeating an earlier (section, button) leaves the result unchanged |
| `Catalog.InsertListsKey` | pdf_manager.py:22-39 | after an insert the new key is listed; a new section goes last; no other pair changes |
| `Catalog.UpdateKeepsCatalog` | pdf_manager.py:41-59 | an update leaves the catalogue exactly as it was |
| `Catalog.DeleteUnlistsKey` | pdf_manager.py:61-77 | after a delete the pair is not listed and every other pair is listed as before |
| `Catalog.DeleteDropsLastButton` | pdf_manager.py:61-77 | a section whose only button was deleted disappears from the catalogue |
| `AppFlow.AppManager.constructor` | app_flow_manager.py:6-10 | first run: the catalogue is fetched from the table; a click on a listed button selects it; a management click sets the action; the cache is empty |
| `AppFlow.AppManager.Reload` | app_flow_manager.py:9-10 | later run: the catalogue is fetched again; the click acts on the kept selection and action |
| `AppFlow.AppManager.SetupSidebar` | app_flow_manager.py:12-29 | a click on listed button b of section s sets button_clicked to (s, b) and leaves the action; Upload/Edit/Delete set the action and leave button_clicked; any other click changes neither |
| `AppFlow.AppManager.GetCachedPdf` | app_flow_manager.py:31-34 | the answer always equals the table's current answer; a miss with a value caches it; an exception is not cached |
| `AppFlow.AppManager.ShowSelection` | app_flow_manager.py:39-45 | no selection shows nothing; a missing row raises TypeError; truthy text is rendered with pdf_template.html; empty text shows the message |
| `AppFlow.AppManager.HandleAction` | app_flow_manager.py:47-53 | only the form the action names runs; only its store call can change the table, and only a successful upload advances the next id; the notice, action and cache follow that form |
| `AppFlow.AppManager.MainPanelContent` | app_flow_manager.py:36-53 | a TypeError on the selection ends the run with nothing changed; otherwise the panel follows the selection and at most one form, chosen by the action, touches the table, action and cache |
| `AppFlow.AppManager.UploadPdf` | app_flow_manager.py:55-70 | insert is called only on Submit with non-empty section, button and file; success appends the row, advances the next id and resets the action; failure keeps the table, the id and 'upload'; the cache is never cleared |
| `AppFlow.AppManager.EditPdf` | app_flow_manager.py:72-88 | KeyError exactly when the catalogue offers no section; update is called only on Submit with non-empty section, button and file; success resets the action and clears the cache; failure changes neither; only the store's rows may change, never its next id |
| `AppFlow.AppManager.DeletePdf` | app_flow_manager.py:90-103 | KeyError exactly when the catalogue offers no section; Confirm always calls delete (no file guard); success resets the action and clears the cache; failure keeps 'delete'; only the store's rows may change, never its next id |

## Left out

- Streamlit rendering, sidebar layout, titles and subheaders are not modelled. The
  success and error toasts are kept only as the `Notice` tag.
- `st.cache_data` mechanics are not modelled. These include argument hashing (the real key
  also involves `self`), sharing between sessions and eviction. The cache is a map keyed by
  (section, button) with a clear operation.
- Creating the engine and connection, the connection-failure path and `__del__` are not
  modelled. The model assumes a live connection. With `conn = None`, the later `execute`
  and `rollback` calls would raise instead of returning False.
- A SELECT whose driver raises is not modelled: `get_pdf_content` and `get_button_dict`
  always reach the table. Only the missing-row `TypeError` is modelled.
- Base64 encoding is a library call. It is the constructor `Base64Of`, which is injective by
  construction. Its length (empty exactly for empty input) is assumed, not derived.
- `Table.SelectContent`: the SELECT has no ORDER BY, so the database may return any
  matching row. The contract promises only "some matching row". The body picks the first
  match in id order, and `CacheCoherent` relies on that choice when two rows share a key.
  No constraint in the code forbids two rows sharing a key.
- `Table.SelectUnchangedByAppend`: holds for the model's first-match SELECT only. Against a
  SELECT without ORDER BY, a duplicate insert may change which row a read returns.
- `Pdf.PdfManager.InsertPdf`: after a rolled-back insert the model keeps the next id. A real
  sequence may have used up a value. Ids matter only for ordering, which this does not change.
- NULL columns are not modelled. Every write passes non-null strings and bytes.
- Streamlit's duplicate-widget error for two catalogue buttons with the same label is not
  modelled, and neither are other widget identity rules. The widget values of each run are
  inputs.
- render_manager.py (Jinja2 template loading and CSS file reading) is not part of this
  model. The panel records the template name and the text passed to it.
- config_settings.py and main.py (configuration and start-up wiring) are not part of this
  model. The per-run sequence of `main.py` is the constructor or `Reload`, followed by
  `MainPanelContent`.
- Transaction isolation and races between sessions are not modelled.
