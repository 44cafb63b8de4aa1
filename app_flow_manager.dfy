/** AppManager: the Streamlit page over a PdfManager. Streamlit runs the whole script once per
    user interaction; st.session_state and the st.cache_data store survive from run to run. */
module AppFlow {
  import opened Common
  import opened OrderedDict
  import opened Table
  import opened Catalog
  import opened Pdf

  /** st.session_state['action']; an absent key and None read the same. */
  datatype Action = NoAction | Upload | Edit | Delete

  /** The widget whose click started this run; Streamlit starts one run per click. */
  datatype Click =
    | NoClick
    | CatalogButton(section: string, button: string)  // st.button(button) in the section's expander
    | UploadButton | EditButton | DeleteButton          // the sidebar's management buttons
    | SubmitUpload | SubmitEdit | ConfirmDelete         // the buttons of the three forms

  /** The state of the widgets when a run starts. */
  datatype Widgets = Widgets(
    click: Click,
    newSection: string,                // text_input "Section Name" ("" when left empty)
    newButton: string,                 // text_input "Button Name"
    selectedSection: Option<string>,   // selectbox "Select Section" (None over no options)
    selectedButton: Option<string>,    // selectbox "Select Button"
    file: Option<Bytes>)               // file_uploader (None when no file is chosen)

  /** What the main panel shows for the selection. */
  datatype Panel = NothingSelected | Rendered(template: string, pdf: Base64Text) | NoContentMessage

  /** The toast a form leaves: none, st.success or st.error. */
  datatype Notice = Silent | Success(action: Action) | Failure(action: Action)

  const PdfTemplate: string := "pdf_template.html"

  /** The effect of the sidebar's Upload, Edit and Delete buttons on the action. */
  function ClickedAction(click: Click, current: Action): Action {
    match click
    case UploadButton => Upload
    case EditButton => Edit
    case DeleteButton => Delete
    case _ => current
  }

  /** The effect of the catalogue buttons on the selection: only a listed button exists to click. */
  function ClickedButton(d: ButtonDict, click: Click, current: Option<Key>): Option<Key> {
    if click.CatalogButton? && Listed(d, click.section, click.button) then Some((click.section, click.button))
    else current
  }

  /** Values Streamlit can give the selectboxes of the edit and delete forms: None when there
      is no section to offer, otherwise a listed section and one of its buttons. */
  predicate SelectionOffered(d: ButtonDict, w: Widgets) {
    if |d.items| == 0 then w.selectedSection.None?
    else w.selectedSection.Some? && w.selectedButton.Some? &&
         Listed(d, w.selectedSection.value, w.selectedButton.value)
  }

  /** "Submit Upload" pressed with a non-empty section, button and file. */
  predicate UploadCalls(w: Widgets) {
    w.click == SubmitUpload && w.newSection != "" && w.newButton != "" && w.file.Some?
  }

  /** "Submit Edit" pressed with a non-empty section, button and file. */
  predicate EditCalls(w: Widgets) {
    w.click == SubmitEdit && w.selectedSection.Some? && w.selectedSection.value != "" &&
    w.selectedButton.Some? && w.selectedButton.value != "" && w.file.Some?
  }

  /** "Confirm Delete" pressed; there is no guard on the selected values. */
  predicate DeleteCalls(w: Widgets) {
    w.click == ConfirmDelete && w.selectedSection.Some? && w.selectedButton.Some?
  }

  /** The form chosen by `a` reaches the store in this run. */
  predicate Writes(a: Action, w: Widgets) {
    match a
    case NoAction => false
    case Upload => UploadCalls(w)
    case Edit => EditCalls(w)
    case Delete => DeleteCalls(w)
  }

  /** The table after the store call of the form chosen by `a` succeeded. */
  function RowsAfterWrite(a: Action, w: Widgets, rows: seq<Row>, nextId: nat): seq<Row>
    requires Writes(a, w)
  {
    match a
    case NoAction => rows
    case Upload => rows + [Row(nextId, w.newSection, w.newButton, w.file.value)]
    case Edit => UpdatedRows(rows, w.selectedSection.value, w.selectedButton.value, w.file.value)
    case Delete => DeletedRows(rows, w.selectedSection.value, w.selectedButton.value)
  }

  /** The toast of a form: nothing without a store call, else success or error. */
  function WriteNotice(a: Action, called: bool, raised: bool): Notice {
    if !called then Silent else if raised then Failure(a) else Success(a)
  }

  /** The panel for the fetched selection: the template for truthy text, else the message. */
  function PanelFor(text: Option<Base64Text>): Panel {
    match text
    case None => NothingSelected
    case Some(t) => if t.NonEmpty() then Rendered(PdfTemplate, t) else NoContentMessage
  }

  class AppManager {
    /** self.pdf_manager */
    const store: PdfManager
    /** self.button_dict, fetched when the page is built */
    var buttonDict: ButtonDict
    /** st.session_state['button_clicked'], absent until a catalogue button is clicked */
    var buttonClicked: Option<Key>
    /** st.session_state['action'] */
    var action: Action
    /** The cache of get_cached_pdf, keyed by (section, button) */
    var cache: map<Key, Base64Text>

    ghost predicate Valid()
      reads this, store
    {
      store.Valid() && Wellformed(buttonDict) && CacheCoherent()
    }

    /** Every cached text is what the store answers now: the cache never serves stale content. */
    ghost predicate CacheCoherent()
      reads this, store
    {
      forall k :: k in cache ==> store.GetPdfContent(k.0, k.1) == Ok(cache[k])
    }

    /** The store's answer for the current selection, if there is one. */
    ghost function Selected(): Option<Result<Base64Text>>
      reads this, store
    {
      if buttonClicked.None? then None
      else Some(store.GetPdfContent(buttonClicked.value.0, buttonClicked.value.1))
    }

    /** The selection's read fails, so the run stops in main_panel_content. */
    ghost predicate SelectionMissing()
      reads this, store
    {
      Selected().Some? && Selected().value.Err?
    }

    /** The cache once the selection has been read through it. */
    ghost function CacheAfterRead(): map<Key, Base64Text>
      reads this, store
    {
      if buttonClicked.Some? && buttonClicked.value !in cache && Selected().value.Ok?
      then cache[buttonClicked.value := Selected().value.value]
      else cache
    }

    /** `__init__` in the first run of a session: fetch the catalogue, then set up the sidebar. */
    constructor (store: PdfManager, click: Click)
      requires store.Valid()
      ensures Valid() && this.store == store
      ensures buttonDict == ButtonDictOf(KeysOf(store.rows))
      ensures buttonClicked == ClickedButton(buttonDict, click, None)
      ensures action == ClickedAction(click, NoAction)
      ensures cache == map[]
    {
      var d := store.GetButtonDict();
      this.store := store;
      buttonDict := d;
      buttonClicked := None;
      action := NoAction;
      cache := map[];
      new;
      SetupSidebar(click);
    }

    /** `__init__` in a later run of the session: main.py builds the page again, so the
        catalogue is fetched again and the sidebar set up again, over the kept session state. */
    method Reload(click: Click)
      requires Valid()
      modifies this`buttonDict, this`buttonClicked, this`action
      ensures Valid()
      ensures buttonDict == ButtonDictOf(KeysOf(store.rows))
      ensures buttonClicked == ClickedButton(buttonDict, click, old(buttonClicked))
      ensures action == ClickedAction(click, old(action))
    {
      var d := store.GetButtonDict();
      assert CacheCoherent();
      buttonDict := d;
      SetupSidebar(click);
    }

    /** `setup_sidebar`: one button per catalogue entry, section by section, then the three
        management buttons. A catalogue click selects its entry; a management click sets the
        action; neither touches the other. */
    method SetupSidebar(click: Click)
      requires Wellformed(buttonDict)
      modifies this`buttonClicked, this`action
      ensures buttonClicked == ClickedButton(buttonDict, click, old(buttonClicked))
      ensures action == ClickedAction(click, old(action))
    {
      var sections := buttonDict.order;
      var i := 0;
      while i < |sections|
        invariant 0 <= i <= |sections|
        invariant action == old(action)
        invariant buttonClicked ==
          if click.CatalogButton? && click.section in sections[..i] && Listed(buttonDict, click.section, click.button)
          then Some((click.section, click.button)) else old(buttonClicked)
      {
        var section := sections[i];
        var buttons := buttonDict.items[section].order;
        var j := 0;
        while j < |buttons|
          invariant 0 <= j <= |buttons|
          invariant action == old(action)
          invariant buttonClicked ==
            if click.CatalogButton? &&
               ((click.section in sections[..i] && Listed(buttonDict, click.section, click.button)) ||
                (click.section == section && click.button in buttons[..j]))
            then Some((click.section, click.button)) else old(buttonClicked)
        {
          if click == CatalogButton(section, buttons[j]) {
            buttonClicked := Some((section, buttons[j]));
          }
          assert buttons[..j + 1] == buttons[..j] + [buttons[j]];
          j := j + 1;
        }
        assert buttons[..j] == buttons;
        assert sections[..i + 1] == sections[..i] + [section];
        i := i + 1;
      }
      assert sections[..i] == sections;

      if click == UploadButton {
        action := Upload;
      }
      if click == EditButton {
        action := Edit;
      }
      if click == DeleteButton {
        action := Delete;
      }
    }

    /** `get_cached_pdf`: a cached text if there is one, else the store's answer, which is
        cached when it is a value (an exception is not cached). Thanks to coherence the
        answer is always the store's. */
    method GetCachedPdf(section: string, button: string) returns (r: Result<Base64Text>)
      requires Valid()
      modifies this`cache
      ensures Valid()
      ensures r == store.GetPdfContent(section, button)
      ensures cache == if (section, button) in old(cache) || r.Err? then old(cache)
                       else old(cache)[(section, button) := r.value]
    {
      if (section, button) in cache {
        r := Ok(cache[(section, button)]);
      } else {
        r := store.GetPdfContent(section, button);
        if r.Ok? {
          cache := cache[(section, button) := r.value];
        }
      }
    }

    /** `upload_pdf`: insert only with a non-empty section, button and file; on success the
        action is reset. Upload never clears the cache. */
    method UploadPdf(w: Widgets, raised: bool) returns (notice: Notice)
      requires Valid()
      modifies this`action, store
      ensures Valid()
      ensures store.nextId == if UploadCalls(w) && !raised then old(store.nextId) + 1 else old(store.nextId)
      ensures store.rows == if UploadCalls(w) && !raised
                            then old(store.rows) + [Row(old(store.nextId), w.newSection, w.newButton, w.file.value)]
                            else old(store.rows)
      ensures action == if UploadCalls(w) && !raised then NoAction else old(action)
      ensures notice == WriteNotice(Upload, UploadCalls(w), raised)
    {
      notice := Silent;
      if w.click == SubmitUpload {
        if w.newSection != "" && w.newButton != "" && w.file.Some? {
          var success := store.InsertPdf(w.newSection, w.newButton, w.file.value, raised);
          forall k | k in cache ensures store.GetPdfContent(k.0, k.1) == Ok(cache[k]) {
            if success {
              SelectUnchangedByAppend(old(store.rows), store.rows[|store.rows| - 1], k.0, k.1);
            }
          }
          if success {
            notice := Success(Upload);
            action := NoAction;
          } else {
            notice := Failure(Upload);
          }
        }
      }
    }

    /** `edit_pdf`: the selectboxes offer the catalogue; with no section the lookup
        `button_dict[None]` raises KeyError. Update only with a non-empty section, button and
        file; on success the action is reset and the cache cleared. */
    method EditPdf(w: Widgets, raised: bool) returns (r: Result<Notice>)
      requires Valid() && SelectionOffered(buttonDict, w)
      modifies this`action, this`cache, store`rows
      ensures Valid()
      ensures r.Err? <==> w.selectedSection.None?
      ensures r.Err? ==> r.error == KeyError
      ensures r.Ok? ==> r.value == WriteNotice(Edit, EditCalls(w), raised)
      ensures store.rows == if EditCalls(w) && !raised
                            then UpdatedRows(old(store.rows), w.selectedSection.value, w.selectedButton.value, w.file.value)
                            else old(store.rows)
      ensures action == if EditCalls(w) && !raised then NoAction else old(action)
      ensures cache == if EditCalls(w) && !raised then map[] else old(cache)
    {
      if w.selectedSection.None? {
        return Err(KeyError);
      }
      var notice := Silent;
      if w.click == SubmitEdit {
        var section, button := w.selectedSection.value, w.selectedButton.value;
        if section != "" && button != "" && w.file.Some? {
          assert EditCalls(w);
          var success := store.UpdatePdf(section, button, w.file.value, raised);
          if success {
            notice := Success(Edit);
            action := NoAction;
            cache := map[];
          } else {
            notice := Failure(Edit);
          }
        }
      }
      r := Ok(notice);
    }

    /** `delete_pdf`: the selectboxes offer the catalogue; with no section the lookup
        `button_dict[None]` raises KeyError. Confirming always calls the store (no guard); on
        success the action is reset and the cache cleared. */
    method DeletePdf(w: Widgets, raised: bool) returns (r: Result<Notice>)
      requires Valid() && SelectionOffered(buttonDict, w)
      modifies this`action, this`cache, store`rows
      ensures Valid()
      ensures r.Err? <==> w.selectedSection.None?
      ensures r.Err? ==> r.error == KeyError
      ensures r.Ok? ==> r.value == WriteNotice(Delete, DeleteCalls(w), raised)
      ensures store.rows == if DeleteCalls(w) && !raised
                            then DeletedRows(old(store.rows), w.selectedSection.value, w.selectedButton.value)
                            else old(store.rows)
      ensures action == if DeleteCalls(w) && !raised then NoAction else old(action)
      ensures cache == if DeleteCalls(w) && !raised then map[] else old(cache)
    {
      if w.selectedSection.None? {
        return Err(KeyError);
      }
      var notice := Silent;
      if w.click == ConfirmDelete {
        var success := store.DeletePdf(w.selectedSection.value, w.selectedButton.value, raised);
        if success {
          notice := Success(Delete);
          action := NoAction;
          cache := map[];
        } else {
          notice := Failure(Delete);
        }
      }
      r := Ok(notice);
    }

    /** The selection half of `main_panel_content`: read the selection through the cache and show it
        with the template when the text is truthy, else the message. A missing row raises
        TypeError. */
    method ShowSelection() returns (r: Result<Panel>)
      requires Valid()
      modifies this`cache
      ensures Valid()
      ensures r == if old(Selected()).None? then Ok(NothingSelected)
                   else if old(Selected()).value.Err? then Err(TypeError)
                   else Ok(PanelFor(Some(old(Selected()).value.value)))
      ensures cache == old(CacheAfterRead())
    {
      if buttonClicked.None? {
        return Ok(NothingSelected);
      }
      var (section, button) := buttonClicked.value;
      var pdfData := GetCachedPdf(section, button);
      if pdfData.Err? {
        return Err(pdfData.error);
      }
      r := Ok(if pdfData.value.NonEmpty() then Rendered(PdfTemplate, pdfData.value) else NoContentMessage);
    }

    /** The form half of `main_panel_content`: at most one form is handled, the one the action
        names. */
    method HandleAction(w: Widgets, raised: bool) returns (r: Result<Notice>)
      requires Valid()
      requires action == Edit || action == Delete ==> SelectionOffered(buttonDict, w)
      modifies this`action, this`cache, store
      ensures Valid()
      ensures r == if (old(action) == Edit || old(action) == Delete) && w.selectedSection.None? then Err(KeyError)
                   else Ok(WriteNotice(old(action), Writes(old(action), w), raised))
      ensures store.rows == if Writes(old(action), w) && !raised
                            then RowsAfterWrite(old(action), w, old(store.rows), old(store.nextId))
                            else old(store.rows)
      ensures action == if Writes(old(action), w) && !raised then NoAction else old(action)
      ensures store.nextId == if old(action) == Upload && Writes(old(action), w) && !raised
                              then old(store.nextId) + 1 else old(store.nextId)
      ensures cache == if Writes(old(action), w) && !raised && old(action) != Upload then map[] else old(cache)
    {
      if action == Upload {
        var notice := UploadPdf(w, raised);
        r := Ok(notice);
      } else if action == Edit {
        r := EditPdf(w, raised);
      } else if action == Delete {
        r := DeletePdf(w, raised);
      } else {
        r := Ok(Silent);
      }
    }

    /** `main_panel_content`: show the selection, then handle at most one form, the one the
        action names. A missing selected row raises TypeError and ends the run before any form. */
    method MainPanelContent(w: Widgets, raised: bool) returns (out: Result<(Panel, Notice)>)
      requires Valid()
      requires action == Edit || action == Delete ==> SelectionOffered(buttonDict, w)
      modifies this`action, this`cache, store
      ensures Valid()
      ensures old(SelectionMissing()) ==>
        out == Err(TypeError) && store.rows == old(store.rows) && store.nextId == old(store.nextId) &&
        action == old(action) && cache == old(cache)
      ensures !old(SelectionMissing()) ==>
        out == if (old(action) == Edit || old(action) == Delete) && w.selectedSection.None? then Err(KeyError)
               else Ok((PanelFor(if old(Selected()).None? then None else Some(old(Selected()).value.value)),
                        WriteNotice(old(action), Writes(old(action), w), raised)))
      ensures !old(SelectionMissing()) ==>
        store.rows == if Writes(old(action), w) && !raised
                      then RowsAfterWrite(old(action), w, old(store.rows), old(store.nextId))
                      else old(store.rows)
      ensures !old(SelectionMissing()) ==>
        store.nextId == if old(action) == Upload && Writes(old(action), w) && !raised
                        then old(store.nextId) + 1 else old(store.nextId)
      ensures !old(SelectionMissing()) ==>
        action == if Writes(old(action), w) && !raised then NoAction else old(action)
      ensures !old(SelectionMissing()) ==>
        cache == if Writes(old(action), w) && !raised && old(action) != Upload then map[]
                 else old(CacheAfterRead())
    {
      var panel := ShowSelection();
      if panel.Err? {
        return Err(panel.error);
      }
      var notice := HandleAction(w, raised);
      if notice.Err? {
        return Err(notice.error);
      }
      out := Ok((panel.value, notice.value));
    }
  }
}
