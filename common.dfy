/** Values shared by the document table and the application flow. */
module Common {
  /** Raw file bytes: what an uploaded file yields and what the pdf_content column holds. */
  type Bytes = seq<bv8>

  datatype Option<+T> = None | Some(value: T)

  /** The Python exceptions that escape the modelled code and abort a Streamlit script run. */
  datatype Exception =
    | TypeError  // bytes(None) in get_pdf_content when no row matches
    | KeyError   // self.button_dict[None] in the edit and delete forms when there is no section

  datatype Result<+T> = Ok(value: T) | Err(error: Exception)
}
