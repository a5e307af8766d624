/** The persisted application settings. The two `f32` sampling fields are
    not read by any modelled code and are omitted; the two avatar fields
    are the ones the image code reads. */
module Settings {
  import opened Wrappers

  datatype Settings = Settings(
    geminiApiKey: Option<string>,
    ollamaBaseUrl: Option<string>,
    defaultOllamaModel: Option<string>,
    nanoBananaBaseUrl: Option<string>,
    nanoBananaApiKey: Option<string>,
    avatarDescription: Option<string>,
    avatarImagePath: Option<string>)

  /** `Settings::default()`, what a missing or unreadable file loads as. */
  const Default := Settings(None, None, None, None, None, None, None)
}
