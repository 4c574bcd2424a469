// Facts that tie the configuration object (config.js) to the values the page
// script (script.js) writes out again by hand.

module Consistency {
  import opened Options
  import opened Config
  import opened Utils
  import opened Page

  /** Each category's accepted extensions are exactly the page's input formats. */
  lemma TablesAgree(c: Category)
    ensures AcceptedExtensions(c) == InputFormats(c)
  {
  }

  /** The page polls with the configured budget: 30 attempts, 2000 ms apart. */
  lemma PollBudgetAgrees()
    ensures Page.MaxAttempts == MaxPollAttempts && Page.PollInterval == PollIntervalMs
    ensures Page.MaxAttempts * Page.PollInterval == 60000
  {
  }

  /** The page's pre-flight messages are the configured error strings. */
  lemma MessagesAgree()
    ensures MsgNoFile == ErrNoFileSelected
    ensures MsgNoFormats == ErrNoFormatSelected
    ensures MsgSameFormat == ErrSameFormat
  {
  }

  /**
   * A file passes `validateFileType` for a category exactly when the page's
   * auto-detection would pick that category for it: the two tables agree and
   * no extension is listed twice, so the first match is the only match.
   */
  lemma DetectionAgreesWithValidation(name: string, t: string, c: Category)
    requires CategoryNamed(t) == Some(c)
    ensures ValidateFileType(name, t) <==> DetectCategory(GetFileExtension(name)) == Some(c)
  {
    var ext := GetFileExtension(name);
    DetectCategoryFirstMatch(ext);
    TablesAgree(c);
    var d := DetectCategory(ext);
    if d.Some? {
      TablesAgree(d.value);
      if ext in AcceptedExtensions(c) {
        ExtensionsDisjoint(c, d.value, ext);
      }
    }
  }
}
