/**
 * The configuration object of config.js: the polling budget, the size limit,
 * the accepted extensions per conversion category, the error messages and the
 * debug settings. Sections that no modelled code consults are not modelled.
 */
module Config {
  import opened Options

  /** The four keys of `ACCEPTED_TYPES` (and of the `formats` table in script.js). */
  datatype Category = Document | Image | Video | Audio

  const PollIntervalMs: nat := 2000
  const MaxPollAttempts: nat := 30
  /** `FILES.MAX_SIZE`, written as the source writes it: 100 MiB. */
  const MaxSize: nat := 100 * 1024 * 1024

  /** `ACCEPTED_TYPES[category].extensions`. */
  function AcceptedExtensions(c: Category): seq<string>
  {
    match c
    case Document => ["pdf", "docx", "doc", "txt", "rtf", "odt", "pages"]
    case Image => ["jpg", "jpeg", "png", "gif", "bmp", "tiff", "webp", "svg"]
    case Video => ["mp4", "avi", "mov", "mkv", "wmv", "flv", "webm"]
    case Audio => ["mp3", "wav", "flac", "aac", "ogg", "wma", "m4a"]
  }

  /**
   * Property lookup `ACCEPTED_TYPES[name]` with a string key: only the four
   * category names hit an entry; every other key (including inherited
   * properties such as "toString", which have no `extensions`) yields nothing.
   */
  function CategoryNamed(name: string): (r: Option<Category>)
    ensures r == Some(Document) <==> name == "document"
    ensures r == Some(Image) <==> name == "image"
    ensures r == Some(Video) <==> name == "video"
    ensures r == Some(Audio) <==> name == "audio"
  {
    if name == "document" then Some(Document)
    else if name == "image" then Some(Image)
    else if name == "video" then Some(Video)
    else if name == "audio" then Some(Audio)
    else None
  }

  const ErrSameFormat := "Input and output formats cannot be the same"
  const ErrNoFileSelected := "Please select a file first"
  const ErrNoFormatSelected := "Please select both input and output formats"

  /** `DEBUG.ENABLED` and `DEBUG.LOG_LEVEL`. */
  const DebugEnabled := false
  const LogLevel := "info"

  /** The size limit is 104857600 bytes, and the polling budget is one minute. */
  lemma ConstantValues()
    ensures MaxSize == 104857600
    ensures MaxPollAttempts * PollIntervalMs == 60000
  {
  }

  /**
   * A character that `toLowerCase` turns into a different ASCII character:
   * the ASCII capitals and U+212A KELVIN SIGN, which becomes `k`.
   */
  predicate FoldsToAscii(c: char)
  {
    'A' <= c <= 'Z' || c == '\U{212A}'
  }

  /** A string that `getFileExtension` can return unchanged: no dot and nothing that folds to ASCII. */
  predicate IsExtensionShaped(s: string)
  {
    forall k :: 0 <= k < |s| ==> s[k] != '.' && !FoldsToAscii(s[k])
  }

  /** Every entry of the list is non-empty and extension-shaped. */
  predicate AllShaped(xs: seq<string>)
  {
    forall i :: 0 <= i < |xs| ==> xs[i] != "" && IsExtensionShaped(xs[i])
  }

  // One category at a time keeps each proof small.
  lemma DocumentShaped() ensures AllShaped(AcceptedExtensions(Document)) { }
  lemma ImageShaped() ensures AllShaped(AcceptedExtensions(Image)) { }
  lemma VideoShaped() ensures AllShaped(AcceptedExtensions(Video)) { }
  lemma AudioShaped() ensures AllShaped(AcceptedExtensions(Audio)) { }

  /** Every listed extension is non-empty, lower-case and dot-free. */
  lemma ExtensionsAreShaped(c: Category, i: nat)
    requires i < |AcceptedExtensions(c)|
    ensures AcceptedExtensions(c)[i] != ""
    ensures IsExtensionShaped(AcceptedExtensions(c)[i])
  {
    match c
    case Document => DocumentShaped();
    case Image => ImageShaped();
    case Video => VideoShaped();
    case Audio => AudioShaped();
  }

  // No extension is listed by both categories of a pair.
  lemma DocumentImageApart(e: string)
    ensures !(e in AcceptedExtensions(Document) && e in AcceptedExtensions(Image)) { }
  lemma DocumentVideoApart(e: string)
    ensures !(e in AcceptedExtensions(Document) && e in AcceptedExtensions(Video)) { }
  lemma DocumentAudioApart(e: string)
    ensures !(e in AcceptedExtensions(Document) && e in AcceptedExtensions(Audio)) { }
  lemma ImageVideoApart(e: string)
    ensures !(e in AcceptedExtensions(Image) && e in AcceptedExtensions(Video)) { }
  lemma ImageAudioApart(e: string)
    ensures !(e in AcceptedExtensions(Image) && e in AcceptedExtensions(Audio)) { }
  lemma VideoAudioApart(e: string)
    ensures !(e in AcceptedExtensions(Video) && e in AcceptedExtensions(Audio)) { }

  /** As written, no extension is accepted by two categories. */
  lemma ExtensionsDisjoint(c1: Category, c2: Category, e: string)
    requires e in AcceptedExtensions(c1) && e in AcceptedExtensions(c2)
    ensures c1 == c2
  {
    DocumentImageApart(e);
    DocumentVideoApart(e);
    DocumentAudioApart(e);
    ImageVideoApart(e);
    ImageAudioApart(e);
    VideoAudioApart(e);
  }
}
