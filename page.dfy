/**
 * The converter page of script.js: the per-category format table, the page
 * state (selected file, category, the two format selects, the convert
 * button), format auto-detection, the pre-flight checks and request sequence
 * of the convert click, the output-filename rewrite and the bounded status
 * polling loop. Every network call is replaced by the reply it produced.
 */
module Page {
  import opened Options
  import opened Config
  import opened Utils

  // ---------------------------------------------------------------------------
  // The format table (`formats`)

  function InputFormats(c: Category): seq<string>
  {
    match c
    case Document => ["pdf", "docx", "doc", "txt", "rtf", "odt", "pages"]
    case Image => ["jpg", "jpeg", "png", "gif", "bmp", "tiff", "webp", "svg"]
    case Video => ["mp4", "avi", "mov", "mkv", "wmv", "flv", "webm"]
    case Audio => ["mp3", "wav", "flac", "aac", "ogg", "wma", "m4a"]
  }

  function OutputFormats(c: Category): seq<string>
  {
    match c
    case Document => ["pdf", "docx", "txt", "rtf", "odt", "html"]
    case Image => ["jpg", "png", "gif", "webp", "bmp", "tiff", "svg"]
    case Video => ["mp4", "avi", "mov", "mkv", "webm", "gif"]
    case Audio => ["mp3", "wav", "flac", "aac", "ogg"]
  }

  /** The order in which `Object.entries(formats)` visits the categories. */
  const CategoryOrder: seq<Category> := [Document, Image, Video, Audio]

  /** Position of a category in `CategoryOrder`. */
  function Rank(c: Category): (n: nat)
    ensures n < |CategoryOrder| && CategoryOrder[n] == c
  {
    match c
    case Document => 0
    case Image => 1
    case Video => 2
    case Audio => 3
  }

  predicate NoDuplicates(s: seq<string>)
  {
    forall i, j :: 0 <= i < j < |s| ==> s[i] != s[j]
  }

  /** No output list names a format twice, and no format is the empty string. */
  lemma OutputFormatsWellFormed(c: Category)
    ensures NoDuplicates(OutputFormats(c))
    ensures "" !in OutputFormats(c) && "" !in InputFormats(c)
  {
  }

  // ---------------------------------------------------------------------------
  // Messages and constants written into script.js

  const MaxAttempts: nat := 30
  const PollInterval: nat := 2000

  const MsgNoFile := "Please select a file first"
  const MsgNoFormats := "Please select both input and output formats"
  const MsgSameFormat := "Input and output formats cannot be the same"
  const MsgPrepareFailed := "Failed to prepare upload"
  const MsgUploadFailed := "Failed to upload file"
  const MsgStartFailed := "Failed to start conversion"
  const MsgConversionFailed := "Conversion failed"
  const MsgTimedOut := "Conversion timed out"
  const MsgGeneric := "An error occurred during conversion"

  /** `a || b` on two strings: the empty string is falsy. */
  function OrElse(a: string, b: string): (r: string)
    ensures b != "" ==> r != ""
    ensures a != "" ==> r == a
  {
    if a != "" then a else b
  }

  // ---------------------------------------------------------------------------
  // Format detection and the output options

  /**
   * The category `detectFileFormat` selects when its loop starts at position
   * `i` of the table: the first category from there on whose input list
   * contains the extension.
   */
  function DetectFrom(ext: string, i: nat): Option<Category>
    requires i <= |CategoryOrder|
    decreases |CategoryOrder| - i
  {
    if i == |CategoryOrder| then None
    else if ext in InputFormats(CategoryOrder[i]) then Some(CategoryOrder[i])
    else DetectFrom(ext, i + 1)
  }

  /** The category detected for an extension, scanning the whole table. */
  function DetectCategory(ext: string): Option<Category>
  {
    DetectFrom(ext, 0)
  }

  /** From position `i` on, the scan finds the first listing category, or none when none lists the extension. */
  lemma {:induction false} DetectFromFirstMatch(ext: string, i: nat)
    requires i <= |CategoryOrder|
    ensures var r := DetectFrom(ext, i);
            && (r.Some? ==> ext in InputFormats(r.value) && i <= Rank(r.value))
            && (r.Some? ==> forall j :: i <= j < Rank(r.value) ==> ext !in InputFormats(CategoryOrder[j]))
            && (r.None? <==> forall j :: i <= j < |CategoryOrder| ==> ext !in InputFormats(CategoryOrder[j]))
    decreases |CategoryOrder| - i
  {
    if i < |CategoryOrder| && ext !in InputFormats(CategoryOrder[i]) {
      DetectFromFirstMatch(ext, i + 1);
    }
  }

  /**
   * Detection picks the first category, in the order document, image, video,
   * audio, whose input list contains the extension, and none exactly when no
   * list contains it.
   */
  lemma DetectCategoryFirstMatch(ext: string)
    ensures var r := DetectCategory(ext);
            && (r.Some? ==> ext in InputFormats(r.value))
            && (r.Some? ==> forall c :: Rank(c) < Rank(r.value) ==> ext !in InputFormats(c))
            && (r.None? <==> forall c :: ext !in InputFormats(c))
  {
    DetectFromFirstMatch(ext, 0);
    var r := DetectCategory(ext);
    assert r.None? ==> forall c :: ext !in InputFormats(CategoryOrder[Rank(c)]);
    assert r.Some? ==> forall c :: Rank(c) < Rank(r.value) ==> ext !in InputFormats(CategoryOrder[Rank(c)]);
  }

  /** The option list `updateToFormatOptions` builds: the outputs in order, minus the selected input. */
  function WithoutFormat(outputs: seq<string>, from: string): (r: seq<string>)
    ensures from !in r
    ensures forall x :: x in r ==> x in outputs
  {
    if outputs == [] then []
    else if outputs[0] != from then [outputs[0]] + WithoutFormat(outputs[1..], from)
    else WithoutFormat(outputs[1..], from)
  }

  /** Every other output is kept, and a list without the input format is kept whole. */
  lemma {:induction false} WithoutFormatKeeps(outputs: seq<string>, from: string)
    ensures forall x :: x in outputs && x != from ==> x in WithoutFormat(outputs, from)
    ensures from !in outputs ==> WithoutFormat(outputs, from) == outputs
  {
    if outputs != [] {
      var tail := outputs[1..];
      WithoutFormatKeeps(tail, from);
      assert outputs == [outputs[0]] + tail;
      forall x | x in outputs && x != from ensures x in WithoutFormat(outputs, from) {
        if x != outputs[0] {
          assert x in tail;
        }
      }
    }
  }

  /**
   * On a list without repetitions, the filter removes exactly the one entry
   * equal to the input format and keeps the rest in their original order.
   */
  lemma {:induction false} WithoutFormatRemovesOne(outputs: seq<string>, k: nat)
    requires NoDuplicates(outputs) && k < |outputs|
    ensures WithoutFormat(outputs, outputs[k]) == outputs[..k] + outputs[k + 1..]
  {
    var from := outputs[k];
    if k == 0 {
      var tail := outputs[1..];
      assert from !in tail by {
        forall j | 0 <= j < |tail| ensures tail[j] != from {
          assert tail[j] == outputs[j + 1];
        }
      }
      WithoutFormatKeeps(tail, from);
    } else {
      var tail := outputs[1..];
      assert NoDuplicates(tail);
      assert tail[k - 1] == from;
      WithoutFormatRemovesOne(tail, k - 1);
      assert outputs[..k] == [outputs[0]] + tail[..k - 1];
      assert outputs[k + 1..] == tail[k..];
    }
  }

  /** `selectedFile && fromFormat.value && toFormat.value`: the rule for enabling the convert button. */
  predicate IsReady(hasFile: bool, from: string, to: string)
  {
    hasFile && from != "" && to != ""
  }

  /** Setting a select's `value`: it takes the value only if one of its options carries it. */
  function SelectValue(options: seq<string>, v: string): (r: string)
    ensures r == "" || (r == v && v in options)
    ensures v in options ==> r == v
  {
    if v in options then v else ""
  }

  // ---------------------------------------------------------------------------
  // The pre-flight checks of `convertFile`

  /**
   * The message the first failing check shows, or none when all pass: no
   * file, then a missing format, then identical formats.
   */
  function PreflightError(hasFile: bool, from: string, to: string): (r: Option<string>)
    ensures r.None? <==> IsReady(hasFile, from, to) && from != to
    ensures !hasFile ==> r == Some(MsgNoFile)
    ensures hasFile && (from == "" || to == "") ==> r == Some(MsgNoFormats)
    ensures IsReady(hasFile, from, to) && from == to ==> r == Some(MsgSameFormat)
  {
    if !hasFile then Some(MsgNoFile)
    else if from == "" || to == "" then Some(MsgNoFormats)
    else if from == to then Some(MsgSameFormat)
    else None
  }

  // ---------------------------------------------------------------------------
  // The output filename (`name.replace(/\.[^/.]+$/, '') + '.' + target`)

  /** A match of `\.[^/.]+$` starts at `k`: a dot followed, up to the end, by one or more characters that are neither `.` nor `/`. */
  predicate ExtensionAt(name: string, k: int)
  {
    0 <= k < |name| - 1 && name[k] == '.'
    && forall j :: k < j < |name| ==> name[j] != '.' && name[j] != '/'
  }

  /** At most one position can start such a match. */
  lemma ExtensionAtUnique(name: string, k1: int, k2: int)
    requires ExtensionAt(name, k1) && ExtensionAt(name, k2)
    ensures k1 == k2
  {
  }

  /** The only position that can start a match is the last dot. */
  lemma ExtensionAtLastDot(name: string, k: int)
    requires ExtensionAt(name, k)
    ensures k == LastIndexOf(name, '.') && '/' !in name[k + 1..]
  {
  }

  /** The last dot starts a match when something follows it and no `/` does. */
  lemma LastDotIsExtension(name: string)
    requires var i := LastIndexOf(name, '.'); 0 <= i < |name| - 1 && '/' !in name[i + 1..]
    ensures ExtensionAt(name, LastIndexOf(name, '.'))
  {
    var i := LastIndexOf(name, '.');
    forall j | i < j < |name| ensures name[j] != '.' && name[j] != '/' {
      assert name[j] == name[i + 1..][j - i - 1];
    }
  }

  /** The name with its final extension removed, or unchanged when it has none. */
  function StripExtension(name: string): (r: string)
    ensures |r| <= |name|
  {
    var i := LastIndexOf(name, '.');
    if 0 <= i < |name| - 1 && '/' !in name[i + 1..] then name[..i] else name
  }

  /**
   * Stripping removes the one match of the pattern and keeps the prefix
   * before it; a name without a match is left as it is.
   */
  lemma StripExtensionSpec(name: string)
    ensures var r := StripExtension(name);
            && r == name[..|r|]
            && (r != name ==> ExtensionAt(name, |r|))
            && (r == name <==> forall k :: !ExtensionAt(name, k))
  {
    var i := LastIndexOf(name, '.');
    if 0 <= i < |name| - 1 && '/' !in name[i + 1..] {
      LastDotIsExtension(name);
    } else {
      forall k | ExtensionAt(name, k) ensures false {
        ExtensionAtLastDot(name, k);
      }
    }
  }

  /** The filename sent with the start-conversion request. */
  function OutputFilename(name: string, target: string): (r: string)
    ensures |r| > |target| && r[|r| - |target| - 1..] == "." + target
    ensures '.' !in name ==> r == name + "." + target
  {
    StripExtension(name) + "." + target
  }

  /** Where the name has an extension, exactly that extension is replaced. */
  lemma OutputFilenameReplaces(name: string, target: string, k: int)
    requires ExtensionAt(name, k)
    ensures OutputFilename(name, target) == name[..k] + "." + target
  {
    StripExtensionSpec(name);
    ExtensionAtUnique(name, k, |StripExtension(name)|);
  }

  /** Where it has none (no dot, a trailing dot, or a `/` after the last dot), the target is appended. */
  lemma OutputFilenameAppends(name: string, target: string)
    requires forall k :: !ExtensionAt(name, k)
    ensures OutputFilename(name, target) == name + "." + target
  {
    StripExtensionSpec(name);
  }

  // ---------------------------------------------------------------------------
  // Status polling (`pollConversion`)

  /** One status request's fate: the parsed JSON reply, or an exception from `fetch` or `json()`. */
  datatype PollReply = Reply(success: bool, status: string, message: string) | TransportError(message: string)

  /** `pollConversion` either resolves with a reply or rejects with an error message. */
  datatype PollResult = Completed(data: PollReply) | Thrown(message: string)

  /** The result, the number of status requests issued and the progress values shown. */
  datatype PollRun = PollRun(result: PollResult, requests: nat, shown: seq<int>)

  predicate CompletesOn(r: PollReply) { r.Reply? && r.success && r.status == "completed" }

  /** The reply makes the `try` block throw: a reported failure or a transport error. */
  predicate RaisesOn(r: PollReply) { r.TransportError? || (r.success && r.status == "failed") }

  function RaisedMessage(r: PollReply): string
  {
    if r.TransportError? then r.message else OrElse(r.message, MsgConversionFailed)
  }

  /** `Math.min(70 + attempt * 2, 95)`. */
  function Progress(attempt: nat): (p: int)
    ensures 70 <= p <= 95
  {
    if 70 + attempt * 2 < 95 then 70 + attempt * 2 else 95
  }

  lemma ProgressMonotone(a: nat, b: nat)
    requires a <= b
    ensures Progress(a) <= Progress(b)
  {
  }

  /**
   * The polling loop from attempt `attempt` on. A completed reply ends it; a
   * thrown error is swallowed by the `catch` unless this is the last attempt;
   * a `processing` reply shows the progress for this attempt; after the last
   * attempt the loop gives up with a time-out.
   */
  function PollFrom(replies: seq<PollReply>, attempt: nat): (run: PollRun)
    requires |replies| >= MaxAttempts && attempt <= MaxAttempts
    ensures attempt < MaxAttempts ==> attempt < run.requests
    ensures 1 <= run.requests <= MaxAttempts
    ensures run.result.Completed? ==> CompletesOn(run.result.data) && run.result.data == replies[run.requests - 1]
    decreases MaxAttempts - attempt
  {
    if attempt == MaxAttempts then PollRun(Thrown(MsgTimedOut), MaxAttempts, [])
    else
      var reply := replies[attempt];
      if CompletesOn(reply) then PollRun(Completed(reply), attempt + 1, [])
      else if RaisesOn(reply) then
        if attempt == MaxAttempts - 1 then PollRun(Thrown(RaisedMessage(reply)), attempt + 1, [])
        else PollFrom(replies, attempt + 1)
      else
        var rest := PollFrom(replies, attempt + 1);
        if reply.status == "processing" then rest.(shown := [Progress(attempt)] + rest.shown) else rest
  }

  /** Progress values that lie between `lo` and 95 and never decrease. */
  predicate ShownWithin(shown: seq<int>, lo: int)
  {
    && (forall i :: 0 <= i < |shown| ==> lo <= shown[i] <= 95)
    && (forall i, j :: 0 <= i < j < |shown| ==> shown[i] <= shown[j])
  }

  lemma ShownPrepend(p: int, rest: seq<int>, lo: int)
    requires p <= lo <= 95 && ShownWithin(rest, lo)
    ensures ShownWithin([p] + rest, p)
  {
    var shown := [p] + rest;
    forall i | 0 < i < |shown| ensures shown[i] == rest[i - 1] { }
  }

  /**
   * The progress values shown while polling from `attempt` on lie between
   * that attempt's value and 95, and never decrease.
   */
  lemma {:induction false} PollProgressShown(replies: seq<PollReply>, attempt: nat)
    requires |replies| >= MaxAttempts && attempt <= MaxAttempts
    ensures ShownWithin(PollFrom(replies, attempt).shown, Progress(attempt))
    decreases MaxAttempts - attempt
  {
    if attempt < MaxAttempts && !CompletesOn(replies[attempt])
       && !(RaisesOn(replies[attempt]) && attempt == MaxAttempts - 1) {
      var reply := replies[attempt];
      var rest := PollFrom(replies, attempt + 1).shown;
      PollProgressShown(replies, attempt + 1);
      ProgressMonotone(attempt, attempt + 1);
      if !RaisesOn(reply) && reply.status == "processing" {
        assert PollFrom(replies, attempt).shown == [Progress(attempt)] + rest;
        ShownPrepend(Progress(attempt), rest, Progress(attempt + 1));
      } else {
        assert PollFrom(replies, attempt).shown == rest;
      }
    }
  }

  predicate NoCompletionBetween(replies: seq<PollReply>, lo: nat, hi: nat)
    requires hi <= |replies|
  {
    forall j :: lo <= j < hi ==> !CompletesOn(replies[j])
  }

  /** The first completed reply within the 30 attempts is the one returned, after that many requests. */
  lemma {:induction false} PollReturnsFirstCompletion(replies: seq<PollReply>, attempt: nat, k: nat)
    requires |replies| >= MaxAttempts && attempt <= k < MaxAttempts
    requires CompletesOn(replies[k]) && NoCompletionBetween(replies, attempt, k)
    ensures PollFrom(replies, attempt).result == Completed(replies[k])
    ensures PollFrom(replies, attempt).requests == k + 1
    decreases k - attempt
  {
    if attempt < k {
      PollReturnsFirstCompletion(replies, attempt + 1, k);
    }
  }

  /**
   * With no completed reply in the 30 attempts the loop rejects: with the last
   * attempt's error when that attempt threw (earlier errors were swallowed),
   * otherwise with the time-out; all 30 requests were issued.
   */
  lemma {:induction false} PollGivesUp(replies: seq<PollReply>, attempt: nat)
    requires |replies| >= MaxAttempts && attempt <= MaxAttempts
    requires NoCompletionBetween(replies, attempt, MaxAttempts)
    ensures PollFrom(replies, attempt).requests == MaxAttempts
    ensures attempt < MaxAttempts && RaisesOn(replies[MaxAttempts - 1])
            ==> PollFrom(replies, attempt).result == Thrown(RaisedMessage(replies[MaxAttempts - 1]))
    ensures attempt == MaxAttempts || !RaisesOn(replies[MaxAttempts - 1])
            ==> PollFrom(replies, attempt).result == Thrown(MsgTimedOut)
    decreases MaxAttempts - attempt
  {
    if attempt < MaxAttempts {
      PollGivesUp(replies, attempt + 1);
    }
  }

  /**
   * `pollConversion` over the replies its status requests receive: a counted
   * loop whose `try` returns on completion and throws on failure, and whose
   * `catch` rethrows only on the last attempt.
   */
  method PollConversion(replies: seq<PollReply>) returns (result: PollResult, requests: nat, shown: seq<int>)
    requires |replies| >= MaxAttempts
    ensures PollRun(result, requests, shown) == PollFrom(replies, 0)
    ensures 1 <= requests <= MaxAttempts
  {
    shown := [];
    var attempt := 0;
    while attempt < MaxAttempts
      invariant 0 <= attempt <= MaxAttempts
      invariant PollFrom(replies, 0).result == PollFrom(replies, attempt).result
      invariant PollFrom(replies, 0).requests == PollFrom(replies, attempt).requests
      invariant PollFrom(replies, 0).shown == shown + PollFrom(replies, attempt).shown
      decreases MaxAttempts - attempt
    {
      var raised: Option<string> := None;
      match replies[attempt] {
        case TransportError(m) =>
          raised := Some(m);
        case Reply(success, status, message) =>
          if success && status == "completed" {
            result, requests := Completed(replies[attempt]), attempt + 1;
            return;
          } else if success && status == "failed" {
            raised := Some(OrElse(message, MsgConversionFailed));
          } else if status == "processing" {
            shown := shown + [Progress(attempt)];
          }
      }
      if raised.Some? && attempt == MaxAttempts - 1 {
        result, requests := Thrown(raised.value), attempt + 1;
        return;
      }
      attempt := attempt + 1;
    }
    result, requests := Thrown(MsgTimedOut), MaxAttempts;
  }

  // ---------------------------------------------------------------------------
  // The convert click after the pre-flight checks

  /** The browser `File` the page holds, by its name and size. */
  datatype FileInfo = FileInfo(name: string, size: nat)

  /** Reply to a call of the conversion function: its JSON `success`, `message` and the id it hands out, or an exception. */
  datatype ApiReply = ApiReply(success: bool, message: string, id: string) | ApiTransportError(message: string)

  /** Reply to the multipart upload: whether the response was `ok`, or an exception. */
  datatype UploadReply = UploadResponse(ok: bool) | UploadTransportError(message: string)

  /** The requests the page sends, in order. */
  datatype Request =
    | PrepareUpload(filename: string, filesize: nat)
    | UploadFile(file: FileInfo)
    | StartConversion(taskId: string, fromFormat: string, toFormat: string, filename: string)
    | StatusQuery(conversionId: string)

  datatype Outcome = Converted(data: PollReply) | Failed(message: string)

  datatype Remote = Remote(sent: seq<Request>, outcome: Outcome)

  function StatusQueries(conversionId: string, n: nat): (r: seq<Request>)
    ensures |r| == n && forall i :: 0 <= i < n ==> r[i] == StatusQuery(conversionId)
  {
    seq(n, _ => StatusQuery(conversionId))
  }

  /**
   * The `try` block of `convertFile`: prepare the upload, upload the file,
   * start the conversion, poll. The first step that fails ends it with an
   * error; the requests sent up to that point are the ones listed.
   */
  function RemoteConversion(file: FileInfo, from: string, to: string, prepare: ApiReply,
                            upload: UploadReply, start: ApiReply, replies: seq<PollReply>): Remote
    requires |replies| >= MaxAttempts
  {
    var sent1 := [PrepareUpload(file.name, file.size)];
    match prepare
    case ApiTransportError(m) => Remote(sent1, Failed(m))
    case ApiReply(ok1, m1, taskId) =>
      if !ok1 then Remote(sent1, Failed(OrElse(m1, MsgPrepareFailed)))
      else
        var sent2 := sent1 + [UploadFile(file)];
        match upload
        case UploadTransportError(m) => Remote(sent2, Failed(m))
        case UploadResponse(ok2) =>
          if !ok2 then Remote(sent2, Failed(MsgUploadFailed))
          else
            var sent3 := sent2 + [StartConversion(taskId, from, to, OutputFilename(file.name, to))];
            match start
            case ApiTransportError(m) => Remote(sent3, Failed(m))
            case ApiReply(ok3, m3, conversionId) =>
              if !ok3 then Remote(sent3, Failed(OrElse(m3, MsgStartFailed)))
              else
                var poll := PollFrom(replies, 0);
                var sent4 := sent3 + StatusQueries(conversionId, poll.requests);
                match poll.result
                case Completed(data) => Remote(sent4, Converted(data))
                case Thrown(m) => Remote(sent4, Failed(m))
  }

  /**
   * The prepare request always goes out first and at most 33 requests are
   * sent; a conversion succeeds only after the start request carried the
   * task id, both formats and the rewritten filename, and only on a reply
   * that reports success and completion.
   */
  lemma RemoteConversionShape(file: FileInfo, from: string, to: string, prepare: ApiReply,
                              upload: UploadReply, start: ApiReply, replies: seq<PollReply>)
    requires |replies| >= MaxAttempts
    ensures var run := RemoteConversion(file, from, to, prepare, upload, start, replies);
            && 1 <= |run.sent| <= 3 + MaxAttempts
            && run.sent[0] == PrepareUpload(file.name, file.size)
            && (run.outcome.Converted? ==> CompletesOn(run.outcome.data) && run.outcome.data.success)
            && (run.outcome.Converted? ==>
                  && prepare.ApiReply? && |run.sent| >= 4
                  && run.sent[2] == StartConversion(prepare.id, from, to, OutputFilename(file.name, to)))
  {
  }

  /**
   * The `try` block of `convertFile` as statements: each failing step throws,
   * which ends the block with that step's message.
   */
  method RunRemote(file: FileInfo, from: string, to: string, prepare: ApiReply,
                   upload: UploadReply, start: ApiReply, replies: seq<PollReply>)
    returns (sent: seq<Request>, outcome: Outcome)
    requires |replies| >= MaxAttempts
    ensures Remote(sent, outcome) == RemoteConversion(file, from, to, prepare, upload, start, replies)
  {
    sent := [PrepareUpload(file.name, file.size)];
    if prepare.ApiTransportError? {
      return sent, Failed(prepare.message);
    }
    if !prepare.success {
      return sent, Failed(OrElse(prepare.message, MsgPrepareFailed));
    }
    sent := sent + [UploadFile(file)];
    if upload.UploadTransportError? {
      return sent, Failed(upload.message);
    }
    if !upload.ok {
      return sent, Failed(MsgUploadFailed);
    }
    sent := sent + [StartConversion(prepare.id, from, to, OutputFilename(file.name, to))];
    if start.ApiTransportError? {
      return sent, Failed(start.message);
    }
    if !start.success {
      return sent, Failed(OrElse(start.message, MsgStartFailed));
    }
    var result, requests, _ := PollConversion(replies);
    sent := sent + StatusQueries(start.id, requests);
    match result {
      case Completed(data) =>
        outcome := Converted(data);
      case Thrown(m) =>
        outcome := Failed(m);
    }
  }

  // ---------------------------------------------------------------------------
  // Format detection applied to the page

  /** The current category, the two selects (options and value) and the convert button's `disabled` flag. */
  datatype FormControls = FormControls(category: Category, fromOptions: seq<string>, fromValue: string,
                                       toOptions: seq<string>, toValue: string, convertDisabled: bool)

  /**
   * The effect of `detectFileFormat` for extension `ext`: with no category
   * listing it the controls stay as they were; otherwise the first such
   * category is current, `ext` is the chosen input, the outputs are rebuilt
   * without it and the button is disabled (the output select was reset).
   */
  function AfterDetection(before: FormControls, ext: string): (after: FormControls)
    ensures DetectCategory(ext).None? ==> after == before
    ensures DetectCategory(ext).Some? ==> after.fromValue == ext && after.toValue == "" && after.convertDisabled
    ensures DetectCategory(ext).Some? ==> ext !in after.toOptions
    ensures DetectCategory(ext).Some? ==>
              after.category == DetectCategory(ext).value && after.fromOptions == InputFormats(after.category)
  {
    match DetectCategory(ext)
    case None => before
    case Some(c) => FormControls(c, InputFormats(c), ext, WithoutFormat(OutputFormats(c), ext), "", true)
  }

  // ---------------------------------------------------------------------------
  // The page state

  /**
   * The module-level state of script.js (`selectedFile`,
   * `currentConversionType`, `conversionData`) together with the parts of the
   * DOM the logic reads back: each select's options (the placeholder with
   * value "" is implicit) and value, the button's `disabled` flag and the
   * error message on display.
   */
  class Converter {
    var selectedFile: Option<FileInfo>
    var currentConversionType: Category
    var conversionData: Option<PollReply>
    var fromOptions: seq<string>
    var fromValue: string
    var toOptions: seq<string>
    var toValue: string
    var convertDisabled: bool
    var errorShown: Option<string>

    /**
     * The input select lists the current category's inputs, the output select
     * a part of its outputs, and each value is one of its select's options or
     * the placeholder "".
     */
    ghost predicate SelectsConsistent()
      reads this`currentConversionType, this`fromOptions, this`fromValue, this`toOptions, this`toValue
    {
      && fromOptions == InputFormats(currentConversionType)
      && (forall o :: o in toOptions ==> o in OutputFormats(currentConversionType))
      && (fromValue == "" || fromValue in fromOptions)
      && (toValue == "" || toValue in toOptions)
    }

    /** Between events, in addition, the output select never offers the chosen input format. */
    ghost predicate Valid()
      reads this`currentConversionType, this`fromOptions, this`fromValue, this`toOptions, this`toValue
    {
      SelectsConsistent() && fromValue !in toOptions
    }

    /** The category and the controls the format logic drives, as one value. */
    ghost function Controls(): FormControls
      reads this`currentConversionType, this`fromOptions, this`fromValue, this`toOptions, this`toValue,
            this`convertDisabled
    {
      FormControls(currentConversionType, fromOptions, fromValue, toOptions, toValue, convertDisabled)
    }

    /** Page load: the document category with its options, nothing selected. */
    constructor ()
      ensures Valid()
      ensures selectedFile == None && currentConversionType == Document && conversionData == None
      ensures fromOptions == InputFormats(Document) && toOptions == OutputFormats(Document)
      ensures fromValue == "" && toValue == ""
      ensures convertDisabled && errorShown == None
    {
      selectedFile := None;
      currentConversionType := Document;
      conversionData := None;
      fromOptions := InputFormats(Document);
      toOptions := OutputFormats(Document);
      fromValue, toValue := "", "";
      convertDisabled := true;
      errorShown := None;
    }

    /** `updateFormatOptions`: rebuild both selects for the current category, which resets both values. */
    method UpdateFormatOptions()
      modifies this`fromOptions, this`fromValue, this`toOptions, this`toValue
      ensures Valid()
      ensures fromOptions == InputFormats(currentConversionType) && toOptions == OutputFormats(currentConversionType)
      ensures fromValue == "" && toValue == ""
    {
      OutputFormatsWellFormed(currentConversionType);
      fromOptions := InputFormats(currentConversionType);
      toOptions := OutputFormats(currentConversionType);
      fromValue, toValue := "", "";
    }

    /** `checkConvertReady`. */
    method CheckConvertReady()
      modifies this`convertDisabled
      ensures convertDisabled == !IsReady(selectedFile.Some?, fromValue, toValue)
    {
      convertDisabled := !IsReady(selectedFile.Some?, fromValue, toValue);
    }

    /**
     * `updateToFormatOptions`: rebuild the output select without the chosen
     * input format; its value resets, so the button always ends up disabled.
     */
    method UpdateToFormatOptions()
      requires SelectsConsistent()
      modifies this`toOptions, this`toValue, this`convertDisabled
      ensures Valid()
      ensures toOptions == WithoutFormat(OutputFormats(currentConversionType), fromValue)
      ensures toValue == ""
      ensures convertDisabled
    {
      toOptions := WithoutFormat(OutputFormats(currentConversionType), fromValue);
      toValue := "";
      CheckConvertReady();
    }

    /** A click on a category tab. */
    method SelectConversionType(c: Category)
      modifies this
      ensures Valid()
      ensures currentConversionType == c
      ensures fromOptions == InputFormats(c) && toOptions == OutputFormats(c)
      ensures fromValue == "" && toValue == "" && errorShown == None
      ensures selectedFile == old(selectedFile) && conversionData == old(conversionData)
      ensures convertDisabled == old(convertDisabled)
    {
      currentConversionType := c;
      UpdateFormatOptions();
      errorShown := None;
    }

    /** A change of the input select. */
    method SelectFromFormat(v: string)
      requires Valid()
      modifies this`fromValue, this`toOptions, this`toValue, this`convertDisabled
      ensures Valid()
      ensures fromValue == SelectValue(fromOptions, v)
      ensures toOptions == WithoutFormat(OutputFormats(currentConversionType), fromValue)
      ensures toValue == "" && convertDisabled
    {
      fromValue := SelectValue(fromOptions, v);
      UpdateToFormatOptions();
    }

    /** A change of the output select. */
    method SelectToFormat(v: string)
      requires Valid()
      modifies this`toValue, this`convertDisabled
      ensures Valid()
      ensures toValue == SelectValue(toOptions, v)
      ensures convertDisabled == !IsReady(selectedFile.Some?, fromValue, toValue)
    {
      toValue := SelectValue(toOptions, v);
      CheckConvertReady();
    }

    /**
     * `detectFileFormat`: visit the categories in table order and, at the
     * first whose inputs list the file's extension, switch to it, select the
     * extension as input and rebuild the outputs; with no match nothing changes.
     */
    method DetectFileFormat(file: FileInfo)
      requires Valid()
      modifies this`currentConversionType, this`fromOptions, this`fromValue, this`toOptions, this`toValue, this`convertDisabled
      ensures Valid()
      ensures Controls() == AfterDetection(old(Controls()), GetFileExtension(file.name))
    {
      var ext := GetFileExtension(file.name);
      var i := 0;
      while i < |CategoryOrder|
        invariant 0 <= i <= |CategoryOrder|
        invariant DetectFrom(ext, i) == DetectCategory(ext)
      {
        if ext in InputFormats(CategoryOrder[i]) {
          break;
        }
        i := i + 1;
      }
      if i < |CategoryOrder| {
        SwitchToDetected(CategoryOrder[i], ext);
      }
    }

    /**
     * The body of the match in `detectFileFormat`: make `c` current, rebuild
     * both selects, choose `ext` as input and rebuild the outputs without it.
     */
    method SwitchToDetected(c: Category, ext: string)
      requires ext in InputFormats(c)
      modifies this`currentConversionType, this`fromOptions, this`fromValue, this`toOptions, this`toValue, this`convertDisabled
      ensures Valid()
      ensures currentConversionType == c && fromOptions == InputFormats(c) && fromValue == ext
      ensures toOptions == WithoutFormat(OutputFormats(c), ext) && toValue == "" && convertDisabled
    {
      currentConversionType := c;
      UpdateFormatOptions();
      fromValue := SelectValue(fromOptions, ext);
      UpdateToFormatOptions();
    }

    /** `handleFileSelection`: keep the file, detect its format, hide the error. */
    method HandleFileSelection(file: FileInfo)
      requires Valid()
      modifies this
      ensures Valid()
      ensures selectedFile == Some(file) && errorShown == None && conversionData == old(conversionData)
      ensures Controls() == AfterDetection(old(Controls()), GetFileExtension(file.name))
    {
      selectedFile := Some(file);
      DetectFileFormat(file);
      ghost var detected := Controls();
      errorShown := None;
      assert Controls() == detected;
    }

    /** `resetConverter` (the remove-file button). */
    method ResetConverter()
      requires Valid()
      modifies this`selectedFile, this`conversionData, this`fromValue, this`toValue, this`convertDisabled, this`errorShown
      ensures Valid()
      ensures selectedFile == None && conversionData == None
      ensures fromValue == "" && toValue == "" && convertDisabled && errorShown == None
    {
      OutputFormatsWellFormed(currentConversionType);
      selectedFile := None;
      conversionData := None;
      fromValue, toValue := "", "";
      convertDisabled := true;
      errorShown := None;
    }

    /**
     * `convertFile`, the convert click: the pre-flight checks show their
     * message and send nothing; otherwise the button is disabled and the
     * remote steps run; a result is kept for download, an error is shown
     * (or the generic message when it has none) and the button re-enabled.
     */
    method ConvertFile(prepare: ApiReply, upload: UploadReply, start: ApiReply, replies: seq<PollReply>)
      returns (sent: seq<Request>)
      requires |replies| >= MaxAttempts
      modifies this`convertDisabled, this`errorShown, this`conversionData
      ensures match PreflightError(selectedFile.Some?, fromValue, toValue)
              case Some(m) =>
                && sent == [] && errorShown == Some(m)
                && convertDisabled == old(convertDisabled) && conversionData == old(conversionData)
              case None =>
                var run := RemoteConversion(selectedFile.value, fromValue, toValue, prepare, upload, start, replies);
                && sent == run.sent
                && match run.outcome
                   case Converted(data) =>
                     conversionData == Some(data) && convertDisabled && errorShown == old(errorShown)
                   case Failed(m) =>
                     errorShown == Some(OrElse(m, MsgGeneric)) && !convertDisabled
                     && conversionData == old(conversionData)
    {
      if selectedFile.None? {
        errorShown := Some(MsgNoFile);
        return [];
      }
      if fromValue == "" || toValue == "" {
        errorShown := Some(MsgNoFormats);
        return [];
      }
      if fromValue == toValue {
        errorShown := Some(MsgSameFormat);
        return [];
      }
      convertDisabled := true;
      var outcome;
      sent, outcome := RunRemote(selectedFile.value, fromValue, toValue, prepare, upload, start, replies);
      match outcome {
        case Converted(data) =>
          conversionData := Some(data);
        case Failed(m) =>
          errorShown := Some(OrElse(m, MsgGeneric));
          convertDisabled := false;
      }
    }
  }

  /**
   * Through the page's own controls the output select never offers the chosen
   * input format, so the identical-formats check of `convertFile` cannot fire.
   */
  lemma SameFormatUnreachable(page: Converter)
    requires page.Valid()
    ensures PreflightError(page.selectedFile.Some?, page.fromValue, page.toValue) != Some(MsgSameFormat)
  {
  }

  /** A convert click that passes the pre-flight checks found the button's readiness rule satisfied. */
  lemma PreflightImpliesReady(hasFile: bool, from: string, to: string)
    requires PreflightError(hasFile, from, to).None?
    ensures IsReady(hasFile, from, to)
  {
  }
}
