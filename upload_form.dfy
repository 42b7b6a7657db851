/** The browser side of the upload page (src/js/scripts.js): the rules the
    Dropzone hooks apply to a staged file (size gate, icon preview, progress
    caption) and the controller state the page's event handlers change
    (button and field switches, progress visibility, the staged and queued
    files, the alerts rendered from a failed submission). */
module UploadForm {
  import opened Text
  import opened Wrappers
  import opened Constants
  import opened Models

  // ----- staged files -----

  /** Files below this many bytes are refused when staged. */
  const MinFileSize: nat := 1024

  const TooSmall: string := "The file's size is too small. It will not be uploaded."

  /** A file dropped on the form: its name, its size in bytes and the MIME
      type the browser reports. */
  datatype StagedFile = StagedFile(name: string, size: nat, mimeType: string)

  /** The `accept` hook: `done()` (no message) keeps the file, `done(msg)`
      refuses it with `msg`. */
  function Accept(file: StagedFile): (r: Option<string>)
    ensures r.None? <==> file.size >= MinFileSize
    ensures r.Some? ==> r.value == TooSmall
  {
    if file.size < MinFileSize then Some(TooSmall) else None
  }

  /** `maxFilesize: 4000`, in MiB: a larger file is refused by Dropzone. */
  const MaxFilesize: nat := 4000
  const MaxFileBytes: nat := MaxFilesize * 1024 * 1024

  /** `maxFiles: 100`: no more accepted files than this. */
  const MaxFiles: nat := 100

  /** `parallelUploads: 100`: the most files one call of `processQueue`
      sends. */
  const ParallelUploads: nat := 100

  /** Why Dropzone refuses a file: its own size and count limits, checked
      first, or the page's `accept` hook with its message. */
  datatype Refusal = FileTooBig | MaxFilesExceeded | Refused(message: string)

  /** Dropzone's `accept` for a file arriving when `acceptedCount` files are
      already accepted: too big, then too many, then the page's hook. */
  function DropzoneAccept(file: StagedFile, acceptedCount: nat): (r: Option<Refusal>)
    ensures r.None? <==> MinFileSize <= file.size <= MaxFileBytes && acceptedCount < MaxFiles
    ensures r == Some(FileTooBig) <==> file.size > MaxFileBytes
    ensures r == Some(MaxFilesExceeded) <==> file.size <= MaxFileBytes && acceptedCount >= MaxFiles
    ensures r.Some? && r.value.Refused? ==> r.value.message == TooSmall
  {
    if file.size > MaxFileBytes then Some(FileTooBig)
    else if acceptedCount >= MaxFiles then Some(MaxFilesExceeded)
    else match Accept(file)
      case None => None
      case Some(message) => Some(Refused(message))
  }

  /** Every file of `files` passes Dropzone's size limit and the hook. */
  predicate WithinLimits(files: seq<StagedFile>)
  {
    forall i :: 0 <= i < |files| ==> MinFileSize <= files[i].size <= MaxFileBytes
  }

  // ----- the preview of an added file -----

  /** JavaScript `s.slice(0, n)`: the first `n` characters, or all of them. */
  function SlicePrefix(s: string, n: nat): (r: string)
    ensures |r| == if |s| <= n then |s| else n
    ensures r == s[..|r|]
  {
    if |s| <= n then s else s[..n]
  }

  /** The client's image test, `type.slice(0, 5) === 'image'`. */
  predicate ClientImage(mimeType: string)
  {
    SlicePrefix(mimeType, 5) == "image"
  }

  /** The icon lookup of the `addedfile` handler: the exact type if the
      table has it as a key, else the major-type wildcard, else `file-o`. */
  function ClientIcon(table: Table, mimeType: string): string
  {
    var major := BeforeFirst(mimeType, '/');
    if mimeType in Keys(table) then Lookup(table, mimeType).value
    else if major + "/*" in Keys(table) then Lookup(table, major + "/*").value
    else "file-o"
  }

  /** The Font Awesome class of the icon element. */
  function IconElementClass(icon: string): string
  {
    "fa fa-" + icon + " fa-5x"
  }

  /** What the preview shows: Dropzone's image thumbnail, or an icon element
      in its place for a type that does not begin with `image`. */
  datatype Preview = ImagePreview | IconPreview(className: string)

  function AddedFilePreview(table: Table, mimeType: string): Preview
  {
    if ClientImage(mimeType) then ImagePreview
    else IconPreview(IconElementClass(ClientIcon(table, mimeType)))
  }

  /** The client icon rule is the server's: for every table and type the
      icon chosen in the browser is the one `icon_thumb` renders. */
  lemma ClientIconMatchesServer(table: Table, mimeType: string)
    ensures ClientIcon(table, mimeType) == IconClass(table, mimeType)
  {
  }

  /** The client's image test is a prefix test. */
  lemma ClientImagePrefix(mimeType: string)
    ensures ClientImage(mimeType) <==> StartsWith(mimeType, "image")
  {
  }

  /** The two image tests compared: the server's (`split('/')[0] == 'image'`)
      holds exactly for the client's image types whose sixth character is
      absent or a slash. So every server image is a client image; a client
      image such as `imagery/x` is not a server image. */
  lemma ImageTestsCompared(table: Table, mimeType: string)
    ensures MajorType(mimeType) == "image" <==>
      ClientImage(mimeType) && (|mimeType| == 5 || mimeType[5] == '/')
  {
    ClickableThumbImage(table, mimeType);
    ClientImagePrefix(mimeType);
    if ClientImage(mimeType) && |mimeType| > 5 && mimeType[5] == '/' {
      assert mimeType[..6] == "image/";
    }
  }

  /** A type the two tests classify differently. */
  lemma ImageTestsDisagree()
    ensures ClientImage("imagery/x") && MajorType("imagery/x") != "image"
  {
    ImageTestsCompared([], "imagery/x");
  }

  /** Preview and thumbnail agree: where the client shows an icon the
      server's thumbnail is that icon, and where the server shows the image
      the client shows it too. */
  lemma PreviewMatchesThumb(table: Table, mimeType: string)
    ensures AddedFilePreview(table, mimeType).IconPreview? ==>
      AddedFilePreview(table, mimeType) == IconPreview(IconElementClass(IconClass(table, mimeType)))
      && ClickableThumb(table, mimeType) == IconThumb(IconClass(table, mimeType))
    ensures ClickableThumb(table, mimeType) == ImageThumb ==> AddedFilePreview(table, mimeType) == ImagePreview
  {
    ImageTestsCompared(table, mimeType);
    ClientIconMatchesServer(table, mimeType);
  }

  // ----- the progress caption -----

  /** `parseInt(x, 10)` of a number's decimal rendering: the integer part,
      truncated toward zero. */
  function TruncateReal(x: real): (r: int)
    ensures x >= 0.0 ==> 0 <= r && r as real <= x < r as real + 1.0
    ensures x < 0.0 ==> r <= 0 && r as real - 1.0 < x <= r as real
  {
    if x >= 0.0 then x.Floor else -((-x).Floor)
  }

  /** The `totaluploadprogress` caption: `Processing` at exactly 100, the
      whole percentage otherwise. */
  function ProgressCaption(progress: real): (r: string)
  {
    if progress == 100.0 then "Processing" else IntToString(TruncateReal(progress)) + "%"
  }

  /** `Processing` is shown exactly at 100; any other caption is a number
      followed by `%`, and for a progress between 0 and 100 that number
      reads back as the whole percentage. */
  lemma CaptionMeaning(progress: real)
    ensures ProgressCaption(progress) == "Processing" <==> progress == 100.0
    ensures progress != 100.0 ==>
      var r := ProgressCaption(progress);
      |r| >= 2 && r[|r| - 1] == '%'
    ensures 0.0 <= progress < 100.0 ==>
      var r := ProgressCaption(progress);
      var digits := r[..|r| - 1];
      (forall i :: 0 <= i < |digits| ==> IsDigit(digits[i]))
      && ParseDigits(digits) == progress.Floor && 0 <= ParseDigits(digits) < 100
  {
    if progress != 100.0 {
      var n := TruncateReal(progress);
      var r := ProgressCaption(progress);
      assert r[|r| - 1] == '%';
      assert "Processing"[|"Processing"| - 1] == 'g';
      if 0.0 <= progress {
        assert r[..|r| - 1] == NatToString(n);
        ParseNatToString(n);
      }
    }
  }

  // ----- the page's switches -----

  /** The switches the handlers flip: the two buttons' enabled state, the
      fieldset and description boxes, the visibility of the per-file remove
      buttons and of the drop area, the two progress bars, and the
      drag-hover highlight of the form container. */
  datatype Ui = Ui(
    submitEnabled: bool, removeAllEnabled: bool,
    fieldsetEnabled: bool, descriptionsEnabled: bool,
    removeButtonsShown: bool, dropAreaShown: bool,
    fileProgressShown: bool, totalProgressShown: bool,
    dragHover: bool)

  /** The switches `enableFormButtons`/`disableFormButtons` do not touch. */
  function ButtonsAside(u: Ui): Ui
  {
    u.(submitEnabled := false, removeAllEnabled := false)
  }

  /** The switches the field helpers do not touch. */
  function FieldsAside(u: Ui): Ui
  {
    u.(fieldsetEnabled := false, descriptionsEnabled := false, removeButtonsShown := false, dropAreaShown := false)
  }

  /** The switches the progress helpers do not touch. */
  function ProgressAside(u: Ui): Ui
  {
    u.(fileProgressShown := false, totalProgressShown := false)
  }

  function EnableFormButtons(u: Ui): (r: Ui)
    ensures r.submitEnabled && r.removeAllEnabled && ButtonsAside(r) == ButtonsAside(u)
  {
    u.(submitEnabled := true, removeAllEnabled := true)
  }

  function DisableFormButtons(u: Ui): (r: Ui)
    ensures !r.submitEnabled && !r.removeAllEnabled && ButtonsAside(r) == ButtonsAside(u)
  {
    u.(submitEnabled := false, removeAllEnabled := false)
  }

  function EnableFormFields(u: Ui): (r: Ui)
    ensures r.fieldsetEnabled && r.descriptionsEnabled && r.removeButtonsShown && r.dropAreaShown
    ensures FieldsAside(r) == FieldsAside(u)
  {
    u.(fieldsetEnabled := true, descriptionsEnabled := true, removeButtonsShown := true, dropAreaShown := true)
  }

  function DisableFormFields(u: Ui): (r: Ui)
    ensures !r.fieldsetEnabled && !r.descriptionsEnabled && !r.removeButtonsShown && !r.dropAreaShown
    ensures FieldsAside(r) == FieldsAside(u)
  {
    u.(fieldsetEnabled := false, descriptionsEnabled := false, removeButtonsShown := false, dropAreaShown := false)
  }

  function ShowProgressBars(u: Ui): (r: Ui)
    ensures r.fileProgressShown && r.totalProgressShown && ProgressAside(r) == ProgressAside(u)
  {
    u.(fileProgressShown := true, totalProgressShown := true)
  }

  function HideProgressBars(u: Ui): (r: Ui)
    ensures !r.fileProgressShown && !r.totalProgressShown && ProgressAside(r) == ProgressAside(u)
  {
    u.(fileProgressShown := false, totalProgressShown := false)
  }

  /** Disabling then enabling the buttons restores a state whose buttons
      were enabled, and enabling then disabling restores one whose buttons
      were disabled; likewise for the fields and the progress bars. */
  lemma SwitchesInverse(u: Ui)
    ensures u.submitEnabled && u.removeAllEnabled ==> EnableFormButtons(DisableFormButtons(u)) == u
    ensures !u.submitEnabled && !u.removeAllEnabled ==> DisableFormButtons(EnableFormButtons(u)) == u
    ensures u.fieldsetEnabled && u.descriptionsEnabled && u.removeButtonsShown && u.dropAreaShown ==>
      EnableFormFields(DisableFormFields(u)) == u
    ensures !u.fieldsetEnabled && !u.descriptionsEnabled && !u.removeButtonsShown && !u.dropAreaShown ==>
      DisableFormFields(EnableFormFields(u)) == u
    ensures u.fileProgressShown && u.totalProgressShown ==> ShowProgressBars(HideProgressBars(u)) == u
    ensures !u.fileProgressShown && !u.totalProgressShown ==> HideProgressBars(ShowProgressBars(u)) == u
  {
  }

  // ----- the server's answer as the browser reads it -----

  /** A Django error dictionary as decoded JSON: field names with their
      messages, in the order the object lists them. */
  type JsonErrors = seq<(string, seq<string>)>

  /** One record of `errorsFile`: the file's name and its form errors. */
  datatype FileErrorRecord = FileErrorRecord(fileName: string, error: JsonErrors)

  /** The `successmultiple` response: a results template on success, the
      two error collections otherwise. */
  datatype ServerResult = Success(template: string) | Failure(errorsForm: JsonErrors, errorsFile: seq<FileErrorRecord>)

  /** A JavaScript array of strings in string context: its items joined
      with commas. */
  function ArrayText(items: seq<string>): string
  {
    Join(items, ",")
  }

  /** `obj[key]` in string context: the first entry's messages, or
      `undefined` when the key is absent. */
  function PropertyText(obj: JsonErrors, key: string): (r: string)
    ensures (forall i :: 0 <= i < |obj| ==> obj[i].0 != key) ==> r == "undefined"
    ensures forall i :: 0 <= i < |obj| && obj[i].0 == key && (forall j :: 0 <= j < i ==> obj[j].0 != key) ==>
      r == ArrayText(obj[i].1)
  {
    if |obj| == 0 then "undefined"
    else if obj[0].0 == key then ArrayText(obj[0].1)
    else PropertyText(obj[1..], key)
  }

  const AlertOpen: string :=
    "<div class=\"alert alert-danger alert-dismissible\" role=\"alert\">"
    + "<button type=\"button\" class=\"close\" data-dismiss=\"alert\" aria-label=\"Close\">"
    + "<span aria-hidden=\"true\">&times;</span></button>"
    + "<strong class=\"error\">"

  const AlertClose: string := "</strong></div>"

  /** A dismissible danger alert around a message. */
  function Alert(message: string): string
  {
    AlertOpen + message + AlertClose
  }

  /** The message inside an alert. */
  function AlertMessage(alert: string): string
    requires |alert| >= |AlertOpen| + |AlertClose|
  {
    alert[|AlertOpen|..|alert| - |AlertClose|]
  }

  /** An alert gives back its message, so distinct messages give distinct
      alerts. */
  lemma AlertRoundTrip(message: string)
    ensures |Alert(message)| >= |AlertOpen| + |AlertClose|
    ensures AlertMessage(Alert(message)) == message
  {
    var a := Alert(message);
    assert a[|AlertOpen|..|a| - |AlertClose|] == message;
  }

  function FieldErrorText(key: string, messages: seq<string>): string
  {
    "Error in field " + key + ": " + ArrayText(messages)
  }

  function FileErrorText(record: FileErrorRecord): string
  {
    "Error in file " + record.fileName + ": " + PropertyText(record.error, "file")
  }

  /** One alert per form-error key, in key order. */
  function FieldAlerts(errorsForm: JsonErrors): (r: seq<string>)
    ensures |r| == |errorsForm|
  {
    if |errorsForm| == 0 then []
    else
      var last := errorsForm[|errorsForm| - 1];
      FieldAlerts(errorsForm[..|errorsForm| - 1]) + [Alert(FieldErrorText(last.0, last.1))]
  }

  /** One alert per file-error record, in record order. */
  function FileAlerts(errorsFile: seq<FileErrorRecord>): (r: seq<string>)
    ensures |r| == |errorsFile|
  {
    if |errorsFile| == 0 then []
    else FileAlerts(errorsFile[..|errorsFile| - 1]) + [Alert(FileErrorText(errorsFile[|errorsFile| - 1]))]
  }

  /** The alerts `formErrors` appends: the field alerts, then the file
      alerts. */
  function ErrorAlerts(errorsForm: JsonErrors, errorsFile: seq<FileErrorRecord>): seq<string>
  {
    FieldAlerts(errorsForm) + FileAlerts(errorsFile)
  }

  lemma {:induction false} FieldAlertsAt(errorsForm: JsonErrors)
    ensures forall k :: 0 <= k < |errorsForm| ==>
      FieldAlerts(errorsForm)[k] == Alert(FieldErrorText(errorsForm[k].0, errorsForm[k].1))
  {
    if |errorsForm| > 0 {
      var init := errorsForm[..|errorsForm| - 1];
      FieldAlertsAt(init);
      forall k | 0 <= k < |init|
        ensures FieldAlerts(errorsForm)[k] == Alert(FieldErrorText(errorsForm[k].0, errorsForm[k].1))
      {
        assert errorsForm[k] == init[k];
      }
    }
  }

  lemma {:induction false} FileAlertsAt(errorsFile: seq<FileErrorRecord>)
    ensures forall k :: 0 <= k < |errorsFile| ==> FileAlerts(errorsFile)[k] == Alert(FileErrorText(errorsFile[k]))
  {
    if |errorsFile| > 0 {
      var init := errorsFile[..|errorsFile| - 1];
      FileAlertsAt(init);
      forall k | 0 <= k < |init|
        ensures FileAlerts(errorsFile)[k] == Alert(FileErrorText(errorsFile[k]))
      {
        assert errorsFile[k] == init[k];
      }
    }
  }

  /** One alert per form-error key and then one per file-error record, in
      order, each carrying its field or file and the messages. */
  lemma ErrorAlertsLayout(errorsForm: JsonErrors, errorsFile: seq<FileErrorRecord>)
    ensures var alerts := ErrorAlerts(errorsForm, errorsFile);
      |alerts| == |errorsForm| + |errorsFile|
      && (forall k :: 0 <= k < |errorsForm| ==>
            alerts[k] == Alert("Error in field " + errorsForm[k].0 + ": " + Join(errorsForm[k].1, ",")))
      && (forall k :: 0 <= k < |errorsFile| ==>
            alerts[|errorsForm| + k]
              == Alert("Error in file " + errorsFile[k].fileName + ": " + PropertyText(errorsFile[k].error, "file")))
  {
    var alerts := ErrorAlerts(errorsForm, errorsFile);
    FieldAlertsAt(errorsForm);
    FileAlertsAt(errorsFile);
    forall k | 0 <= k < |errorsFile|
      ensures alerts[|errorsForm| + k] == Alert(FileErrorText(errorsFile[k]))
    {
      assert alerts[|errorsForm| + k] == FileAlerts(errorsFile)[k];
    }
  }

  // ----- the controller -----

  /** The upload page's state. `staged` is Dropzone's file list, `accepted`
      the files of it that passed `accept` (sent or not), `queued` the
      accepted files waiting for upload, `requests` the batches sent so far,
      `container` the replacement of the form container after a successful
      submission. */
  class Controller {
    const table: Table
    var ui: Ui
    var staged: seq<StagedFile>
    var accepted: seq<StagedFile>
    var queued: seq<StagedFile>
    var requests: seq<seq<StagedFile>>
    var caption: string
    var barWidth: real
    var alerts: seq<string>
    var container: Option<string>

    /** Only staged files that passed `accept` are accepted, queued or sent;
        the queue is the accepted files not yet sent, and there are at most
        `maxFiles` of those accepted. */
    ghost predicate Valid()
      reads this
    {
      (forall i :: 0 <= i < |accepted| ==>
         accepted[i] in staged && MinFileSize <= accepted[i].size <= MaxFileBytes)
      && |accepted| <= MaxFiles
      && |queued| <= |accepted| && queued == accepted[|accepted| - |queued|..]
      && (forall b :: 0 <= b < |requests| ==> WithinLimits(requests[b]))
    }

    /** There is room for the whole queue in one call of `processQueue`,
        which is why the page sets `parallelUploads` to `maxFiles`. */
    lemma QueueFitsOneRequest()
      requires Valid()
      ensures |queued| <= ParallelUploads
      ensures WithinLimits(queued)
    {
      forall i | 0 <= i < |queued|
        ensures MinFileSize <= queued[i].size <= MaxFileBytes
      {
        assert queued[i] == accepted[|accepted| - |queued| + i];
      }
    }

    constructor (table: Table, initial: Ui)
      ensures Valid()
      ensures this.table == table && ui == initial
      ensures staged == [] && accepted == [] && queued == [] && requests == [] && alerts == [] && container == None
    {
      this.table := table;
      ui := initial;
      staged := [];
      accepted := [];
      queued := [];
      requests := [];
      caption := "";
      barWidth := 0.0;
      alerts := [];
      container := None;
    }

    /** A file is dropped: it joins the list, the buttons are enabled, the
        preview is chosen, and Dropzone's `accept` decides whether it is
        accepted and queued. */
    method AddedFile(file: StagedFile) returns (preview: Preview, refusal: Option<Refusal>)
      requires Valid()
      modifies this`staged, this`accepted, this`queued, this`ui
      ensures Valid()
      ensures staged == old(staged) + [file]
      ensures ui == EnableFormButtons(old(ui))
      ensures preview == AddedFilePreview(table, file.mimeType)
      ensures refusal == DropzoneAccept(file, |old(accepted)|)
      ensures accepted == if refusal.None? then old(accepted) + [file] else old(accepted)
      ensures queued == if refusal.None? then old(queued) + [file] else old(queued)
    {
      staged := staged + [file];
      ui := EnableFormButtons(ui);
      if ClientImage(file.mimeType) {
        preview := ImagePreview;
      } else {
        var major := BeforeFirst(file.mimeType, '/');
        var icon: string;
        if file.mimeType in Keys(table) {
          icon := Lookup(table, file.mimeType).value;
        } else if major + "/*" in Keys(table) {
          icon := Lookup(table, major + "/*").value;
        } else {
          icon := "file-o";
        }
        preview := IconPreview("fa fa-" + icon + " fa-5x");
      }
      refusal := DropzoneAccept(file, |accepted|);
      if refusal.None? {
        assert (accepted + [file])[|accepted| + 1 - (|queued| + 1)..] == queued + [file];
        accepted := accepted + [file];
        queued := queued + [file];
      }
    }

    /** The drag handlers: `dragover` adds the hover highlight. */
    method DragOver()
      modifies this`ui
      ensures ui == old(ui).(dragHover := true)
    {
      ui := ui.(dragHover := true);
    }

    /** `dragleave`, `dragend` and `drop` remove it. */
    method DragOut()
      modifies this`ui
      ensures ui == old(ui).(dragHover := false)
    {
      ui := ui.(dragHover := false);
    }

    /** The submit button: the queue is processed only when the form
        validates. */
    method SubmitClicked(formValid: bool)
      requires Valid()
      modifies this`queued, this`requests, this`ui
      ensures Valid()
      ensures !formValid ==> queued == old(queued) && requests == old(requests) && ui == old(ui)
      ensures formValid ==> queued == []
      ensures formValid && old(queued) == [] ==> requests == old(requests) && ui == old(ui)
      ensures formValid && old(queued) != [] ==>
        requests == old(requests) + [old(queued)] && ui == ShowProgressBars(DisableFormFields(old(ui)))
    {
      if formValid {
        ProcessQueue();
      }
    }

    /** Dropzone's `processQueue` with `uploadMultiple`: the first
        `parallelUploads` queued files go out as one request, which fires
        `sendingmultiple`; an empty queue sends nothing. With at most
        `maxFiles` accepted, that request is the whole queue. */
    method ProcessQueue()
      requires Valid()
      modifies this`queued, this`requests, this`ui
      ensures Valid()
      ensures queued == []
      ensures old(queued) == [] ==> requests == old(requests) && ui == old(ui)
      ensures old(queued) != [] ==>
        requests == old(requests) + [old(queued)] && ui == ShowProgressBars(DisableFormFields(old(ui)))
    {
      QueueFitsOneRequest();
      if queued != [] {
        var n := if |queued| < ParallelUploads then |queued| else ParallelUploads;
        assert n == |queued|;
        var batch := queued[..n];
        assert batch == queued && queued[n..] == [];
        SendingMultiple();
        requests := requests + [batch];
        queued := queued[n..];
        assert accepted[|accepted| - |queued|..] == [];
      }
    }

    /** `sendingmultiple`: the fields are locked and the progress shown. */
    method SendingMultiple()
      modifies this`ui
      ensures ui == ShowProgressBars(DisableFormFields(old(ui)))
    {
      ui := DisableFormFields(ui);
      ui := ShowProgressBars(ui);
    }

    /** The remove-all button: Dropzone empties its list and, when there
        was something to remove, fires `reset`. */
    method RemoveAllClicked()
      requires Valid()
      modifies this`staged, this`accepted, this`queued, this`ui
      ensures Valid()
      ensures staged == [] && accepted == [] && queued == []
      ensures ui == if old(staged) == [] then old(ui) else HideProgressBars(DisableFormButtons(old(ui)))
    {
      accepted := [];
      queued := [];
      if staged != [] {
        staged := [];
        Reset();
      }
    }

    /** `reset`: the buttons are disabled and the progress hidden. */
    method Reset()
      modifies this`ui
      ensures ui == HideProgressBars(DisableFormButtons(old(ui)))
    {
      ui := DisableFormButtons(ui);
      ui := HideProgressBars(ui);
    }

    /** `totaluploadprogress`: the bar's width and caption. */
    method TotalUploadProgress(progress: real)
      modifies this`caption, this`barWidth
      ensures barWidth == progress && caption == ProgressCaption(progress)
    {
      barWidth := progress;
      if progress == 100.0 {
        caption := "Processing";
      } else {
        caption := IntToString(TruncateReal(progress)) + "%";
      }
    }

    /** `successmultiple`: the results template replaces the form, or the
        errors are shown. */
    method SuccessMultiple(response: ServerResult)
      modifies this`container, this`ui, this`alerts
      ensures response.Success? ==>
        container == Some(response.template) && ui == old(ui) && alerts == old(alerts)
      ensures response.Failure? ==>
        container == old(container)
        && ui == EnableFormFields(HideProgressBars(old(ui)))
        && alerts == old(alerts) + ErrorAlerts(response.errorsForm, response.errorsFile)
    {
      match response
      case Success(template) =>
        container := Some(template);
      case Failure(errorsForm, errorsFile) =>
        FormErrors(errorsForm, errorsFile);
    }

    /** `formErrors`: hide the progress, append one alert per form-error key
        and one per file-error record, then unlock the fields. */
    method FormErrors(errorsForm: JsonErrors, errorsFile: seq<FileErrorRecord>)
      modifies this`ui, this`alerts
      ensures ui == EnableFormFields(HideProgressBars(old(ui)))
      ensures alerts == old(alerts) + ErrorAlerts(errorsForm, errorsFile)
    {
      ui := HideProgressBars(ui);
      var i := 0;
      while i < |errorsForm|
        invariant 0 <= i <= |errorsForm|
        invariant alerts == old(alerts) + FieldAlerts(errorsForm[..i])
        invariant ui == HideProgressBars(old(ui))
      {
        assert errorsForm[..i + 1][..i] == errorsForm[..i];
        alerts := alerts + [Alert(FieldErrorText(errorsForm[i].0, errorsForm[i].1))];
        i := i + 1;
      }
      assert errorsForm[..i] == errorsForm;
      ghost var afterFields := alerts;
      var j := 0;
      while j < |errorsFile|
        invariant 0 <= j <= |errorsFile|
        invariant alerts == afterFields + FileAlerts(errorsFile[..j])
        invariant ui == HideProgressBars(old(ui))
      {
        assert errorsFile[..j + 1][..j] == errorsFile[..j];
        alerts := alerts + [Alert(FileErrorText(errorsFile[j]))];
        j := j + 1;
      }
      assert errorsFile[..j] == errorsFile;
      assert alerts == old(alerts) + (FieldAlerts(errorsForm) + FileAlerts(errorsFile));
      ui := EnableFormFields(ui);
    }
  }
}
