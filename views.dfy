/** keeper/views.py: `submit` validates every uploaded file on its own,
    saves the accession and its files only when everything is valid, remembers
    the donor in the session and answers with a JSON payload; `index`
    pre-fills the donor form from that session entry. Form validation is an
    input: the accession form's error dictionary, and a function giving the
    file form's error dictionary for each upload. */
module Views {
  import opened Text
  import opened Wrappers
  import opened Constants
  import opened Models

  /** A Django `ErrorDict`: field name to messages; empty means valid. */
  type FormErrors = map<string, seq<string>>

  /** One entry of `request.FILES.getlist('file-file')`. */
  datatype UploadedFile = UploadedFile(name: string, contentType: string)

  /** The record `submit` appends for a file that fails validation. */
  datatype FileError = FileError(fileName: string, error: FormErrors)

  /** The donor fields the accession form binds. */
  datatype AccessionInput = AccessionInput(
    firstName: string, lastName: string, emailAddress: string,
    phoneNumber: string, description: string, affiliation: string)

  /** A value stored in the session dictionary. */
  datatype SessionValue = Str(s: string) | Int(i: int)

  type SessionRecord = map<string, SessionValue>

  /** The JSON body: `{success: true, template}` or
      `{success: false, context, errorsForm, errorsFile}`. */
  datatype Payload =
    | SuccessPayload(template: string)
    | FailurePayload(context: Option<SessionRecord>, errorsForm: FormErrors, errorsFile: seq<FileError>)

  /** What the view answers: the JSON payload, or a server error when the
      description list is shorter than the file list (an `IndexError`). */
  datatype Response = JsonResponse(payload: Payload) | ServerError

  /** The `success` member of the payload. */
  function SuccessFlag(p: Payload): bool
  {
    p.SuccessPayload?
  }

  /** The member names of the JSON object. */
  function PayloadKeys(p: Payload): (keys: set<string>)
    ensures "success" in keys
    ensures SuccessFlag(p) <==> "template" in keys
    ensures SuccessFlag(p) <==> "errorsForm" !in keys && "errorsFile" !in keys
  {
    match p
    case SuccessPayload(_) => {"success", "template"}
    case FailurePayload(_, _, _) => {"success", "context", "errorsForm", "errorsFile"}
  }

  // ----- per-file validation -----

  /** The error records for `files`, one per failing file, in upload order. */
  function FileErrors(files: seq<UploadedFile>, validate: UploadedFile -> FormErrors): seq<FileError>
  {
    if |files| == 0 then []
    else
      var last := files[|files| - 1];
      var errs := validate(last);
      FileErrors(files[..|files| - 1], validate) + (if errs == map[] then [] else [FileError(last.name, errs)])
  }

  predicate AllFilesValid(files: seq<UploadedFile>, validate: UploadedFile -> FormErrors)
  {
    forall k :: 0 <= k < |files| ==> validate(files[k]) == map[]
  }

  /** The loop of `submit` over the uploaded files: each file is bound to the
      file form on its own; a failing one adds a record and clears the flag. */
  method ValidateFiles(files: seq<UploadedFile>, validate: UploadedFile -> FormErrors)
    returns (fileIsValid: bool, errors: seq<FileError>)
    ensures errors == FileErrors(files, validate)
    ensures fileIsValid <==> AllFilesValid(files, validate)
  {
    fileIsValid := true;
    errors := [];
    var k := 0;
    while k < |files|
      invariant 0 <= k <= |files|
      invariant errors == FileErrors(files[..k], validate)
      invariant fileIsValid <==> AllFilesValid(files[..k], validate)
    {
      var value := files[k];
      var boundErrors := validate(value);
      ValidateStep(files, validate, k);
      if boundErrors != map[] {
        errors := errors + [FileError(value.name, boundErrors)];
        fileIsValid := false;
      }
      k := k + 1;
    }
    assert files[..k] == files;
  }

  /** One more file adds its record when it fails, and keeps the batch
      valid exactly when it passes. */
  lemma ValidateStep(files: seq<UploadedFile>, validate: UploadedFile -> FormErrors, k: nat)
    requires k < |files|
    ensures FileErrors(files[..k + 1], validate) == FileErrors(files[..k], validate)
      + (if validate(files[k]) == map[] then [] else [FileError(files[k].name, validate(files[k]))])
    ensures AllFilesValid(files[..k + 1], validate) <==> AllFilesValid(files[..k], validate) && validate(files[k]) == map[]
  {
    assert files[..k + 1][..k] == files[..k];
    assert forall i :: 0 <= i < k ==> files[..k + 1][i] == files[..k][i];
  }

  /** Records of consecutive batches concatenate: each file is judged on its
      own and keeps its place. */
  lemma {:induction false} FileErrorsConcat(a: seq<UploadedFile>, b: seq<UploadedFile>, validate: UploadedFile -> FormErrors)
    ensures FileErrors(a + b, validate) == FileErrors(a, validate) + FileErrors(b, validate)
    decreases |b|
  {
    if |b| == 0 {
      assert a + b == a;
    } else {
      var ab := a + b;
      assert ab[..|ab| - 1] == a + b[..|b| - 1];
      FileErrorsConcat(a, b[..|b| - 1], validate);
    }
  }

  /** One file contributes a record exactly when it fails, carrying its name
      and its errors. */
  lemma FileErrorsSingle(f: UploadedFile, validate: UploadedFile -> FormErrors)
    ensures validate(f) == map[] ==> FileErrors([f], validate) == []
    ensures validate(f) != map[] ==> FileErrors([f], validate) == [FileError(f.name, validate(f))]
  {
    assert [f][..0] == [];
  }

  /** No records exactly when every file is valid; otherwise at most one
      record per file. */
  lemma {:induction false} FileErrorsEmptyIff(files: seq<UploadedFile>, validate: UploadedFile -> FormErrors)
    ensures FileErrors(files, validate) == [] <==> AllFilesValid(files, validate)
    ensures |FileErrors(files, validate)| <= |files|
  {
    if |files| > 0 {
      var init := files[..|files| - 1];
      FileErrorsEmptyIff(init, validate);
      assert forall k :: 0 <= k < |init| ==> init[k] == files[k];
    }
  }

  // ----- saving -----

  /** The File rows `submit` creates: the k-th upload with the k-th
      description, stored under the accession's upload location. */
  function NewFiles(accessionId: nat, files: seq<UploadedFile>, descriptions: seq<string>): (r: seq<FileRecord>)
    requires |files| <= |descriptions|
    ensures |r| == |files|
    ensures forall k :: 0 <= k < |files| ==>
      r[k] == FileRecord(StoredName(accessionId, files[k].name), accessionId, descriptions[k], files[k].contentType)
  {
    if |files| == 0 then []
    else
      var k := |files| - 1;
      NewFiles(accessionId, files[..k], descriptions)
        + [FileRecord(StoredName(accessionId, files[k].name), accessionId, descriptions[k], files[k].contentType)]
  }

  /** Saving one more upload extends the rows by its record. */
  lemma NewFilesSnoc(accessionId: nat, files: seq<UploadedFile>, descriptions: seq<string>, k: nat)
    requires k < |files| && k < |descriptions|
    ensures NewFiles(accessionId, files[..k + 1], descriptions) == NewFiles(accessionId, files[..k], descriptions)
      + [FileRecord(StoredName(accessionId, files[k].name), accessionId, descriptions[k], files[k].contentType)]
  {
    assert files[..k + 1][..k] == files[..k];
  }

  /** A stored upload displays as its valid file name, which is the name it
      was uploaded with when that is already valid; no earlier upload of the
      submission may clean to the same name, since the storage would rename
      the later one. */
  lemma NewFilesKeepNames(accessionId: nat, files: seq<UploadedFile>, descriptions: seq<string>, k: nat)
    requires |files| <= |descriptions| && k < |files|
    requires forall j :: 0 <= j < k ==> ValidFileName(files[j].name) != ValidFileName(files[k].name)
    ensures FileStr(NewFiles(accessionId, files, descriptions)[k]) == ValidFileName(files[k].name)
    ensures (forall i :: 0 <= i < |files[k].name| ==> IsNameChar(files[k].name[i])) ==>
      FileStr(NewFiles(accessionId, files, descriptions)[k]) == files[k].name
    ensures NewFiles(accessionId, files, descriptions)[k].fileDescription == descriptions[k]
  {
    FileStrOfUpload(accessionId, files[k].name, descriptions[k], files[k].contentType);
    if forall i :: 0 <= i < |files[k].name| ==> IsNameChar(files[k].name[i]) {
      ValidFileNameKeepsValid(files[k].name);
    }
  }

  /** `accession_form.save()`: the bound fields, default status and notes. */
  function NewAccession(input: AccessionInput, now: DateTime): (a: Accession)
    ensures a.accessionStatus == New && a.adminNotes == "" && a.organizationName == ""
  {
    Accession(0, now, now, input.description, input.firstName, input.lastName, input.affiliation,
              "", input.emailAddress, input.phoneNumber, "", New)
  }

  /** The dictionary stored as `request.session['accession']`. */
  function SessionRecordOf(a: Accession): (rec: SessionRecord)
    ensures rec.Keys == {"first_name", "last_name", "email_address", "phone_number", "description", "affiliation", "accession_id"}
    ensures rec["first_name"] == Str(a.firstName) && rec["last_name"] == Str(a.lastName)
    ensures rec["email_address"] == Str(a.emailAddress) && rec["phone_number"] == Str(a.phoneNumber)
    ensures rec["description"] == Str(a.description) && rec["affiliation"] == Str(a.affiliation)
    ensures rec["accession_id"] == Int(a.id)
  {
    map["first_name" := Str(a.firstName), "last_name" := Str(a.lastName),
        "email_address" := Str(a.emailAddress), "phone_number" := Str(a.phoneNumber),
        "description" := Str(a.description), "affiliation" := Str(a.affiliation),
        "accession_id" := Int(a.id)]
  }

  /** The part of `request.session` the views use: the remembered donor and
      the cookie expiry (`0` means at browser close). */
  class Session {
    var accession: Option<SessionRecord>
    var expiry: Option<int>

    constructor ()
      ensures accession == None && expiry == None
    {
      accession := None;
      expiry := None;
    }
  }

  /** What `submit` reads and writes beyond its request: the stored rows
      and the session entries. */
  datatype Stored = Stored(accessions: seq<Accession>, files: seq<FileRecord>, nextId: nat,
                           remembered: Option<SessionRecord>, expiry: Option<int>)

  /** One POST to `submit`: the bound donor fields, the accession form's
      errors, the uploads and the `file-description` list. */
  datatype Request = Request(input: AccessionInput, accessionErrors: FormErrors,
                             uploads: seq<UploadedFile>, descriptions: seq<string>)

  /** The form and every file validate. */
  predicate RequestValid(q: Request, validate: UploadedFile -> FormErrors)
  {
    q.accessionErrors == map[] && AllFilesValid(q.uploads, validate)
  }

  /** The accession a valid request saves, under the next id. */
  function SavedAccession(s: Stored, q: Request, now: DateTime): Accession
  {
    NewAccession(q.input, now).(id := s.nextId)
  }

  /** The answer of `submit` and the state it leaves. A valid request saves
      the accession and then the uploads one by one; more uploads than
      descriptions stops that loop with an `IndexError` after the accession
      and the described uploads were saved, before the session is touched.
      An invalid request changes nothing. */
  function SubmitSpec(s: Stored, q: Request, validate: UploadedFile -> FormErrors, now: DateTime, template: string): (Response, Stored)
  {
    if !RequestValid(q, validate) then
      (JsonResponse(FailurePayload(s.remembered, q.accessionErrors, FileErrors(q.uploads, validate))), s)
    else
      var saved := SavedAccession(s, q, now);
      if |q.uploads| <= |q.descriptions| then
        (JsonResponse(SuccessPayload(template)),
         Stored(s.accessions + [saved], s.files + NewFiles(saved.id, q.uploads, q.descriptions), s.nextId + 1,
                Some(SessionRecordOf(saved)), Some(0)))
      else
        (ServerError,
         Stored(s.accessions + [saved], s.files + NewFiles(saved.id, q.uploads[..|q.descriptions|], q.descriptions), s.nextId + 1,
                s.remembered, s.expiry))
  }

  /** The stored state as `submit` sees it. */
  function StoredOf(db: Database, session: Session): Stored
    reads db, session
  {
    Stored(db.accessions, db.files, db.nextId, session.accession, session.expiry)
  }

  /** `submit(request)`: validate each upload, then save and remember the
      donor, or answer with both error collections. */
  method Submit(db: Database, session: Session, q: Request,
                validate: UploadedFile -> FormErrors, now: DateTime, template: string)
    returns (r: Response)
    requires db.Valid()
    modifies db, session
    ensures db.Valid()
    ensures (r, StoredOf(db, session)) == SubmitSpec(old(StoredOf(db, session)), q, validate, now, template)
  {
    ghost var s := StoredOf(db, session);
    var fileIsValid, fileFormErrors := ValidateFiles(q.uploads, validate);
    if q.accessionErrors == map[] && fileIsValid {
      assert RequestValid(q, validate);
      var accession := db.SaveAccession(NewAccession(q.input, now));
      assert accession == SavedAccession(s, q, now);
      var complete := SaveUploads(db, accession.id, q.uploads, q.descriptions);
      ghost var spec := SubmitSpec(s, q, validate, now, template);
      if !complete {
        assert spec.1.files == db.files;
        return ServerError;
      }
      session.accession := Some(SessionRecordOf(accession));
      session.expiry := Some(0);
      r := JsonResponse(SuccessPayload(template));
      assert spec.1.files == db.files;
    } else {
      r := JsonResponse(FailurePayload(session.accession, q.accessionErrors, fileFormErrors));
    }
  }

  /** The answer is a success exactly when the form and every file validate
      and every upload has a description. */
  lemma SubmitSuccessIff(s: Stored, q: Request, validate: UploadedFile -> FormErrors, now: DateTime, template: string)
    ensures var r := SubmitSpec(s, q, validate, now, template).0;
      (r.JsonResponse? && SuccessFlag(r.payload)) <==> RequestValid(q, validate) && |q.uploads| <= |q.descriptions|
  {
  }

  /** An invalid request saves nothing, leaves the session as it was, and
      reports the accession errors and one record per failing file; the
      record list is empty exactly when the files all validate. */
  lemma SubmitRejects(s: Stored, q: Request, validate: UploadedFile -> FormErrors, now: DateTime, template: string)
    requires !RequestValid(q, validate)
    ensures var (r, s') := SubmitSpec(s, q, validate, now, template);
      s' == s && r.JsonResponse? && r.payload.FailurePayload?
      && r.payload.context == s.remembered && r.payload.errorsForm == q.accessionErrors
      && (r.payload.errorsFile == [] <==> AllFilesValid(q.uploads, validate))
      && |r.payload.errorsFile| <= |q.uploads|
  {
    FileErrorsEmptyIff(q.uploads, validate);
  }

  /** A successful request appends one accession with status `N` under the
      next id, and one File per upload in upload order, each under that
      accession with its own description and content type. */
  lemma SubmitStoresUploads(s: Stored, q: Request, validate: UploadedFile -> FormErrors, now: DateTime, template: string)
    requires RequestValid(q, validate) && |q.uploads| <= |q.descriptions|
    ensures var (_, s') := SubmitSpec(s, q, validate, now, template);
      |s'.accessions| == |s.accessions| + 1 && s'.accessions[..|s.accessions|] == s.accessions
      && s'.accessions[|s.accessions|].id == s.nextId && s'.accessions[|s.accessions|].accessionStatus == New
      && |s'.files| == |s.files| + |q.uploads| && s'.files[..|s.files|] == s.files
      && forall k :: 0 <= k < |q.uploads| ==>
           var f := s'.files[|s.files| + k];
           f.accessionId == s.nextId && f.fileDescription == q.descriptions[k]
           && f.contentType == q.uploads[k].contentType && f.name == StoredName(s.nextId, q.uploads[k].name)
  {
    var s' := SubmitSpec(s, q, validate, now, template).1;
    assert (s.accessions + [SavedAccession(s, q, now)])[..|s.accessions|] == s.accessions;
    assert s'.files[..|s.files|] == s.files;
  }

  /** More uploads than descriptions: a server error, yet the accession and
      the first `|descriptions|` uploads stay saved and the session is not
      updated. */
  lemma SubmitPartialSave(s: Stored, q: Request, validate: UploadedFile -> FormErrors, now: DateTime, template: string)
    requires RequestValid(q, validate) && |q.uploads| > |q.descriptions|
    ensures var (r, s') := SubmitSpec(s, q, validate, now, template);
      r == ServerError && |s'.accessions| == |s.accessions| + 1
      && |s'.files| == |s.files| + |q.descriptions|
      && s'.remembered == s.remembered && s'.expiry == s.expiry
  {
  }

  /** Whatever the request, consistent rows stay consistent: the new
      accession takes the next id and every saved upload points at it. */
  lemma SubmitKeepsRowsValid(s: Stored, q: Request, validate: UploadedFile -> FormErrors, now: DateTime, template: string)
    requires ValidRows(s.accessions, s.files, s.nextId)
    ensures var s' := SubmitSpec(s, q, validate, now, template).1;
      ValidRows(s'.accessions, s'.files, s'.nextId)
  {
    if RequestValid(q, validate) {
      var saved := SavedAccession(s, q, now);
      var stored := if |q.uploads| <= |q.descriptions| then q.uploads else q.uploads[..|q.descriptions|];
      AppendSubmissionKeepsRows(s.accessions, s.files, s.nextId, saved, NewFiles(saved.id, stored, q.descriptions));
    }
  }

  /** Appending an accession under the next id and files pointing at it
      keeps the rows consistent. */
  lemma AppendSubmissionKeepsRows(accessions: seq<Accession>, files: seq<FileRecord>, nextId: nat,
                                  saved: Accession, added: seq<FileRecord>)
    requires ValidRows(accessions, files, nextId) && saved.id == nextId
    requires forall k :: 0 <= k < |added| ==> added[k].accessionId == saved.id
    ensures ValidRows(accessions + [saved], files + added, nextId + 1)
  {
    ValidRowsAppend(accessions, files, nextId, saved, accessions + [saved]);
    forall k | 0 <= k < |files + added|
      ensures 1 <= (files + added)[k].accessionId < nextId + 1
    {
      if k >= |files| {
        assert (files + added)[k] == added[k - |files|];
      }
    }
  }

  /** After a successful request the remembered donor pre-fills the next
      form with the submitted name, affiliation, email and phone. */
  lemma SubmitRemembersDonor(s: Stored, q: Request, validate: UploadedFile -> FormErrors, now: DateTime, template: string)
    requires RequestValid(q, validate) && |q.uploads| <= |q.descriptions|
    ensures var (_, s') := SubmitSpec(s, q, validate, now, template);
      var initial := IndexInitial(s'.remembered);
      s'.expiry == Some(0)
      && initial["first_name"] == Str(q.input.firstName) && initial["last_name"] == Str(q.input.lastName)
      && initial["affiliation"] == Str(q.input.affiliation) && initial["email_address"] == Str(q.input.emailAddress)
      && initial["phone_number"] == Str(q.input.phoneNumber)
  {
    IndexAfterSubmit(q.input, now, s.nextId);
  }

  /** The second loop of `submit`: the k-th upload is saved with the k-th
      description; running out of descriptions stops it after the files
      already saved. */
  method SaveUploads(db: Database, accessionId: nat, files: seq<UploadedFile>, descriptions: seq<string>)
    returns (complete: bool)
    requires db.Valid() && db.HasAccession(accessionId)
    modifies db`files
    ensures db.Valid()
    ensures complete <==> |files| <= |descriptions|
    ensures complete ==> db.files == old(db.files) + NewFiles(accessionId, files, descriptions)
    ensures !complete ==> db.files == old(db.files) + NewFiles(accessionId, files[..|descriptions|], descriptions)
  {
    var k := 0;
    while k < |files|
      invariant 0 <= k <= |files| && k <= |descriptions|
      invariant db.Valid() && db.HasAccession(accessionId)
      invariant db.files == old(db.files) + NewFiles(accessionId, files[..k], descriptions)
    {
      if k >= |descriptions| {
        return false;
      }
      var requestFile := files[k];
      NewFilesSnoc(accessionId, files, descriptions, k);
      db.SaveFile(FileRecord(StoredName(accessionId, requestFile.name), accessionId,
                             descriptions[k], requestFile.contentType));
      k := k + 1;
    }
    assert files[..k] == files;
    return true;
  }

  // ----- index -----

  /** The form fields `index` pre-fills from the session. */
  const PrefillKeys: set<string> := {"first_name", "last_name", "affiliation", "email_address", "phone_number"}

  /** `index`: with a remembered donor, each pre-filled field takes the stored
      value or `''` when the key is missing; without one, no initial values. */
  function IndexInitial(remembered: Option<SessionRecord>): (initial: map<string, SessionValue>)
    ensures remembered.None? ==> initial == map[]
    ensures remembered.Some? ==> initial.Keys == PrefillKeys
    ensures remembered.Some? ==> forall key :: key in initial ==>
      initial[key] == (if key in remembered.value then remembered.value[key] else Str(""))
  {
    match remembered
    case None => map[]
    case Some(rec) =>
      map key | key in PrefillKeys :: if key in rec then rec[key] else Str("")
  }

  /** After a successful submission the next form shows the donor's name,
      affiliation, email and phone as submitted, and not the description. */
  lemma IndexAfterSubmit(input: AccessionInput, now: DateTime, id: nat)
    ensures var initial := IndexInitial(Some(SessionRecordOf(NewAccession(input, now).(id := id))));
      initial["first_name"] == Str(input.firstName) && initial["last_name"] == Str(input.lastName)
      && initial["affiliation"] == Str(input.affiliation) && initial["email_address"] == Str(input.emailAddress)
      && initial["phone_number"] == Str(input.phoneNumber) && "description" !in initial
  {
  }
}
