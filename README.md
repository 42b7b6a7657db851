# Keeper — a verified model

Keeper is the UNT Libraries' Django application for accepting donated files.
A donor fills in an accession form, drops files onto an upload area and
submits. The server checks each file's sniffed MIME type against a table of
accepted types and a size cap. It saves the accession and its files only
when everything is valid, and remembers the donor in the session.
Administrators change accession status in bulk and download an accession as
a zip archive holding its files and a generated `metadata.txt`.
The bundled site scripts add an Intersection Observer polyfill, a
call-once guard, an author-name inversion and the data shaping behind the
site's search typeaheads.

This project models those rules in Dafny and proves what they promise.
One module per source file:

- `Validators`, `Models`, `Views`, `Admin`, `Utils` and `AdminViews` model
  `keeper/validators.py`, `keeper/models.py`, `keeper/views.py`,
  `keeper/admin.py`, `keeper/utils.py` and `keeper/admin_views.py`.
  `Constants` holds the accepted-types table of `keeper/constants.py`.
- `UploadForm` models the upload page controller of `src/js/scripts.js` as
  a class whose fields are the staged files, the upload queue, the sent
  requests, the UI switches and the rendered alerts.
- `IoGeometry`, `IoOptions` and `IoObserver` model the Intersection Observer
  polyfill in `keeper/static/keeper/inherit/scripts/unt.js`: rectangles and
  entries, option parsing, and the observer class with its target list,
  entry queue and instance registry. `LibUtils` models `actWithTimeOut`
  and the invert-author handler from the same file.
- `Typeaheads` models the record transforms, the empty-query defaults and
  the session-cache rule of
  `keeper/static/keeper/inherit/scripts/typeaheads.js`.
- `Text`, `PosixPath` and `Glob` model the string operations the sources
  use: `split`, `join`, `trim`, decimal rendering, `os.path.join`,
  `os.path.basename` and `fnmatch` with `*`. `Wrappers` holds `Option`
  and `Result`.

Inputs the code cannot see are parameters: the sniffed MIME type, the
Django form validation results, the clock, the DOM measurements of a
target, and the typeahead search function.

The upload path, the status update, the archive and the observer are
imperative in the source. They are modelled as methods on classes
(`Models.Database`, `Views.Session`, `Validators.Upload`, `Utils.Disk`,
`AdminViews.ZipStream`, `UploadForm.Controller`,
`IoObserver.IntersectionObserver`, `IoObserver.Registry`,
`LibUtils.OnceGuard`, `Typeaheads.AzCache`). Each method is proved against
a pure specification function, and the properties are lemmas about those
functions.

Several behaviours of the source are worth knowing. Each is proved as
written:

- `Views.SubmitPartialSave`: a submission with fewer descriptions than files
  fails with an `IndexError` after the accession and the described files
  were already saved.
- `AdminViews.UploadedMetadataShadowed`: an upload stored as `metadata.txt`
  is archived from the same disk path that `generate_data_file` writes the
  generated metadata to before the archive is streamed.
- `UploadForm.ImageTestsDisagree`: the client and the server disagree on
  whether a type such as `imagery/x` is an image.

## Model

| member | source | states |
|---|---|---|
| Constants.Keys | keeper/constants.py:5-12 | the keys of the accepted-types table in written order, one per entry |
| Constants.Lookup | keeper/models.py:101-104 | a lookup finds nothing exactly when the key is absent, and otherwise returns a value stored under that key |
| Constants.AcceptedFileTypesWellFormed | keeper/constants.py:5-12 | the shipped table holds no key twice |
| Constants.AcceptedKeys | keeper/constants.py:5-12 | the table's keys are the seven MIME patterns, in order |
| Constants.LookupAt | keeper/models.py:101-102 | in a table with distinct keys, looking up entry i's key gives entry i's icon |
| Glob.LiteralPattern | keeper/validators.py:25 | a pattern without `*` matches exactly the string equal to it |
| Glob.StarMatchesAll | keeper/validators.py:25 | the pattern `*` matches every string |
| Glob.PrefixPattern | keeper/validators.py:25 | a literal followed by `*` matches exactly the strings that start with that literal |
| Glob.MatchSelf | keeper/validators.py:25 | every string matches itself used as a pattern |
| Validators.Upload.ReadAll | keeper/validators.py:15 | returns the bytes from the position to the end, and the position ends at the end |
| Validators.Upload.Read | keeper/validators.py:18 | returns at most n bytes from the position, and the position moves past them |
| Validators.Upload.Seek | keeper/validators.py:20 | the position becomes the offset |
| Validators.SniffChunk | keeper/validators.py:11-18 | the bytes `validate_file_type` sniffs; Validators.SniffChunkFromStart states that a file up to 64 MiB is sniffed whole and a larger one by its first 64 KiB |
| Validators.SniffChunkFromStart | keeper/validators.py:11-18 | a file of at most 64 MiB is sniffed whole; a larger one by its first 64 KiB only |
| Validators.GoodMimetype | keeper/validators.py:23-27 | the answer is true iff some key of the table glob-matches the type, and false for an empty table |
| Validators.AcceptsMonotone | keeper/validators.py:23-27 | a type accepted under a table stays accepted under any table with all of its keys |
| Validators.ShippedTableAcceptsPng | keeper/validators.py:30 | `image/png` is accepted through the `image/*` key |
| Validators.ShippedTableRejectsExe | keeper/validators.py:30 | `application/x-msdos-program` matches no key |
| Validators.ValidateFileType | keeper/validators.py:9-31 | the file position is 0 afterwards; the outcome passes iff the sniffed type is accepted, else it is the "File type T not supported." error |
| Validators.TypeMessageNamesType | keeper/validators.py:31 | the type error message holds the type between fixed text, so the type can be read back |
| Validators.ValidateFileSize | keeper/validators.py:34-36 | fails exactly when the size exceeds the limit |
| Validators.SizeBoundary | keeper/validators.py:35 | a file of exactly the limit passes; one byte more fails |
| Validators.WholeGigabytes | keeper/validators.py:36 | a limit of a whole number n of GiB is printed as `n.0` |
| PosixPath.Join | keeper/models.py:68 | an absolute second part replaces the first; an empty first part, or one ending in `/`, is followed directly by the second; otherwise exactly one `/` separates them |
| PosixPath.Basename | keeper/models.py:79 | the basename is a suffix of the path and holds no `/` |
| PosixPath.BasenameOfName | keeper/models.py:79 | a name without `/` is its own basename |
| PosixPath.BasenameAfterSep | keeper/models.py:78-79 | the basename of `dir/name` is `name` when `name` holds no `/` |
| Models.StatusLabel | keeper/models.py:19-24 | a status code has a label exactly when it is one of the choice codes |
| Models.AffiliationLabel | keeper/models.py:33-39 | an affiliation code has a label exactly when it is one of the choice codes |
| Models.StatusChoicesDistinct | keeper/models.py:19-24 | no status code is listed twice |
| Models.AffiliationChoicesDistinct | keeper/models.py:33-39 | no affiliation code is listed twice |
| Models.StatusLabels | keeper/models.py:14-24 | NEW, REV, ACC and REJ show as New, Under Review, Accepted and Rejected |
| Models.FullName | keeper/models.py:56-58 | `Accession.full_name`; Models.FullNameParts states that it splits back into first and last name |
| Models.FullNameParts | keeper/models.py:56-58 | the full name splits back into first and last name at its first space |
| Models.AccessionStr | keeper/models.py:60-61 | `Accession.__str__`; Models.AccessionStrId states that the id reads back from its first word |
| Models.AccessionStrId | keeper/models.py:60-61 | the id can be read back from the digits before the first space |
| Models.FileUploadLocation | keeper/models.py:67-68 | `file_upload_location`; Models.UploadLocationShape states that it is `uploads/<id>/<filename>` |
| Models.UploadLocationShape | keeper/models.py:67-68 | the location is `uploads/<id>/<filename>`, and its basename is the file name again |
| Models.PyStrip | keeper/models.py:72 | the result neither starts nor ends with white space |
| Models.CleanName | keeper/models.py:72 | the result is no longer than the input and holds only letters, digits, `_`, `-` and `.` |
| Models.ValidFileName | keeper/models.py:72 | the name the storage keeps holds only letters, digits, `_`, `-` and `.`, so never a `/` |
| Models.CleanNameKeepsValid | keeper/models.py:72 | cleaning leaves a name made of valid characters unchanged |
| Models.ValidFileNameKeepsValid | keeper/models.py:72 | the storage keeps a name made of valid characters as it is |
| Models.CleanNameConcat | keeper/models.py:72 | cleaning works character by character, so it distributes over concatenation |
| Models.ValidFileNameSpace | keeper/models.py:72 | a space between two valid words is stored as `_` (`my photo.jpg` becomes `my_photo.jpg`) |
| Models.StoredName | keeper/models.py:67-72 | the path the storage saves an upload to; Models.StoredNameShape states that it is `uploads/<id>/` and the valid file name |
| Models.StoredNameShape | keeper/models.py:67-72 | the saved path is `uploads/<id>/` followed by the valid file name |
| Models.GetFilename | keeper/models.py:78-79 | `File.get_filename`; Models.FileStr and PosixPath.Basename state that it is the part of the stored name after its last `/` |
| Models.FileStr | keeper/models.py:109-110 | the display string is the file's basename and holds no `/` |
| Models.FileStrOfUpload | keeper/models.py:67-80 | a file saved by the storage displays as the valid form of the name it was uploaded under |
| Models.IconClass | keeper/models.py:99-107 | `File.icon_class`; Models.IconRule states its result: the exact key's icon, else the major-type wildcard's, else `file-o` |
| Models.IconRule | keeper/models.py:99-107 | an exact key wins over the wildcard; without one the major-type wildcard decides; with neither the icon is `file-o` |
| Models.WildcardKeyWellFormed | keeper/models.py:103 | the wildcard key of a literal major type is a well-formed key |
| Models.AcceptedFileTypesKeys | keeper/constants.py:5-12 | every shipped key is a literal type or a literal major type with `/*` |
| Models.WildcardMatchMajor | keeper/models.py:100-104 | a type matching the wildcard key of major type m has m as its major type |
| Models.MatchOwnWildcard | keeper/models.py:100-104 | a type containing `/` matches the wildcard key of its own major type |
| Models.AcceptedHasIcon | keeper/models.py:99-107 | a type string the validator accepts always gets an icon from the table; in the program this holds when the type python-magic sniffs (keeper/validators.py:21) is the `content_type` the browser sent (keeper/views.py:77), which the server does not check |
| Models.IconMeansAccepted | keeper/models.py:99-107 | a type containing `/` that gets a table icon is accepted by the validator, when the sniffed type and the sent `content_type` agree |
| Models.ShippedIconExact | keeper/models.py:101-102 | a PDF gets the `file-pdf` icon |
| Models.ClickableThumb | keeper/models.py:90-96 | `File.clickable_thumb`; Models.ClickableThumbImage states that the image thumbnail is chosen exactly for `image` types, the icon otherwise |
| Models.ClickableThumbImage | keeper/models.py:90-96 | the image thumbnail is chosen exactly for `image` and `image/...` types |
| Models.ValidRowsKeys | keeper/models.py:71-73 | consistent rows have increasing ids, and every file points at a stored accession |
| Models.ValidRowsAppend | keeper/models.py:12-54 | a row appended under the next id keeps the rows consistent |
| Models.ValidRowsAddFile | keeper/models.py:71-75 | a file of a stored accession keeps the rows consistent |
| Models.Database.SaveAccession | keeper/models.py:12-54 | a new accession gets the next id and is appended; files are unchanged |
| Models.Database.SaveFile | keeper/models.py:71-76 | the file record is appended and the rows stay consistent |
| Models.Database.FilesOf | keeper/models.py:73 | every stored file of the accession is returned and nothing else; the result is empty iff no stored file belongs to it |
| Models.Filter | keeper/models.py:73 | the records of one accession, all of them and only them; empty iff none belongs to it |
| Models.FilterConcat | keeper/models.py:73 | filtering a concatenation is concatenating the filtered parts, so storage order is kept |
| Models.FilterKeepsPlace | keeper/models.py:73 | a record of the accession keeps its place between the records before and after it |
| Views.PayloadKeys | keeper/views.py:97-109 | every payload has `success`; a success payload carries `template` and neither error collection, a failure payload carries both |
| Views.ValidateFiles | keeper/views.py:48-65 | the error records are exactly those of the failing uploads, in upload order, and the flag stays true iff every upload validates |
| Views.FileErrorsConcat | keeper/views.py:57-65 | each upload is judged on its own: the records of two batches are the records of each, concatenated |
| Views.FileErrorsSingle | keeper/views.py:60-65 | one upload adds a record iff it fails, holding its name and its form errors |
| Views.FileErrors | keeper/views.py:57-67 | the file-error records of `submit`; Views.FileErrorsConcat, Views.FileErrorsSingle and Views.FileErrorsEmptyIff state that there is one record per failing upload, in order, and none iff all pass |
| Views.FileErrorsEmptyIff | keeper/views.py:57-67 | no records iff every upload validates; never more records than uploads |
| Views.NewFiles | keeper/views.py:70-79 | the k-th saved row holds the k-th upload's storage path, content type and the k-th description, under the accession |
| Views.NewFilesSnoc | keeper/views.py:70-79 | saving one more upload appends exactly its row |
| Views.NewFilesKeepNames | keeper/views.py:70-79 | a saved upload whose cleaned name is new in the submission displays as that cleaned name, which is the uploaded name when already valid, and keeps its description |
| Views.NewAccession | keeper/views.py:68 | a newly saved accession has status New, empty admin notes and no organization |
| Views.SessionRecordOf | keeper/views.py:82-90 | the remembered entry holds exactly the six donor fields and the accession id, each with the accession's value |
| Views.Submit | keeper/views.py:41-111 | the answer and the new rows and session are those of the submit specification, and the rows stay consistent |
| Views.SubmitSpec | keeper/views.py:45-110 | the answer and new state of `submit`; Views.SubmitSuccessIff, Views.SubmitRejects, Views.SubmitStoresUploads, Views.SubmitPartialSave and Views.SubmitRemembersDonor state what it promises |
| Views.SubmitSuccessIff | keeper/views.py:67-101 | the answer is a success iff the form and all uploads validate and every upload has a description |
| Views.SubmitRejects | keeper/views.py:103-109 | an invalid request changes nothing and reports the remembered entry, the form errors and one record per failing upload |
| Views.SubmitStoresUploads | keeper/views.py:67-79 | a success appends one New accession under the next id and one row per upload, in order, each pointing at it and stored under its valid name |
| Views.SubmitPartialSave | keeper/views.py:70-72 | more uploads than descriptions is a server error that leaves the accession and the described uploads saved and the session untouched |
| Views.SubmitKeepsRowsValid | keeper/views.py:67-79 | whatever the request, consistent rows stay consistent |
| Views.SubmitRemembersDonor | keeper/views.py:82-93 | after a success the session expires at browser close and the next form shows the submitted donor |
| Views.SaveUploads | keeper/views.py:70-79 | completes iff there are enough descriptions; the rows appended are those of all uploads, or of the described ones |
| Views.IndexInitial | keeper/views.py:16-28 | without a remembered donor nothing is pre-filled; with one, the five fields take the stored value or `''` |
| Views.IndexAfterSubmit | keeper/views.py:16-26 | the form after a submission shows the donor's name, affiliation, email and phone, and not the description |
| Admin.SetStatus | keeper/admin.py:49 | the selected rows get the new status with every other field kept; unselected rows are unchanged, and the order is kept |
| Admin.CountSelected | keeper/admin.py:49 | the number of updated rows is the number of rows whose id is selected |
| Admin.CountSelectedBounds | keeper/admin.py:49 | the count is 0 iff no row is selected, and all rows iff every row is selected |
| Admin.UpdateMessage | keeper/admin.py:50-55 | the message of `update_status`; Admin.UpdateMessageShape and Admin.UpdateMessageCount state that it is the count, a space, the noun and the label, and that the count reads back |
| Admin.UpdateMessageShape | keeper/admin.py:50-55 | the message is the count in decimal, a space, then the noun and the status label |
| Admin.NumberFirstWord | keeper/admin.py:53 | a decimal number followed by a space is the first word of the text |
| Admin.UpdateMessageCount | keeper/admin.py:50-55 | the updated count can be read back from the message's first word |
| Admin.UpdateStatus | keeper/admin.py:47-55 | a code without a label changes nothing and fails; otherwise exactly the selected rows get the code and the message counts them with the code's label |
| Admin.SetStatusKeepsRows | keeper/admin.py:49 | a status update keeps consistent rows consistent |
| Admin.SetStatusIdempotent | keeper/admin.py:49 | running the same update twice changes nothing more |
| Admin.ActionsHaveLabels | keeper/admin.py:58-72 | each of the four actions passes a code that has a label |
| Admin.RunAction | keeper/admin.py:50-72 | an action sets exactly the selected rows to its own status, nothing else changes, and it reports the `update_status` message counting the selected rows with the status's label |
| Utils.Hour12 | keeper/utils.py:53 | `%I` is always between 1 and 12 |
| Utils.TwelveHourRoundTrip | keeper/utils.py:53 | `%I` and `%p` together give back the 24-hour hour |
| Utils.TwoDigitsValue | keeper/utils.py:53 | a field below 100 is two digits that read back as its value |
| Utils.YearDigits | keeper/utils.py:53 | a year from 1000 to 9999 renders as four digits |
| Utils.DatePartLayout | keeper/utils.py:53 | `%Y-%m-%d` puts the year, month and day at fixed places between dashes |
| Utils.TimePartLayout | keeper/utils.py:53 | `%I:%M` puts the hour and minute at fixed places around a colon |
| Utils.FormatDatetime | keeper/utils.py:52-53 | `format_datetime`; Utils.FormatDatetimeLayout, Utils.FormatDatetimeInjective and Utils.FormatDatetimeExample state its layout, that it loses nothing, and one rendering |
| Utils.FormatDatetimeLayout | keeper/utils.py:52-53 | the date, time, meridiem, two spaces and zone sit at fixed places |
| Utils.FormatDatetimeInjective | keeper/utils.py:52-53 | two date-times with four-digit years render the same only if they are equal |
| Utils.FormatDatetimeExample | keeper/utils.py:52-53 | 15:30 on 2023-08-12 UTC renders as `2023-08-12 03:30 PM  UTC` |
| Utils.FileLines | keeper/utils.py:9 | one line per file, name then newline then description, in input order |
| Utils.RelatedFiles | keeper/utils.py:9 | no files give the empty text |
| Utils.Flatten | keeper/utils.py:9 | names and descriptions alternate, in input order |
| Utils.RelatedFilesLines | keeper/utils.py:9 | the file list is the names and descriptions joined by newlines |
| Utils.RelatedFilesRoundTrip | keeper/utils.py:9 | without newlines inside, splitting the file list at newlines gives back every name and description |
| Utils.FlattenNoNewline | keeper/utils.py:9 | no newline in any name or description means none in any piece |
| Utils.TemplateLines | keeper/utils.py:11-29 | the template has 19 lines, the last one empty |
| Utils.TemplateHasLine | keeper/utils.py:11-29 | every inner template line appears in the text as a whole line |
| Utils.TemplateShowsDonor | keeper/utils.py:18-21 | the donor name, email and phone each appear on a line of their own |
| Utils.TemplateShowsLabels | keeper/utils.py:13-19 | the affiliation, the status and the submission date each appear on a line of their own |
| Utils.TemplateShowsNotes | keeper/utils.py:12-25 | the download date, the last-updated date, the admin notes and the description each appear on a line of their own |
| Utils.TemplateStart | keeper/utils.py:11 | the text opens with the accession line |
| Utils.TemplateEnd | keeper/utils.py:27-29 | the text ends with `Included files:`, the file list and a newline |
| Utils.ContextOf | keeper/utils.py:31-44 | fails iff the affiliation or status code has no label; otherwise each field holds the accession's value, its label or its formatted date |
| Utils.MetadataText | keeper/utils.py:11-47 | fails iff the affiliation or status code has no label; otherwise the text opens with the accession line, shows the three dates, the status and affiliation labels, the donor's name, email and phone, the admin notes and the description each on a whole line, and ends with the file list |
| Utils.Disk.Write | keeper/utils.py:46-47 | the file at the path now holds the text; no other file changes |
| Utils.FindAccession | keeper/utils.py:8 | finds a stored row with that id, and nothing iff no row has it |
| Utils.FindStored | keeper/utils.py:8 | in consistent rows, an id is found iff it was handed out, at the position just below it |
| Utils.FindFirst | keeper/utils.py:8 | the first row with the id is the one found |
| Utils.MetadataWrite | keeper/utils.py:7-49 | the file `generate_data_file` writes; Utils.MetadataText states its text, and Utils.GenerateDataFile and AdminViews.UploadedMetadataShadowed state where it goes |
| Utils.GenerateDataFile | keeper/utils.py:7-49 | a missing accession or a missing label writes nothing; otherwise `metadata.txt` in the directory gets the filled template and the name is returned |
| AdminViews.ZipStream.Write | keeper/admin_views.py:34 | the archive gains exactly one entry, at the end |
| AdminViews.Filenames | keeper/admin_views.py:27 | one pair per file |
| AdminViews.FilenamesAt | keeper/admin_views.py:27 | the k-th pair is the k-th file's display name and description |
| AdminViews.FileEntries | keeper/admin_views.py:31-34 | one archive entry per listed file |
| AdminViews.FileEntriesAt | keeper/admin_views.py:31-34 | the k-th entry reads the k-th name from the upload directory and stores it under the accession's folder |
| AdminViews.ZipFiles | keeper/admin_views.py:18-40 | no files is a 404 that writes nothing; otherwise the answer streams the files and then the metadata, and the metadata file is written to disk |
| AdminViews.StreamArchive | keeper/admin_views.py:29-40 | a failed metadata write is a server error; otherwise a zip download named `<pk>.zip` with the files, then the metadata |
| AdminViews.WriteFiles | keeper/admin_views.py:31-34 | the archive gains the file entries in order, after the entries it had |
| AdminViews.JoinName | keeper/admin_views.py:32-33 | a directory without a trailing `/` and a name without `/` are joined by exactly one `/` |
| AdminViews.ZipAnswer | keeper/admin_views.py:18-40 | the answer of `zip_files`; AdminViews.ZipEntriesLayout, AdminViews.ZipEntryNames and AdminViews.ArchiveNameId state the entries and the download name |
| AdminViews.ZipEntriesLayout | keeper/admin_views.py:21-36 | one entry per file, stored as `<pk>/<name>` and read from the upload directory, then `metadata.txt` |
| AdminViews.ZipEntryNames | keeper/admin_views.py:31-36 | the archive's names are exactly the files' `<pk>/<name>` and `metadata.txt` |
| AdminViews.NamesThenMetadata | keeper/admin_views.py:31-36 | entries named after the files and then `metadata.txt` carry exactly those names |
| AdminViews.ArchiveNameId | keeper/admin_views.py:29 | the download name is the id in decimal plus `.zip`, and the id reads back from it |
| AdminViews.UploadedMetadataShadowed | keeper/admin_views.py:32-36 | an upload stored as `metadata.txt` is read from the path the metadata entry uses, which is where `generate_data_file` writes the metadata text |
| UploadForm.Accept | src/js/scripts.js:179-187 | a file is kept iff it has at least 1024 bytes; a smaller one is refused with the too-small message |
| UploadForm.DropzoneAccept | src/js/scripts.js:172-187 | a file is accepted iff it has between 1024 bytes and 4000 MiB and fewer than 100 files are accepted; a bigger one is refused as too big, then a full list as too many, then a small one with the too-small message |
| UploadForm.SlicePrefix | src/js/scripts.js:229 | the slice is the first n characters, or the whole string when it is shorter |
| UploadForm.ClientIcon | src/js/scripts.js:235-241 | the icon the upload preview shows; UploadForm.ClientIconMatchesServer states that it is the server's `icon_class` |
| UploadForm.ClientIconMatchesServer | src/js/scripts.js:235-241 | for every table and type the browser picks the icon the server's thumbnail renders |
| UploadForm.ClientImagePrefix | src/js/scripts.js:229 | the client's image test is "starts with `image`" |
| UploadForm.ImageTestsCompared | src/js/scripts.js:229 | the server calls a type an image iff the client does and its sixth character is absent or `/` |
| UploadForm.ImageTestsDisagree | src/js/scripts.js:229 | `imagery/x` is an image to the client and not to the server |
| UploadForm.AddedFilePreview | src/js/scripts.js:223-244 | the `addedfile` preview choice; UploadForm.PreviewMatchesThumb states that its icon is the server's thumbnail icon and that the server's image thumbnail is shown as the image |
| UploadForm.PreviewMatchesThumb | src/js/scripts.js:223-244 | where the client shows an icon, the server's thumbnail is the same icon; where the server shows the image, so does the client |
| UploadForm.TruncateReal | src/js/scripts.js:253 | the integer part, truncated toward zero |
| UploadForm.ProgressCaption | src/js/scripts.js:247-255 | the progress caption; UploadForm.CaptionMeaning states that it is `Processing` exactly at 100 and otherwise the whole percentage and `%` |
| UploadForm.CaptionMeaning | src/js/scripts.js:247-255 | `Processing` exactly at 100; otherwise a number and `%`, the whole percentage for progress in [0, 100) |
| UploadForm.EnableFormButtons | src/js/scripts.js:29-32 | both buttons enabled, nothing else changed |
| UploadForm.DisableFormButtons | src/js/scripts.js:34-37 | both buttons disabled, nothing else changed |
| UploadForm.EnableFormFields | src/js/scripts.js:64-69 | fieldset and descriptions enabled, remove buttons and drop area shown, nothing else changed |
| UploadForm.DisableFormFields | src/js/scripts.js:57-62 | fieldset and descriptions disabled, remove buttons and drop area hidden, nothing else changed |
| UploadForm.ShowProgressBars | src/js/scripts.js:39-42 | both progress bars shown, nothing else changed |
| UploadForm.HideProgressBars | src/js/scripts.js:44-47 | both progress bars hidden, nothing else changed |
| UploadForm.SwitchesInverse | src/js/scripts.js:29-69 | each disable/enable pair undoes the other on a state it started from |
| UploadForm.PropertyText | src/js/scripts.js:97 | a missing key reads as `undefined`; otherwise the first entry's messages joined with commas |
| UploadForm.AlertRoundTrip | src/js/scripts.js:82-88 | the message can be read back from its alert, so different messages give different alerts |
| UploadForm.FieldAlerts | src/js/scripts.js:81-89 | one alert per form-error key |
| UploadForm.FileAlerts | src/js/scripts.js:92-100 | one alert per file-error record |
| UploadForm.FieldAlertsAt | src/js/scripts.js:81-89 | the k-th field alert names the k-th key and its messages |
| UploadForm.FileAlertsAt | src/js/scripts.js:92-100 | the k-th file alert names the k-th file and its `file` errors |
| UploadForm.ErrorAlertsLayout | src/js/scripts.js:72-104 | the field alerts in key order, then the file alerts in record order, each with its field or file and messages |
| UploadForm.Controller.constructor | src/js/scripts.js:163-178 | nothing staged, accepted, queued or sent, no alerts, and the given accepted-types table |
| UploadForm.Controller.QueueFitsOneRequest | src/js/scripts.js:168-173 | the queue never holds more than `parallelUploads` files, all within the size limits |
| UploadForm.Controller.AddedFile | src/js/scripts.js:163-187 | the file is staged, the buttons enabled, the preview chosen by the icon rule, and it is accepted and queued iff Dropzone's limits and the hook pass, with the refusal reported otherwise |
| UploadForm.Controller.DragOver | src/js/scripts.js:209-211 | the hover highlight is on, nothing else changed |
| UploadForm.Controller.DragOut | src/js/scripts.js:212-220 | the hover highlight is off, nothing else changed |
| UploadForm.Controller.SubmitClicked | src/js/scripts.js:193-201 | an invalid form changes nothing; a valid one sends the whole queue as one request, if there is one |
| UploadForm.Controller.ProcessQueue | src/js/scripts.js:168-174 | the first `parallelUploads` queued files go out as one request and lock the form, which with at most `maxFiles` accepted is the whole queue; an empty queue sends nothing |
| UploadForm.Controller.SendingMultiple | src/js/scripts.js:264-268 | the fields are locked and the progress shown |
| UploadForm.Controller.RemoveAllClicked | src/js/scripts.js:203-206 | the staged, accepted and queued lists are emptied, and when there was a file the buttons are disabled and the progress hidden |
| UploadForm.Controller.Reset | src/js/scripts.js:258-261 | the buttons are disabled and the progress hidden |
| UploadForm.Controller.TotalUploadProgress | src/js/scripts.js:247-255 | the bar's width is the progress and its caption the progress caption |
| UploadForm.Controller.SuccessMultiple | src/js/scripts.js:50-55 | success shows the results template and changes nothing else; failure shows the error alerts and unlocks the form |
| UploadForm.Controller.FormErrors | src/js/scripts.js:72-104 | the progress is hidden, the error alerts appended after the old ones, and the fields unlocked |
| IoGeometry.ComputeRectIntersection | keeper/static/keeper/inherit/scripts/unt.js:618-634 | an intersection, when there is one, is a well-formed rectangle inside both arguments |
| IoGeometry.IntersectionCommutes | keeper/static/keeper/inherit/scripts/unt.js:618-634 | the order of the two rectangles does not matter |
| IoGeometry.IntersectionPoints | keeper/static/keeper/inherit/scripts/unt.js:618-634 | a point is in both rectangles iff there is an intersection and the point is in it |
| IoGeometry.IntersectionEmpty | keeper/static/keeper/inherit/scripts/unt.js:618-634 | there is no intersection iff the rectangles share no point |
| IoGeometry.IntersectionLargest | keeper/static/keeper/inherit/scripts/unt.js:618-634 | every rectangle inside both lies inside the intersection |
| IoGeometry.IntersectionIdempotent | keeper/static/keeper/inherit/scripts/unt.js:618-634 | a well-formed rectangle intersected with itself is itself |
| IoGeometry.MakeEntry | keeper/static/keeper/inherit/scripts/unt.js:49-70 | the entry intersects iff there is an intersection rectangle; otherwise it holds the empty rectangle; the other fields are copied |
| IoGeometry.Ratio | keeper/static/keeper/inherit/scripts/unt.js:58-69 | the intersection ratio; IoGeometry.RatioBounds, IoGeometry.RatioWithin and IoGeometry.RatioOfFlatTarget state its range and its values for empty and flat targets |
| IoGeometry.RatioBounds | keeper/static/keeper/inherit/scripts/unt.js:58-69 | for a target with area the ratio is between 0 and 1, 0 without intersection and 1 when the whole target is visible |
| IoGeometry.RatioWithin | keeper/static/keeper/inherit/scripts/unt.js:58-65 | an overlap no larger than the target gives a ratio between 0 and 1 |
| IoGeometry.RatioOfFlatTarget | keeper/static/keeper/inherit/scripts/unt.js:64-69 | a target without area reports 1 iff it intersects, else 0 |
| IoGeometry.ExpandRectByRootMargin | keeper/static/keeper/inherit/scripts/unt.js:447-462 | top and left move out by the first and fourth margins, right and bottom by the second and third; width and height follow the sides |
| IoGeometry.ZeroMarginsIdentity | keeper/static/keeper/inherit/scripts/unt.js:447-462 | zero margins leave a well-formed rectangle unchanged |
| IoGeometry.NonNegativeMarginsGrow | keeper/static/keeper/inherit/scripts/unt.js:447-462 | non-negative margins give a well-formed rectangle containing the original |
| IoGeometry.MarginPixelsNonNegative | keeper/static/keeper/inherit/scripts/unt.js:449-452 | a non-negative margin is a non-negative number of pixels |
| IoGeometry.MarginPixels | keeper/static/keeper/inherit/scripts/unt.js:447-462 | a root margin in pixels; IoGeometry.MarginPixelsNonNegative and IoGeometry.PixelMarginsSize state its sign and how the margins grow the root |
| IoGeometry.PixelMarginsSize | keeper/static/keeper/inherit/scripts/unt.js:447-462 | pixel margins add exactly the side margins to the width and the top and bottom ones to the height |
| IoOptions.ThresholdItems | keeper/static/keeper/inherit/scripts/unt.js:209-210 | a list is used as given; a single truthy value is wrapped; no value, 0 or NaN give `[0]` |
| IoOptions.Numbers | keeper/static/keeper/inherit/scripts/unt.js:212-216 | the numbers the valid items carry, in order |
| IoOptions.Insert | keeper/static/keeper/inherit/scripts/unt.js:212 | inserting into a sorted list keeps it sorted and adds exactly the value |
| IoOptions.SortNumbers | keeper/static/keeper/inherit/scripts/unt.js:212 | the result is sorted and a permutation of the input |
| IoOptions.DropRepeats | keeper/static/keeper/inherit/scripts/unt.js:212-217 | never longer than the input, and it keeps the last value |
| IoOptions.DropRepeatsOfSorted | keeper/static/keeper/inherit/scripts/unt.js:212-217 | a sorted list without repeats is strictly increasing and holds the same values |
| IoOptions.DropRepeatsIncreasing | keeper/static/keeper/inherit/scripts/unt.js:216 | dropping repeats from a sorted list gives a strictly increasing one |
| IoOptions.DropRepeatsValues | keeper/static/keeper/inherit/scripts/unt.js:216 | dropping repeats keeps every value |
| IoOptions.NumbersValues | keeper/static/keeper/inherit/scripts/unt.js:212-216 | a number is among the thresholds' numbers iff an item carries it |
| IoOptions.SortValues | keeper/static/keeper/inherit/scripts/unt.js:212 | sorting keeps every value |
| IoOptions.InitThresholds | keeper/static/keeper/inherit/scripts/unt.js:208-218 | `_initThresholds`; IoOptions.ThresholdsNormalised, IoOptions.DefaultThresholds and IoOptions.ThresholdsIdempotent state when it throws and that it sorts, deduplicates and keeps the values |
| IoOptions.ThresholdsNormalised | keeper/static/keeper/inherit/scripts/unt.js:208-218 | it throws, with the threshold message, iff some item is not a number in [0, 1]; otherwise the result is strictly increasing within [0, 1] and holds exactly the given values |
| IoOptions.DefaultThresholds | keeper/static/keeper/inherit/scripts/unt.js:209 | without an option the thresholds are `[0]` |
| IoOptions.ThresholdsIdempotent | keeper/static/keeper/inherit/scripts/unt.js:208-218 | an already normalised list is kept as it is |
| IoOptions.SortSorted | keeper/static/keeper/inherit/scripts/unt.js:212 | sorting a sorted list changes nothing |
| IoOptions.DropRepeatsNone | keeper/static/keeper/inherit/scripts/unt.js:216 | a strictly increasing list has no repeats to drop |
| IoOptions.WordLength | keeper/static/keeper/inherit/scripts/unt.js:234 | the length of the leading run of non-space characters |
| IoOptions.SpaceLength | keeper/static/keeper/inherit/scripts/unt.js:234 | the length of the leading run of white space |
| IoOptions.SplitSpaces | keeper/static/keeper/inherit/scripts/unt.js:234 | splitting at white space gives at least one piece |
| IoOptions.SplitSpacesJoin | keeper/static/keeper/inherit/scripts/unt.js:234 | words joined by single spaces split back into the same words |
| IoOptions.WordLengthOf | keeper/static/keeper/inherit/scripts/unt.js:234 | a word followed by white space or nothing is a run of exactly its length |
| IoOptions.ParseTokens | keeper/static/keeper/inherit/scripts/unt.js:234-240 | succeeds iff every token parses, and then holds each token's margin in order |
| IoOptions.Shorthand | keeper/static/keeper/inherit/scripts/unt.js:243-245 | right defaults to top, bottom to top, left to right; four or more margins are kept as they are |
| IoOptions.ParseRootMargin | keeper/static/keeper/inherit/scripts/unt.js:222-248 | it throws, with the root-margin message, iff some token is not a number of px or %; otherwise top is the first token, right the second or the top, bottom the third or the top, left the fourth or the right, and with four or more tokens each one is kept in place |
| IoOptions.ParseMarginToken | keeper/static/keeper/inherit/scripts/unt.js:235-239 | one root-margin token; IoOptions.ParseMarginText states that a written whole number of px or % parses back |
| IoOptions.ParseMarginText | keeper/static/keeper/inherit/scripts/unt.js:235-239 | a whole number followed by `px` or `%` parses back to that value and unit |
| IoOptions.ParseIntText | keeper/static/keeper/inherit/scripts/unt.js:239 | `parseFloat` of a written integer is that integer |
| IoOptions.UnsignedWhole | keeper/static/keeper/inherit/scripts/unt.js:235-239 | a string of digits is a valid unsigned number whose value is its decimal reading |
| IoOptions.DefaultRootMargin | keeper/static/keeper/inherit/scripts/unt.js:233 | without a margin every side is zero pixels |
| IoOptions.MarginWords | keeper/static/keeper/inherit/scripts/unt.js:234 | one written word per margin |
| IoOptions.MarginValues | keeper/static/keeper/inherit/scripts/unt.js:239 | one margin value per written margin |
| IoOptions.ParseWrittenMargins | keeper/static/keeper/inherit/scripts/unt.js:232-248 | whole-number margins written with single spaces parse back, with the missing sides filled in by the shorthand |
| IoOptions.MarginTextWord | keeper/static/keeper/inherit/scripts/unt.js:234 | a written margin is one word with no white space |
| IoObserver.WithoutTarget | keeper/static/keeper/inherit/scripts/unt.js:164-168 | the kept items are exactly the items for other targets, never more than before |
| IoObserver.WithoutTargetDistinct | keeper/static/keeper/inherit/scripts/unt.js:164-168 | removing a target keeps the remaining targets distinct |
| IoObserver.CrossedBetween | keeper/static/keeper/inherit/scripts/unt.js:475-498 | a threshold is crossed iff the ratios differ and a threshold lies in the closed range between them, whichever is the old one |
| IoObserver.IndexOf | keeper/static/keeper/inherit/scripts/unt.js:538-541 | -1 iff the observer is not registered, else its first position |
| IoObserver.IntersectionObserver.constructor | keeper/static/keeper/inherit/scripts/unt.js:82-110 | no targets, nothing queued or delivered, and the given root, thresholds and margins |
| IoObserver.IntersectionObserver.RegisterInstance | keeper/static/keeper/inherit/scripts/unt.js:527-531 | the observer is appended to the registry unless already there |
| IoObserver.IntersectionObserver.UnregisterInstance | keeper/static/keeper/inherit/scripts/unt.js:538-541 | the observer leaves the registry; every other observer keeps its membership |
| IoObserver.IntersectionObserver.Observe | keeper/static/keeper/inherit/scripts/unt.js:139-156 | an observed target is a no-op; a non-element throws and changes nothing; an element is appended without an entry and the observer is registered and monitoring |
| IoObserver.IntersectionObserver.Unobserve | keeper/static/keeper/inherit/scripts/unt.js:163-173 | the target is dropped and every other kept; without targets the observer stops and unregisters |
| IoObserver.IntersectionObserver.Disconnect | keeper/static/keeper/inherit/scripts/unt.js:179-183 | no targets remain, monitoring stops, and the observer leaves the registry |
| IoObserver.IntersectionObserver.TakeRecords | keeper/static/keeper/inherit/scripts/unt.js:192-196 | returns the queued entries in order and empties the queue |
| IoObserver.IntersectionObserver.HasCrossedThreshold | keeper/static/keeper/inherit/scripts/unt.js:475-498 | the loop's answer is the crossing test on the old and new comparison ratios |
| IoObserver.IntersectionObserver.ScanTarget | keeper/static/keeper/inherit/scripts/unt.js:317-347 | the new observation and the queued entry of one target are those of the scan of that target |
| IoObserver.IntersectionObserver.ScanTargets | keeper/static/keeper/inherit/scripts/unt.js:316-348 | the targets get the scan's new entries and the scan's entries join the queue after the ones waiting |
| IoObserver.IntersectionObserver.CheckForIntersections | keeper/static/keeper/inherit/scripts/unt.js:312-353 | every target gets its new entry; the queue, with the new entries appended, is delivered once if non-empty and left empty |
| IoObserver.Scan | keeper/static/keeper/inherit/scripts/unt.js:316-348 | one new observation per target |
| IoObserver.ScanOne | keeper/static/keeper/inherit/scripts/unt.js:316-348 | the scan of one target; IoObserver.ScanStep, IoObserver.LeavingTargetReported and IoObserver.CrossedBetween state what it records and queues |
| IoObserver.ScanStep | keeper/static/keeper/inherit/scripts/unt.js:316-348 | scanning one more target appends its observation and its queued entries |
| IoObserver.ScanKeepsElements | keeper/static/keeper/inherit/scripts/unt.js:316-348 | a scan keeps every target in place and gives each an entry |
| IoObserver.ScanDistinct | keeper/static/keeper/inherit/scripts/unt.js:316-348 | a scan keeps distinct targets distinct |
| IoObserver.FirstScanQueuesAll | keeper/static/keeper/inherit/scripts/unt.js:320-333 | the first scan of new targets queues one entry per target, in order, the one each target now holds |
| IoObserver.LeavingTargetReported | keeper/static/keeper/inherit/scripts/unt.js:340-346 | a target that was intersecting and is no longer in the root queues an entry with ratio 0, not intersecting |
| IoObserver.NewIntersectionObserver | keeper/static/keeper/inherit/scripts/unt.js:82-110 | a non-function callback, a non-element root, a bad margin and a bad threshold throw, checked in that order; otherwise an empty observer that keeps the given root, with the parsed margins and thresholds and nothing delivered |
| LibUtils.OnceGuard.constructor | keeper/static/keeper/inherit/scripts/unt.js:760-770 | nothing has run yet, and the delay is the given one, or 1000 ms when it is absent or zero |
| LibUtils.OnceGuard.Call | keeper/static/keeper/inherit/scripts/unt.js:762-767 | the first call runs the callback and later calls do not, so it has run exactly once |
| LibUtils.InvertAuthorLength | keeper/static/keeper/inherit/scripts/unt.js:977-982 | the result is one character longer than the trimmed query when it has a space, two longer when not |
| LibUtils.InvertAuthor | keeper/static/keeper/inherit/scripts/unt.js:977-982 | the invert-author handler; LibUtils.InvertAuthorWords and LibUtils.InvertAuthorLength state that the last word moves to the front, followed by a comma |
| LibUtils.InvertAuthorWords | keeper/static/keeper/inherit/scripts/unt.js:977-982 | space-separated words, with any white space around them, come back as the last word, a comma and space, then the others in order |
| Typeaheads.BuildTypeaheadOptions | keeper/static/keeper/inherit/scripts/typeaheads.js:11-23 | `buildTypeaheadOptions`; Typeaheads.OptionsDependOnlyOnCount states its fixed settings and that it depends only on the count |
| Typeaheads.OptionsDependOnlyOnCount | keeper/static/keeper/inherit/scripts/typeaheads.js:11-23 | highlighting is always on and the class names fixed; two counts give the same options iff they are equal, a missing count counting as 0 |
| Typeaheads.ListItems | keeper/static/keeper/inherit/scripts/typeaheads.js:49 | a list text has at least one item |
| Typeaheads.DropSpaces | keeper/static/keeper/inherit/scripts/typeaheads.js:49 | one item per piece |
| Typeaheads.Spaced | keeper/static/keeper/inherit/scripts/typeaheads.js:49 | one piece per item |
| Typeaheads.SplitAfterChar | keeper/static/keeper/inherit/scripts/typeaheads.js:49 | a character other than the separator joins the first piece |
| Typeaheads.SplitCommaJoin | keeper/static/keeper/inherit/scripts/typeaheads.js:49 | splitting a `", "`-joined list at commas gives the first item, then the others each led by a space |
| Typeaheads.ListItemsOfJoin | keeper/static/keeper/inherit/scripts/typeaheads.js:49 | a `", "`-joined list of comma-free items reads back as those items |
| Typeaheads.DropSpacesSpaced | keeper/static/keeper/inherit/scripts/typeaheads.js:49 | dropping the leading space undoes adding it |
| Typeaheads.FaqTransform | keeper/static/keeper/inherit/scripts/typeaheads.js:40-53 | one datum per search result |
| Typeaheads.FaqTransformMeaning | keeper/static/keeper/inherit/scripts/typeaheads.js:42-51 | each datum keeps the result's id, question and url, and its topics text reads back as the result's topics |
| Typeaheads.SubjectTransform | keeper/static/keeper/inherit/scripts/typeaheads.js:98-107 | one subject per response entry |
| Typeaheads.Names | keeper/static/keeper/inherit/scripts/typeaheads.js:213-215 | one name per subject |
| Typeaheads.SubjectSearch | keeper/static/keeper/inherit/scripts/typeaheads.js:111-118 | `subjectSearchWithDefaults`; Typeaheads.SubjectDefaults states that the empty query lists every prefetched subject in order and any other query is the search's answer |
| Typeaheads.SubjectDefaults | keeper/static/keeper/inherit/scripts/typeaheads.js:111-118 | an empty query gives every prefetched subject with its id and name; any other query is the search's answer |
| Typeaheads.StringToNumber | keeper/static/keeper/inherit/scripts/typeaheads.js:208 | the unary `+` on the proxy flag; Typeaheads.ProxyFlagStrings states the flag values that enable the proxy |
| Typeaheads.ProxyFlagStrings | keeper/static/keeper/inherit/scripts/typeaheads.js:208 | `"1"` and 1 enable the proxy; `"0"`, `""` and a missing flag do not |
| Typeaheads.CloseIndex | keeper/static/keeper/inherit/scripts/typeaheads.js:207 | the position of the first `>` from a start, or the end |
| Typeaheads.TagAt | keeper/static/keeper/inherit/scripts/typeaheads.js:207 | a tag match starts with `<`, ends with `>` and has at least one character between |
| Typeaheads.StripTags | keeper/static/keeper/inherit/scripts/typeaheads.js:207 | stripping never lengthens the text and keeps only its characters |
| Typeaheads.StripTagsNoTag | keeper/static/keeper/inherit/scripts/typeaheads.js:207 | the stripped text holds no tag |
| Typeaheads.ConsNoTag | keeper/static/keeper/inherit/scripts/typeaheads.js:207 | a character that does not start a tag, before tag-free text, leaves it tag-free |
| Typeaheads.KeptBracket | keeper/static/keeper/inherit/scripts/typeaheads.js:207 | a `<` that starts no tag starts none after the rest is stripped |
| Typeaheads.StripTagsIdentity | keeper/static/keeper/inherit/scripts/typeaheads.js:207 | text without a tag is unchanged |
| Typeaheads.ReplaceQuotes | keeper/static/keeper/inherit/scripts/typeaheads.js:207 | same length, and no `"` left |
| Typeaheads.CloseIndexSameBrackets | keeper/static/keeper/inherit/scripts/typeaheads.js:207 | texts with `<` and `>` in the same places find the same closing bracket |
| Typeaheads.ReplaceQuotesNoTag | keeper/static/keeper/inherit/scripts/typeaheads.js:207 | replacing quotes creates no tag |
| Typeaheads.DescriptionClean | keeper/static/keeper/inherit/scripts/typeaheads.js:207 | a cleaned description has no tag and no `"`, and cleaning it again changes nothing |
| Typeaheads.SubjectsTextMeaning | keeper/static/keeper/inherit/scripts/typeaheads.js:211-215 | empty iff there are no subjects; otherwise the prefix followed by a list that reads back as the subject names |
| Typeaheads.DbTransform | keeper/static/keeper/inherit/scripts/typeaheads.js:206-227 | one datum per database |
| Typeaheads.DbDatumOf | keeper/static/keeper/inherit/scripts/typeaheads.js:206-226 | the database transform of one option; Typeaheads.DbDatumMeaning states each field it builds |
| Typeaheads.DbDatumMeaning | keeper/static/keeper/inherit/scripts/typeaheads.js:206-226 | id, name and alternate names kept; the description clean; the url gains the proxy prefix iff the proxy flag is numerically true; the new and trial texts are set iff the flag is exactly 1; subjects empty iff none |
| Typeaheads.BuildIndex | keeper/static/keeper/inherit/scripts/typeaheads.js:175-179 | every indexed datum is stored under its own id and comes from the data, and every datum's id is indexed |
| Typeaheads.IndexGet | keeper/static/keeper/inherit/scripts/typeaheads.js:187 | never more data than ids |
| Typeaheads.IndexGetFromData | keeper/static/keeper/inherit/scripts/typeaheads.js:187 | everything returned comes from the data and has one of the asked ids |
| Typeaheads.IndexGetAll | keeper/static/keeper/inherit/scripts/typeaheads.js:187 | when every id is held, one datum per id in the asked order |
| Typeaheads.DatabaseSearch | keeper/static/keeper/inherit/scripts/typeaheads.js:185-193 | `databaseSearchWithDefaults`; Typeaheads.DatabaseDefaults states that the empty query gives only best bets from the data, all six in order when all are held, and any other query is the search's answer |
| Typeaheads.DatabaseDefaults | keeper/static/keeper/inherit/scripts/typeaheads.js:185-193 | an empty query returns only best bets from the data, all six in order when all are held; any other query is the search's answer |
| Typeaheads.NeedsRefetch | keeper/static/keeper/inherit/scripts/typeaheads.js:196 | the stale-cache test; Typeaheads.FreshForOneDay states that stored data expires exactly one day after it was fetched |
| Typeaheads.FreshForOneDay | keeper/static/keeper/inherit/scripts/typeaheads.js:196-232 | stored data expires exactly one day after it was fetched |
| Typeaheads.AzCache.constructor | keeper/static/keeper/inherit/scripts/typeaheads.js:170-171 | the cache starts from the session storage's entries, with an empty index |
| Typeaheads.AzCache.Load | keeper/static/keeper/inherit/scripts/typeaheads.js:196-235 | missing or stale data is refetched, transformed, stored for a day with the searching placeholder; fresh data is kept; either way the index is built from the stored data and it is fresh afterwards |
| Typeaheads.GuideTransform | keeper/static/keeper/inherit/scripts/typeaheads.js:338-354 | one datum per guide |
| Typeaheads.LowerAsciiConcat | keeper/static/keeper/inherit/scripts/typeaheads.js:349 | lower-casing works character by character |
| Typeaheads.TypeMachine | keeper/static/keeper/inherit/scripts/typeaheads.js:349 | the machine type of a guide; Typeaheads.TypeMachineOfWords, Typeaheads.TypeMachineOneToken and Typeaheads.CourseGuideType state its form |
| Typeaheads.TypeMachineOfWords | keeper/static/keeper/inherit/scripts/typeaheads.js:349 | for a two-word label only the first space becomes `-`, then `-` and the type id follow |
| Typeaheads.TypeMachineOneToken | keeper/static/keeper/inherit/scripts/typeaheads.js:349 | a label of at most two words gives a machine type without spaces |
| Typeaheads.ReplaceFirstNoMatch | keeper/static/keeper/inherit/scripts/typeaheads.js:349 | replacing a missing character changes nothing |
| Typeaheads.GuideTransformMeaning | keeper/static/keeper/inherit/scripts/typeaheads.js:343-351 | id, name and type label kept; the url is a non-empty friendly url or else the plain one; the subjects text reads back as the subject names |
| Typeaheads.CourseGuideType | keeper/static/keeper/inherit/scripts/typeaheads.js:349 | the "Course Guide" type with id 2 becomes `course-guide-2` |
| Typeaheads.CoursesQuery | keeper/static/keeper/inherit/scripts/typeaheads.js:359-361 | `coursesSource`'s query; Typeaheads.CourseGuideToken states that it is the query followed by a space and the course-guide machine type |
| Typeaheads.CourseGuideToken | keeper/static/keeper/inherit/scripts/typeaheads.js:359-361 | the course search asks for the query followed by the course-guide machine type |
| Text.JoinSplit | keeper/static/keeper/inherit/scripts/unt.js:978-980 | joining the pieces of a split with the separator gives the text back, and no piece holds the separator |
| Text.SplitJoin | keeper/utils.py:9 | splitting a joined list of separator-free pieces gives the pieces back |
| Text.ReplaceFirstSpec | keeper/static/keeper/inherit/scripts/typeaheads.js:349 | a string replacement with a one-character pattern changes only the first occurrence |
| Text.TrimAround | keeper/static/keeper/inherit/scripts/unt.js:978 | `trim` removes exactly the white space around the text |
| Text.ParseNatToString | keeper/admin.py:53 | the decimal rendering of a count reads back as the count |
| Text.PadZerosValue | keeper/utils.py:53 | zero padding a field keeps it all digits and keeps its value |

## Left out

- I/O is not modelled: python-magic sniffing, reading the upload, the file system, the zip stream's lazy reading, HTTP, JSONP and API requests, and session and local storage. Each is an input or an abstract class field.
- Django's ORM, ModelForm and reCAPTCHA validation are not modelled. The rows are sequences in `Models.Database` with contiguous ids, no deletion is modelled, and form validity is an error-dictionary input.
- `Views.Submit` does not model `render_to_string`: the results template is an input string.
- The DOM walk of the polyfill is a `Measurement` input per target: `_computeTargetAndRootIntersection`, `getBoundingClientRect`, `containsDeep` and `_rootIsInDom`.
- `_getRootRect` for the document root (viewport size) is an input rectangle.
- Timers, `throttle`, `setTimeout`, mutation observers, and the scroll and resize listeners of `_monitorIntersections` are not modelled. Only whether the observer is monitoring is kept.
- The observer's callback is modelled as the log of the batches it is handed.
- `performance.now()` and `Date` are a `now` parameter.
- IoObserver.IntersectionObserver.constructor: the public `rootMargin` string (the margins written back with spaces) is not kept; only the parsed margins are.
- Models.Database.FilesOf: `File.objects.filter(accession=pk)` names no order, and `File` declares no `Meta.ordering` (only `Accession` does, by submission date). The model takes the query to return the files in the order they were inserted, so the order of the archive's entries in AdminViews.ZipEntriesLayout rests on that choice.
- IoOptions.SortNumbers: JavaScript's `sort()` compares numbers as strings. That order agrees with numeric order for thresholds in [0, 1] written in plain decimal. It differs for values below 1e-6, which print in exponent form. The model sorts numerically, and the set of thresholds and the crossing test do not depend on the order.
- IoOptions.ParseRootMargin: `parseFloat` is modelled for the decimal forms the margin pattern admits. Exponent forms cannot match that pattern.
- Typeaheads.StringToNumber: the unary `+` on a string is modelled for trimmed plain decimals with an optional sign. Exponent notation, `Infinity`, hexadecimal and a trailing point such as `"1."` are read as NaN.
- Typeaheads.TypeMachine: `toLowerCase` is modelled for ASCII letters only.
- Text.TrimAround: it is proved for text whose ends are not white space and whose surroundings are all white space, which is what the invert-author lemma needs.
- Bloodhound's index and search are not modelled. A non-empty query's answer is the search function's result. `index.all()` is taken to return the prefetched subjects in the order they were sent. `get(ids)` is taken to skip ids it does not hold.
- Typeaheads.AzCache.Load: the response's round trip through JSON in session storage is taken to give the stored list back. The asynchronous request is applied at once.
- The `acceptedFiles` option Dropzone receives from the page template is not modelled. Only Dropzone's size and count limits and the `accept` hook's size rule filter the queue.
- UploadForm.DropzoneAccept: Dropzone's own refusal texts (the too-big text with the size in MiB, the too-many text) are the constructors `FileTooBig` and `MaxFilesExceeded`, not strings. The `maxfilesexceeded` and `maxfilesreached` events are not modelled.
- UploadForm.Controller.ProcessQueue: Dropzone leaves out of a call the slots of files still uploading from an earlier request; the model has no in-flight state and gives every call all `parallelUploads` slots.
- Dropzone internals (thumbnails, per-file progress, retries and `errormultiple`) are not modelled. Neither are Parsley's field rules (validity is an input), Bootstrap tooltips, scrolling or Google Analytics.
- UploadForm.TruncateReal: `parseInt` of a progress value is modelled as truncation toward zero. A progress printed in exponent form (below 1e-6) would parse differently.
- Utils.FormatDatetime: `timezone.localtime` is not modelled; the date-time is already local and carries its zone name. Years below 1000, which `%Y` prints without padding, are left out of the layout lemmas.
- Validators.ValidateFileSize: the error message renders the limit in GiB. It is proved for whole-GiB limits (`4.0`); Python's float rendering of other quotients is not modelled.
- Models.Database.SaveAccession: ids are natural numbers handed out in sequence; the database's own key generation is not modelled.
- Models.ValidFileName: `\w` is modelled for ASCII letters and digits; Django keeps other Unicode letters and digits too. Names that clean to `""`, `"."` or `".."`, which newer Django versions refuse, and the truncation of over-long names are not modelled.
- Views.NewFiles: when the storage already holds a file under the cleaned name (two uploads in one submission that clean to the same name), it adds a random suffix to the later one. That renaming is not modelled; such rows get the same name here.
- Views.NewFilesKeepNames: it is stated only for an upload whose cleaned name no earlier upload of the submission shares, because of that suffix.
- Models.FileStrOfUpload: it is stated for the cleaned name, with the same exception for names already taken.
- AdminViews.ZipFiles: the URL's `pk` is any text without `/`; the model takes it to be the decimal text of a natural number. Text such as `007` (which finds accession 7 but builds the paths `uploads/007` and `007.zip`) or `abc` (a `ValueError` in the query) is not modelled.
- JavaScript numbers are modelled as Dafny `real` in `IoGeometry` and `IoOptions`: rounding of double arithmetic, NaN and infinities are not modelled.
- The polyfill's early exit when the browser supports Intersection Observer natively, and the `isIntersecting` getter it then adds for Edge 15 (`unt.js` lines 14-31), are not modelled; the model is the polyfill itself.
- `fnmatch` is modelled for `*` only. `?`, character classes and case normalisation are left out, because the accepted-types table uses `*` only.
- Build tooling, URL configuration, settings, forms, migrations, context processors and template tags are not modelled, because they hold no logic to state.
