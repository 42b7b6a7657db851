/** keeper/models.py: the two stored records (an accession and its uploaded
    files), their choice tables, the display strings the admin shows and the
    icon or thumbnail chosen for a file. The database that stores them is a
    class whose sequences the views and admin actions update. */
module Models {
  import opened Text
  import opened PosixPath
  import opened Glob
  import opened Wrappers
  import opened Constants
  import opened Validators

  /** A local date and time as Django hands it to `strftime`. */
  datatype DateTime = DateTime(year: nat, month: nat, day: nat, hour: nat, minute: nat, zone: string)

  datatype Accession = Accession(
    id: nat,
    dateSubmitted: DateTime,
    dateLastUpdated: DateTime,
    description: string,
    firstName: string,
    lastName: string,
    affiliation: string,
    organizationName: string,
    emailAddress: string,
    phoneNumber: string,
    adminNotes: string,
    accessionStatus: string)

  /** A stored file: `name` is the storage path, `accessionId` the foreign key. */
  datatype FileRecord = FileRecord(name: string, accessionId: nat, fileDescription: string, contentType: string)

  const New: string := "NEW"
  const Review: string := "REV"
  const Accepted: string := "ACC"
  const Rejected: string := "REJ"

  /** `Accession.STATUS_CHOICES`, code to label, in declaration order. */
  const StatusChoices: Table := [(New, "New"), (Review, "Under Review"), (Accepted, "Accepted"), (Rejected, "Rejected")]

  /** `Accession.AFFILIATION_CHOICES`. */
  const AffiliationChoices: Table :=
    [("STU", "Student"), ("FAC", "Faculty"), ("STA", "Staff"), ("ALU", "Alumni"), ("OTH", "Other")]

  /** The display label of a status code: `get_accession_status_display`,
      and the first matching entry of `STATUS_CHOICES`. */
  function StatusLabel(code: string): (r: Option<string>)
    ensures r.None? <==> code !in Keys(StatusChoices)
  {
    Lookup(StatusChoices, code)
  }

  /** The display label of an affiliation code. */
  function AffiliationLabel(code: string): (r: Option<string>)
    ensures r.None? <==> code !in Keys(AffiliationChoices)
  {
    Lookup(AffiliationChoices, code)
  }

  lemma StatusChoicesDistinct()
    ensures DistinctKeys(StatusChoices)
  {
    assert forall i :: 0 <= i < 4 ==> |StatusChoices[i].0| == 3;
  }

  lemma AffiliationChoicesDistinct()
    ensures DistinctKeys(AffiliationChoices)
  {
    assert forall i :: 0 <= i < 5 ==> |AffiliationChoices[i].0| == 3;
  }

  /** Each status code has the label its choice entry gives it. */
  lemma StatusLabels()
    ensures StatusLabel(New) == Some("New")
    ensures StatusLabel(Review) == Some("Under Review")
    ensures StatusLabel(Accepted) == Some("Accepted")
    ensures StatusLabel(Rejected) == Some("Rejected")
  {
    StatusChoicesDistinct();
    LookupAt(StatusChoices, 0);
    LookupAt(StatusChoices, 1);
    LookupAt(StatusChoices, 2);
    LookupAt(StatusChoices, 3);
  }

  /** `Accession.full_name`: first and last name with one space between. */
  function FullName(a: Accession): string
  {
    a.firstName + " " + a.lastName
  }

  /** The full name splits back into its parts at its first space, when the
      first name holds no space. */
  lemma FullNameParts(a: Accession)
    requires ' ' !in a.firstName
    ensures BeforeFirst(FullName(a), ' ') == a.firstName
    ensures FullName(a)[|a.firstName| + 1..] == a.lastName
  {
    BeforeFirstOfPiece(a.firstName, ' ', a.lastName);
  }

  /** `Accession.__str__`: the id, a space, the last name. */
  function AccessionStr(a: Accession): string
  {
    NatToString(a.id) + " " + a.lastName
  }

  /** The id can be read back from the leading number of the display string. */
  lemma AccessionStrId(a: Accession)
    ensures var head := BeforeFirst(AccessionStr(a), ' ');
      (forall i :: 0 <= i < |head| ==> IsDigit(head[i])) && ParseDigits(head) == a.id
  {
    var digits := NatToString(a.id);
    assert forall k :: 0 <= k < |digits| ==> digits[k] != ' ';
    BeforeFirstOfPiece(digits, ' ', a.lastName);
    ParseNatToString(a.id);
  }

  /** `file_upload_location`: `uploads/<accession id>/<filename>`. */
  function FileUploadLocation(accessionId: nat, filename: string): string
  {
    Join3("uploads", NatToString(accessionId), filename)
  }

  /** For a relative file name the location is the literal
      `uploads/<id>/<filename>`, and its basename is the file name again. */
  lemma UploadLocationShape(accessionId: nat, filename: string)
    requires !(|filename| > 0 && filename[0] == Sep)
    ensures FileUploadLocation(accessionId, filename) == "uploads/" + NatToString(accessionId) + "/" + filename
    ensures Sep !in filename ==> Basename(FileUploadLocation(accessionId, filename)) == filename
  {
    var id := NatToString(accessionId);
    assert IsDigit(id[0]);
    var dir := PosixPath.Join("uploads", id);
    assert dir == "uploads/" + id;
    assert dir[|dir| - 1] == id[|id| - 1];
    assert IsDigit(id[|id| - 1]);
    if Sep !in filename {
      BasenameAfterSep(dir, filename);
    }
  }

  // ----- the name the file storage keeps -----

  /** The white space Python's `str.strip()` removes (`str.isspace`). */
  predicate IsPySpace(ch: char)
  {
    ch == ' ' || ('\t' <= ch <= '\r') || ('\U{001C}' <= ch <= '\U{001F}') || ch == '\U{0085}' || ch == '\U{00A0}'
    || ch == '\U{1680}' || ('\U{2000}' <= ch <= '\U{200A}') || ch == '\U{2028}' || ch == '\U{2029}'
    || ch == '\U{202F}' || ch == '\U{205F}' || ch == '\U{3000}'
  }

  /** `s.strip()`: leading and trailing white space removed. */
  function PyStrip(s: string): (r: string)
    ensures r == [] || (!IsPySpace(r[0]) && !IsPySpace(r[|r| - 1]))
  {
    if |s| > 0 && IsPySpace(s[0]) then PyStrip(s[1..])
    else if |s| > 0 && IsPySpace(s[|s| - 1]) then PyStrip(s[..|s| - 1])
    else s
  }

  /** A character of the class `[-\w.]` (ASCII letters and digits here). */
  predicate IsNameChar(ch: char)
  {
    ('a' <= ch <= 'z') || ('A' <= ch <= 'Z') || IsDigit(ch) || ch == '_' || ch == '-' || ch == '.'
  }

  /** `.replace(' ', '_')` followed by `re.sub(r'(?u)[^-\w.]', '', ...)`:
      each space becomes `_`, each other character outside the class goes. */
  function CleanName(s: string): (r: string)
    ensures |r| <= |s|
    ensures forall i :: 0 <= i < |r| ==> IsNameChar(r[i])
  {
    if |s| == 0 then ""
    else
      var ch := s[|s| - 1];
      CleanName(s[..|s| - 1]) + (if ch == ' ' then "_" else if IsNameChar(ch) then [ch] else "")
  }

  /** Django's `get_valid_filename`, which the file storage applies to the
      name part of the `upload_to` path: strip, then clean. */
  function ValidFileName(name: string): (r: string)
    ensures forall i :: 0 <= i < |r| ==> IsNameChar(r[i])
    ensures Sep !in r
  {
    CleanName(PyStrip(name))
  }

  /** A name made of class characters only is stored unchanged. */
  lemma {:induction false} CleanNameKeepsValid(s: string)
    requires forall i :: 0 <= i < |s| ==> IsNameChar(s[i])
    ensures CleanName(s) == s
  {
    if |s| > 0 {
      var init := s[..|s| - 1];
      assert forall i :: 0 <= i < |init| ==> init[i] == s[i];
      CleanNameKeepsValid(init);
      assert s[|s| - 1] != ' ';
      assert init + [s[|s| - 1]] == s;
    }
  }

  lemma ValidFileNameKeepsValid(name: string)
    requires forall i :: 0 <= i < |name| ==> IsNameChar(name[i])
    ensures ValidFileName(name) == name
  {
    if |name| > 0 {
      assert !IsPySpace(name[0]) && !IsPySpace(name[|name| - 1]);
    }
    CleanNameKeepsValid(name);
  }

  /** Cleaning works character by character. */
  lemma {:induction false} CleanNameConcat(a: string, b: string)
    ensures CleanName(a + b) == CleanName(a) + CleanName(b)
  {
    if |b| > 0 {
      var init := b[..|b| - 1];
      assert (a + b)[..|a + b| - 1] == a + init;
      CleanNameConcat(a, init);
    } else {
      assert a + b == a;
    }
  }

  /** A space between two valid words turns into an underscore: `"my
      photo.jpg"` is stored as `"my_photo.jpg"`. */
  lemma ValidFileNameSpace(a: string, b: string)
    requires |a| > 0 && |b| > 0
    requires forall i :: 0 <= i < |a| ==> IsNameChar(a[i])
    requires forall i :: 0 <= i < |b| ==> IsNameChar(b[i])
    ensures ValidFileName(a + " " + b) == a + "_" + b
  {
    var name := a + " " + b;
    assert name[0] == a[0] && name[|name| - 1] == b[|b| - 1];
    assert PyStrip(name) == name;
    CleanNameConcat(a + " ", b);
    CleanNameConcat(a, " ");
    CleanNameKeepsValid(a);
    CleanNameKeepsValid(b);
    assert CleanName(" ") == "_" by {
      assert " "[..0] == "";
    }
  }

  /** The path the storage saves an upload to: `file_upload_location` with
      the name part made valid. */
  function StoredName(accessionId: nat, filename: string): string
  {
    FileUploadLocation(accessionId, ValidFileName(filename))
  }

  /** The saved path is `uploads/<id>/` followed by the valid file name. */
  lemma StoredNameShape(accessionId: nat, filename: string)
    ensures StoredName(accessionId, filename) == "uploads/" + NatToString(accessionId) + "/" + ValidFileName(filename)
  {
    UploadLocationShape(accessionId, ValidFileName(filename));
  }

  /** `File.get_filename`: the basename of the stored name. */
  function GetFilename(f: FileRecord): string
  {
    Basename(f.name)
  }

  /** `File.__str__` is the file name, so a file stored by
      `file_upload_location` displays as the name it was uploaded under. */
  function FileStr(f: FileRecord): (r: string)
    ensures Sep !in r
    ensures r == GetFilename(f)
  {
    GetFilename(f)
  }

  /** A stored upload displays as its valid file name. */
  lemma FileStrOfUpload(accessionId: nat, filename: string, description: string, contentType: string)
    ensures FileStr(FileRecord(StoredName(accessionId, filename), accessionId, description, contentType))
      == ValidFileName(filename)
  {
    UploadLocationShape(accessionId, ValidFileName(filename));
  }

  // ----- icon and thumbnail -----

  /** `content_type.split('/')[0]`. */
  function MajorType(contentType: string): string
  {
    BeforeFirst(contentType, '/')
  }

  /** The wildcard key for a major type: the major type, a slash, a star. */
  function WildcardKey(major: string): string
  {
    major + "/*"
  }

  /** The table entry `icon_thumb` uses: the exact content type if it is a
      key, else the major-type wildcard if that is a key, else none. */
  function IconLookup(table: Table, contentType: string): Option<string>
  {
    if contentType in Keys(table) then Lookup(table, contentType)
    else Lookup(table, WildcardKey(MajorType(contentType)))
  }

  /** `icon_thumb`'s icon class, `file-o` when the table has no entry. */
  function IconClass(table: Table, contentType: string): string
  {
    match IconLookup(table, contentType)
    case Some(icon) => icon
    case None => "file-o"
  }

  /** The exact key wins even when a wildcard key for the same major type
      exists; without an exact key the wildcard decides; with neither the
      fallback applies. */
  lemma IconRule(table: Table, contentType: string)
    ensures contentType in Keys(table) ==>
      (exists i :: 0 <= i < |table| && table[i] == (contentType, IconClass(table, contentType)))
    ensures contentType !in Keys(table) && WildcardKey(MajorType(contentType)) in Keys(table) ==>
      (exists i :: 0 <= i < |table| && table[i] == (WildcardKey(MajorType(contentType)), IconClass(table, contentType)))
    ensures contentType !in Keys(table) && WildcardKey(MajorType(contentType)) !in Keys(table) ==>
      IconClass(table, contentType) == "file-o"
  {
  }

  /** A table whose keys are literal types or a literal major type followed
      by slash-star, as the accepted-types table is. */
  predicate WellFormedKeys(table: Table)
  {
    forall i :: 0 <= i < |table| ==> WellFormedKey(table[i].0)
  }

  predicate WellFormedKey(key: string)
  {
    NoStar(key) || (|key| >= 2 && key[|key| - 2..] == "/*" && NoStar(key[..|key| - 2]) && Sep !in key[..|key| - 2])
  }

  /** The wildcard key of a literal major type is well formed. */
  lemma WildcardKeyWellFormed(m: string)
    requires NoStar(m) && Sep !in m
    ensures WellFormedKey(m + "/*")
  {
    var key := m + "/*";
    assert key[..|key| - 2] == m;
  }

  /** The shipped table's keys are all well formed. */
  lemma AcceptedFileTypesKeys()
    ensures WellFormedKeys(AcceptedFileTypes)
  {
    var t := AcceptedFileTypes;
    forall i | 0 <= i < |t|
      ensures WellFormedKey(t[i].0)
    {
      if i < 3 {
        var m := if i == 0 then "image" else if i == 1 then "video" else "audio";
        assert t[i].0 == m + "/*";
        WildcardKeyWellFormed(m);
      }
    }
  }

  /** A type matching the wildcard key of a literal `m` without `/` has `m` as its
      major type. */
  lemma WildcardMatchMajor(t: string, m: string)
    requires NoStar(m) && Sep !in m
    requires Match(t, m + "/*")
    ensures MajorType(t) == m
  {
    assert m + "/*" == (m + "/") + "*";
    PrefixPattern(t, m + "/");
    assert t[..|m| + 1] == m + "/";
    assert t == m + [Sep] + t[|m| + 1..];
    BeforeFirstOfPiece(m, Sep, t[|m| + 1..]);
  }

  /** A type containing `/` matches the wildcard key of its own major type,
      when that major type holds no star. */
  lemma MatchOwnWildcard(t: string)
    requires Sep in t && NoStar(MajorType(t))
    ensures Match(t, WildcardKey(MajorType(t)))
  {
    var major := MajorType(t);
    BeforeFirstShape(t, Sep);
    var k :| 0 <= k < |t| && t[k] == Sep;
    assert forall j :: 0 <= j < |major| ==> t[j] == major[j] && major[j] != Sep;
    assert |major| <= k;
    assert t[..|major| + 1] == major + "/";
    PrefixPattern(t, major + "/");
    assert WildcardKey(major) == (major + "/") + "*";
  }

  /** A type the validator accepts always has a table icon. */
  lemma AcceptedHasIcon(table: Table, contentType: string)
    requires WellFormedKeys(table)
    requires Accepts(table, contentType)
    ensures IconLookup(table, contentType).Some?
  {
    var i :| 0 <= i < |table| && Match(contentType, table[i].0);
    var key := table[i].0;
    assert key == Keys(table)[i];
    if NoStar(key) {
      LiteralPattern(contentType, key);
    } else {
      var m := key[..|key| - 2];
      assert key == m + "/*";
      WildcardMatchMajor(contentType, m);
    }
  }

  /** A type containing `/` that has a table icon is accepted. */
  lemma IconMeansAccepted(table: Table, contentType: string)
    requires WellFormedKeys(table)
    requires Sep in contentType && IconLookup(table, contentType).Some?
    ensures Accepts(table, contentType)
  {
    if contentType in Keys(table) {
      var i :| 0 <= i < |Keys(table)| && Keys(table)[i] == contentType;
      MatchSelf(contentType);
      assert Match(contentType, table[i].0);
    } else {
      var key := WildcardKey(MajorType(contentType));
      var i :| 0 <= i < |Keys(table)| && Keys(table)[i] == key;
      assert table[i].0 == key;
      assert key[..|key| - 2] == MajorType(contentType);
      MatchOwnWildcard(contentType);
    }
  }

  /** With the shipped table, a PDF gets the PDF icon. */
  lemma ShippedIconExact()
    ensures IconClass(AcceptedFileTypes, "application/pdf") == "file-pdf"
  {
    AcceptedKeys();
    AcceptedFileTypesWellFormed();
    LookupAt(AcceptedFileTypes, 4);
  }

  datatype Thumb = ImageThumb | IconThumb(iconClass: string)

  /** `clickable_thumb`: the image itself for an image type, the icon
      otherwise. */
  function ClickableThumb(table: Table, contentType: string): Thumb
  {
    if MajorType(contentType) == "image" then ImageThumb
    else IconThumb(IconClass(table, contentType))
  }

  /** The image thumbnail is chosen exactly for `image` and `image/...`. */
  lemma {:induction false} ClickableThumbImage(table: Table, contentType: string)
    ensures ClickableThumb(table, contentType) == ImageThumb <==>
      contentType == "image" || StartsWith(contentType, "image/")
  {
    BeforeFirstShape(contentType, '/');
    var major := MajorType(contentType);
    if contentType == "image" {
      SplitNoSeparator("image", '/');
    } else if StartsWith(contentType, "image/") {
      assert contentType == "image" + [Sep] + contentType[6..];
      BeforeFirstOfPiece("image", Sep, contentType[6..]);
    }
    if major == "image" && contentType != "image" {
      assert |contentType| > 5 && contentType[5] == '/';
      assert contentType[..6] == "image/";
    }
  }

  // ----- the database -----

  /** The rows are consistent: the auto-increment key hands out 1, 2, 3, ...
      in order and no row is deleted here, so the accession stored at
      position `i` has id `i + 1` and the next id is one past the last; every
      file points at a stored accession. */
  predicate ValidRows(accessions: seq<Accession>, files: seq<FileRecord>, nextId: nat)
  {
    nextId == |accessions| + 1
    && (forall i :: 0 <= i < |accessions| ==> accessions[i].id == i + 1)
    && (forall k :: 0 <= k < |files| ==> 1 <= files[k].accessionId < nextId)
  }

  /** Consistent rows never share an id, and the accession a file points at
      is stored, at the position just below its id. */
  lemma ValidRowsKeys(accessions: seq<Accession>, files: seq<FileRecord>, nextId: nat)
    requires ValidRows(accessions, files, nextId)
    ensures forall i, j :: 0 <= i < j < |accessions| ==> accessions[i].id < accessions[j].id
    ensures forall k :: 0 <= k < |files| ==>
      1 <= files[k].accessionId <= |accessions| && accessions[files[k].accessionId - 1].id == files[k].accessionId
  {
  }

  /** Appending a row under the next id keeps the rows consistent. */
  lemma ValidRowsAppend(accessions: seq<Accession>, files: seq<FileRecord>, nextId: nat, a: Accession, accessions': seq<Accession>)
    requires ValidRows(accessions, files, nextId) && a.id == nextId
    requires accessions' == accessions + [a]
    ensures ValidRows(accessions', files, nextId + 1)
  {
  }

  /** Adding a file of a stored accession keeps the rows consistent. */
  lemma ValidRowsAddFile(accessions: seq<Accession>, files: seq<FileRecord>, nextId: nat, f: FileRecord, files': seq<FileRecord>)
    requires ValidRows(accessions, files, nextId) && 1 <= f.accessionId < nextId
    requires files' == files + [f]
    ensures ValidRows(accessions, files', nextId)
  {
    assert forall k :: 0 <= k < |files'| ==> files'[k] == f || files'[k] == files[k];
  }

  /** The rows the views and the admin read and write. */
  class Database {
    var accessions: seq<Accession>
    var files: seq<FileRecord>
    var nextId: nat

    ghost predicate Valid()
      reads this
    {
      ValidRows(accessions, files, nextId)
    }

    /** A stored accession has this id: the ids handed out so far. */
    predicate HasAccession(id: nat)
      reads this
    {
      1 <= id < nextId
    }

    constructor ()
      ensures Valid() && accessions == [] && files == [] && nextId == 1
    {
      accessions := [];
      files := [];
      nextId := 1;
    }

    /** `accession.save()` for a new row: the next id is assigned. */
    method SaveAccession(a: Accession) returns (saved: Accession)
      requires Valid()
      modifies this
      ensures Valid()
      ensures saved == a.(id := old(nextId)) && saved.id >= 1
      ensures accessions == old(accessions) + [saved] && files == old(files)
      ensures nextId == old(nextId) + 1
      ensures HasAccession(saved.id)
    {
      saved := a.(id := nextId);
      ghost var before := accessions;
      accessions := accessions + [saved];
      ValidRowsAppend(before, files, nextId, saved, accessions);
      nextId := nextId + 1;
    }

    /** `File(...).save()`: the record is appended. */
    method SaveFile(f: FileRecord)
      requires Valid() && HasAccession(f.accessionId)
      modifies this`files
      ensures Valid()
      ensures files == old(files) + [f]
    {
      ghost var before := files;
      files := files + [f];
      ValidRowsAddFile(accessions, before, nextId, f, files);
    }

    /** `File.objects.filter(accession=pk)`: the files of one accession, in
        storage order. */
    function FilesOf(accessionId: nat): (r: seq<FileRecord>)
      reads this
      ensures forall k :: 0 <= k < |r| ==> r[k].accessionId == accessionId && r[k] in files
      ensures |r| == 0 <==> forall k :: 0 <= k < |files| ==> files[k].accessionId != accessionId
      ensures forall k :: 0 <= k < |files| && files[k].accessionId == accessionId ==> files[k] in r
    {
      Filter(files, accessionId)
    }
  }

  /** The records of `fs` that belong to `accessionId`: all of them and
      only them, in the order of `fs` (see `FilterConcat`). */
  function Filter(fs: seq<FileRecord>, accessionId: nat): (r: seq<FileRecord>)
    ensures forall k :: 0 <= k < |r| ==> r[k].accessionId == accessionId && r[k] in fs
    ensures forall k :: 0 <= k < |fs| && fs[k].accessionId == accessionId ==> fs[k] in r
    ensures |r| == 0 <==> forall k :: 0 <= k < |fs| ==> fs[k].accessionId != accessionId
    ensures |r| <= |fs|
  {
    if |fs| == 0 then []
    else
      var init := fs[..|fs| - 1];
      assert forall k :: 0 <= k < |init| ==> init[k] == fs[k];
      var rest := Filter(init, accessionId);
      if fs[|fs| - 1].accessionId == accessionId then rest + [fs[|fs| - 1]] else rest
  }

  /** Filtering two stretches of records one after the other filters their
      concatenation: the order of the records is kept. */
  lemma {:induction false} FilterConcat(a: seq<FileRecord>, b: seq<FileRecord>, accessionId: nat)
    ensures Filter(a + b, accessionId) == Filter(a, accessionId) + Filter(b, accessionId)
  {
    if |b| == 0 {
      assert a + b == a;
    } else {
      var init := b[..|b| - 1];
      assert (a + b)[..|a + b| - 1] == a + init;
      FilterConcat(a, init, accessionId);
    }
  }

  /** A file of the accession between two stretches keeps its place. */
  lemma FilterKeepsPlace(a: seq<FileRecord>, f: FileRecord, b: seq<FileRecord>)
    ensures Filter(a + [f] + b, f.accessionId) == Filter(a, f.accessionId) + [f] + Filter(b, f.accessionId)
  {
    FilterConcat(a + [f], b, f.accessionId);
    FilterConcat(a, [f], f.accessionId);
    assert [f][..0] == [];
  }
}
