/** keeper/utils.py: `format_datetime` and `generate_data_file`, which lays
    out the metadata of one accession as text and writes it as
    `metadata.txt` into the accession's upload directory. Timezone
    conversion happens before formatting and is not modelled: dates arrive
    in local time. */
module Utils {
  import opened Text
  import opened Wrappers
  import opened Constants
  import PosixPath
  import opened Models

  // ----- format_datetime: '%Y-%m-%d %I:%M %p  %Z' -----

  /** A date and time a `datetime` object can hold. */
  predicate ValidDateTime(dt: DateTime)
  {
    1 <= dt.month <= 12 && 1 <= dt.day <= 31 && dt.hour < 24 && dt.minute < 60
  }

  /** `%I`: the hour on the 12-hour clock, 12 at midnight and at noon. */
  function Hour12(hour: nat): (h: nat)
    ensures 1 <= h <= 12
  {
    if hour % 12 == 0 then 12 else hour % 12
  }

  /** `%p`. */
  function Meridiem(hour: nat): string
  {
    if hour < 12 then "AM" else "PM"
  }

  /** A field of at least two digits, zero padded (`%m`, `%d`, `%I`, `%M`). */
  function TwoDigits(n: nat): string
  {
    PadZeros(NatToString(n), 2)
  }

  /** `%Y-%m-%d`. */
  function DatePart(dt: DateTime): string
  {
    NatToString(dt.year) + "-" + TwoDigits(dt.month) + "-" + TwoDigits(dt.day)
  }

  /** `%I:%M`. */
  function TimePart(dt: DateTime): string
  {
    TwoDigits(Hour12(dt.hour)) + ":" + TwoDigits(dt.minute)
  }

  function FormatDatetime(dt: DateTime): string
  {
    DatePart(dt) + " " + TimePart(dt) + " " + Meridiem(dt.hour) + "  " + dt.zone
  }

  /** The 12-hour clock and the meridiem together determine the hour. */
  lemma TwelveHourRoundTrip(hour: nat)
    requires hour < 24
    ensures hour == Hour12(hour) % 12 + (if Meridiem(hour) == "PM" then 12 else 0)
  {
  }

  /** Below 100, the two-digit field is two digits that read back as `n`. */
  lemma TwoDigitsValue(n: nat)
    requires n < 100
    ensures var s := TwoDigits(n);
      |s| == 2 && (forall i :: 0 <= i < 2 ==> IsDigit(s[i])) && ParseDigits(s) == n
  {
    ParseNatToString(n);
    PadZerosValue(NatToString(n), 2);
    if n >= 10 {
      assert |NatToString(n / 10)| == 1;
    }
  }

  /** The rendering of a four-digit year is four digits. */
  lemma YearDigits(year: nat)
    requires 1000 <= year <= 9999
    ensures |NatToString(year)| == 4
  {
    var y1 := year / 10;
    var y2 := y1 / 10;
    var y3 := y2 / 10;
    assert 1 <= y3 < 10 && 10 <= y2 < 100 && 100 <= y1 < 1000;
    assert |NatToString(y2)| == 2;
    assert |NatToString(y1)| == 3;
  }

  /** Where the year, month and day sit in the date. */
  lemma DatePartLayout(dt: DateTime)
    requires 1000 <= dt.year <= 9999 && ValidDateTime(dt)
    ensures var d := DatePart(dt);
      |d| == 10 && d[..4] == NatToString(dt.year) && d[4] == '-' && d[5..7] == TwoDigits(dt.month)
      && d[7] == '-' && d[8..] == TwoDigits(dt.day)
  {
    YearDigits(dt.year);
    TwoDigitsValue(dt.month);
    TwoDigitsValue(dt.day);
  }

  /** Where the hour and minute sit in the time. */
  lemma TimePartLayout(dt: DateTime)
    requires ValidDateTime(dt)
    ensures var t := TimePart(dt);
      |t| == 5 && t[..2] == TwoDigits(Hour12(dt.hour)) && t[2] == ':' && t[3..] == TwoDigits(dt.minute)
  {
    TwoDigitsValue(Hour12(dt.hour));
    TwoDigitsValue(dt.minute);
  }

  /** Where each part of the rendering sits, for a four-digit year. */
  lemma FormatDatetimeLayout(dt: DateTime)
    requires 1000 <= dt.year <= 9999 && ValidDateTime(dt)
    ensures var r := FormatDatetime(dt);
      |r| == 21 + |dt.zone| && r[..10] == DatePart(dt) && r[10] == ' ' && r[11..16] == TimePart(dt)
      && r[16] == ' ' && r[17..19] == Meridiem(dt.hour) && r[19..21] == "  " && r[21..] == dt.zone
  {
    DatePartLayout(dt);
    TimePartLayout(dt);
    var d, t, m := DatePart(dt), TimePart(dt), Meridiem(dt.hour);
    assert |m| == 2;
    var r := FormatDatetime(dt);
    assert r == (d + " " + t + " ") + (m + "  " + dt.zone);
    var front := d + " " + t + " ";
    assert |front| == 17 && front[..10] == d && front[10] == ' ' && front[11..16] == t && front[16] == ' ';
    var back := m + "  " + dt.zone;
    assert back[..2] == m && back[2..4] == "  " && back[4..] == dt.zone;
  }

  /** Two date-times with four-digit years render alike only when they are
      the same: every field can be read back from the text. */
  lemma FormatDatetimeInjective(d1: DateTime, d2: DateTime)
    requires 1000 <= d1.year <= 9999 && ValidDateTime(d1)
    requires 1000 <= d2.year <= 9999 && ValidDateTime(d2)
    requires FormatDatetime(d1) == FormatDatetime(d2)
    ensures d1 == d2
  {
    FormatDatetimeLayout(d1);
    FormatDatetimeLayout(d2);
    DatePartLayout(d1);
    DatePartLayout(d2);
    TimePartLayout(d1);
    TimePartLayout(d2);
    NatToStringInjective(d1.year, d2.year);
    TwoDigitsValue(d1.month);
    TwoDigitsValue(d2.month);
    TwoDigitsValue(d1.day);
    TwoDigitsValue(d2.day);
    TwoDigitsValue(Hour12(d1.hour));
    TwoDigitsValue(Hour12(d2.hour));
    TwoDigitsValue(d1.minute);
    TwoDigitsValue(d2.minute);
    TwelveHourRoundTrip(d1.hour);
    TwelveHourRoundTrip(d2.hour);
  }

  /** 2023-08-12 15:30 UTC renders with a 12-hour `03 PM` and two spaces
      before the zone. */
  lemma FormatDatetimeExample()
    ensures FormatDatetime(DateTime(2023, 8, 12, 15, 30, "UTC")) == "2023-08-12 03:30 PM  UTC"
  {
    var dt := DateTime(2023, 8, 12, 15, 30, "UTC");
    ExampleDate(dt);
    ExampleTime(dt);
  }

  lemma ExampleDate(dt: DateTime)
    requires dt.year == 2023 && dt.month == 8 && dt.day == 12
    ensures DatePart(dt) == "2023-08-12"
  {
    assert NatToString(2023) == "2023" by {
      assert NatToString(2) == "2";
      assert NatToString(20) == "20";
      assert NatToString(202) == "202";
    }
    assert TwoDigits(8) == "08";
    assert TwoDigits(12) == "12" by {
      assert NatToString(1) == "1";
    }
  }

  lemma ExampleTime(dt: DateTime)
    requires dt.hour == 15 && dt.minute == 30
    ensures TimePart(dt) == "03:30"
  {
    assert TwoDigits(3) == "03";
    assert TwoDigits(30) == "30" by {
      assert NatToString(3) == "3";
    }
  }

  // ----- related_files -----

  /** `"{0}\n{1}".format(name, description)`. */
  function FileLine(f: (string, string)): string
  {
    f.0 + "\n" + f.1
  }

  function FileLines(filenames: seq<(string, string)>): (lines: seq<string>)
    ensures |lines| == |filenames|
    ensures forall k :: 0 <= k < |filenames| ==> lines[k] == FileLine(filenames[k])
  {
    if |filenames| == 0 then [] else [FileLine(filenames[0])] + FileLines(filenames[1..])
  }

  /** `related_files`: the file lines joined by newlines, in input order. */
  function RelatedFiles(filenames: seq<(string, string)>): (r: string)
    ensures filenames == [] ==> r == ""
  {
    Join(FileLines(filenames), "\n")
  }

  /** Name, description, name, description, ... */
  function Flatten(filenames: seq<(string, string)>): (r: seq<string>)
    ensures |r| == 2 * |filenames|
    ensures forall k :: 0 <= k < |filenames| ==> r[2 * k] == filenames[k].0 && r[2 * k + 1] == filenames[k].1
  {
    if |filenames| == 0 then [] else [filenames[0].0, filenames[0].1] + Flatten(filenames[1..])
  }

  /** `related_files` is the names and descriptions, each on its own line. */
  lemma {:induction false} RelatedFilesLines(filenames: seq<(string, string)>)
    requires |filenames| >= 1
    ensures RelatedFiles(filenames) == Join(Flatten(filenames), "\n")
  {
    var f := filenames[0];
    var rest := filenames[1..];
    assert Flatten(filenames) == [f.0] + ([f.1] + Flatten(rest));
    if |rest| == 0 {
      assert FileLines(filenames) == [FileLine(f)];
    } else {
      RelatedFilesLines(rest);
      assert FileLines(filenames) == [FileLine(f)] + FileLines(rest);
      var tail := Join(Flatten(rest), "\n");
      assert Join([f.1] + Flatten(rest), "\n") == f.1 + "\n" + tail;
      assert Join(Flatten(filenames), "\n") == f.0 + "\n" + (f.1 + "\n" + tail);
    }
  }

  /** When no name or description holds a newline, splitting `related_files`
      at newlines gives back every name and description in order. */
  lemma RelatedFilesRoundTrip(filenames: seq<(string, string)>)
    requires |filenames| >= 1
    requires forall k :: 0 <= k < |filenames| ==> '\n' !in filenames[k].0 && '\n' !in filenames[k].1
    ensures Split(RelatedFiles(filenames), '\n') == Flatten(filenames)
  {
    RelatedFilesLines(filenames);
    FlattenNoNewline(filenames);
    SplitJoin(Flatten(filenames), '\n');
  }

  lemma {:induction false} FlattenNoNewline(filenames: seq<(string, string)>)
    requires forall k :: 0 <= k < |filenames| ==> '\n' !in filenames[k].0 && '\n' !in filenames[k].1
    ensures forall i :: 0 <= i < |Flatten(filenames)| ==> '\n' !in Flatten(filenames)[i]
  {
    if |filenames| > 0 {
      FlattenNoNewline(filenames[1..]);
      assert Flatten(filenames) == [filenames[0].0, filenames[0].1] + Flatten(filenames[1..]);
    }
  }

  // ----- the metadata text -----

  /** The `context` dictionary: every placeholder's text. */
  datatype MetadataContext = MetadataContext(
    accessionId: string, downloadDate: string, dateSubmitted: string, accessionStatus: string,
    dateLastUpdated: string, donorName: string, affiliation: string, emailAddress: string,
    phoneNumber: string, adminNotes: string, description: string, relatedFiles: string)

  /** The lines of `file_template` with the placeholders filled; the
      template ends with a newline, hence the empty last line. */
  function TemplateLines(c: MetadataContext): (lines: seq<string>)
    ensures |lines| == 19
  {
    ["Accession: " + c.accessionId,
     "Download date: " + c.downloadDate,
     "Date submitted: " + c.dateSubmitted,
     "",
     "Status: " + c.accessionStatus,
     "Date last updated: " + c.dateLastUpdated,
     "",
     "Donor name: " + c.donorName,
     "Affiliation: " + c.affiliation,
     "Email: " + c.emailAddress,
     "Phone: " + c.phoneNumber,
     "",
     "Admin notes: " + c.adminNotes,
     "",
     "Accession description: " + c.description,
     "",
     "Included files:",
     c.relatedFiles,
     ""]
  }

  /** `file_template.format(**context)`. */
  function FillTemplate(c: MetadataContext): string
  {
    Join(TemplateLines(c), "\n")
  }

  /** Every inner line of the template appears in the text as a whole line. */
  lemma TemplateHasLine(c: MetadataContext, i: nat)
    requires 0 < i < 18
    ensures IsInfix("\n" + TemplateLines(c)[i] + "\n", FillTemplate(c))
  {
    var lines := TemplateLines(c);
    JoinAround(lines, i, "\n");
    InfixOfConcat(Join(lines[..i], "\n"), "\n" + lines[i] + "\n", Join(lines[i + 1..], "\n"));
  }

  /** The donor's lines, each whole. */
  lemma TemplateShowsDonor(c: MetadataContext)
    ensures var text := FillTemplate(c);
      IsInfix("\n" + ("Donor name: " + c.donorName) + "\n", text)
      && IsInfix("\n" + ("Email: " + c.emailAddress) + "\n", text)
      && IsInfix("\n" + ("Phone: " + c.phoneNumber) + "\n", text)
  {
    TemplateHasLine(c, 7);
    TemplateHasLine(c, 9);
    TemplateHasLine(c, 10);
  }

  /** The label lines, each whole. */
  lemma TemplateShowsLabels(c: MetadataContext)
    ensures var text := FillTemplate(c);
      IsInfix("\n" + ("Affiliation: " + c.affiliation) + "\n", text)
      && IsInfix("\n" + ("Status: " + c.accessionStatus) + "\n", text)
      && IsInfix("\n" + ("Date submitted: " + c.dateSubmitted) + "\n", text)
  {
    TemplateHasLine(c, 8);
    TemplateHasLine(c, 4);
    TemplateHasLine(c, 2);
  }

  /** The dates, the notes and the description, each on a whole line. */
  lemma TemplateShowsNotes(c: MetadataContext)
    ensures var text := FillTemplate(c);
      IsInfix("\n" + ("Download date: " + c.downloadDate) + "\n", text)
      && IsInfix("\n" + ("Date last updated: " + c.dateLastUpdated) + "\n", text)
      && IsInfix("\n" + ("Admin notes: " + c.adminNotes) + "\n", text)
      && IsInfix("\n" + ("Accession description: " + c.description) + "\n", text)
  {
    TemplateHasLine(c, 1);
    TemplateHasLine(c, 5);
    TemplateHasLine(c, 12);
    TemplateHasLine(c, 14);
  }

  /** The filled template opens with the accession line. */
  lemma TemplateStart(c: MetadataContext)
    ensures StartsWith(FillTemplate(c), "Accession: " + c.accessionId + "\n")
  {
    var lines := TemplateLines(c);
    assert Join(lines, "\n") == lines[0] + "\n" + Join(lines[1..], "\n");
  }

  /** The filled template ends with the file list after `Included files:`
      and a final newline. */
  lemma TemplateEnd(c: MetadataContext)
    ensures EndsWith(FillTemplate(c), "\n" + "Included files:" + "\n" + c.relatedFiles + "\n")
  {
    var lines := TemplateLines(c);
    var tail := lines[16..];
    JoinConcat(lines[..16], tail, "\n");
    assert lines[..16] + tail == lines;
    assert tail == ["Included files:", c.relatedFiles, ""];
    assert tail[1..] == [c.relatedFiles, ""] && tail[1..][1..] == [""];
    assert Join(tail[1..], "\n") == c.relatedFiles + "\n" + "";
    assert Join(tail, "\n") == "Included files:" + "\n" + (c.relatedFiles + "\n" + "");
    var suffix := "\n" + "Included files:" + "\n" + c.relatedFiles + "\n";
    assert FillTemplate(c) == Join(lines[..16], "\n") + suffix;
  }

  /** The context of one accession; `None` is the `IndexError` of a code
      without a choice entry, where the first matching entry gives the
      label. */
  function ContextOf(a: Accession, downloadDate: DateTime, filenames: seq<(string, string)>): (r: Option<MetadataContext>)
    ensures r.None? <==> AffiliationLabel(a.affiliation).None? || StatusLabel(a.accessionStatus).None?
    ensures r.Some? ==>
      r.value.accessionId == NatToString(a.id) && r.value.donorName == FullName(a)
      && r.value.emailAddress == a.emailAddress && r.value.phoneNumber == a.phoneNumber
      && r.value.affiliation == AffiliationLabel(a.affiliation).value
      && r.value.accessionStatus == StatusLabel(a.accessionStatus).value
      && r.value.dateSubmitted == FormatDatetime(a.dateSubmitted)
      && r.value.relatedFiles == RelatedFiles(filenames)
      && r.value.downloadDate == FormatDatetime(downloadDate)
      && r.value.dateLastUpdated == FormatDatetime(a.dateLastUpdated)
      && r.value.adminNotes == a.adminNotes && r.value.description == a.description
  {
    var affiliation := AffiliationLabel(a.affiliation);
    var status := StatusLabel(a.accessionStatus);
    if affiliation.None? || status.None? then None
    else Some(MetadataContext(NatToString(a.id), FormatDatetime(downloadDate), FormatDatetime(a.dateSubmitted),
                              status.value, FormatDatetime(a.dateLastUpdated), FullName(a), affiliation.value,
                              a.emailAddress, a.phoneNumber, a.adminNotes, a.description, RelatedFiles(filenames)))
  }

  /** The text `generate_data_file` writes, or the `IndexError` raised when
      the affiliation or the status code has no choice entry. */
  datatype Metadata = Rendered(text: string) | NoSuchChoice

  /** The text opens with the accession id on a line of its own; the
      donor's name, email and phone, the affiliation and status by their
      labels, the three dates, the admin notes and the description each
      appear on a whole line; and the text ends with the file list after
      `Included files:`. A code without a choice entry gives the error. */
  function MetadataText(a: Accession, downloadDate: DateTime, filenames: seq<(string, string)>): (r: Metadata)
    ensures r.NoSuchChoice? <==> AffiliationLabel(a.affiliation).None? || StatusLabel(a.accessionStatus).None?
    ensures r.Rendered? ==>
      StartsWith(r.text, "Accession: " + NatToString(a.id) + "\n")
      && IsInfix("\n" + ("Download date: " + FormatDatetime(downloadDate)) + "\n", r.text)
      && IsInfix("\n" + ("Date submitted: " + FormatDatetime(a.dateSubmitted)) + "\n", r.text)
      && IsInfix("\n" + ("Status: " + StatusLabel(a.accessionStatus).value) + "\n", r.text)
      && IsInfix("\n" + ("Date last updated: " + FormatDatetime(a.dateLastUpdated)) + "\n", r.text)
      && IsInfix("\n" + ("Donor name: " + FullName(a)) + "\n", r.text)
      && IsInfix("\n" + ("Affiliation: " + AffiliationLabel(a.affiliation).value) + "\n", r.text)
      && IsInfix("\n" + ("Email: " + a.emailAddress) + "\n", r.text)
      && IsInfix("\n" + ("Phone: " + a.phoneNumber) + "\n", r.text)
      && IsInfix("\n" + ("Admin notes: " + a.adminNotes) + "\n", r.text)
      && IsInfix("\n" + ("Accession description: " + a.description) + "\n", r.text)
      && EndsWith(r.text, "\n" + "Included files:" + "\n" + RelatedFiles(filenames) + "\n")
  {
    match ContextOf(a, downloadDate, filenames)
    case None => NoSuchChoice
    case Some(c) =>
      TemplateStart(c);
      TemplateShowsDonor(c);
      TemplateShowsLabels(c);
      TemplateShowsNotes(c);
      TemplateEnd(c);
      Rendered(FillTemplate(c))
  }

  predicate EndsWith(s: string, suffix: string)
  {
    |suffix| <= |s| && s[|s| - |suffix|..] == suffix
  }

  // ----- generate_data_file -----

  /** The part of the filesystem the exports write to: path to contents. */
  class Disk {
    var contents: map<string, string>

    constructor ()
      ensures contents == map[]
    {
      contents := map[];
    }

    /** `open(path, 'w').write(text)`. */
    method Write(path: string, text: string)
      modifies this
      ensures contents == old(contents)[path := text]
    {
      contents := contents[path := text];
    }
  }

  /** `Accession.objects.get(pk=pk)`: the row with that id, if any. */
  function FindAccession(accessions: seq<Accession>, pk: nat): (r: Option<Accession>)
    ensures r.Some? ==> r.value in accessions && r.value.id == pk
    ensures r.None? <==> forall i :: 0 <= i < |accessions| ==> accessions[i].id != pk
  {
    if |accessions| == 0 then None
    else if accessions[0].id == pk then Some(accessions[0])
    else FindAccession(accessions[1..], pk)
  }

  /** In consistent rows, the accession with id `pk` is found exactly when
      the id was handed out, at the position just below it. */
  lemma FindStored(accessions: seq<Accession>, files: seq<FileRecord>, nextId: nat, pk: nat)
    requires ValidRows(accessions, files, nextId)
    ensures FindAccession(accessions, pk).Some? <==> 1 <= pk < nextId
    ensures 1 <= pk < nextId ==> FindAccession(accessions, pk) == Some(accessions[pk - 1])
  {
    if 1 <= pk < nextId {
      FindFirst(accessions, pk, pk - 1);
    }
  }

  /** Ids that increase along the list are found where they are stored. */
  lemma {:induction false} FindFirst(accessions: seq<Accession>, pk: nat, i: nat)
    requires i < |accessions| && accessions[i].id == pk
    requires forall j :: 0 <= j < i ==> accessions[j].id != pk
    ensures FindAccession(accessions, pk) == Some(accessions[i])
  {
    if i > 0 {
      FindFirst(accessions[1..], pk, i - 1);
    }
  }

  /** The file `generate_data_file` writes, as its disk path and text:
      none when the accession is missing or one of its codes has no label. */
  function MetadataWrite(accessions: seq<Accession>, pk: nat, path: string, filenames: seq<(string, string)>, now: DateTime)
    : Option<(string, string)>
  {
    var accession := FindAccession(accessions, pk);
    if accession.None? then None
    else
      var meta := MetadataText(accession.value, now, filenames);
      if meta.NoSuchChoice? then None else Some((PosixPath.Join(path, MetadataName), meta.text))
  }

  /** What `generate_data_file` ends with. */
  datatype DataFileResult = Written(name: string) | NoSuchAccession | LabelMissing

  /** `generate_data_file(app, model, pk, path, filenames)`: fetch the
      accession, fill the template and write it to `path/metadata.txt`;
      the answer is always the name `metadata.txt`. The clock reading for the
      download date is a parameter. */
  method GenerateDataFile(db: Database, disk: Disk, pk: nat, path: string, filenames: seq<(string, string)>, now: DateTime)
    returns (r: DataFileResult)
    modifies disk
    ensures var w := MetadataWrite(db.accessions, pk, path, filenames, now);
      r == (if FindAccession(db.accessions, pk).None? then NoSuchAccession else if w.None? then LabelMissing else Written(MetadataName))
      && disk.contents == (if w.Some? then old(disk.contents)[w.value.0 := w.value.1] else old(disk.contents))
  {
    var accession := FindAccession(db.accessions, pk);
    if accession.None? {
      return NoSuchAccession;
    }
    var meta := MetadataText(accession.value, now, filenames);
    if meta.NoSuchChoice? {
      return LabelMissing;
    }
    disk.Write(PosixPath.Join(path, MetadataName), meta.text);
    return Written(MetadataName);
  }

  const MetadataName: string := "metadata.txt"
}
