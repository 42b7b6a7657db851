/** keeper/admin_views.py: `zip_files`, the admin download of one
    accession's files. The archive holds every stored file under
    `<pk>/<filename>` in query order, then the generated `metadata.txt`.
    Streaming and compression are not modelled: the archive is the list of
    entries written into it, each a source path and an archive name. */
module AdminViews {
  import opened Text
  import opened Constants
  import PosixPath
  import opened Models
  import opened Utils

  /** The `zipstream.ZipFile` being filled: `(source path, archive name)`
      per `write`, in order. */
  class ZipStream {
    var entries: seq<(string, string)>

    constructor ()
      ensures entries == []
    {
      entries := [];
    }

    /** `z.write(path, arcname)`. */
    method Write(source: string, arcname: string)
      modifies this
      ensures entries == old(entries) + [(source, arcname)]
    {
      entries := entries + [(source, arcname)];
    }
  }

  /** What the view answers: a 404, a server error (the metadata step
      raised), or the streamed archive with its headers. */
  datatype ZipResponse =
    | NotFound
    | ServerError
    | Download(contentType: string, contentDisposition: string, entries: seq<(string, string)>)

  /** `filenames`: the display name and description of each file. */
  function Filenames(files: seq<FileRecord>): (r: seq<(string, string)>)
    ensures |r| == |files|
  {
    if |files| == 0 then [] else Filenames(files[..|files| - 1]) + [(FileStr(files[|files| - 1]), files[|files| - 1].fileDescription)]
  }

  /** One entry per file: read from the upload directory, stored under the
      accession's folder in the archive. */
  function FileEntries(path: string, pkText: string, filenames: seq<(string, string)>): (r: seq<(string, string)>)
    ensures |r| == |filenames|
  {
    if |filenames| == 0 then []
    else
      var last := filenames[|filenames| - 1].0;
      FileEntries(path, pkText, filenames[..|filenames| - 1]) + [(PosixPath.Join(path, last), PosixPath.Join(pkText, last))]
  }

  /** `filenames` lists every file, in order, by its display name. */
  lemma {:induction false} FilenamesAt(files: seq<FileRecord>)
    ensures forall k :: 0 <= k < |files| ==> Filenames(files)[k] == (FileStr(files[k]), files[k].fileDescription)
  {
    if |files| > 0 {
      var init := files[..|files| - 1];
      var last := files[|files| - 1];
      FilenamesAt(init);
      assert Filenames(files) == Filenames(init) + [(FileStr(last), last.fileDescription)];
      forall k | 0 <= k < |files| - 1
        ensures Filenames(files)[k] == (FileStr(files[k]), files[k].fileDescription)
      {
        assert files[k] == init[k];
      }
    }
  }

  /** The k-th file entry reads the k-th name from `path` and stores it
      under `pkText`. */
  lemma {:induction false} FileEntriesAt(path: string, pkText: string, filenames: seq<(string, string)>)
    ensures forall k :: 0 <= k < |filenames| ==>
      FileEntries(path, pkText, filenames)[k] == (PosixPath.Join(path, filenames[k].0), PosixPath.Join(pkText, filenames[k].0))
  {
    if |filenames| > 0 {
      var init := filenames[..|filenames| - 1];
      FileEntriesAt(path, pkText, init);
      forall k | 0 <= k < |filenames| - 1
        ensures FileEntries(path, pkText, filenames)[k] == (PosixPath.Join(path, filenames[k].0), PosixPath.Join(pkText, filenames[k].0))
      {
        assert filenames[k] == init[k];
      }
    }
  }

  /** `os.path.join(settings.MEDIA_ROOT, 'uploads', pk)`. */
  function UploadDir(mediaRoot: string, pk: nat): string
  {
    PosixPath.Join3(mediaRoot, "uploads", NatToString(pk))
  }

  /** `"{}.zip".format(pk)`. */
  function ArchiveName(pk: nat): string
  {
    NatToString(pk) + ".zip"
  }

  /** The archive for the files listed in `filenames`: one entry per file,
      then the metadata. */
  function ArchiveEntries(mediaRoot: string, pk: nat, filenames: seq<(string, string)>): seq<(string, string)>
  {
    var path := UploadDir(mediaRoot, pk);
    FileEntries(path, NatToString(pk), filenames) + [(PosixPath.Join(path, MetadataName), MetadataName)]
  }

  /** Every entry of the archive of `files`. */
  function ZipEntries(mediaRoot: string, pk: nat, files: seq<FileRecord>): seq<(string, string)>
  {
    ArchiveEntries(mediaRoot, pk, Filenames(files))
  }

  /** What `zip_files` answers for accession `pk`, given whether
      `generate_data_file` managed to write the metadata. */
  function ZipAnswer(files: seq<FileRecord>, mediaRoot: string, pk: nat, metadataWritten: bool): ZipResponse
  {
    var queried := Filter(files, pk);
    if |queried| == 0 then NotFound
    else if !metadataWritten then ServerError
    else Download("application/zip", "attachment; filename=" + ArchiveName(pk), ZipEntries(mediaRoot, pk, queried))
  }

  /** `zip_files(request, app, model, pk)`: no files is a 404; otherwise
      one entry per file in query order, then the metadata file that
      `generate_data_file` writes next to the uploads. The URL's `pk` is
      the decimal text of the id; the clock reading is a parameter. */
  method ZipFiles(db: Database, disk: Disk, mediaRoot: string, pk: nat, now: DateTime) returns (r: ZipResponse)
    modifies disk
    ensures var w := MetadataWrite(db.accessions, pk, UploadDir(mediaRoot, pk), Filenames(db.FilesOf(pk)), now);
      r == ZipAnswer(db.files, mediaRoot, pk, w.Some?)
      && disk.contents == (if db.FilesOf(pk) != [] && w.Some? then old(disk.contents)[w.value.0 := w.value.1] else old(disk.contents))
  {
    var queriedFiles := db.FilesOf(pk);
    if |queriedFiles| == 0 {
      return NotFound;
    }
    r := StreamArchive(db, disk, mediaRoot, pk, Filenames(queriedFiles), now);
  }

  /** The part of `zip_files` after the 404 check: the files in order, then
      the metadata file that `generate_data_file` writes, under the name
      `<pk>.zip`; a failure to write the metadata is a server error. */
  method StreamArchive(db: Database, disk: Disk, mediaRoot: string, pk: nat, filenames: seq<(string, string)>, now: DateTime)
    returns (r: ZipResponse)
    modifies disk
    ensures var w := MetadataWrite(db.accessions, pk, UploadDir(mediaRoot, pk), filenames, now);
      r == (if w.Some? then Download("application/zip", "attachment; filename=" + ArchiveName(pk), ArchiveEntries(mediaRoot, pk, filenames))
            else ServerError)
      && disk.contents == (if w.Some? then old(disk.contents)[w.value.0 := w.value.1] else old(disk.contents))
  {
    var z := new ZipStream();
    var pkText := NatToString(pk);
    var path := PosixPath.Join3(mediaRoot, "uploads", pkText);
    assert path == UploadDir(mediaRoot, pk);
    var zipFilename := ArchiveName(pk);
    WriteFiles(z, path, pkText, filenames);
    ghost var listed := z.entries;
    assert listed == FileEntries(UploadDir(mediaRoot, pk), NatToString(pk), filenames);
    var source := PosixPath.Join(path, MetadataName);
    ghost var archive := ArchiveEntries(mediaRoot, pk, filenames);
    assert archive == listed + [(source, MetadataName)];
    var written := GenerateDataFile(db, disk, pk, path, filenames, now);
    if !written.Written? {
      return ServerError;
    }
    z.Write(source, written.name);
    assert z.entries == archive;
    r := Download("application/zip", "attachment; filename=" + zipFilename, z.entries);
  }

  /** The loop of `zip_files` over `filenames`: each file is read from
      `path` and stored under the accession's folder. */
  method WriteFiles(z: ZipStream, path: string, pkText: string, filenames: seq<(string, string)>)
    modifies z
    ensures z.entries == old(z.entries) + FileEntries(path, pkText, filenames)
  {
    var i := 0;
    while i < |filenames|
      invariant 0 <= i <= |filenames|
      invariant z.entries == old(z.entries) + FileEntries(path, pkText, filenames[..i])
    {
      var thisFile := filenames[i];
      z.Write(PosixPath.Join(path, thisFile.0), PosixPath.Join(pkText, thisFile.0));
      assert filenames[..i + 1][..i] == filenames[..i];
      i := i + 1;
    }
    assert filenames[..i] == filenames;
  }

  /** Joining a directory that does not end in `/` with a name free of `/`
      puts exactly one `/` between them. */
  lemma JoinName(dir: string, name: string)
    requires |dir| > 0 && dir[|dir| - 1] != PosixPath.Sep && PosixPath.Sep !in name
    ensures PosixPath.Join(dir, name) == dir + "/" + name
  {
    if |name| > 0 {
      assert name[0] in name;
    }
  }

  /** The archive has one entry per file and then `metadata.txt`; the k-th
      entry stores the k-th file as `<pk>/<its name>`, read from the upload
      directory. */
  lemma ZipEntriesLayout(mediaRoot: string, pk: nat, files: seq<FileRecord>)
    ensures var entries := ZipEntries(mediaRoot, pk, files);
      var path := UploadDir(mediaRoot, pk);
      |entries| == |files| + 1
      && entries[|files|] == (PosixPath.Join(path, MetadataName), "metadata.txt")
      && forall k :: 0 <= k < |files| ==>
           entries[k] == (PosixPath.Join(path, FileStr(files[k])), NatToString(pk) + "/" + FileStr(files[k]))
  {
    var pkText := NatToString(pk);
    FilenamesAt(files);
    FileEntriesAt(UploadDir(mediaRoot, pk), pkText, Filenames(files));
    forall k | 0 <= k < |files|
      ensures PosixPath.Join(pkText, FileStr(files[k])) == pkText + "/" + FileStr(files[k])
    {
      assert pkText[|pkText| - 1] != PosixPath.Sep by {
        assert IsDigit(pkText[|pkText| - 1]);
      }
      JoinName(pkText, FileStr(files[k]));
    }
  }

  /** The archive's names are `<pk>/<name>` for each file, plus
      `metadata.txt`, and nothing else. */
  lemma ZipEntryNames(mediaRoot: string, pk: nat, files: seq<FileRecord>)
    ensures var entries := ZipEntries(mediaRoot, pk, files);
      (set j | 0 <= j < |entries| :: entries[j].1)
      == (set k | 0 <= k < |files| :: NatToString(pk) + "/" + FileStr(files[k])) + {"metadata.txt"}
  {
    ZipEntriesLayout(mediaRoot, pk, files);
    NamesThenMetadata(ZipEntries(mediaRoot, pk, files), files, NatToString(pk));
  }

  /** Entries named after the files in order and then `metadata.txt` carry
      exactly those names. */
  lemma NamesThenMetadata(entries: seq<(string, string)>, files: seq<FileRecord>, pkText: string)
    requires |entries| == |files| + 1 && entries[|files|].1 == "metadata.txt"
    requires forall k :: 0 <= k < |files| ==> entries[k].1 == pkText + "/" + FileStr(files[k])
    ensures (set j | 0 <= j < |entries| :: entries[j].1)
      == (set k | 0 <= k < |files| :: pkText + "/" + FileStr(files[k])) + {"metadata.txt"}
  {
    var all := set j | 0 <= j < |entries| :: entries[j].1;
    var fileNames := set k | 0 <= k < |files| :: pkText + "/" + FileStr(files[k]);
    forall x | x in all
      ensures x in fileNames || x == "metadata.txt"
    {
      var j :| 0 <= j < |entries| && entries[j].1 == x;
      if j < |files| {
        assert x == pkText + "/" + FileStr(files[j]);
      }
    }
    forall k | 0 <= k < |files|
      ensures pkText + "/" + FileStr(files[k]) in all
    {
      assert entries[k].1 == pkText + "/" + FileStr(files[k]);
    }
    assert entries[|files|].1 in all;
  }

  /** The download is named after the accession: the id in decimal, then
      `.zip`, and the id reads back from the name. */
  lemma ArchiveNameId(pk: nat)
    ensures var name := ArchiveName(pk);
      var stem := name[..|name| - 4];
      name[|name| - 4..] == ".zip" && (forall i :: 0 <= i < |stem| ==> IsDigit(stem[i])) && ParseDigits(stem) == pk
  {
    var name := ArchiveName(pk);
    assert name[..|name| - 4] == NatToString(pk);
    ParseNatToString(pk);
  }

  /** A file stored under the name `metadata.txt` has the same disk path as
      the metadata file: the entry reads from the very path that
      `generate_data_file` writes the metadata text to before the archive is
      streamed, while the two entries keep different archive names. */
  lemma UploadedMetadataShadowed(mediaRoot: string, pk: nat, files: seq<FileRecord>, k: nat,
                                 accessions: seq<Accession>, now: DateTime)
    requires k < |files| && FileStr(files[k]) == MetadataName
    ensures var entries := ZipEntries(mediaRoot, pk, files);
      entries[k].0 == entries[|files|].0 && entries[k].1 != entries[|files|].1
      && entries[k].0 == PosixPath.Join(UploadDir(mediaRoot, pk), MetadataName)
    ensures var w := MetadataWrite(accessions, pk, UploadDir(mediaRoot, pk), Filenames(files), now);
      w.Some? ==> w.value.0 == ZipEntries(mediaRoot, pk, files)[k].0
  {
    ZipEntriesLayout(mediaRoot, pk, files);
    var pkText := NatToString(pk);
    var entries := ZipEntries(mediaRoot, pk, files);
    assert |entries[k].1| > |MetadataName|;
  }
}
