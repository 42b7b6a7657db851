/** keeper/validators.py: the two validators attached to the uploaded file
    field. `validate_file_type` reads a prefix of the upload, rewinds it,
    asks a sniffer for the MIME type and accepts the upload when that type
    glob-matches a key of the accepted-types table; `validate_file_size`
    compares the size with the configured maximum. */
module Validators {
  import opened Text
  import opened Glob
  import opened Constants

  newtype byte = b: int | 0 <= b < 256

  /** Uploads of at most this many bytes are read whole for sniffing. */
  const WholeReadLimit: nat := 64 * 1024 * 1024
  /** Larger uploads contribute only this many bytes. */
  const SniffChunkSize: nat := 64 * 1024
  const GiB: nat := 1024 * 1024 * 1024

  datatype ValidationError = TypeNotSupported(fileType: string) | SizeTooLarge(limit: nat)

  datatype Outcome = Pass | Fail(error: ValidationError)

  /** The file object behind an upload: its bytes, the size Django reports
      for it, and the read position that `read` advances and `seek` sets. */
  class Upload {
    const size: nat
    var content: seq<byte>
    var position: nat

    ghost predicate Valid()
      reads this
    {
      size == |content|
    }

    constructor (data: seq<byte>)
      ensures Valid() && content == data && position == 0
    {
      size := |data|;
      content := data;
      position := 0;
    }

    /** `file.read()`: everything from the position on; the position moves
        to the end. */
    method ReadAll() returns (chunk: seq<byte>)
      requires Valid()
      modifies this`position
      ensures Valid()
      ensures chunk == content[Min(old(position), |content|)..]
      ensures position == |content|
    {
      var from := Min(position, |content|);
      chunk := content[from..];
      position := |content|;
    }

    /** `file.read(n)`: at most `n` bytes from the position on; the position
        moves past them. */
    method Read(n: nat) returns (chunk: seq<byte>)
      requires Valid()
      modifies this`position
      ensures Valid()
      ensures chunk == content[Min(old(position), |content|)..Min(Min(old(position), |content|) + n, |content|)]
      ensures position == Min(old(position), |content|) + |chunk|
    {
      var from := Min(position, |content|);
      var to := Min(from + n, |content|);
      chunk := content[from..to];
      position := to;
    }

    /** `file.seek(offset)`. */
    method Seek(offset: nat)
      requires Valid()
      modifies this`position
      ensures Valid() && position == offset
    {
      position := offset;
    }
  }

  function Min(a: int, b: int): int
  {
    if a <= b then a else b
  }

  /** The bytes `validate_file_type` hands to the sniffer: the rest of the
      file when its size is at most 64 MiB, otherwise the next 64 KiB. */
  function SniffChunk(content: seq<byte>, position: nat, size: nat): (chunk: seq<byte>)
  {
    var from := Min(position, |content|);
    if size <= WholeReadLimit then content[from..]
    else content[from..Min(from + SniffChunkSize, |content|)]
  }

  /** Read from the start, a file of at most 64 MiB is sniffed whole and a
      larger one by its first 64 KiB only. */
  lemma SniffChunkFromStart(content: seq<byte>)
    ensures |content| <= WholeReadLimit ==> SniffChunk(content, 0, |content|) == content
    ensures |content| > WholeReadLimit ==>
      SniffChunk(content, 0, |content|) == content[..SniffChunkSize]
      && |SniffChunk(content, 0, |content|)| == 64 * 1024
  {
  }

  /** `t` glob-matches some key of `table`. */
  predicate Accepts(table: Table, t: string)
  {
    exists i :: 0 <= i < |table| && Match(t, table[i].0)
  }

  /** `good_mimetype`: walk the keys in order and stop at the first one whose
      pattern matches. */
  method GoodMimetype(mimetype: string, table: Table) returns (ok: bool)
    ensures ok <==> Accepts(table, mimetype)
    ensures table == [] ==> !ok
  {
    var i := 0;
    while i < |table|
      invariant 0 <= i <= |table|
      invariant forall j :: 0 <= j < i ==> !Match(mimetype, table[j].0)
    {
      if Match(mimetype, table[i].0) {
        return true;
      }
      i := i + 1;
    }
    return false;
  }

  /** Acceptance only grows with the table: a type accepted under `t` is
      accepted under any table holding all of `t`'s keys. */
  lemma AcceptsMonotone(t: Table, u: Table, mimetype: string)
    requires forall i :: 0 <= i < |t| ==> t[i].0 in Keys(u)
    requires Accepts(t, mimetype)
    ensures Accepts(u, mimetype)
  {
    var i :| 0 <= i < |t| && Match(mimetype, t[i].0);
    var ks := Keys(u);
    var j :| 0 <= j < |ks| && ks[j] == t[i].0;
    assert Match(mimetype, u[j].0);
  }

  /** With the shipped table, `image/png` is accepted through the image
      wildcard key. */
  lemma ShippedTableAcceptsPng()
    ensures Accepts(AcceptedFileTypes, "image/png")
  {
    var table := AcceptedFileTypes;
    assert table[0].0 == "image/" + "*";
    PrefixPattern("image/png", "image/");
    assert "image/png"[..6] == "image/";
  }

  /** With the shipped table, `application/x-msdos-program` matches no key. */
  lemma ShippedTableRejectsExe()
    ensures !Accepts(AcceptedFileTypes, "application/x-msdos-program")
  {
    var table := AcceptedFileTypes;
    var exe := "application/x-msdos-program";
    assert |exe| == 27 && exe[1] == 'p';
    forall i | 0 <= i < |table|
      ensures !Match(exe, table[i].0)
    {
      var p := table[i].0;
      if i < 3 {
        var major := p[..6];
        assert p == major + "*" && major[1] != 'p';
        PrefixPattern(exe, major);
      } else {
        assert NoStar(p) && |p| < 27;
        LiteralPattern(exe, p);
      }
    }
  }

  /** `validate_file_type(upload)`: read the sniffing chunk, rewind to 0,
      sniff, and fail with "File type T not supported." unless an accepted
      pattern matches. The sniffer (python-magic) is a parameter. */
  method ValidateFileType(upload: Upload, sniff: seq<byte> -> string) returns (r: Outcome)
    requires upload.Valid()
    modifies upload`position
    ensures upload.Valid() && upload.position == 0
    ensures r == (var t := sniff(SniffChunk(upload.content, old(upload.position), upload.size));
                  if Accepts(AcceptedFileTypes, t) then Pass else Fail(TypeNotSupported(t)))
  {
    var chunk;
    if upload.size <= WholeReadLimit {
      chunk := upload.ReadAll();
    } else {
      chunk := upload.Read(SniffChunkSize);
    }
    upload.Seek(0);
    var fileType := sniff(chunk);
    var good := GoodMimetype(fileType, AcceptedFileTypes);
    if !good {
      return Fail(TypeNotSupported(fileType));
    }
    return Pass;
  }

  /** The message Django shows for each validation error. */
  function Message(e: ValidationError): (m: string)
  {
    match e
    case TypeNotSupported(t) => "File type " + t + " not supported."
    case SizeTooLarge(limit) => "File size must be no more than " + GigabytesText(limit) + " GB"
  }

  /** The type-error message names the sniffed type between fixed text, so
      the type can be read back from it. */
  lemma TypeMessageNamesType(t: string)
    ensures var m := Message(TypeNotSupported(t));
      |m| == |t| + 25 && m[10..10 + |t|] == t
      && StartsWith(m, "File type ") && m[|m| - 15..] == " not supported."
  {
  }

  /** `validate_file_size(file)`: fails exactly when the size exceeds the
      configured maximum (`settings.MAX_UPLOAD_SIZE`, a parameter here). */
  function ValidateFileSize(size: nat, maxUploadSize: nat): (r: Outcome)
    ensures r.Pass? ==> size <= maxUploadSize
    ensures r.Fail? ==> r.error == SizeTooLarge(maxUploadSize) && size > maxUploadSize
  {
    if size > maxUploadSize then Fail(SizeTooLarge(maxUploadSize)) else Pass
  }

  /** A file of exactly the limit passes; one byte more fails. */
  lemma SizeBoundary(maxUploadSize: nat)
    ensures ValidateFileSize(maxUploadSize, maxUploadSize) == Pass
    ensures ValidateFileSize(maxUploadSize + 1, maxUploadSize).Fail?
  {
  }

  // ----- the limit in gigabytes, as Python prints `limit / 1024 / 1024 / 1024` -----

  function Pow(b: nat, e: nat): (r: nat)
    ensures r >= 1 || b == 0
  {
    if e == 0 then 1 else b * Pow(b, e - 1)
  }

  /** Trailing zeros removed, keeping at least one digit. */
  function TrimZeros(s: string): (r: string)
    ensures |s| >= 1 ==> |r| >= 1
  {
    if |s| <= 1 || s[|s| - 1] != '0' then s else TrimZeros(s[..|s| - 1])
  }

  /** The exact decimal value of `limit / 2^30` with at least one fractional
      digit: `4.0` for 4 GiB, `0.00390625` for 4 MiB. */
  function GigabytesText(limit: nat): string
  {
    var whole := limit / GiB;
    var frac := (limit % GiB) * Pow(5, 30);   // the fraction times 10^30
    NatToString(whole) + "." + TrimZeros(PadZeros(NatToString(frac), 30))
  }

  lemma {:induction false} TrimAllZeros(s: string)
    requires |s| >= 1
    requires forall i :: 0 <= i < |s| ==> s[i] == '0'
    ensures TrimZeros(s) == "0"
  {
    if |s| > 1 {
      TrimAllZeros(s[..|s| - 1]);
    }
  }

  /** A whole number of gibibytes prints as `<n>.0`. */
  lemma WholeGigabytes(limit: nat)
    requires limit % GiB == 0
    ensures GigabytesText(limit) == NatToString(limit / GiB) + ".0"
  {
    var frac := (limit % GiB) * Pow(5, 30);
    assert frac == 0;
    assert NatToString(0) == "0";
    PadZerosOfZero("0", 30);
    TrimAllZeros(PadZeros("0", 30));
  }
}
