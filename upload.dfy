/** The upload policy of the submission form (multer's `fileFilter`, its
    `fileSize` limit and the disk storage `filename` callback). */
module Upload {
  import opened Common
  import Hex

  /** `limits.fileSize`: 10 MiB. */
  const MaxFileSize: nat := 10 * 1024 * 1024

  const AllowedMimeTypes: seq<string> := ["image/jpeg", "image/png"]

  const WrongTypeMessage: string := "Only JPEG and PNG images are allowed"

  /** The message multer gives its LIMIT_FILE_SIZE error. */
  const TooLargeMessage: string := "File too large"

  datatype FilterDecision = Accept | Reject(message: string)

  /** `fileFilter`: only the two allow-listed image types pass. */
  function FileFilter(mimetype: string): (d: FilterDecision)
    ensures d.Accept? <==> mimetype == "image/jpeg" || mimetype == "image/png"
    ensures d.Reject? ==> d.message == WrongTypeMessage
  {
    if mimetype in AllowedMimeTypes then Accept else Reject(WrongTypeMessage)
  }

  function StripTrailingSlashes(p: string): (r: string)
    ensures |r| <= |p| && r == p[..|r|]
    ensures r == [] || r[|r| - 1] != '/'
  {
    if p != [] && p[|p| - 1] == '/' then StripTrailingSlashes(p[..|p| - 1]) else p
  }

  /** The part of `p` after its last `/`. */
  function LastComponent(p: string): (r: string)
    ensures '/' !in r
    ensures |r| <= |p| && r == p[|p| - |r|..]
  {
    if p == [] || p[|p| - 1] == '/' then []
    else LastComponent(p[..|p| - 1]) + [p[|p| - 1]]
  }

  function LastIndexOf(s: string, c: char): (r: Option<nat>)
    ensures r.Some? ==> r.value < |s| && s[r.value] == c
    ensures r.Some? ==> forall k :: r.value < k < |s| ==> s[k] != c
    ensures r.None? ==> c !in s
  {
    if s == [] then None
    else if s[|s| - 1] == c then Some(|s| - 1)
    else LastIndexOf(s[..|s| - 1], c)
  }

  /** The extension of a name without `/`: from its last dot to the end,
      empty when there is no dot, when the only dot that counts opens the name
      (`.bashrc`), or when the name is `..`. */
  function BaseExtension(b: string): (e: string)
    ensures e == [] || (e[0] == '.' && '.' !in e[1..])
    ensures '/' in e ==> '/' in b
  {
    match LastIndexOf(b, '.')
    case None => ""
    case Some(d) =>
      if d == 0 || b == ".." then ""
      else
        assert forall k :: 0 <= k < |b[d..]| ==> b[d..][k] == b[d + k];
        b[d..]
  }

  /** Node's `path.extname` (POSIX): the extension of the last component of
      the path, trailing slashes ignored. */
  function ExtName(name: string): (e: string)
    ensures e == [] || (e[0] == '.' && '.' !in e[1..] && '/' !in e)
  {
    BaseExtension(LastComponent(StripTrailingSlashes(name)))
  }

  lemma {:induction false} LastComponentOfPlainName(name: string)
    requires '/' !in name
    ensures LastComponent(name) == name
  {
    if name != [] {
      LastComponentOfPlainName(name[..|name| - 1]);
      assert name[..|name| - 1] + [name[|name| - 1]] == name;
    }
  }

  /** For a name without `/` whose last dot is at `d`, `path.extname` is the
      tail from `d`, except for a leading dot and for `..`. */
  lemma ExtNameOfPlainName(name: string, d: nat)
    requires '/' !in name
    requires d < |name| && name[d] == '.'
    requires forall k :: d < k < |name| ==> name[k] != '.'
    ensures ExtName(name) == if d == 0 || name == ".." then "" else name[d..]
  {
    assert StripTrailingSlashes(name) == name;
    LastComponentOfPlainName(name);
    var r := LastIndexOf(name, '.');
    assert r == Some(d);
  }

  /** A name without `/` and without a dot has no extension. */
  lemma ExtNameWithoutDot(name: string)
    requires '/' !in name && '.' !in name
    ensures ExtName(name) == ""
  {
    assert name == [] || StripTrailingSlashes(name) == name;
    LastComponentOfPlainName(name);
  }

  /** The disk storage `filename` rule: the hex rendering of eight random bytes
      followed by the extension of the submitter's file name. */
  function StoredFilename(random: seq<Hex.byte>, originalName: string): (f: string)
    requires |random| == 8
    ensures |f| >= 16 && Hex.IsLowerHex(f[..16])
    ensures f[16..] == ExtName(originalName)
    ensures '/' !in f
  {
    var h := Hex.Encode(random);
    assert '/' !in h by {
      forall k | 0 <= k < |h| ensures h[k] != '/' {
        assert Hex.IsHexDigit(h[k]);
      }
    }
    h + ExtName(originalName)
  }

  /** Two uploads that drew different random bytes get different stored names,
      whatever their original names. */
  lemma StoredFilenameInjective(r1: seq<Hex.byte>, n1: string, r2: seq<Hex.byte>, n2: string)
    requires |r1| == 8 && |r2| == 8
    requires StoredFilename(r1, n1) == StoredFilename(r2, n2)
    ensures r1 == r2
  {
    var f := StoredFilename(r1, n1);
    assert Hex.Encode(r1) == f[..16] == Hex.Encode(r2);
    Hex.EncodeInjective(r1, r2);
  }

  /** A file part as it reaches multer: the client-side name, the claimed
      media type and the number of bytes in the stream. */
  datatype IncomingFile = IncomingFile(originalName: string, mimetype: string, size: nat)

  /** What `upload.single('photo')` leaves for the route handler: an error,
      no file at all, or the name under which the file was stored. */
  datatype Received = Rejected(message: string) | NoFile | Stored(filename: string)

  /** A file part with an empty file name (what a browser sends for an empty
      file input) is skipped, as if no file had been sent. Otherwise the
      filter runs before the stream is written and the size limit while it
      is written; a file over the limit is discarded with an error. */
  function Receive(file: Option<IncomingFile>, random: seq<Hex.byte>): (r: Received)
    requires |random| == 8
    ensures r.NoFile? <==> file.None? || file.value.originalName == ""
    ensures r.Stored? <==> file.Some? && file.value.originalName != "" && FileFilter(file.value.mimetype).Accept? && file.value.size <= MaxFileSize
    ensures r.Stored? ==> r.filename == StoredFilename(random, file.value.originalName)
    ensures r.Rejected? ==> r.message == if FileFilter(file.value.mimetype).Accept? then TooLargeMessage else WrongTypeMessage
  {
    match file
    case None => NoFile
    case Some(f) =>
      if f.originalName == "" then NoFile
      else match FileFilter(f.mimetype)
      case Reject(msg) => Rejected(msg)
      case Accept =>
        if f.size > MaxFileSize then Rejected(TooLargeMessage)
        else Stored(StoredFilename(random, f.originalName))
  }
}
