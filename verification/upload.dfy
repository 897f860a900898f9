/** The upload step that runs before the POST and PUT handlers: multer's
    `fileFilter` (extension allow-list), its 2 MiB size limit, and the
    `filename` callback of the disk storage that names the stored file. */
module Upload {
  import opened JsValues
  import opened NodePath

  /** The extensions the filter admits, compared after lower-casing. */
  const AllowedTypes: seq<string> := [".pdf", ".doc", ".docx", ".txt", ".jpg", ".jpeg", ".png"]

  /** Largest accepted file, in bytes (2 MiB). */
  const MaxFileSize: nat := 2 * 1024 * 1024

  /** The one file a request may carry under the field `resume`: the
      filename the client put in the part's header, exactly as sent, and its
      size in bytes. Its content is not modelled. */
  datatype FilePart = FilePart(clientName: string, size: nat)

  /** The separators the multipart parser cuts a client filename at. */
  predicate IsSeparator(c: char) {
    c == '/' || c == '\\'
  }

  /** The longest separator-free tail of `name`: everything after its last
      `/` or `\`, or all of it when there is none. */
  function LastSegment(name: string): (tail: string)
    ensures |tail| <= |name| && tail == name[|name| - |tail|..]
    ensures forall j :: 0 <= j < |tail| ==> !IsSeparator(tail[j])
    ensures |tail| < |name| ==> IsSeparator(name[|name| - |tail| - 1])
  {
    if |name| == 0 || IsSeparator(name[|name| - 1]) then ""
    else
      var tail := LastSegment(name[..|name| - 1]) + [name[|name| - 1]];
      assert name[|name| - |tail|..] == name[..|name| - 1][|name| - |tail|..] + [name[|name| - 1]];
      tail
  }

  /** The multipart parser's `basename` (multer leaves `preservePath` off):
      the last path segment of the client filename, with `.` and `..`
      turned into the empty name. */
  function ClientBasename(name: string): (base: string)
    ensures forall j :: 0 <= j < |base| ==> !IsSeparator(base[j])
    ensures base != "." && base != ".."
    ensures base == "" <==> LastSegment(name) == "" || LastSegment(name) == "." || LastSegment(name) == ".."
    ensures |base| <= |name|
    ensures base != "" ==>
              && name[|name| - |base|..] == base
              && (|base| < |name| ==> IsSeparator(name[|name| - |base| - 1]))
  {
    var tail := LastSegment(name);
    if tail == "." || tail == ".." then "" else tail
  }

  /** `file.originalname`: the filename multer reports for a part. */
  function OriginalName(f: FilePart): string {
    ClientBasename(f.clientName)
  }

  datatype UploadError = InvalidFileType | FileTooLarge

  /** What the upload step hands to the route handler: the stored filename
      when a file came with the request, or the error that ends the request. */
  datatype UploadResult = Accepted(stored: Option<string>) | Rejected(error: UploadError)

  /** `fileFilter`: admit the file iff its lower-cased `extname` is listed;
      so an admitted name always has a real extension. */
  function FileFilter(originalName: string): (admit: bool)
    ensures admit <==> ToLower(ExtName(originalName)) in AllowedTypes
    ensures admit ==> |ExtName(originalName)| >= 4 && ExtName(originalName)[0] == '.'
  {
    var lowered := ToLower(ExtName(originalName));
    if lowered in AllowedTypes then AllowedShape(lowered); true else false
  }

  /** The `filename` callback: the caller-supplied unique suffix followed by
      the original extension with its case kept. */
  function GeneratedName(suffix: string, originalName: string): (name: string)
    ensures |name| == |suffix| + |ExtName(originalName)|
    ensures name[..|suffix|] == suffix
    ensures name[|suffix|..] == ExtName(originalName)
  {
    suffix + ExtName(originalName)
  }

  /** A suffix the `filename` callback can safely prepend: non-empty and free
      of path separators. */
  predicate WellFormedSuffix(suffix: string) {
    |suffix| > 0 && forall j :: 0 <= j < |suffix| ==> suffix[j] != '/'
  }

  /** The decimal digits of `n`, as JavaScript prints a non-negative integer:
      no leading zero except for `0` itself. */
  function Decimal(n: nat): (s: string)
    ensures |s| > 0
    ensures forall j :: 0 <= j < |s| ==> '0' <= s[j] <= '9'
    ensures n > 0 ==> s[0] != '0'
  {
    var d := ['0' + (n % 10) as char];
    if n < 10 then d else Decimal(n / 10) + d
  }

  /** The number a string of decimal digits denotes. */
  function DigitsValue(s: string): nat
    requires forall j :: 0 <= j < |s| ==> '0' <= s[j] <= '9'
  {
    if |s| == 0 then 0
    else DigitsValue(s[..|s| - 1]) * 10 + (s[|s| - 1] as int - '0' as int)
  }

  /** Reading the printed digits back gives the number printed. */
  lemma {:induction false} DecimalRoundTrip(n: nat)
    ensures DigitsValue(Decimal(n)) == n
  {
    if n >= 10 {
      var s := Decimal(n);
      assert s[..|s| - 1] == Decimal(n / 10);
      DecimalRoundTrip(n / 10);
    }
  }

  /** The suffix the source builds from `Date.now()` and the rounded random
      number: `<now>-<rand>`. */
  function TimestampSuffix(now: nat, rand: nat): (suffix: string)
    ensures WellFormedSuffix(suffix)
  {
    Decimal(now) + "-" + Decimal(rand)
  }

  /** multer with this filter, limit and storage: the part's filename is
      first cut to its basename; a part whose name is then empty (an
      untouched file input, or a name ending in a separator, `.` or `..`) is
      skipped as if no file came; any other file is first filtered by
      extension, then held to the size limit, and only then named and
      written. */
  function Receive(file: Option<FilePart>, suffix: string): (r: UploadResult)
    ensures r.Rejected? <==>
              file.Some? && OriginalName(file.value) != ""
              && (!FileFilter(OriginalName(file.value)) || file.value.size > MaxFileSize)
    ensures r == Rejected(InvalidFileType) <==>
              file.Some? && OriginalName(file.value) != "" && !FileFilter(OriginalName(file.value))
    ensures r.Accepted? ==> (r.stored.Some? <==> file.Some? && OriginalName(file.value) != "")
    ensures r.Accepted? && r.stored.Some? ==> r.stored.value == GeneratedName(suffix, OriginalName(file.value))
  {
    match file
    case None => Accepted(None)
    case Some(f) =>
      var name := OriginalName(f);
      if name == "" then Accepted(None)
      else if !FileFilter(name) then Rejected(InvalidFileType)
      else if f.size > MaxFileSize then Rejected(FileTooLarge)
      else Accepted(Some(GeneratedName(suffix, name)))
  }

  /** A name with no separator is its own last segment. */
  lemma PlainSegment(name: string)
    requires forall j :: 0 <= j < |name| ==> !IsSeparator(name[j])
    ensures LastSegment(name) == name
  {
  }

  /** Whatever follows the last separator is the last segment. */
  lemma {:induction false} SegmentAfterSeparator(dir: string, seg: string)
    requires |dir| > 0 && IsSeparator(dir[|dir| - 1])
    requires forall j :: 0 <= j < |seg| ==> !IsSeparator(seg[j])
    ensures LastSegment(dir + seg) == seg
  {
    if seg != [] {
      var init := seg[..|seg| - 1];
      assert (dir + seg)[..|dir + seg| - 1] == dir + init;
      SegmentAfterSeparator(dir, init);
      assert init + [seg[|seg| - 1]] == seg;
    }
  }

  /** multer reports a name that is already a plain file name unchanged,
      and cutting a reported name again changes nothing. */
  lemma ClientBasenameKeepsPlainNames(name: string)
    ensures (forall j :: 0 <= j < |name| ==> !IsSeparator(name[j])) && name != "." && name != ".." ==>
              ClientBasename(name) == name
    ensures ClientBasename(ClientBasename(name)) == ClientBasename(name)
  {
    PlainSegment(ClientBasename(name));
    if (forall j :: 0 <= j < |name| ==> !IsSeparator(name[j])) {
      PlainSegment(name);
    }
  }

  /** A part named `..` is skipped like one with no name. */
  lemma DotDotSkipped(name: string, size: nat, suffix: string)
    requires name == ".."
    ensures OriginalName(FilePart(name, size)) == ""
    ensures Receive(Some(FilePart(name, size)), suffix) == Accepted(None)
  {
    PlainSegment(name);
  }

  /** A part named `notes.txt/` is skipped too: nothing follows its last
      separator. */
  lemma TrailingSeparatorSkipped(name: string, size: nat, suffix: string)
    requires name == "notes.txt/"
    ensures OriginalName(FilePart(name, size)) == ""
    ensures Receive(Some(FilePart(name, size)), suffix) == Accepted(None)
  {
    assert IsSeparator(name[|name| - 1]);
  }

  /** A part named `x\.pdf` is reported as `.pdf`, whose extname is empty,
      so it is refused as an invalid type. */
  lemma BackslashDirectoryRefused(name: string, size: nat, suffix: string)
    requires name == "x\\.pdf"
    ensures OriginalName(FilePart(name, size)) == ".pdf"
    ensures Receive(Some(FilePart(name, size)), suffix) == Rejected(InvalidFileType)
  {
    var seg := ".pdf";
    BackslashSegment(name, seg);
    assert OriginalName(FilePart(name, size)) == seg;
    MissingExtensionRefused(seg, "resume");
  }

  /** The last segment of `x\.pdf` is `.pdf`. */
  lemma BackslashSegment(name: string, seg: string)
    requires name == "x\\.pdf" && seg == ".pdf"
    ensures ClientBasename(name) == seg
  {
    var dir := "x\\";
    assert name == dir + seg;
    SegmentAfterSeparator(dir, seg);
  }

  /** Every allowed extension is a dot followed by at least two letters. */
  lemma AllowedShape(ext: string)
    requires ext in AllowedTypes
    ensures |ext| >= 4 && ext[0] == '.'
    ensures forall j :: 1 <= j < |ext| ==> 'a' <= ext[j] <= 'z'
  {
  }

  /** A name is admitted iff its `extname` is non-empty and lower-cases to a
      listed extension; in particular a name without an extension, or whose
      only dot leads it, is refused. */
  lemma FilterNeedsExtension(originalName: string)
    ensures ExtName(originalName) == "" ==> !FileFilter(originalName)
    ensures FileFilter(originalName) ==> |ExtName(originalName)| >= 4 && ExtName(originalName)[0] == '.'
  {
    if FileFilter(originalName) {
      AllowedShape(ToLower(ExtName(originalName)));
    }
  }

  /** The filter ignores case: a name and the same name with its extension
      written in any other case are admitted alike. */
  lemma {:induction false} FilterIgnoresCase(stem: string, ext: string, variant: string)
    requires |stem| > 0 && forall j :: 0 <= j < |stem| ==> stem[j] != '/'
    requires ext in AllowedTypes
    requires ToLower(variant) == ext
    ensures FileFilter(stem + variant)
    ensures ExtName(stem + variant) == variant
  {
    AllowedShape(ext);
    assert |variant| == |ext|;
    forall j | 1 <= j < |variant|
      ensures variant[j] != '.' && variant[j] != '/'
    {
      assert LowerChar(variant[j]) == ext[j];
    }
    assert variant[0] == '.' by {
      assert LowerChar(variant[0]) == '.';
    }
    ExtNameOfAppended(stem, variant);
  }

  /** A stored file keeps the extension of the file the client sent, so its
      own name passes the same filter. */
  lemma {:induction false} StoredNameKeepsExtension(suffix: string, originalName: string)
    requires WellFormedSuffix(suffix)
    ensures FileFilter(originalName) ==>
              && ExtName(GeneratedName(suffix, originalName)) == ExtName(originalName)
              && FileFilter(GeneratedName(suffix, originalName))
  {
    if FileFilter(originalName) {
      var e := ExtName(originalName);
      FilterNeedsExtension(originalName);
      ExtNameOfAppended(suffix, e);
    }
  }

  /** A name ending in `.PDF` is admitted. */
  lemma UpperCaseAccepted(name: string)
    requires name == "CV.PDF"
    ensures FileFilter(name)
  {
    assert name == "CV" + ".PDF";
    var lower := ToLower(".PDF");
    assert lower == ".pdf" by {
      assert |lower| == 4;
      assert lower[0] == '.' && lower[1] == 'p' && lower[2] == 'd' && lower[3] == 'f';
    }
    FilterIgnoresCase("CV", ".pdf", ".PDF");
  }

  /** `.pdf` alone and a name with no dot are refused. */
  lemma MissingExtensionRefused(bare: string, none: string)
    requires bare == ".pdf" && none == "resume"
    ensures !FileFilter(bare)
    ensures !FileFilter(none)
  {
    LeadingDotExample(bare);
    NoDotExample(none);
    FilterNeedsExtension(bare);
    FilterNeedsExtension(none);
  }
}
