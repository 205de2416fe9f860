/** The `/convert` request handler: camera RAW upload in, JPEG download out.

The handler lowercases the uploaded filename, takes its POSIX extension
and rejects the request with status 400 unless the extension is one of
six RAW formats.  Only then does it read the upload, hand it to the RAW
decoder (through a temporary file whose suffix is that extension) and
the decoded pixels to the JPEG encoder.  A decoder failure becomes a 500
"Error processing RAW" and the encoder is never run; an encoder failure
becomes a 500 "Error encoding JPEG".  On success the JPEG is streamed
with media type image/jpeg and a Content-Disposition naming the
original-case root of the upload plus ".jpg".

The decoder and the encoder are foreign libraries; they appear here as
function parameters that either succeed with a value or fail with a
diagnostic text, and the model says nothing about pixels.
 */
module RawConvert {
  import opened AsciiText
  import opened PosixPath

  newtype byte = x: int | 0 <= x < 256

  /** The RAW extensions the service accepts, in lower case with their dot. */
  const SupportedExts: set<string> := {".arw", ".cr2", ".dng", ".nef", ".raw", ".cr3"}

  const UnsupportedPrefix: string := "Unsupported format: "
  const DecodeErrorPrefix: string := "Error processing RAW: "
  const EncodeErrorPrefix: string := "Error encoding JPEG: "
  const JpegMediaType: string := "image/jpeg"
  const ContentDisposition: string := "Content-Disposition"

  /** Outcome of a foreign call: a value, or the text of the exception it raised. */
  datatype Attempt<T> = Ok(value: T) | Failed(diagnostic: string)

  /** The collaborators the handler invokes, in the order it invokes them. */
  datatype Step =
    | ReadUpload             // reading the uploaded bytes
    | DecodeRaw(suffix: string)  // the RAW decoder, on a temporary file with this suffix
    | EncodeJpeg             // the JPEG encoder

  datatype Response =
    | HttpError(status: int, detail: string)
    | JpegStream(status: int, mediaType: string, headers: map<string, string>, body: seq<byte>)
    | Unhandled(status: int)  // an exception escaped the handler; the framework answers a bare 500

  /** What the client receives, and which collaborators were invoked to produce it. */
  datatype Outcome = Outcome(response: Response, steps: seq<Step>)

  /** The extension the handler validates: that of the lowercased filename, which is
      also the lowercased extension of the filename as uploaded. */
  function Extension(filename: string): (ext: string)
    ensures ext == Lower(SplitExt(filename).ext)
    ensures ext == [] || (ext[0] == ExtSep && ExtSep !in ext[1..] && Sep !in ext)
  {
    SplitExtLower(filename);
    SplitExt(Lower(filename)).ext
  }

  /** `ext in SUPPORTED_EXTS` for the validated extension.  An accepted name ends,
      lowercased, in that four-character extension. */
  predicate Supported(filename: string)
    ensures Supported(filename) ==>
              && |filename| >= 4
              && Lower(filename)[|filename| - 4..] == Extension(filename)
  {
    SupportedSuffix(filename);
    Extension(filename) in SupportedExts
  }

  /** A supported extension is the lowercased last four characters of the name. */
  lemma SupportedSuffix(filename: string)
    ensures Extension(filename) in SupportedExts ==>
              && |SplitExt(filename).ext| == 4
              && |filename| >= 4
              && Lower(filename)[|filename| - 4..] == Extension(filename)
  {
    var ext := Extension(filename);
    if ext in SupportedExts {
      SupportedExtShape(ext);
      assert SplitExt(Lower(filename)).root + ext == Lower(filename);
    }
  }

  /** The name offered for download: the original-case root plus ".jpg".  For an
      accepted name that is the uploaded name with its last four characters
      replaced by ".jpg". */
  function DownloadName(filename: string): (r: string)
    ensures Supported(filename) ==> r == filename[..|filename| - 4] + ".jpg"
  {
    SupportedSuffix(filename);
    SplitExt(filename).root + ".jpg"
  }

  /** Every character fits in one latin-1 byte, the only encoding the response
      headers can be written in. */
  predicate Latin1(s: string) {
    forall i :: 0 <= i < |s| ==> s[i] as int < 256
  }

  /** The Content-Disposition value.  Its fixed text is ASCII, so it can be encoded
      exactly when the original-case root of the upload can. */
  function DispositionHeader(filename: string): (h: string)
    ensures Latin1(h) <==> Latin1(SplitExt(filename).root)
  {
    var root := SplitExt(filename).root;
    var prefix := "attachment; filename=\"";
    assert Latin1(prefix) && Latin1(".jpg") && Latin1("\"");
    Latin1Concat(root, ".jpg");
    Latin1Concat(prefix, DownloadName(filename));
    Latin1Concat(prefix + DownloadName(filename), "\"");
    prefix + DownloadName(filename) + "\""
  }

  lemma Latin1Concat(a: string, b: string)
    ensures Latin1(a + b) <==> Latin1(a) && Latin1(b)
  {
    if Latin1(a + b) {
      assert forall i :: 0 <= i < |a| ==> a[i] == (a + b)[i];
      assert forall i :: 0 <= i < |b| ==> b[i] == (a + b)[|a| + i];
    }
    if Latin1(a) && Latin1(b) {
      forall i | 0 <= i < |a + b|
        ensures (a + b)[i] as int < 256
      {
        if i < |a| {
          assert (a + b)[i] == a[i];
        } else {
          assert (a + b)[i] == b[i - |a|];
        }
      }
    }
  }

  /** The handler.  `decodeRaw` receives the temporary file's suffix and the uploaded
      bytes; `encodeJpeg` receives the decoder's pixels. */
  function Convert<Pixels>(filename: string, upload: seq<byte>,
                           decodeRaw: (string, seq<byte>) -> Attempt<Pixels>,
                           encodeJpeg: Pixels -> Attempt<seq<byte>>): (o: Outcome)
    ensures o.response.status in {200, 400, 500}
    ensures o.response.status == 400 <==> !Supported(filename)
    ensures o.response.status == 200 <==>
              && Supported(filename)
              && decodeRaw(Extension(filename), upload).Ok?
              && encodeJpeg(decodeRaw(Extension(filename), upload).value).Ok?
              && Latin1(DispositionHeader(filename))
    ensures o.response.JpegStream? <==> o.response.status == 200
    ensures ReadUpload in o.steps <==> Supported(filename)
    ensures EncodeJpeg in o.steps ==> decodeRaw(Extension(filename), upload).Ok?
  {
    var ext := Extension(filename);
    if ext !in SupportedExts then
      Outcome(HttpError(400, UnsupportedPrefix + ext), [])
    else
      Process(filename, ext, upload, decodeRaw, encodeJpeg)
  }

  /** The handler after validation: read the upload, decode it, encode the pixels,
      and stream the JPEG under the download name. */
  function Process<Pixels>(filename: string, ext: string, upload: seq<byte>,
                           decodeRaw: (string, seq<byte>) -> Attempt<Pixels>,
                           encodeJpeg: Pixels -> Attempt<seq<byte>>): (o: Outcome)
    ensures o.response.status in {200, 500}
    ensures o.response.status == 200 <==>
              && decodeRaw(ext, upload).Ok?
              && encodeJpeg(decodeRaw(ext, upload).value).Ok?
              && Latin1(DispositionHeader(filename))
    ensures o.response.JpegStream? <==> o.response.status == 200
    ensures |o.steps| > 0 && o.steps[0] == ReadUpload
    ensures EncodeJpeg in o.steps ==> decodeRaw(ext, upload).Ok?
  {
    match decodeRaw(ext, upload)
    case Failed(e) =>
      Outcome(HttpError(500, DecodeErrorPrefix + e), [ReadUpload, DecodeRaw(ext)])
    case Ok(rgb) =>
      match encodeJpeg(rgb)
      case Failed(e) =>
        Outcome(HttpError(500, EncodeErrorPrefix + e), [ReadUpload, DecodeRaw(ext), EncodeJpeg])
      case Ok(jpeg) =>
        var steps := [ReadUpload, DecodeRaw(ext), EncodeJpeg];
        if !Latin1(DispositionHeader(filename)) then
          Outcome(Unhandled(500), steps)
        else
          var headers := map[ContentDisposition := DispositionHeader(filename)];
          Outcome(JpegStream(200, JpegMediaType, headers, jpeg), steps)
  }

  /** Every supported extension is a dot followed by three characters that are
      neither dots nor slashes. */
  lemma SupportedExtShape(e: string)
    requires e in SupportedExts
    ensures |e| == 4 && e[0] == ExtSep
    ensures e[1] != ExtSep && e[2] != ExtSep && e[3] != ExtSep
    ensures e[1] != Sep && e[2] != Sep && e[3] != Sep
  {
    assert e == ".arw" || e == ".cr2" || e == ".dng" || e == ".nef" || e == ".raw" || e == ".cr3";
  }

  /** A filename is accepted exactly when, lowercased, it ends in one of the six
      supported extensions and the last path component has a non-dot character
      before that extension. */
  lemma SupportedIff(filename: string)
    ensures Supported(filename) <==>
              && |filename| >= 4
              && Lower(filename)[|filename| - 4..] in SupportedExts
              && StemBefore(Lower(filename), |filename| - 4)
  {
    if Supported(filename) {
      SupportedHasSuffix(filename);
    }
    if && |filename| >= 4
       && Lower(filename)[|filename| - 4..] in SupportedExts
       && StemBefore(Lower(filename), |filename| - 4)
    {
      SuffixIsSupported(filename);
    }
  }

  lemma SupportedHasSuffix(filename: string)
    requires Supported(filename)
    ensures |filename| >= 4
    ensures Lower(filename)[|filename| - 4..] in SupportedExts
    ensures StemBefore(Lower(filename), |filename| - 4)
  {
    var q := Lower(filename);
    var ext := SplitExt(q).ext;
    SupportedExtShape(ext);
    SplitExtMatchesExtStart(q);
    var d :| IsExtStart(q, d);
    assert ext == q[d..];
  }

  lemma SuffixIsSupported(filename: string)
    requires |filename| >= 4
    requires Lower(filename)[|filename| - 4..] in SupportedExts
    requires StemBefore(Lower(filename), |filename| - 4)
    ensures Supported(filename)
  {
    var q := Lower(filename);
    var n := |q|;
    var e := q[n - 4..];
    SupportedExtShape(e);
    assert q[n - 4] == e[0] && q[n - 3] == e[1] && q[n - 2] == e[2] && q[n - 1] == e[3];
    assert IsExtStart(q, n - 4);
    ExtStartIsLastDot(q, n - 4);
  }

  /** Validation ignores letter case: names that differ only in ASCII case have the
      same extension, so both are accepted or both rejected. */
  lemma CaseInsensitive(a: string, b: string)
    requires CaseVariant(a, b)
    ensures Extension(a) == Extension(b)
    ensures Supported(a) <==> Supported(b)
  {
    LowerEqualIffCaseVariant(a, b);
  }

  /** A name with no dot in its last path component (no dot at all, or its last dot
      in a directory as in "a.nef/b") has the empty extension and is rejected. */
  lemma RejectsNoDotInBasename<Pixels>(filename: string, upload: seq<byte>,
                                       decodeRaw: (string, seq<byte>) -> Attempt<Pixels>,
                                       encodeJpeg: Pixels -> Attempt<seq<byte>>)
    requires ExtSep !in Basename(filename)
    ensures Extension(filename) == []
    ensures Convert(filename, upload, decodeRaw, encodeJpeg).response == HttpError(400, UnsupportedPrefix)
  {
    NoDotInBasenameNoExt(filename);
  }

  /** A name whose last component has only leading dots (".cr2") has the empty
      extension and is rejected. */
  lemma RejectsLeadingDotsOnly<Pixels>(dir: string, dots: string, rest: string, upload: seq<byte>,
                                       decodeRaw: (string, seq<byte>) -> Attempt<Pixels>,
                                       encodeJpeg: Pixels -> Attempt<seq<byte>>)
    requires dir == [] || dir[|dir| - 1] == Sep
    requires forall k :: 0 <= k < |dots| ==> dots[k] == ExtSep
    requires ExtSep !in rest && Sep !in rest
    ensures Extension(dir + dots + rest) == []
    ensures Convert(dir + dots + rest, upload, decodeRaw, encodeJpeg).response == HttpError(400, UnsupportedPrefix)
  {
    LeadingDotsNoExt(dir + dots + rest, dir, dots, rest);
  }

  /** The rejection depends on the filename alone: whatever the uploaded bytes and
      whatever the decoder and encoder would do, the response is the same 400 naming
      the lowercased extension, and no collaborator (not even the upload read) runs. */
  lemma RejectionIgnoresUpload<Pixels>(filename: string, upload1: seq<byte>, upload2: seq<byte>,
                                       decode1: (string, seq<byte>) -> Attempt<Pixels>,
                                       decode2: (string, seq<byte>) -> Attempt<Pixels>,
                                       encode1: Pixels -> Attempt<seq<byte>>,
                                       encode2: Pixels -> Attempt<seq<byte>>)
    requires !Supported(filename)
    ensures Convert(filename, upload1, decode1, encode1) == Convert(filename, upload2, decode2, encode2)
    ensures Convert(filename, upload1, decode1, encode1).response ==
              HttpError(400, UnsupportedPrefix + Lower(SplitExt(filename).ext))
    ensures Convert(filename, upload1, decode1, encode1).steps == []
  {
  }

  /** A decoder failure ends the request with a 500 wrapping the decoder's diagnostic;
      the encoder is never invoked, so its behaviour cannot matter. */
  lemma DecodeFailureShortCircuits<Pixels>(filename: string, upload: seq<byte>,
                                           decodeRaw: (string, seq<byte>) -> Attempt<Pixels>,
                                           encode1: Pixels -> Attempt<seq<byte>>,
                                           encode2: Pixels -> Attempt<seq<byte>>)
    requires Supported(filename)
    requires decodeRaw(Extension(filename), upload).Failed?
    ensures Convert(filename, upload, decodeRaw, encode1) == Convert(filename, upload, decodeRaw, encode2)
    ensures Convert(filename, upload, decodeRaw, encode1).response ==
              HttpError(500, DecodeErrorPrefix + decodeRaw(Extension(filename), upload).diagnostic)
    ensures EncodeJpeg !in Convert(filename, upload, decodeRaw, encode1).steps
  {
  }

  /** An encoder failure after a successful decode ends the request with a 500
      wrapping the encoder's diagnostic. */
  lemma EncodeFailureReported<Pixels>(filename: string, upload: seq<byte>,
                                      decodeRaw: (string, seq<byte>) -> Attempt<Pixels>,
                                      encodeJpeg: Pixels -> Attempt<seq<byte>>)
    requires Supported(filename)
    requires decodeRaw(Extension(filename), upload).Ok?
    requires encodeJpeg(decodeRaw(Extension(filename), upload).value).Failed?
    ensures Convert(filename, upload, decodeRaw, encodeJpeg).response ==
              HttpError(500, EncodeErrorPrefix + encodeJpeg(decodeRaw(Extension(filename), upload).value).diagnostic)
    ensures Convert(filename, upload, decodeRaw, encodeJpeg).steps ==
              [ReadUpload, DecodeRaw(Extension(filename)), EncodeJpeg]
  {
  }

  /** When both collaborators succeed and the header can be encoded, the response is
      a 200 image/jpeg stream of exactly the encoder's bytes, offered for download
      under `DownloadName`. */
  lemma SuccessStreamsJpeg<Pixels>(filename: string, upload: seq<byte>,
                                   decodeRaw: (string, seq<byte>) -> Attempt<Pixels>,
                                   encodeJpeg: Pixels -> Attempt<seq<byte>>)
    requires Supported(filename)
    requires decodeRaw(Extension(filename), upload).Ok?
    requires encodeJpeg(decodeRaw(Extension(filename), upload).value).Ok?
    requires Latin1(DispositionHeader(filename))
    ensures var r := Convert(filename, upload, decodeRaw, encodeJpeg).response;
            && r.JpegStream?
            && r.status == 200
            && r.mediaType == JpegMediaType
            && r.headers.Keys == {ContentDisposition}
            && r.headers[ContentDisposition] == "attachment; filename=\"" + DownloadName(filename) + "\""
            && r.body == encodeJpeg(decodeRaw(Extension(filename), upload).value).value
  {
    ConvertOnSuccess(filename, upload, decodeRaw, encodeJpeg);
    DispositionHeaderText(filename);
  }

  lemma DispositionHeaderText(filename: string)
    ensures DispositionHeader(filename) == "attachment; filename=\"" + DownloadName(filename) + "\""
  {
  }

  lemma ConvertOnSuccess<Pixels>(filename: string, upload: seq<byte>,
                                 decodeRaw: (string, seq<byte>) -> Attempt<Pixels>,
                                 encodeJpeg: Pixels -> Attempt<seq<byte>>)
    requires Supported(filename)
    requires decodeRaw(Extension(filename), upload).Ok?
    requires encodeJpeg(decodeRaw(Extension(filename), upload).value).Ok?
    requires Latin1(DispositionHeader(filename))
    ensures Convert(filename, upload, decodeRaw, encodeJpeg).response ==
              JpegStream(200, JpegMediaType, map[ContentDisposition := DispositionHeader(filename)],
                         encodeJpeg(decodeRaw(Extension(filename), upload).value).value)
  {
  }

  /** When both collaborators succeed but the original-case root of the name has a
      character beyond latin-1, building the response raises, nothing in the handler
      catches it, and the framework answers a bare 500. */
  lemma HeaderEncodingFailure<Pixels>(filename: string, upload: seq<byte>,
                                      decodeRaw: (string, seq<byte>) -> Attempt<Pixels>,
                                      encodeJpeg: Pixels -> Attempt<seq<byte>>)
    requires Supported(filename)
    requires decodeRaw(Extension(filename), upload).Ok?
    requires encodeJpeg(decodeRaw(Extension(filename), upload).value).Ok?
    requires !Latin1(SplitExt(filename).root)
    ensures Convert(filename, upload, decodeRaw, encodeJpeg).response == Unhandled(500)
    ensures Convert(filename, upload, decodeRaw, encodeJpeg).steps ==
              [ReadUpload, DecodeRaw(Extension(filename)), EncodeJpeg]
  {
  }

  /** For an accepted name only the final four-character extension is replaced:
      the download name is the uploaded name, case preserved, minus its last four
      characters, plus ".jpg". */
  lemma DownloadNameOfAccepted(filename: string)
    requires Supported(filename)
    ensures |filename| >= 4
    ensures Lower(filename[|filename| - 4..]) in SupportedExts
    ensures DownloadName(filename) == filename[..|filename| - 4] + ".jpg"
  {
    var ext := Extension(filename);
    SupportedExtShape(ext);
    var s := SplitExt(filename);
    assert |s.ext| == 4;
    assert s.ext == filename[|filename| - 4..];
    assert s.root == filename[..|filename| - 4];
  }

  /** A name and its upper-case variant are both accepted. */
  lemma ExampleCaseVariants()
    ensures Supported("photo.CR2") && Supported("photo.cr2")
  {
    var q := "photo.cr2";
    assert Lower("photo.CR2") == q && Lower(q) == q;
    assert q[5..] == ".cr2";
    StemWitness(q, 0, 5);
    SuffixIsSupported("photo.CR2");
    SuffixIsSupported(q);
  }

  /** A name with inner dots is accepted on its last extension. */
  lemma ExampleInnerDotsAccepted()
    ensures Supported("IMG.0001.CR2")
  {
    var f := "IMG.0001.CR2";
    var q := "img.0001.cr2";
    assert Lower(f) == q;
    assert q[8..] == ".cr2";
    StemWitness(q, 0, 8);
    SuffixIsSupported(f);
  }

  /** Only the final extension is replaced: inner dots survive in the download name. */
  lemma ExampleInnerDotsDownloadName()
    ensures DownloadName("IMG.0001.CR2") == "IMG.0001.jpg"
  {
    var f := "IMG.0001.CR2";
    ExampleInnerDotsAccepted();
    DownloadNameOfAccepted(f);
    assert |f| - 4 == 8;
    assert f[..8] == "IMG.0001";
  }

  /** A name without any dot is refused. */
  lemma ExampleNoDot()
    ensures !Supported("photo")
  {
    var f := "photo";
    assert Lower(f) == f;
    assert ExtSep !in f;
    SplitExtCases(f, RFind(f, Sep), RFind(f, ExtSep));
  }

  /** A name whose only dot is leading is refused. */
  lemma ExampleLeadingDot()
    ensures !Supported(".cr2")
  {
    var f := ".cr2";
    assert Lower(f) == f;
    assert f == [] + "." + "cr2";
    LeadingDotsNoExt(f, [], ".", "cr2");
  }

  /** A name whose last dot is in a directory component is refused. */
  lemma ExampleDotInDirectory()
    ensures !Supported("a.nef/b")
  {
    var f := "a.nef/b";
    assert Lower(f) == f;
    assert f[6] == 'b';
    assert RFind(f, Sep) == 5;
    assert Basename(f) == "b";
    NoDotInBasenameNoExt(f);
  }

  /** A Cyrillic name passes validation, yet a successful conversion of it ends in
      the framework's 500 because its download name cannot be put in a header. */
  lemma ExampleNonLatin1Name<Pixels>(upload: seq<byte>,
                                     decodeRaw: (string, seq<byte>) -> Attempt<Pixels>,
                                     encodeJpeg: Pixels -> Attempt<seq<byte>>)
    requires decodeRaw(".cr2", upload).Ok?
    requires encodeJpeg(decodeRaw(".cr2", upload).value).Ok?
    ensures Supported("\U{0424}.CR2")
    ensures Convert("\U{0424}.CR2", upload, decodeRaw, encodeJpeg).response == Unhandled(500)
  {
    var f := "\U{0424}.CR2";
    var q := "\U{0424}.cr2";
    assert Lower(f) == q;
    assert q[1..] == ".cr2";
    StemWitness(q, 0, 1);
    SuffixIsSupported(f);
    DownloadNameOfAccepted(f);
    assert Extension(f) == ".cr2";
    assert SplitExt(f).root == f[..1];
    assert !Latin1(SplitExt(f).root);
    HeaderEncodingFailure(f, upload, decodeRaw, encodeJpeg);
  }
}
