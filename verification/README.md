# raw2jpg `/convert`: filename validation and outcome cascade

This project models the request handler of the Raw2JPG converter service. The handler accepts an
uploaded camera RAW file and answers with a JPEG. The model covers the parts of the handler that are
deterministic:

- **Extension validation.** The uploaded filename is lowercased. Its extension is taken with POSIX
  `os.path.splitext`. The request is refused with status 400 and the detail
  `Unsupported format: <ext>` unless the extension is one of `.arw`, `.cr2`, `.dng`, `.nef`,
  `.raw` or `.cr3`.
- **The error cascade.** After validation the handler reads the upload and decodes it as RAW. It
  passes the decoded pixels to a JPEG encoder. A decoder failure gives status 500 with
  `Error processing RAW: <diagnostic>`, and the encoder is never run. An encoder failure gives
  status 500 with `Error encoding JPEG: <diagnostic>`. If both succeed, the JPEG bytes are
  streamed with status 200 and media type `image/jpeg`, unless the download name cannot be
  written into a response header (see below).
- **The download name.** The successful response carries
  `Content-Disposition: attachment; filename="<root>.jpg"`. Here `<root>` is the `splitext` root
  of the filename as uploaded, in its original case.

Files:

- `ascii_text.dfy` (module `AsciiText`): ASCII lowercasing and case variants.
- `posix_path.dfy` (module `PosixPath`): `rfind` and `splitext`, with a declarative
  characterisation of where an extension starts. A `Basename` helper names the last path
  component so that the no-extension cases can be stated.
- `raw_convert.dfy` (module `RawConvert`): the supported set, validation, the download name, the
  `Convert` handler and its properties.

The RAW decoder (`rawpy`) and the JPEG encoder (`imageio`) are parameters of `Convert`. Each one
either succeeds with a value or fails with the text of its exception. The decoder parameter stands
for the whole first `try` block: writing the temporary file and decoding it. It receives the
temporary file's suffix (the lowercased extension) and the uploaded bytes. `Outcome.steps` records
which collaborators the handler invoked, in order: reading the upload, decoding, encoding. This is
how the model states that validation comes before the upload is read, and that a decode failure
stops the pipeline.

Facts about the code that shape the model:

- `raw.postprocess()` is called with no arguments (main.py:30), so the RAW library's default
  processing applies.
- `imageio.imwrite(buffer, rgb, format='JPEG')` is called with no quality or colour-profile
  options (main.py:37).
- The download name is the `splitext` root of the whole uploaded filename (main.py:47). If that
  name contains directory components, they are kept.
- The header values of the response are encoded as latin-1 by the web framework. If the download
  name holds a character above U+00FF (for example `Ф.CR2`), building the response raises. Nothing
  in the handler catches that exception, so the framework answers a bare 500 (`Unhandled(500)` in
  the model), even though decoding and encoding succeeded.

## Model

| member | source | states |
|---|---|---|
| `AsciiText.Lower` | main.py:17 | Lowercasing keeps the length and leaves no upper-case ASCII letter. Each character is either kept, or is an upper-case letter replaced by its lower-case partner 32 code points on. |
| `AsciiText.LowerNormalises` | main.py:17 | A lowercased string contains no upper-case ASCII letter, and lowercasing it again changes nothing. |
| `AsciiText.LowerEqualIffCaseVariant` | main.py:17 | Two names lowercase to the same string exactly when they differ only in ASCII letter case (both directions). |
| `AsciiText.LowerKeepsSeparators` | main.py:17 | Lowercasing neither moves, removes nor creates a `.` or a `/`. |
| `PosixPath.RFind` | main.py:17 | `rfind`, as used inside `splitext`, returns -1 or an index holding the character. No later index holds it. |
| `PosixPath.SplitExt` | main.py:17 | `root + ext` is the input again. The extension is either empty, or a `.` followed by text with no further `.` and no `/`. |
| `PosixPath.SplitExtScan` | main.py:17 | The scanning loop of Python's `splitext` (skip the leading dots of the last component, up to the last dot) computes the same split as `SplitExt`. |
| `PosixPath.SplitExtMatchesExtStart` | main.py:17 | The extension is non-empty exactly when some position is an extension start. That is a dot with no later `.` or `/`, preceded in its own path component by a non-dot character. The extension is then the suffix from that position. |
| `PosixPath.NoDotInBasenameNoExt` | main.py:17 | A name with no dot after its last `/` splits into itself and the empty extension. |
| `PosixPath.LeadingDotsNoExt` | main.py:17 | A name whose last component has only leading dots (such as `.cr2`) splits into itself and the empty extension. |
| `PosixPath.SplitExtLower` | main.py:17 | Splitting the lowercased name gives the lowercased root and the lowercased extension of the original name, so lowercasing commutes with `splitext`. |
| `RawConvert.Extension` | main.py:17 | The validated extension equals the lowercased extension of the name as uploaded. It is empty, or a dot followed by text with no further dot or slash. |
| `RawConvert.Supported` | main.py:18 | The extension test. An accepted name is at least four characters long, and its lowercased last four characters are the validated extension. |
| `RawConvert.SupportedSuffix` | main.py:11-18 | When the extension is in the supported set, the split-off extension is four characters long, and so are the lowercased last four characters of the name, which equal the validated extension. |
| `RawConvert.DownloadName` | main.py:47 | For an accepted name, the download name is the uploaded name without its last four characters, plus `.jpg`. |
| `RawConvert.DispositionHeader` | main.py:47 | The Content-Disposition value is latin-1 encodable exactly when the original-case `splitext` root of the upload is. |
| `RawConvert.SupportedExtShape` | main.py:11 | Each of the six supported extensions is four characters: a dot, then three characters that are neither dots nor slashes. |
| `RawConvert.Convert` | main.py:15-49 | The status is always 200, 400 or 500. It is 400 exactly when the extension is unsupported. It is 200 exactly when the extension is supported, both decoder and encoder succeed, and the Content-Disposition value is latin-1 encodable. Only a 200 carries a JPEG stream. The upload is read exactly when the name is accepted. The encoder runs only after a successful decode. |
| `RawConvert.Process` | main.py:22-49 | After validation the upload is read first. The status is 200 or 500. It is 200 exactly when the decoder and encoder both succeed and the Content-Disposition value is latin-1 encodable, and only a 200 is a JPEG stream. The encoder runs only after a successful decode. |
| `RawConvert.SupportedIff` | main.py:11-19 | A name is accepted exactly when its lowercased form ends in one of the six extensions and has a non-dot character before it in the same path component. |
| `RawConvert.CaseInsensitive` | main.py:17-18 | Names that differ only in ASCII case have the same validated extension, so both are accepted or both are refused. |
| `RawConvert.RejectsNoDotInBasename` | main.py:17-19 | A name with no dot in its last path component has the empty extension. The response is 400 with the detail exactly `Unsupported format: `. |
| `RawConvert.RejectsLeadingDotsOnly` | main.py:17-19 | A name whose last component's only dots are leading has the empty extension. The response is 400 with the detail exactly `Unsupported format: `. |
| `RawConvert.RejectionIgnoresUpload` | main.py:17-22 | For a refused name, the outcome is the same whatever the bytes, decoder or encoder. It is a 400 whose detail is `Unsupported format: ` plus the lowercased extension, and no collaborator is invoked. |
| `RawConvert.DecodeFailureShortCircuits` | main.py:25-32 | A decoder failure gives a 500 whose detail is `Error processing RAW: ` plus the decoder's diagnostic. The encoder is not invoked, and the outcome is the same for any encoder. |
| `RawConvert.EncodeFailureReported` | main.py:35-40 | An encoder failure after a successful decode gives a 500 whose detail is `Error encoding JPEG: ` plus the encoder's diagnostic. All three steps ran, in order. |
| `RawConvert.SuccessStreamsJpeg` | main.py:43-49 | When both succeed and the header value is latin-1 encodable, the response is a 200 `image/jpeg` stream of exactly the encoder's bytes. The only entry of its `headers` map is `Content-Disposition: attachment; filename="<DownloadName>"`. |
| `RawConvert.HeaderEncodingFailure` | main.py:43-49 | When both succeed but the original-case root holds a character above U+00FF, the outcome is the framework's bare 500, after all three steps ran. |
| `RawConvert.DownloadNameOfAccepted` | main.py:47 | For an accepted name, the download name is the uploaded name, case preserved, without its last four characters, plus `.jpg`. Only the final extension is replaced. |
| `RawConvert.ExampleCaseVariants` | main.py:17-18 | `photo.CR2` and `photo.cr2` are both accepted. |
| `RawConvert.ExampleInnerDotsAccepted` | main.py:17-18 | `IMG.0001.CR2` is accepted on its last extension. |
| `RawConvert.ExampleInnerDotsDownloadName` | main.py:47 | `IMG.0001.CR2` is offered for download as `IMG.0001.jpg`. |
| `RawConvert.ExampleNonLatin1Name` | main.py:43-49 | `Ф.CR2` passes validation, but a successful conversion of it ends in the framework's bare 500. |
| `RawConvert.ExampleNoDot` | main.py:17-19 | `photo` is refused. |
| `RawConvert.ExampleLeadingDot` | main.py:17-19 | `.cr2` is refused. |
| `RawConvert.ExampleDotInDirectory` | main.py:17-19 | `a.nef/b` is refused. |

## Left out

- AsciiText.Lower: only ASCII letters are lowercased. Python's `str.lower` also maps non-ASCII letters, and some of those change the string's length. Full Unicode case mapping is not modelled.
- Windows path rules (backslash separators, drive letters) are not modelled. The service splits with the POSIX `os.path`.
- A missing filename (`None`) makes the handler fail at the `lower()` call instead of giving a defined response. It is not modelled.
- The FastAPI set-up and routing (main.py:1-9, main.py:14), the multipart parsing, `UploadFile.read` (main.py:22), the streaming of the body by `StreamingResponse` (main.py:43-49) and the uvicorn/`PORT` start-up (main.py:51-54) are HTTP and I/O plumbing. Reading the upload appears only as a step in `Outcome.steps`. A failing read is not caught by the handler and is not modelled.
- Temporary-file creation, writing and cleanup (main.py:26-28) are filesystem I/O. They are folded into the decoder parameter, which receives the suffix and the bytes.
- RAW decoding (`rawpy.imread`, `postprocess`) and JPEG encoding (`imageio.imwrite`) are foreign libraries. They are success-or-diagnostic oracles. Pixel data, colour handling and the JPEG byte contents are not modelled.
- The body text of the framework's bare 500 (`Unhandled`) is not part of `main.py` and is not modelled. Only its status is.
- The download name is placed inside the header's quotes without escaping, as the code does. The model does not treat a `"` in the filename specially.
