# Audio transcription to PDF: the deterministic core, in Dafny

The application uploads an audio clip, has a remote speech-recognition
service transcribe it, lays the transcript out as a PDF, and offers the PDF
as a download link. Almost all of this is glue around three libraries: the
recogniser, the PDF renderer and the web UI. This project models the three
pure pieces of `main.py` and proves their properties:

- **Outcome mapping** (`transcribe_audio`, module `Transcription`). The
  recogniser's outcomes that the code handles form a datatype with three
  cases: recognised text,
  "unknown value" (no speech understood), and a request error carrying the
  service's message. The mapping returns a plain string, as the code does:
  the text unchanged, the sentinel `Error: Could not understand the audio.`,
  or `Error: ` followed by the message. Every failure string is also the
  string of some recognised transcript, which is proved. A read-back function
  interprets a string as an outcome and settles each such collision in
  favour of the failure. It is proved correct exactly on the outcomes it does
  not misread: all but transcripts starting with `Error: ` and request errors
  whose message is the unknown-audio detail.
- **Paragraph selection** (`save_to_pdf`, modules `Lines`, `Whitespace` and
  `Document`). The transcript is split on `'\n'` as Python's
  `str.split("\n")` does. This is proved to be the unique newline-free split
  that joins back to the text, with one more line than there are newlines.
  Python's `strip()` is modelled, and its result is proved empty exactly when
  the line is blank. The paragraphs are the lines that pass the test,
  verbatim and in order. They are proved to be exactly the non-blank lines,
  located by strictly increasing positions. Their number is the number of
  non-blank lines. A blank transcript gives no paragraph, and a one-line
  transcript gives itself.
- **Download payload** (`get_pdf_download_link`, modules `Base64` and
  `Download`). Base 64 encoding follows section 4 of RFC 4648: the standard
  alphabet, `=` padding and no line breaks. The model proves the length
  `4 * ((n + 2) / 3)` and the alphabet and padding layout. A strict decoder is
  proved to be the encoder's two-sided inverse. The fixed anchor template
  around the encoding yields the bytes back. The link determines the file and
  the file determines the link. The encoding cannot close the `href` quote
  early.

Whitespace for `strip()` is the set of code points for which Python 3's
`str.isspace()` holds: `\t \n \v \f \r`, U+001C to U+001F, space, U+0085,
U+00A0, U+1680, U+2000 to U+200A, U+2028, U+2029, U+202F, U+205F and U+3000.
The model makes this assumption explicit.

The anchor quotes its attributes with single quotes (`href='…'` and
`download='transcription.pdf'`), as main.py:34 writes them.

All members are functions and lemmas. The three modelled pieces are
expressions and a list comprehension, with no loop and no state.

## Model

| member | source | states |
|---|---|---|
| `Lines.Split` | main.py:27 | `text.split("\n")` gives at least one piece and no piece contains a newline |
| `Lines.JoinSplit` | main.py:27 | joining the pieces with `"\n"` gives back the transcript exactly |
| `Lines.SplitJoin` | main.py:27 | any non-empty list of newline-free pieces is what splitting its join gives, so the split is unique |
| `Lines.SplitCount` | main.py:27 | there is one line more than there are `'\n'` characters (`""` gives one empty line) |
| `Whitespace.StripLeadingSpec` | main.py:27 | `lstrip` keeps the longest suffix that does not start with whitespace; everything it drops is whitespace |
| `Whitespace.StripTrailingSpec` | main.py:27 | `rstrip` keeps the longest prefix that does not end with whitespace; everything it drops is whitespace |
| `Whitespace.StripEmptyIffBlank` | main.py:27 | `line.strip()` is empty exactly when every character of the line is whitespace |
| `Document.KeepsIffNotBlank` | main.py:27 | the comprehension's test `if text.strip()` holds exactly for non-blank lines |
| `Document.Filter` | main.py:27 | the comprehension never yields more items than the split has lines |
| `Document.KeptIndicesLocate` | main.py:27 | the k-th kept item is, unchanged, the element at the k-th kept position |
| `Document.KeptIndicesIncreasing` | main.py:27 | kept positions strictly increase, so the original order is preserved |
| `Document.KeptIndicesExact` | main.py:27 | a position is kept exactly when its element passes the test |
| `Document.ParagraphsAreTheNonBlankLines` | main.py:27 | each paragraph is a split line taken verbatim (not trimmed) and non-blank; order is kept; every non-blank line, and no blank one, is a paragraph |
| `Document.ParagraphCount` | main.py:27 | the number of paragraphs equals the number of non-blank lines |
| `Document.JoinBlank` | main.py:27 | a text is blank exactly when each of its lines is blank |
| `Document.NoParagraphsIffBlank` | main.py:27 | the PDF has no paragraph exactly when the whole transcript is whitespace, newlines included |
| `Document.SingleLineParagraph` | main.py:27 | a non-blank transcript without a newline gives exactly one paragraph, itself, surrounding whitespace included |
| `Document.BlankTranscriptExamples` | main.py:27 | `""`, `"\n\n"` and `"  \n\t"` give no paragraph |
| `Document.UntrimmedLineExample` | main.py:27 | `"  hi\r"` is emitted exactly as it was |
| `Base64.IndexToChar` | main.py:33 | every 6-bit value maps to a character of the alphabet of section 4 of RFC 4648 |
| `Base64.CharToIndex` | main.py:33 | every alphabet character stands for a 6-bit value that maps back to it |
| `Base64.EncodeLength` | main.py:33 | `b64encode` of n bytes has length `4 * ((n + 2) / 3)` |
| `Base64.EncodeAlphabet` | main.py:33 | every character of the output is in `A-Z a-z 0-9 + /`, except the final `(3 - n % 3) % 3` characters, which are `=` |
| `Base64.DecodeEncode` | main.py:33 | decoding the encoding returns the original bytes exactly |
| `Base64.EncodeDecode` | main.py:33 | any text the strict decoder accepts is the encoding of what it decodes to |
| `Base64.DecodedLength` | main.py:33 | an accepted text has a length that is a multiple of 4, with 4 characters per 3 bytes, padding included |
| `Base64.EncodeInjective` | main.py:33 | different byte strings have different encodings |
| `Base64.RfcVectors` | main.py:33 | the test vectors of section 10 of RFC 4648: `f`, `fo`, `foo` and `foobar` encode to `Zg==`, `Zm8=`, `Zm9v` and `Zm9vYmFy` |
| `Download.LinkParts` | main.py:34 | the anchor is the fixed prefix, then the base 64 text, then the fixed suffix naming `transcription.pdf` |
| `Download.PayloadOfLink` | main.py:33-34 | the data URI of the anchor carries exactly the PDF's bytes, so the decoded download has the size of the PDF; the anchor has the stated length |
| `Download.LinkOfPayload` | main.py:33-34 | any text of the anchor's form that carries a payload is the anchor built from that payload |
| `Download.LinkInjective` | main.py:33-34 | the anchor determines the file's bytes |
| `Download.HrefStaysQuoted` | main.py:34 | the base 64 text contains no `'`, so the `href` value ends right after it and the rest is exactly `' download='transcription.pdf'>Download PDF</a>` |
| `Transcription.ReadBackTranscript` | main.py:16-22 | reading the returned string back as an outcome gives the original outcome exactly when that outcome is not ambiguous |
| `Transcription.AmbiguousIsConflated` | main.py:16-22 | an ambiguous outcome shares its string with a different outcome: a transcript starting with `Error: ` looks like a request error, and a request error whose message is the unknown-audio detail looks like the unknown-audio sentinel |
| `Transcription.FailuresLookLikeTranscripts` | main.py:16-22 | every failure outcome returns a string that some recognised transcript also returns, so the result alone never proves that recognition failed |
| `Transcription.FailuresArePrefixed` | main.py:19-22 | both failures return a string starting with `Error: `; for a request error, the rest is the service's message |
| `Transcription.UnknownAudioDocument` | main.py:19-27 | the sentinel `Error: Could not understand the audio.` is rendered as ordinary text, as exactly one paragraph equal to itself |
| `Transcription.RequestErrorDocument` | main.py:21-27 | a request error whose message has no newline becomes the single paragraph `Error: ` followed by the message |
| `Transcription.RecognizedLineDocument` | main.py:17-27 | a recognised single-line transcript such as `hello world` is passed through unchanged and becomes one paragraph |

## Left out

- `main()` (main.py:37-70): the web UI and its control flow. This covers the
  uploader, audio player, button, success banner and markdown rendering, and
  the step-by-step file-system work (`os.makedirs`, writing the upload,
  building the `os.path.join` paths, `shutil.rmtree`). It is I/O with no
  logic to verify.
- The remote call `recognize_google` (main.py:17) is represented only by the
  three outcomes that `transcribe_audio` turns into a string, as the datatype
  `Transcription.Recognition`. In the case `RequestError(message)`, the
  message stands for `str(e)` of the raised exception. Any other exception
  that `recognize_google` raises propagates out of `transcribe_audio` and is
  not modelled. The same holds for a failure reading the audio at
  main.py:13-14, which is outside the `try`, such as an upload format that
  `sr.AudioFile` cannot read. On such a run no string is returned and no PDF
  is built.
- The PDF renderer (main.py:25-26, 28): building `SimpleDocTemplate`, the
  style sheet, the `Paragraph` objects and `doc.build`. The model stops at the
  list of paragraph strings. It does not model how the renderer treats markup
  inside a line.
- Reading the PDF file at `file_path` (main.py:31-32): file I/O. The download
  link is modelled as a function of the file's bytes. As a consequence, it
  depends on nothing else, such as the path.
- `Base64.Decode` is strict: it accepts only canonical encodings. Python's
  default `b64decode` is more lenient, but the application never decodes. The
  decoder exists only to state and prove the round trip.
- Unicode details of `str.split` and `str.strip` beyond the explicit
  whitespace set above. Strings are sequences of code points, with no
  normalisation.
- The shared fixed paths between overlapping sessions, and the missing
  clean-up when a step fails. These are concurrency and resource-lifetime
  matters, not sequential logic.
