/**
  The outcome mapping of `transcribe_audio`. The remote recogniser is
  represented by the three outcomes the function turns into a string:
  recognised text, the "unknown value" failure when no speech was
  understood, and a request failure carrying the service's message. Any
  other exception, and any failure reading the audio file, propagates out
  of `transcribe_audio` and is not part of this model. The mapping turns every outcome
  into a plain string, so a caller cannot always tell a failure from a
  transcript; `ReadBack` is the best a caller can do, and
  `ReadBackTranscript` says exactly when it is right.
*/
module Transcription {
  import opened Whitespace
  import opened Document

  /** The outcomes of `recognize_google` that `transcribe_audio` handles. */
  datatype Recognition =
    | Recognized(text: string)
    | UnknownValue
    | RequestError(message: string)

  const ErrorPrefix: string := "Error: "
  const UnknownAudioDetail: string := "Could not understand the audio."
  const UnknownAudioMessage: string := ErrorPrefix + UnknownAudioDetail

  /** The string `transcribe_audio` returns for an outcome. */
  function TranscriptText(r: Recognition): string {
    match r
    case Recognized(text) => text
    case UnknownValue => UnknownAudioMessage
    case RequestError(message) => ErrorPrefix + message
  }

  /** The outcome a caller would read into a returned string. */
  function ReadBack(t: string): Recognition {
    if t == UnknownAudioMessage then UnknownValue
    else if ErrorPrefix <= t then RequestError(t[|ErrorPrefix|..])
    else Recognized(t)
  }

  /** The outcomes `ReadBack` misreads. It settles every collision in
      favour of a failure, so it misreads a transcript that itself starts
      with "Error: ", and a request failure whose message is the
      unknown-audio detail (read as the unknown-audio failure). */
  predicate Ambiguous(r: Recognition) {
    || (r.Recognized? && ErrorPrefix <= r.text)
    || (r.RequestError? && r.message == UnknownAudioDetail)
  }

  /** The returned string identifies the outcome exactly when the outcome
      is not ambiguous. */
  lemma ReadBackTranscript(r: Recognition)
    ensures ReadBack(TranscriptText(r)) == r <==> !Ambiguous(r)
  {
    match r
    case Recognized(text) =>
    case UnknownValue =>
    case RequestError(message) =>
      var t := ErrorPrefix + message;
      assert t[|ErrorPrefix|..] == message;
  }

  /** Each ambiguous outcome indeed shares its string with another one. */
  lemma AmbiguousIsConflated(r: Recognition)
    requires Ambiguous(r)
    ensures exists other :: other != r && TranscriptText(other) == TranscriptText(r)
  {
    if r.Recognized? {
      var rest := r.text[|ErrorPrefix|..];
      assert r.text == ErrorPrefix + rest;
      assert TranscriptText(RequestError(rest)) == r.text;
    } else {
      assert TranscriptText(UnknownValue) == TranscriptText(r);
    }
  }

  /** Every failure returns a string that a recognised transcript could
      also be, and `ReadBack` misreads that transcript: the returned string
      never proves that recognition failed. */
  lemma FailuresLookLikeTranscripts(r: Recognition)
    requires !r.Recognized?
    ensures exists text :: TranscriptText(Recognized(text)) == TranscriptText(r) && Ambiguous(Recognized(text))
  {
    FailuresArePrefixed(r);
    var text := TranscriptText(r);
    assert TranscriptText(Recognized(text)) == text;
  }

  /** Both failures give strings that start with "Error: ". */
  lemma FailuresArePrefixed(r: Recognition)
    requires !r.Recognized?
    ensures ErrorPrefix <= TranscriptText(r)
    ensures r.RequestError? ==> TranscriptText(r)[|ErrorPrefix|..] == r.message
  {
    var t := if r.UnknownValue? then UnknownAudioDetail else r.message;
    assert (ErrorPrefix + t)[..|ErrorPrefix|] == ErrorPrefix;
    if r.RequestError? {
      assert (ErrorPrefix + t)[|ErrorPrefix|..] == r.message;
    }
  }

  /** The failure strings travel into the PDF as ordinary text: the
      unknown-audio sentinel becomes exactly one paragraph, itself. */
  lemma UnknownAudioDocument()
    ensures Paragraphs(TranscriptText(UnknownValue)) == [UnknownAudioMessage]
  {
    assert !IsSpace(UnknownAudioMessage[0]);
    SingleLineParagraph(UnknownAudioMessage);
  }

  /** A request failure whose message has no newline becomes one
      paragraph, "Error: " followed by the message. */
  lemma RequestErrorDocument(message: string)
    requires '\n' !in message
    ensures Paragraphs(TranscriptText(RequestError(message))) == [ErrorPrefix + message]
  {
    var t := ErrorPrefix + message;
    assert !IsSpace(t[0]);
    assert '\n' !in t;
    SingleLineParagraph(t);
  }

  /** A recognised single-line transcript such as "hello world" gives a
      one-paragraph document. */
  lemma RecognizedLineDocument(text: string)
    requires '\n' !in text && !IsBlank(text)
    ensures Paragraphs(TranscriptText(Recognized(text))) == [text]
  {
    SingleLineParagraph(text);
  }
}
