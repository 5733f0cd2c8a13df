/**
  The download payload of `get_pdf_download_link`: the PDF's bytes in base
  64, embedded in a `data:` URI inside a fixed HTML anchor whose suggested
  file name is always `transcription.pdf`. The link is a function of the
  bytes alone; reading the file at the given path is I/O outside the model.
*/
module Download {
  import opened Wrappers
  import opened Base64

  const AnchorPrefix: string := "<a href='data:application/octet-stream;base64,"
  /** The quote that closes the `href` value, then the fixed file name. */
  const AnchorSuffix: string := "'" + " download='transcription.pdf'>Download PDF</a>"

  /** The anchor handed to the page for the PDF bytes `pdf`. */
  function DownloadLink(pdf: seq<byte>): string {
    AnchorPrefix + Encode(pdf) + AnchorSuffix
  }

  /** What a browser recovers from an anchor of this template: the bytes
      of its `data:` URI, or `None` for any other text. */
  function Payload(link: string): Option<seq<byte>> {
    if |link| >= |AnchorPrefix| + |AnchorSuffix|
       && link[..|AnchorPrefix|] == AnchorPrefix
       && link[|link| - |AnchorSuffix|..] == AnchorSuffix
    then Decode(link[|AnchorPrefix|..|link| - |AnchorSuffix|])
    else None
  }

  /** The link's pieces, located: the template around the encoding. */
  lemma LinkParts(pdf: seq<byte>)
    ensures var link, b64 := DownloadLink(pdf), Encode(pdf);
      && |link| == |AnchorPrefix| + |b64| + |AnchorSuffix|
      && link[..|AnchorPrefix|] == AnchorPrefix
      && link[|AnchorPrefix|..|link| - |AnchorSuffix|] == b64
      && link[|link| - |AnchorSuffix|..] == AnchorSuffix
  {
    Concat3(AnchorPrefix, Encode(pdf), AnchorSuffix);
  }

  /** The three parts of a concatenation can be sliced back out. */
  lemma Concat3(a: string, b: string, c: string)
    ensures var s := a + b + c;
      && |s| == |a| + |b| + |c|
      && s[..|a|] == a && s[|a|..|s| - |c|] == b && s[|s| - |c|..] == c
  {
    var s := a + b + c;
    assert s == a + (b + c);
    assert s[|a|..] == b + c;
  }

  /** The payload of the link is exactly the PDF's bytes, so the decoded
      download has the byte size of the written file. */
  lemma PayloadOfLink(pdf: seq<byte>)
    ensures Payload(DownloadLink(pdf)) == Some(pdf)
    ensures |DownloadLink(pdf)| == |AnchorPrefix| + 4 * ((|pdf| + 2) / 3) + |AnchorSuffix|
  {
    LinkParts(pdf);
    EncodeLength(pdf);
    DecodeEncode(pdf);
  }

  /** Every text that carries a payload is the link for that payload. */
  lemma LinkOfPayload(link: string, pdf: seq<byte>)
    requires Payload(link) == Some(pdf)
    ensures DownloadLink(pdf) == link
  {
    var n := |link| - |AnchorSuffix|;
    var b64 := link[|AnchorPrefix|..n];
    EncodeDecode(b64, pdf);
    ThreeParts(link, |AnchorPrefix|, n);
  }

  /** A text is its prefix, middle and suffix put together. */
  lemma ThreeParts(s: string, i: nat, j: nat)
    requires i <= j <= |s|
    ensures s == s[..i] + s[i..j] + s[j..]
  {
  }

  /** Different files give different links. */
  lemma LinkInjective(a: seq<byte>, b: seq<byte>)
    requires DownloadLink(a) == DownloadLink(b)
    ensures a == b
  {
    PayloadOfLink(a);
    PayloadOfLink(b);
  }

  /** The encoding never contains the quote that closes the `href`
      attribute: the attribute's value ends right after the encoding, and
      what follows is the fixed suffix naming `transcription.pdf`, whatever
      the bytes. */
  lemma HrefStaysQuoted(pdf: seq<byte>)
    ensures var link, n := DownloadLink(pdf), |AnchorPrefix| + |Encode(pdf)|;
      && (forall i :: |AnchorPrefix| <= i < n ==> link[i] != '\'')
      && n < |link| && link[n] == '\'' && link[n..] == AnchorSuffix
  {
    LinkParts(pdf);
    var link, b64 := DownloadLink(pdf), Encode(pdf);
    NoQuoteInEncoding(pdf);
    var n := |AnchorPrefix| + |b64|;
    assert link[n..] == AnchorSuffix;
    assert AnchorSuffix[0] == '\'';
    assert link[n] == link[n..][0];
    forall i | |AnchorPrefix| <= i < n ensures link[i] != '\'' {
      assert link[i] == link[|AnchorPrefix|..n][i - |AnchorPrefix|];
    }
  }

  /** No character of an encoding is a quote. */
  lemma NoQuoteInEncoding(pdf: seq<byte>)
    ensures forall i :: 0 <= i < |Encode(pdf)| ==> Encode(pdf)[i] != '\''
  {
    EncodeAlphabet(pdf);
  }
}
