/**
 * `to_data_url` of app.py: a `data:` URL in the form of section 3 of
 * RFC 2397 (`data:<mediatype>;base64,<data>`) whose data is the base64
 * encoding of the image bytes.
 */
module DataUrl {
  import opened Wrappers
  import opened Base64

  const Scheme: string := "data:"
  const Base64Marker: string := ";base64,"

  /** `to_data_url(img_bytes, mime)`. */
  function ToDataUrl(bytes: seq<byte>, mime: string): (r: string)
    ensures |r| == |Scheme| + |mime| + |Base64Marker| + 4 * ((|bytes| + 2) / 3)
  {
    Scheme + mime + Base64Marker + Encode(bytes)
  }

  /** Position of the first `c` in `s`, or `|s|` when there is none. */
  function IndexOf(s: string, c: char): (k: nat)
    ensures k <= |s|
    ensures forall j | 0 <= j < k :: s[j] != c
    ensures k < |s| ==> s[k] == c
  {
    if s == [] then 0
    else if s[0] == c then 0
    else 1 + IndexOf(s[1..], c)
  }

  /**
   * Reads a base64 `data:` URL back: the media type runs up to the first
   * `;`, which must open `;base64,`, and the rest must be strict base64.
   */
  function ParseDataUrl(u: string): (r: Option<(string, seq<byte>)>)
    ensures r.Some? ==> ';' !in r.value.0
  {
    if !(Scheme <= u) then None
    else
      var rest := u[|Scheme|..];
      var k := IndexOf(rest, ';');
      if !(Base64Marker <= rest[k..]) then None
      else
        match Decode(rest[k + |Base64Marker|..])
        case None => None
        case Some(b) => Some((rest[..k], b))
  }

  /**
   * A data URL built from a media type without `;` reads back as that
   * media type and the very bytes that were encoded.
   */
  lemma ParseToDataUrl(bytes: seq<byte>, mime: string)
    requires ';' !in mime
    ensures ParseDataUrl(ToDataUrl(bytes, mime)) == Some((mime, bytes))
  {
    SplitDataUrl(mime, Encode(bytes));
    DecodeEncode(bytes);
  }

  /** Parsing a URL of the built shape splits off the media type and decodes exactly the payload. */
  lemma SplitDataUrl(mime: string, payload: string)
    requires ';' !in mime
    ensures ParseDataUrl(Scheme + mime + Base64Marker + payload) ==
      match Decode(payload)
      case None => None
      case Some(b) => Some((mime, b))
  {
    var u := Scheme + mime + Base64Marker + payload;
    var rest := mime + Base64Marker + payload;
    assert Scheme <= u && u[|Scheme|..] == rest;
    IndexOfFirst(mime, Base64Marker + payload, ';');
    var k := |mime|;
    assert rest[k..] == Base64Marker + payload;
    assert rest[k + |Base64Marker|..] == payload;
    assert rest[..k] == mime;
  }

  lemma IndexOfFirst(a: string, b: string, c: char)
    requires c !in a && b != [] && b[0] == c
    ensures IndexOf(a + b, c) == |a|
  {
    var k := IndexOf(a + b, c);
    assert (a + b)[|a|] == c;
  }
}
