# Derivative-checking upload service: the home-grown core of `app.py`

`app.py` is a small Flask service. A student uploads a photo of handwritten
calculus work. The handler validates the upload and converts HEIC/HEIF photos
to JPEG. It embeds the image in a base64 `data:` URL and sends that to a
hosted language model. The model's reply is HTML-escaped for the page.
This project models the service's own logic in Dafny:

- `HtmlEscape`: `escape_html_keep_math`, four chained `str.replace` calls.
  They are proved equal to one per-character map. From that follow the exact
  length, the read-back (`Unescape`), the absence of stray markup, and the
  preservation of `$` and `\`.
- `Base64`: the `base64.b64encode` step of `to_data_url`, following section 4
  of RFC 4648. There is a strict decoder beside it. Each is proved the inverse
  of the other.
- `DataUrl`: `to_data_url`, the `data:<mime>;base64,<data>` form of section 3
  of RFC 2397. A parser is proved to read the media type and the exact bytes
  back.
- `UploadIntake`: the allow-list `ALLOWED_MIME` and the intake path of the POST
  branch of `index`, modelled as the pure function `Intake`. It checks, in
  this order: a missing file, a media type not on the list, an empty payload,
  then the HEIC/HEIF conversion. `HandlePost` adds the variables handed to the
  page once the model has replied.
- `Wrappers`: the `Option` type.

Two parts are outside code and enter as parameters. The HEIC decoder with its
JPEG encoder is a function `seq<byte> -> Conversion`: it gives JPEG bytes or an
exception message. The chat-completion call is a function `string -> Reply`:
it gets the data URL and gives the first choice's content or an exception
message.

Three facts about `app.py` that the model keeps:
- The allow-list has seven media types, including `image/jpg`.
- A conversion failure is reported with the prefix `HEIC/HEIF conversion failed: `
  before the exception's text.
- The bytes a conversion produces are not checked for emptiness again.

## Model

| member | source | states |
|---|---|---|
| `HtmlEscape.ReplaceChar` | app.py:122-125 | `str.replace` with a one-character pattern: a string without the pattern comes back unchanged, and a replacement without the pattern leaves none in the result |
| `HtmlEscape.EscapeHtmlKeepMath` | app.py:119-126 | the escaped text has no line-feed; text with none of `&`, `<`, `>`, line-feed is returned unchanged |
| `HtmlEscape.EscapeOneChar` | app.py:122-125 | on one character the four replaces, in source order, give `&amp;`, `&lt;`, `&gt;`, `<br>` or the character itself; an entity inserted by an earlier replace is never escaped again |
| `HtmlEscape.EscapeAppend` | app.py:121-126 | the replace chain distributes over concatenation |
| `HtmlEscape.EscapeIsCharMap` | app.py:121-126 | the chained replaces equal the per-character map `EscapeMap`: each character is escaped on its own, in order |
| `HtmlEscape.EscapedLength` | app.py:121-126 | output length = input length + 4·#`&` + 3·#`<` + 3·#`>` + 3·#line-feed |
| `HtmlEscape.UnescapeEscape` | app.py:121-126 | reading the output's entities and `<br>` back gives exactly the input, so nothing is double-escaped or lost |
| `HtmlEscape.EscapeInjective` | app.py:121-126 | two different texts never escape to the same HTML |
| `HtmlEscape.EscapedMarkupIsInserted` | app.py:121-126 | every `&` of the output starts `&amp;`, `&lt;` or `&gt;`; every `<` starts and every `>` ends an inserted `<br>` |
| `HtmlEscape.MathMarksKept` | app.py:120 | the `$` and backslash characters of the output are those of the input, in the same number and relative order |
| `Base64.Digit` | app.py:116 | every 6-bit value maps to a character of the base64 alphabet |
| `Base64.DigitValue` | app.py:116 | exactly the alphabet characters have a value, and each is the character of its value |
| `Base64.DigitIsAlphabet` | app.py:116 | the value-to-character map is the 64-character table of RFC 4648 section 4, `A`–`Z`, `a`–`z`, `0`–`9`, `+`, `/` |
| `Base64.Encode` | app.py:116 | the encoding of n bytes has length 4·⌈n/3⌉ |
| `Base64.EncodeKnownAnswersShort` | app.py:116 | the encoder gives the RFC 4648 section 10 test vectors for "", "f", "fo", "foo" and "foob", so the bits go out most significant first |
| `Base64.EncodeKnownAnswersLong` | app.py:116 | the encoder gives the RFC 4648 section 10 test vectors `Zm9vYmE=` and `Zm9vYmFy` for "fooba" and "foobar" |
| `Base64.EncodeAlphabet` | app.py:116 | the encoding uses only alphabet characters and `=`, and `=` fills exactly the last (3 − n mod 3) mod 3 positions, at most two |
| `Base64.DecodeEncode` | app.py:116 | decoding the encoding of any bytes gives those bytes back |
| `Base64.EncodeDecode` | app.py:116 | whatever the strict decoder accepts is the encoding of what it yields, so the two are inverse bijections |
| `DataUrl.ToDataUrl` | app.py:115-117 | the URL's length is that of `data:`, the media type and `;base64,` plus the 4·⌈n/3⌉ payload characters |
| `DataUrl.ParseDataUrl` | app.py:117 | a parsed URL's media type never contains the `;` that ends it |
| `DataUrl.ParseToDataUrl` | app.py:115-117 | for a media type without `;`, the URL reads back as that media type and the very bytes that were encoded |
| `UploadIntake.AllowedSortedIsSorted` | app.py:142 | the list in the unsupported-type message holds exactly `ALLOWED_MIME`, in strictly ascending code-point order; it is `sorted(ALLOWED_MIME)` |
| `UploadIntake.StrLessTransitive` | app.py:142 | the code-point string order used by `sorted` is transitive |
| `UploadIntake.AllowedMimeShape` | app.py:32-35 | every allowed type is already lower case and contains no `;` |
| `UploadIntake.Lower` | app.py:138 | lower-casing keeps the length, maps each character through the ASCII case map and leaves no upper-case ASCII letter |
| `UploadIntake.LowerOfLower` | app.py:138 | lower-casing a string with no upper-case letter changes nothing |
| `UploadIntake.LowerIdempotent` | app.py:138 | lower-casing twice is lower-casing once |
| `UploadIntake.Join` | app.py:142 | `sep.join(xs)` of a non-empty list starts with its first element |
| `UploadIntake.JoinAppend` | app.py:142 | joining a concatenation of two non-empty lists is joining each, with one separator between |
| `UploadIntake.JoinAllowedSorted` | app.py:142 | `', '.join(sorted(ALLOWED_MIME))` is `image/gif, image/heic, image/heif, image/jpeg, image/jpg, image/png, image/webp` |
| `UploadIntake.UnsupportedMessage` | app.py:140-143 | the message is `Unsupported file type: `, the type, `. Allowed: ` and the seven types in sorted order, comma-separated |
| `UploadIntake.DeclaredMime` | app.py:138 | the declared type, or the empty text when none is declared, lower-cased character by character: same length, each character through the ASCII case map, no upper-case letter left |
| `UploadIntake.SizeKb` | app.py:151 | `size_kb` is the whole number of KB, ⌊n/1024⌋: kb·1024 ≤ n < (kb+1)·1024 |
| `UploadIntake.Intake` | app.py:134-164 | an accepted image always has an allowed, non-HEIC/HEIF media type and a `size_kb` of ⌊len(bytes)/1024⌋ for the bytes it carries on |
| `UploadIntake.AcceptedIff` | app.py:134-164 | an upload is accepted if and only if it is present, its lower-cased type is allowed, it is non-empty, and a HEIC/HEIF file converts |
| `UploadIntake.RejectionMessages` | app.py:134-164 | every rejection is one of the four errors, each under exactly its own condition: no file; a type outside the list; an allowed type with no bytes; non-empty HEIC/HEIF that fails to convert |
| `UploadIntake.MissingFileFirst` | app.py:134-136 | a missing file yields "Please upload an image." |
| `UploadIntake.UnsupportedBeforeBytes` | app.py:138-143 | a lower-cased type outside the list yields the message naming that type, whatever bytes and converter there are |
| `UploadIntake.EmptyBeforeConversion` | app.py:145-147 | an allowed type with no bytes yields "Empty file uploaded.", whatever the converter |
| `UploadIntake.HeifBecomesJpeg` | app.py:154-162 | HEIC/HEIF that converts is accepted as the converted bytes, with type `image/jpeg`, size from the converted bytes, and note "Converted to JPEG" |
| `UploadIntake.HeifConversionFails` | app.py:154-164 | HEIC/HEIF that fails to convert yields "HEIC/HEIF conversion failed: " and the exception's text |
| `UploadIntake.OtherTypesPassThrough` | app.py:149-155 | any other allowed type passes through with its bytes and type unchanged and an empty note; the converter is never consulted |
| `UploadIntake.MimeCaseInsensitive` | app.py:138-139 | two declared types that differ only in ASCII case are treated the same |
| `UploadIntake.HeifOnlyAsJpeg` | app.py:155-162 | an accepted HEIC/HEIF upload goes on only as the converter's JPEG bytes, typed `image/jpeg` |
| `UploadIntake.HandlePost` | app.py:166-221 | a preview is passed exactly when intake accepts; exactly one of an error and an escaped reply is passed; an accepted upload's media type, `size_kb` and note are passed as intake computed them |
| `UploadIntake.ErrorPage` | app.py:136 | an error page carries the message and neither preview nor reply |
| `UploadIntake.RejectedNeverAsks` | app.py:134-164 | a rejected upload passes only its error to the template, and what the model would answer makes no difference |
| `UploadIntake.ModelSeesAcceptedImage` | app.py:166-196 | for an accepted upload, `HandlePost` passes as preview the data URL of the accepted bytes and type; that URL reads back as exactly them; and two models that answer that URL alike give the same template variables, so the URL is what the model receives |
| `UploadIntake.PreviewMatchesSize` | app.py:166-211 | whenever a preview is passed to the template, it reads back as the passed media type and bytes whose ⌊len/1024⌋ is the passed `size_kb` |
| `UploadIntake.ResponseIsEscapedReply` | app.py:201-206 | the reply passed to the template is the model's content (missing content as empty text) escaped: it reads back as that content, has no line-feed and no markup except the inserted entities and `<br>` |

## Left out

- Flask routing, the GET branch, `MAX_CONTENT_LENGTH` and the `after_request` header rewrite (app.py:13-24): framework plumbing.
- The `OPENAI_API_KEY` startup check and the client setup (app.py:26-30): environment I/O.
- The chat-completion call (app.py:170-200). It is an opaque parameter `ask`; the fixed prompts, model name and temperature it sends are not modelled.
- HEIC decoding and JPEG encoding through PIL (app.py:156-158). This is a foreign codec and appears as the opaque parameter `convert`.
- The HTML template, its Jinja rendering and the client-side Markdown, sanitiser and MathJax code (app.py:38-111). `HandlePost` stops at the variables passed to the template. The consequences of the template are not modelled. It prints `error` only inside `{% if preview_src %}` (app.py:78-108). So the page for an intake error (app.py:136, 140-143, 147, 164) does not contain its message. The handler passes `response_html` (app.py:206), but the template reads `response_md` (app.py:94). As written, `tojson` of the undefined variable then raises inside the `try`, and the page is rendered again as "Error calling OpenAI: …" (app.py:213-221).
- `UploadIntake.Intake`: whether the upload is present is an `Option`. The framework's own rule for when a file field counts as false is not part of this model.
- `UploadIntake.Lower`: only ASCII letters are lower-cased, not Python's full Unicode case mapping. The allow/deny decision is still the same. Only two non-ASCII characters lower-case to something with an ASCII letter: U+212A KELVIN SIGN becomes `k`, and U+0130 becomes `i` followed by the non-ASCII U+0307. No allowed type contains `k`, and the U+0307 keeps the second out of the list. Only the type named in the error message can differ, for non-ASCII input.
- `UploadIntake.SizeKb`: Python computes `int(len / 1024)` with a float division. The model uses integer division. The two agree because 1024 is a power of two, for lengths below 2^53.
- `DataUrl.ParseDataUrl` is not called in the source; nothing there reads a data URL. It serves only as the inverse of `ToDataUrl`.
- `Base64.Decode` is not called in the source. It follows the canonical decoding of RFC 4648 section 3.5 and serves only as the encoder's inverse.
- Exceptions inside `f.read()` and other framework failures cannot be expressed: the bytes enter as a value.
