/**
 * The validation and normalisation path of the POST branch of `index` in
 * app.py: which upload is accepted, with which bytes, media type, size in
 * KB and note, and which error message is passed to the template otherwise;
 * then the variables the handler passes to the template once the image and
 * the model's reply are known.
 */
module UploadIntake {
  import opened Wrappers
  import opened Base64
  import DataUrl
  import HtmlEscape

  /** The `equation_image` field of the form: its declared media type and the bytes `read()` returns. */
  datatype Upload = Upload(mimetype: Option<string>, content: seq<byte>)

  /** What the HEIC/HEIF decoder and JPEG encoder produce: JPEG bytes, or an exception's text. */
  datatype Conversion = Converted(jpeg: seq<byte>) | ConversionFailed(message: string)

  /** The outcome of intake: an error message for the template, or the image that goes on to the model. */
  datatype Decision =
    | Rejected(error: string)
    | Accepted(bytes: seq<byte>, mime: string, sizeKb: nat, note: string)

  /** `ALLOWED_MIME`. */
  const AllowedMime: set<string> :=
    {"image/png", "image/jpeg", "image/jpg", "image/webp", "image/gif", "image/heic", "image/heif"}

  /** The media types that are converted to JPEG before use. */
  const HeifMime: set<string> := {"image/heic", "image/heif"}

  const JpegMime: string := "image/jpeg"
  const MissingFileError: string := "Please upload an image."
  const EmptyFileError: string := "Empty file uploaded."
  const ConversionFailedPrefix: string := "HEIC/HEIF conversion failed: "
  const ConvertedNote: string := "Converted to JPEG"
  const AiErrorPrefix: string := "Error calling OpenAI: "

  /** `sorted(ALLOWED_MIME)`, the order in which the error message lists the allowed types. */
  const AllowedSorted: seq<string> :=
    ["image/gif", "image/heic", "image/heif", "image/jpeg", "image/jpg", "image/png", "image/webp"]

  /** Python's ordering of strings: lexicographic by code point, a proper prefix first. */
  predicate StrLess(a: string, b: string) {
    if a == [] then b != []
    else if b == [] then false
    else if a[0] != b[0] then a[0] < b[0]
    else StrLess(a[1..], b[1..])
  }

  /**
   * The listing in the error message is `sorted(ALLOWED_MIME)`: it holds
   * exactly the allowed types, each once, in ascending order.
   */
  lemma AllowedSortedIsSorted()
    ensures forall i, j | 0 <= i < j < |AllowedSorted| :: StrLess(AllowedSorted[i], AllowedSorted[j])
    ensures (set m | m in AllowedSorted) == AllowedMime
  {
    AllowedSortedAdjacent();
    SortedFromAdjacent(AllowedSorted);
    AllowedSortedElements();
  }

  lemma AllowedSortedElements()
    ensures (set m | m in AllowedSorted) == AllowedMime
  {
  }

  lemma AllowedSortedAdjacent()
    ensures forall i | 0 < i < |AllowedSorted| :: StrLess(AllowedSorted[i - 1], AllowedSorted[i])
  {
    forall i | 0 < i < |AllowedSorted|
      ensures StrLess(AllowedSorted[i - 1], AllowedSorted[i])
    {
      if i == 1 {
        GifBeforeHeic();
      } else if i == 2 {
        HeicBeforeHeif();
      } else if i == 3 {
        HeifBeforeJpeg();
      } else if i == 4 {
        JpegBeforeJpg();
      } else if i == 5 {
        JpgBeforePng();
      } else {
        PngBeforeWebp();
      }
    }
  }

  lemma GifBeforeHeic()
    ensures StrLess("image/gif", "image/heic")
  {
    SharedPrefixLess("image/", "gif", "heic");
    assert "image/gif" == "image/" + "gif" && "image/heic" == "image/" + "heic";
  }

  lemma HeicBeforeHeif()
    ensures StrLess("image/heic", "image/heif")
  {
    assert StrLess("heic", "heif") by {
      assert "heic"[1..] == "eic" && "heif"[1..] == "eif";
      assert "eic"[1..] == "ic" && "eif"[1..] == "if";
    }
    SharedPrefixLess("image/", "heic", "heif");
    assert "image/heic" == "image/" + "heic" && "image/heif" == "image/" + "heif";
  }

  lemma HeifBeforeJpeg()
    ensures StrLess("image/heif", "image/jpeg")
  {
    SharedPrefixLess("image/", "heif", "jpeg");
    assert "image/heif" == "image/" + "heif" && "image/jpeg" == "image/" + "jpeg";
  }

  lemma JpegBeforeJpg()
    ensures StrLess("image/jpeg", "image/jpg")
  {
    assert StrLess("jpeg", "jpg") by {
      assert "jpeg"[1..] == "peg" && "jpg"[1..] == "pg";
    }
    SharedPrefixLess("image/", "jpeg", "jpg");
    assert "image/jpeg" == "image/" + "jpeg" && "image/jpg" == "image/" + "jpg";
  }

  lemma JpgBeforePng()
    ensures StrLess("image/jpg", "image/png")
  {
    SharedPrefixLess("image/", "jpg", "png");
    assert "image/jpg" == "image/" + "jpg" && "image/png" == "image/" + "png";
  }

  lemma PngBeforeWebp()
    ensures StrLess("image/png", "image/webp")
  {
    SharedPrefixLess("image/", "png", "webp");
    assert "image/png" == "image/" + "png" && "image/webp" == "image/" + "webp";
  }

  lemma {:induction false} SharedPrefixLess(p: string, a: string, b: string)
    requires StrLess(a, b)
    ensures StrLess(p + a, p + b)
  {
    if p != [] {
      assert (p + a)[1..] == p[1..] + a;
      assert (p + b)[1..] == p[1..] + b;
      SharedPrefixLess(p[1..], a, b);
    } else {
      assert p + a == a && p + b == b;
    }
  }

  lemma {:induction false} StrLessTransitive(a: string, b: string, c: string)
    requires StrLess(a, b) && StrLess(b, c)
    ensures StrLess(a, c)
  {
    if a != [] && b != [] && c != [] && a[0] == b[0] == c[0] {
      StrLessTransitive(a[1..], b[1..], c[1..]);
    }
  }

  lemma {:induction false} SortedFromAdjacent(xs: seq<string>)
    requires forall i | 0 < i < |xs| :: StrLess(xs[i - 1], xs[i])
    ensures forall i, j | 0 <= i < j < |xs| :: StrLess(xs[i], xs[j])
  {
    if |xs| > 1 {
      SortedFromAdjacent(xs[1..]);
      forall j | 1 < j < |xs|
        ensures StrLess(xs[0], xs[j])
      {
        assert xs[1..][0] == xs[1] && xs[1..][j - 1] == xs[j];
        StrLessTransitive(xs[0], xs[1], xs[j]);
      }
      forall i, j | 0 < i < j < |xs|
        ensures StrLess(xs[i], xs[j])
      {
        assert xs[1..][i - 1] == xs[i] && xs[1..][j - 1] == xs[j];
      }
    }
  }

  /** ASCII case mapping of one character. */
  function LowerChar(c: char): char {
    if 'A' <= c <= 'Z' then (c as int - 'A' as int + 'a' as int) as char else c
  }

  /** `s` has no upper-case ASCII letter. */
  predicate IsLower(s: string) {
    s == [] || (!('A' <= s[0] <= 'Z') && IsLower(s[1..]))
  }

  /** `str.lower()` on the declared media type, restricted to ASCII letters. */
  function Lower(s: string): (r: string)
    ensures |r| == |s|
    ensures forall i | 0 <= i < |s| :: r[i] == LowerChar(s[i])
    ensures IsLower(r)
  {
    if s == [] then []
    else
      var r := [LowerChar(s[0])] + Lower(s[1..]);
      assert r[1..] == Lower(s[1..]);
      r
  }

  /** A string with no upper-case ASCII letter is its own lower case. */
  lemma {:induction false} LowerOfLower(s: string)
    requires IsLower(s)
    ensures Lower(s) == s
  {
    if s != [] {
      LowerOfLower(s[1..]);
      assert s == [s[0]] + s[1..];
    }
  }

  /** Lower-casing twice is lower-casing once. */
  lemma LowerIdempotent(s: string)
    ensures Lower(Lower(s)) == Lower(s)
  {
    LowerOfLower(Lower(s));
  }

  /** `sep.join(xs)`: the strings in order, with `sep` between neighbours. */
  function Join(sep: string, xs: seq<string>): (r: string)
    ensures xs != [] ==> xs[0] <= r
  {
    if xs == [] then "" else if |xs| == 1 then xs[0] else xs[0] + sep + Join(sep, xs[1..])
  }

  /** Joining a concatenation joins the two parts with one more separator. */
  lemma {:induction false} JoinAppend(sep: string, xs: seq<string>, ys: seq<string>)
    requires xs != [] && ys != []
    ensures Join(sep, xs + ys) == Join(sep, xs) + sep + Join(sep, ys)
  {
    if |xs| == 1 {
      assert (xs + ys)[1..] == ys;
    } else {
      assert (xs + ys)[1..] == xs[1..] + ys;
      JoinAppend(sep, xs[1..], ys);
    }
  }

  /** The allowed types as the error message lists them, in `sorted` order. */
  const AllowedListing: string :=
    "image/gif" + ", " + "image/heic" + ", " + "image/heif" + ", " + "image/jpeg" + ", "
    + "image/jpg" + ", " + "image/png" + ", " + "image/webp"

  /** `', '.join(sorted(ALLOWED_MIME))` is the listing above. */
  lemma {:induction false} JoinAllowedSorted()
    ensures Join(", ", AllowedSorted) == AllowedListing
  {
    var s := AllowedSorted;
    var sep := ", ";
    forall k | 0 <= k < 6
      ensures Join(sep, s[k..]) == s[k] + sep + Join(sep, s[k + 1..])
    {
      assert s[k..] == [s[k]] + s[k + 1..];
      JoinAppend(sep, [s[k]], s[k + 1..]);
    }
    assert s[0..] == s;
    assert Join(sep, s[6..]) == s[6];
    calc {
      Join(sep, s);
      s[0] + sep + (s[1] + sep + (s[2] + sep + (s[3] + sep + (s[4] + sep + (s[5] + sep + s[6])))));
      AllowedListing;
    }
  }

  /** The message for a media type outside the allow-list, which names that type and lists the allowed ones. */
  function UnsupportedMessage(mime: string): (r: string)
    ensures r == "Unsupported file type: " + mime + ". Allowed: " + AllowedListing
  {
    JoinAllowedSorted();
    "Unsupported file type: " + mime + ". Allowed: " + Join(", ", AllowedSorted)
  }

  /** `int(len(b) / 1024)`: whole kilobytes, rounded down. */
  function SizeKb(n: nat): (kb: nat)
    ensures kb * 1024 <= n < (kb + 1) * 1024
  {
    n / 1024
  }

  /** The lower-cased declared media type, `(f.mimetype or "").lower()`. */
  function DeclaredMime(u: Upload): (r: string)
    ensures IsLower(r) && |r| == |u.mimetype.GetOr("")|
    ensures u.mimetype.None? ==> r == ""
    ensures forall i | 0 <= i < |r| :: r[i] == LowerChar(u.mimetype.GetOr("")[i])
  {
    Lower(u.mimetype.GetOr(""))
  }

  /**
   * Intake, checks in source order: a missing file, then a media type
   * outside the allow-list (before any byte is read), then an empty
   * payload, then the conversion of HEIC/HEIF to JPEG.
   */
  function Intake(upload: Option<Upload>, convert: seq<byte> -> Conversion): (r: Decision)
    ensures r.Accepted? ==> r.mime in AllowedMime - HeifMime
    ensures r.Accepted? ==> r.sizeKb == |r.bytes| / 1024
  {
    if upload.None? then Rejected(MissingFileError)
    else
      var mime := DeclaredMime(upload.value);
      if mime !in AllowedMime then Rejected(UnsupportedMessage(mime))
      else
        var raw := upload.value.content;
        if |raw| == 0 then Rejected(EmptyFileError)
        else if mime in HeifMime then
          match convert(raw)
          case Converted(jpeg) => Accepted(jpeg, JpegMime, SizeKb(|jpeg|), ConvertedNote)
          case ConversionFailed(e) => Rejected(ConversionFailedPrefix + e)
        else Accepted(raw, mime, SizeKb(|raw|), "")
  }

  /** An upload is accepted exactly when it is present, allowed, non-empty and, if HEIC/HEIF, converts. */
  lemma AcceptedIff(upload: Option<Upload>, convert: seq<byte> -> Conversion)
    ensures Intake(upload, convert).Accepted? <==>
      && upload.Some?
      && DeclaredMime(upload.value) in AllowedMime
      && |upload.value.content| > 0
      && (DeclaredMime(upload.value) in HeifMime ==> convert(upload.value.content).Converted?)
  {
  }

  /** Every intake error is one of its four messages, each under exactly its own condition. */
  lemma RejectionMessages(upload: Option<Upload>, convert: seq<byte> -> Conversion)
    ensures Intake(upload, convert).Rejected? ==>
      var e := Intake(upload, convert).error;
      || (upload.None? && e == MissingFileError)
      || (upload.Some? && e == UnsupportedMessage(DeclaredMime(upload.value)) && DeclaredMime(upload.value) !in AllowedMime)
      || (upload.Some? && e == EmptyFileError && DeclaredMime(upload.value) in AllowedMime && upload.value.content == [])
      || (upload.Some? && DeclaredMime(upload.value) in HeifMime && |upload.value.content| > 0
          && convert(upload.value.content).ConversionFailed?
          && e == ConversionFailedPrefix + convert(upload.value.content).message)
  {
  }

  /** A missing file is reported whatever else is the case. */
  lemma MissingFileFirst(convert: seq<byte> -> Conversion)
    ensures Intake(None, convert) == Rejected(MissingFileError)
  {
  }

  /**
   * A media type outside the allow-list is reported, naming the lower-cased
   * type, before the bytes are looked at or the converter is used.
   */
  lemma UnsupportedBeforeBytes(mimetype: Option<string>, b1: seq<byte>, b2: seq<byte>,
                               c1: seq<byte> -> Conversion, c2: seq<byte> -> Conversion)
    requires Lower(mimetype.GetOr("")) !in AllowedMime
    ensures Intake(Some(Upload(mimetype, b1)), c1) == Rejected(UnsupportedMessage(Lower(mimetype.GetOr(""))))
    ensures Intake(Some(Upload(mimetype, b1)), c1) == Intake(Some(Upload(mimetype, b2)), c2)
  {
  }

  /** An allowed media type with no bytes is reported as an empty file, before any conversion. */
  lemma EmptyBeforeConversion(mimetype: Option<string>, convert: seq<byte> -> Conversion)
    requires Lower(mimetype.GetOr("")) in AllowedMime
    ensures Intake(Some(Upload(mimetype, [])), convert) == Rejected(EmptyFileError)
  {
  }

  /** HEIC/HEIF that converts is accepted as JPEG, sized from the converted bytes, with the note. */
  lemma HeifBecomesJpeg(u: Upload, convert: seq<byte> -> Conversion)
    requires DeclaredMime(u) in HeifMime && |u.content| > 0 && convert(u.content).Converted?
    ensures Intake(Some(u), convert) ==
      Accepted(convert(u.content).jpeg, "image/jpeg", |convert(u.content).jpeg| / 1024, "Converted to JPEG")
  {
  }

  /** HEIC/HEIF that does not convert is reported with the converter's message. */
  lemma HeifConversionFails(u: Upload, convert: seq<byte> -> Conversion)
    requires DeclaredMime(u) in HeifMime && |u.content| > 0 && convert(u.content).ConversionFailed?
    ensures Intake(Some(u), convert) == Rejected("HEIC/HEIF conversion failed: " + convert(u.content).message)
  {
  }

  /** Any other allowed type passes through with its bytes and type unchanged and no note; the converter is never used. */
  lemma OtherTypesPassThrough(u: Upload, c1: seq<byte> -> Conversion, c2: seq<byte> -> Conversion)
    requires DeclaredMime(u) in AllowedMime - HeifMime && |u.content| > 0
    ensures Intake(Some(u), c1) == Accepted(u.content, DeclaredMime(u), |u.content| / 1024, "")
    ensures Intake(Some(u), c1) == Intake(Some(u), c2)
  {
  }

  /** The declared type is compared without regard to ASCII case. */
  lemma MimeCaseInsensitive(m1: string, m2: string, content: seq<byte>, convert: seq<byte> -> Conversion)
    requires Lower(m1) == Lower(m2)
    ensures Intake(Some(Upload(Some(m1), content)), convert) == Intake(Some(Upload(Some(m2), content)), convert)
  {
  }

  /** No allowed type contains `;`, so each one can head a `data:` URL, and each is already lower case. */
  lemma AllowedMimeShape(m: string)
    requires m in AllowedMime
    ensures ';' !in m
    ensures Lower(m) == m
  {
    AllowedMimeListed(m);
    ListedMimeLower(m);
  }

  lemma AllowedMimeListed(m: string)
    requires m in AllowedMime
    ensures m in AllowedSorted
  {
    AllowedSortedElements();
  }

  lemma ListedMimeLower(m: string)
    requires m in AllowedSorted
    ensures Lower(m) == m && ';' !in m
  {
    var i :| 0 <= i < |AllowedSorted| && AllowedSorted[i] == m;
    AllowedSortedLower(i);
  }

  lemma AllowedSortedLower(i: nat)
    requires i < |AllowedSorted|
    ensures Lower(AllowedSorted[i]) == AllowedSorted[i] && ';' !in AllowedSorted[i]
  {
    AllowedSortedIsLower(i);
    LowerOfLower(AllowedSorted[i]);
  }

  lemma AllowedSortedIsLower(i: nat)
    requires i < |AllowedSorted|
    ensures IsLower(AllowedSorted[i]) && ';' !in AllowedSorted[i]
  {
    if i == 0 {
      LowerImageGif();
    } else if i == 1 {
      LowerImageHeic();
    } else if i == 2 {
      LowerImageHeif();
    } else if i == 3 {
      LowerImageJpeg();
    } else if i == 4 {
      LowerImageJpg();
    } else if i == 5 {
      LowerImagePng();
    } else {
      LowerImageWebp();
    }
  }

  lemma LowerImageGif()
    ensures IsLower("image/gif")
  {
  }

  lemma LowerImageHeic()
    ensures IsLower("image/heic")
  {
  }

  lemma LowerImageHeif()
    ensures IsLower("image/heif")
  {
  }

  lemma LowerImageJpeg()
    ensures IsLower("image/jpeg")
  {
  }

  lemma LowerImageJpg()
    ensures IsLower("image/jpg")
  {
  }

  lemma LowerImagePng()
    ensures IsLower("image/png")
  {
  }

  lemma LowerImageWebp()
    ensures IsLower("image/webp")
  {
  }

  /** What the chat-completion call gives back: the first choice's content (possibly none), or an exception's text. */
  datatype Reply = Completed(content: Option<string>) | Raised(message: string)

  /** The variables the POST handler passes to the page template; None where it passes none. */
  datatype Page = Page(
    error: Option<string>,
    responseHtml: Option<string>,
    previewSrc: Option<string>,
    mimeType: Option<string>,
    sizeKb: Option<nat>,
    convertedNote: Option<string>)

  /** The template variables when only an error is passed. */
  function ErrorPage(message: string): (p: Page)
    ensures p.error == Some(message) && p.previewSrc.None? && p.responseHtml.None?
  {
    Page(Some(message), None, None, None, None, None)
  }

  /**
   * The POST branch of `index`: intake, then the data URL of the accepted
   * image, which `ask` (the model) receives; its reply is escaped for the
   * template variables, or its failure is passed beside the preview.
   */
  function HandlePost(upload: Option<Upload>, convert: seq<byte> -> Conversion, ask: string -> Reply): (p: Page)
    ensures p.previewSrc.Some? <==> Intake(upload, convert).Accepted?
    ensures p.error.Some? <==> p.responseHtml.None?
    ensures Intake(upload, convert).Accepted? ==>
      var d := Intake(upload, convert);
      p.mimeType == Some(d.mime) && p.sizeKb == Some(d.sizeKb) && p.convertedNote == Some(d.note)
  {
    match Intake(upload, convert)
    case Rejected(e) => ErrorPage(e)
    case Accepted(bytes, mime, kb, note) =>
      var url := DataUrl.ToDataUrl(bytes, mime);
      match ask(url)
      case Completed(content) =>
        Page(None, Some(HtmlEscape.EscapeHtmlKeepMath(content.GetOr(""))), Some(url), Some(mime), Some(kb), Some(note))
      case Raised(e) =>
        Page(Some(AiErrorPrefix + e), None, Some(url), Some(mime), Some(kb), Some(note))
  }

  /** A rejected upload yields the intake's error alone, and the model is never asked. */
  lemma RejectedNeverAsks(upload: Option<Upload>, convert: seq<byte> -> Conversion,
                          ask1: string -> Reply, ask2: string -> Reply)
    requires Intake(upload, convert).Rejected?
    ensures HandlePost(upload, convert, ask1) == ErrorPage(Intake(upload, convert).error)
    ensures HandlePost(upload, convert, ask1) == HandlePost(upload, convert, ask2)
  {
  }

  /**
   * Whenever a preview is passed, it is a `data:` URL that reads back as the
   * passed media type (an allowed type that is not HEIC/HEIF) and bytes whose
   * whole-KB size is the passed size.
   */
  lemma PreviewMatchesSize(upload: Option<Upload>, convert: seq<byte> -> Conversion, ask: string -> Reply)
    ensures
      var p := HandlePost(upload, convert, ask);
      p.previewSrc.Some? ==>
        && p.mimeType.Some? && p.sizeKb.Some?
        && p.mimeType.value in AllowedMime - HeifMime
        && DataUrl.ParseDataUrl(p.previewSrc.value).Some?
        && DataUrl.ParseDataUrl(p.previewSrc.value).value.0 == p.mimeType.value
        && p.sizeKb.value == |DataUrl.ParseDataUrl(p.previewSrc.value).value.1| / 1024
  {
    var d := Intake(upload, convert);
    if d.Accepted? {
      AllowedMimeShape(d.mime);
      DataUrl.ParseToDataUrl(d.bytes, d.mime);
    }
  }

  /**
   * The model receives the data URL of exactly the accepted bytes and type,
   * the one passed as the preview, and the page depends on the model only
   * through its answer to that URL.
   */
  lemma ModelSeesAcceptedImage(upload: Option<Upload>, convert: seq<byte> -> Conversion,
                               ask1: string -> Reply, ask2: string -> Reply)
    requires Intake(upload, convert).Accepted?
    ensures
      var d := Intake(upload, convert);
      var url := DataUrl.ToDataUrl(d.bytes, d.mime);
      && HandlePost(upload, convert, ask1).previewSrc == Some(url)
      && DataUrl.ParseDataUrl(url) == Some((d.mime, d.bytes))
      && (ask1(url) == ask2(url) ==> HandlePost(upload, convert, ask1) == HandlePost(upload, convert, ask2))
  {
    var d := Intake(upload, convert);
    AllowedMimeShape(d.mime);
    DataUrl.ParseToDataUrl(d.bytes, d.mime);
  }

  /** A HEIC/HEIF upload is passed on only as JPEG, the bytes the converter produced. */
  lemma HeifOnlyAsJpeg(upload: Option<Upload>, convert: seq<byte> -> Conversion)
    requires Intake(upload, convert).Accepted? && DeclaredMime(upload.value) in HeifMime
    ensures Intake(upload, convert).mime == JpegMime
    ensures Intake(upload, convert).bytes == convert(upload.value.content).jpeg
  {
  }

  /**
   * The reply passed to the template is the model's text escaped: it has no
   * line-feed, no markup but the inserted entities and `<br>`, and it reads
   * back as the reply (an absent reply as the empty text).
   */
  lemma ResponseIsEscapedReply(upload: Option<Upload>, convert: seq<byte> -> Conversion, ask: string -> Reply)
    ensures
      var p := HandlePost(upload, convert, ask);
      p.responseHtml.Some? ==>
        && p.error.None? && p.previewSrc.Some?
        && ask(p.previewSrc.value).Completed?
        && HtmlEscape.Unescape(p.responseHtml.value) == ask(p.previewSrc.value).content.GetOr("")
        && '\n' !in p.responseHtml.value
        && forall i | 0 <= i < |p.responseHtml.value| :: HtmlEscape.MarkupInsertedAt(p.responseHtml.value, i)
  {
    var p := HandlePost(upload, convert, ask);
    if p.responseHtml.Some? {
      var t := ask(p.previewSrc.value).content.GetOr("");
      HtmlEscape.UnescapeEscape(t);
      HtmlEscape.EscapedMarkupIsInserted(t);
    }
  }
}
