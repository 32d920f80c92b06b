/**
 * Thumbnails of images as base64 data URIs: the size of the scaled copy,
 * the extension and encoder names, the MIME table and the empty-result rules.
 * Decoding, resampling and encoding are uninterpreted (`Platform.Probe`).
 */
module Thumbnail {
  import opened Outcomes
  import opened PhpStrings
  import opened Platform

  const DefaultMaxSize: int := 50

  function Min(a: int, b: int): int { if a <= b then a else b }
  function Max(a: int, b: int): int { if a <= b then b else a }

  /** `(int)(a / b)` for b > 0: the quotient rounded towards zero. */
  function TruncDiv(a: int, b: int): int
    requires b > 0
  {
    if a >= 0 then a / b else -((-a) / b)
  }

  /** `(int)ceil(a / b)` for b > 0. */
  function CeilDiv(a: int, b: int): int
    requires b > 0
  {
    -((-a) / b)
  }

  /**
   * The canvas size as the code computes it: an image within `max` on both
   * sides keeps its size; otherwise the longer side becomes `max` and the
   * other keeps the aspect ratio (rounded down for portrait, up for landscape).
   */
  function ScaledSize(w: Side, h: Side, max: int): (d: Dims)
    ensures d.width <= Max(max, w) && d.height <= Max(max, h)
  {
    if w <= max && h <= max then Dims(w, h)
    else if w < h then Dims(Min(max, TruncDiv(max * w, h)), max)
    else Dims(max, Min(max, CeilDiv(max * h, w)))
  }

  /** No image is enlarged: one that fits keeps its size, and both sides never exceed `max` otherwise. */
  lemma ScaledSizeNoUpscale(w: Side, h: Side, max: int)
    ensures w <= max && h <= max ==> ScaledSize(w, h, max) == Dims(w, h)
    ensures !(w <= max && h <= max) ==> ScaledSize(w, h, max).width <= max && ScaledSize(w, h, max).height <= max
  {
  }

  lemma MulMono(a: int, b: int, c: int)
    requires a >= 0 && b <= c
    ensures a * b <= a * c
  {
    assert a * c - a * b == a * (c - b);
  }

  /** Euclidean division by a positive divisor brackets the dividend. */
  lemma DivBracket(a: int, b: int)
    requires b > 0
    ensures (a / b) * b <= a < (a / b + 1) * b
  {
    assert a == (a / b) * b + a % b;
  }

  /** A portrait image gets height `max` and the widest width not wider than its aspect ratio allows. */
  lemma ScaledSizePortrait(w: Side, h: Side, max: int)
    requires w < h && h > max && max >= 0
    ensures ScaledSize(w, h, max).height == max
    ensures ScaledSize(w, h, max).width * h <= max * w < (ScaledSize(w, h, max).width + 1) * h
  {
    MulMono(max, 1, w);
    var q := (max * w) / h;
    DivBracket(max * w, h);
    MulMono(max, w, h);
    assert q <= max by {
      if q > max {
        MulMono(h, max + 1, q);
      }
    }
  }

  /** A landscape or square image gets width `max` and the lowest height that keeps its aspect ratio. */
  lemma ScaledSizeLandscape(w: Side, h: Side, max: int)
    requires w >= h && w > max && max >= 0
    ensures ScaledSize(w, h, max).width == max
    ensures (ScaledSize(w, h, max).height - 1) * w < max * h <= ScaledSize(w, h, max).height * w
  {
    var f := (-(max * h)) / w;
    DivBracket(-(max * h), w);
    var c := -f;
    assert CeilDiv(max * h, w) == c;
    assert (c - 1) * w < max * h <= c * w;
    MulMono(max, h, w);
    assert c <= max by {
      if c > max {
        MulMono(w, max, c - 1);
      }
    }
  }

  /**
   * The corrected size: the computed size with each side raised to at least
   * one pixel, so that a canvas can be created whenever `max` is positive.
   * The code as written uses `ScaledSize` unchanged.
   */
  function ThumbnailSize(w: Side, h: Side, max: int): (d: Dims)
    ensures max >= 1 ==> 1 <= d.width <= max && 1 <= d.height <= Max(max, h)
  {
    var s := ScaledSize(w, h, max);
    Dims(Max(1, s.width), Max(1, s.height))
  }

  /** The adjusted size differs from the computed one only where that one has an empty side. */
  lemma ThumbnailSizeAgrees(w: Side, h: Side, max: int)
    ensures CanvasOk(ScaledSize(w, h, max)) ==> ThumbnailSize(w, h, max) == ScaledSize(w, h, max)
    ensures max >= 1 ==> CanvasOk(ThumbnailSize(w, h, max))
    ensures max >= 1 ==> ThumbnailSize(w, h, max).width <= max && ThumbnailSize(w, h, max).height <= max
  {
    if max >= 1 {
      ScaledSizeNoUpscale(w, h, max);
    }
  }

  /** `imagecreatetruecolor` accepts only sides of at least one pixel. */
  predicate CanvasOk(d: Dims) {
    d.width >= 1 && d.height >= 1
  }

  /** PHP's `empty()` on a byte string: the empty string and "0". */
  predicate EmptyBytes(b: seq<bv8>) {
    b == [] || b == [0x30]
  }

  /** The extension of a file name, lower-cased, with "jpeg" written "jpg". */
  function NormalizeExt(ext: string): string
  {
    ReplaceAll(ToLower(ext), "jpeg", "jpg")
  }

  /** The GD encoder function for an extension ("jpg" back to "jpeg"). */
  function EncoderName(ext: string): (r: string)
    ensures |r| >= 5 && r[..5] == "image"
  {
    "image" + ReplaceAll(ext, "jpg", "jpeg")
  }

  /** The MIME type announced in the data URI; unknown extensions fall back to "image/jpg". */
  function MimeOf(ext: string): (r: string)
    ensures r in {"image/png", "image/jpg", "image/gif"}
    ensures ext == "png" <==> r == "image/png"
    ensures ext == "gif" <==> r == "image/gif"
  {
    if ext == "png" then "image/png"
    else if ext == "jpeg" || ext == "jpg" then "image/jpg"
    else if ext == "gif" then "image/gif"
    else "image/jpg"
  }

  /** `'data:' . $mime . ';base64,' . $payload` */
  function DataUri(mime: string, payload: string): (r: string)
    ensures StartsWith(r, "data:")
  {
    "data:" + mime + ";base64," + payload
  }

  /** Index of the first `c` in `s`, if any. */
  function IndexOf(s: string, c: char): (k: Option<nat>)
    ensures k.Some? ==> k.value < |s| && s[k.value] == c && c !in s[..k.value]
    ensures k.None? ==> c !in s
  {
    if s == [] then None
    else if s[0] == c then Some(0)
    else match IndexOf(s[1..], c)
      case None => None
      case Some(i) => assert s[..i + 1] == [s[0]] + s[1..][..i]; Some(i + 1)
  }

  lemma {:induction false} IndexOfAt(s: string, c: char, i: nat)
    requires i < |s| && s[i] == c && c !in s[..i]
    ensures IndexOf(s, c) == Some(i)
  {
    if i > 0 {
      assert s[0] == s[..i][0];
      assert s[1..][..i - 1] == s[1..i];
      assert forall j :: 0 <= j < i - 1 ==> s[1..i][j] == s[..i][j + 1];
      IndexOfAt(s[1..], c, i - 1);
    }
  }

  /** Reads a base64 data URI back into its MIME type and payload. */
  function ParseDataUri(s: string): (r: Option<(string, string)>)
  {
    if !StartsWith(s, "data:") then None
    else
      var rest := s[5..];
      match IndexOf(rest, ';')
      case None => None
      case Some(k) =>
        var tail := rest[k + 1..];
        if StartsWith(tail, "base64,") then Some((rest[..k], tail[7..])) else None
  }

  /** A data URI reads back as the MIME type and payload it was built from. */
  lemma DataUriRoundTrip(mime: string, payload: string)
    requires ';' !in mime
    ensures ParseDataUri(DataUri(mime, payload)) == Some((mime, payload))
  {
    var s := DataUri(mime, payload);
    var rest := s[5..];
    assert rest == mime + ";base64," + payload;
    assert rest[..|mime|] == mime;
    assert rest[|mime|] == ';';
    IndexOfAt(rest, ';', |mime|);
    assert rest[|mime| + 1..] == "base64," + payload;
  }

  /** The encoded thumbnail of a decoded image, or "" when no encoder exists or it writes nothing. */
  function Encode(probe: Probe, image: seq<bv8>, ext: string, d: Dims): (r: string)
    ensures r == "" || ParseDataUri(r) == Some((MimeOf(ext), probe.base64(probe.render(image, ext, d))))
  {
    if EncoderName(ext) !in probe.encoders then ""
    else
      var data := probe.render(image, ext, d);
      if data == [] then ""
      else
        DataUriRoundTrip(MimeOf(ext), probe.base64(data));
        DataUri(MimeOf(ext), probe.base64(data))
  }

  /**
   * The thumbnail of an image given as bytes, as written: an empty side of
   * the computed size makes `imagecreatetruecolor` throw.
   */
  function ThumbnailFromStringAsWritten(probe: Probe, image: seq<bv8>, ext: string, max: int): (r: Result<string>)
  {
    if EmptyBytes(image) then Ok("")
    else match probe.decode(image)
      case None => Ok("")
      case Some(c) =>
        var d := ScaledSize(c.width, c.height, max);
        if d.width < 1 then Fail(CanvasError(1))
        else if d.height < 1 then Fail(CanvasError(2))
        else Ok(Encode(probe, image, ext, d))
  }

  /** The `ValueError` of `imagecreatetruecolor` for its first (width) or second (height) argument. */
  function CanvasError(arg: int): Error
    requires arg == 1 || arg == 2
  {
    Error(ValueFailure, "imagecreatetruecolor(): Argument #" + (if arg == 1 then "1 ($width)" else "2 ($height)")
                        + " must be greater than 0")
  }

  /** A one-pixel-wide portrait image makes the thumbnail code throw. */
  lemma ThinImageThrows(probe: Probe, image: seq<bv8>)
    requires !EmptyBytes(image) && probe.decode(image) == Some(Canvas(1, 200))
    ensures ThumbnailFromStringAsWritten(probe, image, "png", DefaultMaxSize) == Fail(CanvasError(1))
  {
    assert ScaledSize(1, 200, 50) == Dims(0, 50);
  }

  /**
   * The thumbnail of an image given as bytes: "" for empty or undecodable
   * input, for a canvas that cannot be created, and when no encoding exists;
   * otherwise the data URI of the image scaled to `ThumbnailSize`.
   */
  function ThumbnailFromString(probe: Probe, image: seq<bv8>, ext: string, max: int): (r: string)
    ensures EmptyBytes(image) || probe.decode(image).None? ==> r == ""
    ensures r != "" ==> ParseDataUri(r).Some? && ParseDataUri(r).value.0 == MimeOf(ext)
  {
    if EmptyBytes(image) then ""
    else match probe.decode(image)
      case None => ""
      case Some(c) =>
        var d := ThumbnailSize(c.width, c.height, max);
        if !CanvasOk(d) then "" else Encode(probe, image, ext, d)
  }

  /** Wherever the code as written produces a thumbnail, the adjusted code produces the same one. */
  lemma ThumbnailFromStringAgrees(probe: Probe, image: seq<bv8>, ext: string, max: int)
    requires ThumbnailFromStringAsWritten(probe, image, ext, max).Ok?
    ensures ThumbnailFromString(probe, image, ext, max) == ThumbnailFromStringAsWritten(probe, image, ext, max).value
  {
    if !EmptyBytes(image) && probe.decode(image).Some? {
      var c := probe.decode(image).value;
      ThumbnailSizeAgrees(c.width, c.height, max);
    }
  }

  /** With a positive size limit the adjusted code never fails to create its canvas. */
  lemma ThumbnailFromStringTotal(probe: Probe, image: seq<bv8>, ext: string, max: int)
    requires max >= 1 && !EmptyBytes(image) && probe.decode(image).Some?
    requires EncoderName(ext) in probe.encoders
    ensures var c := probe.decode(image).value;
            var d := ThumbnailSize(c.width, c.height, max);
            ThumbnailFromString(probe, image, ext, max) == Encode(probe, image, ext, d)
            && 1 <= d.width <= max && 1 <= d.height <= max
  {
    var c := probe.decode(image).value;
    ThumbnailSizeAgrees(c.width, c.height, max);
  }

  /**
   * `createThumbnailFromFile`: the extension of the path, normalised, with
   * the file's bytes. It throws exactly when the file decodes to an image
   * whose computed thumbnail has an empty side, naming that side.
   */
  function ThumbnailFromFile(probe: Probe, path: string, contents: seq<bv8>, max: int): (r: Result<string>)
    ensures r.Fail? <==>
      && !EmptyBytes(contents) && probe.decode(contents).Some?
      && !CanvasOk(ScaledSize(probe.decode(contents).value.width, probe.decode(contents).value.height, max))
    ensures r.Fail? ==>
      r.error == CanvasError(if ScaledSize(probe.decode(contents).value.width, probe.decode(contents).value.height, max).width < 1
                             then 1 else 2)
    ensures r.Ok? && r.value != "" ==>
      ParseDataUri(r.value).Some? && ParseDataUri(r.value).value.0 == MimeOf(NormalizeExt(Extension(path)))
  {
    ThumbnailFromStringAsWritten(probe, contents, NormalizeExt(Extension(path)), max)
  }

  /** "jpeg" and "jpg" files, in any case, are encoded as JPEG and announced as image/jpg. */
  lemma JpegNames()
    ensures NormalizeExt("jpeg") == "jpg" && NormalizeExt("JPEG") == "jpg" && NormalizeExt("Jpg") == "jpg"
    ensures EncoderName("jpg") == "imagejpeg" && MimeOf("jpg") == "image/jpg"
    ensures EncoderName("png") == "imagepng" && EncoderName("gif") == "imagegif"
  {
  }
}
