/**
 * The preview panel of a listed document: whether the file counts as an
 * image, and which of the four panels is shown.
 */
module FilePreview {
  import opened Wrappers
  import opened Strings
  import FileList
  import Services

  /** Suffixes that make a file previewable as an image (no ".svg"). */
  const SupportedImageExtensions: seq<string> := [".jpg", ".jpeg", ".png", ".gif", ".bmp", ".webp"]

  /** `suffixes.some((ext) => s.endsWith(ext))` */
  function EndsWithAny(s: string, suffixes: seq<string>): (b: bool)
    ensures b <==> exists k :: 0 <= k < |suffixes| && EndsWith(s, suffixes[k])
  {
    if suffixes == [] then false
    else if EndsWith(s, suffixes[0]) then true
    else
      var b := EndsWithAny(s, suffixes[1..]);
      assert forall k :: 1 <= k < |suffixes| ==> suffixes[k] == suffixes[1..][k - 1];
      b
  }

  /**
   * `file.filename ? SUPPORTED_IMAGE_EXTENSIONS.some(...) : false`: a file
   * is an image exactly when its lower-cased name ends with one of the six
   * suffixes; the guard on the empty name changes nothing.
   */
  function IsImage(filename: string): (b: bool)
    ensures b <==>
      exists k :: 0 <= k < |SupportedImageExtensions| && EndsWith(Lower(filename), SupportedImageExtensions[k])
  {
    if filename == "" then
      assert forall k :: 0 <= k < |SupportedImageExtensions| ==> |SupportedImageExtensions[k]| > 0;
      false
    else EndsWithAny(Lower(filename), SupportedImageExtensions)
  }

  /** The panel shown for a file. */
  datatype Preview =
    | ImageViewer(imageUrl: string)
    | FramedDocument(src: string, title: string)
    | Notice(text: string)

  const OfflineNotice: string := "Preview unavailable offline"
  const InvalidUrlNotice: string := "Invalid preview URL"

  /** A signed URL counts as present when it is there and not empty. */
  predicate HasUrl(signedUrl: Option<string>) {
    signedUrl.Some? && signedUrl.value != ""
  }

  /**
   * The nested conditional choosing the preview panel: the image viewer and
   * the frame only online and only with the file's own URL, the viewer only
   * for images; the offline notice only when a URL is there, the invalid-URL
   * notice only when it is not.
   */
  function PreviewFor(filename: string, signedUrl: Option<string>, online: bool): (v: Preview)
    ensures v.ImageViewer? <==> online && HasUrl(signedUrl) && IsImage(filename)
    ensures v.ImageViewer? ==> signedUrl == Some(v.imageUrl)
    ensures v.FramedDocument? <==> online && HasUrl(signedUrl) && !IsImage(filename)
    ensures v.FramedDocument? ==> signedUrl == Some(v.src) && v.title == filename
    ensures v == Notice(OfflineNotice) <==> !online && HasUrl(signedUrl)
    ensures v == Notice(InvalidUrlNotice) <==> !HasUrl(signedUrl)
  {
    if HasUrl(signedUrl) && online then
      if IsImage(filename) then ImageViewer(signedUrl.value)
      else FramedDocument(signedUrl.value, filename)
    else if HasUrl(signedUrl) then Notice(OfflineNotice)
    else Notice(InvalidUrlNotice)
  }

  // ---------------------------------------------------------------------
  // Properties of the image test
  // ---------------------------------------------------------------------

  lemma EmptyNameIsNoImage()
    ensures !IsImage("")
  {
  }

  /** Matching ignores case. */
  lemma UpperCaseImage()
    ensures IsImage("PHOTO.JPG")
  {
    assert Lower("PHOTO.JPG") == "photo.jpg";
    assert EndsWith("photo.jpg", SupportedImageExtensions[0]);
  }

  /** Each supported suffix is a dot followed by dot-free letters. */
  lemma SuffixesAreDotExtensions()
    ensures forall k :: 0 <= k < |SupportedImageExtensions| ==>
      var ext := SupportedImageExtensions[k];
      |ext| >= 2 && ext[0] == '.' && forall i :: 0 < i < |ext| ==> ext[i] != '.'
  {
    forall k | 0 <= k < |SupportedImageExtensions|
      ensures var ext := SupportedImageExtensions[k];
        |ext| >= 2 && ext[0] == '.' && forall i :: 0 < i < |ext| ==> ext[i] != '.'
    {
      if k == 0 { assert SupportedImageExtensions[k] == ".jpg"; }
      else if k == 1 { assert SupportedImageExtensions[k] == ".jpeg"; }
      else if k == 2 { assert SupportedImageExtensions[k] == ".png"; }
      else if k == 3 { assert SupportedImageExtensions[k] == ".gif"; }
      else if k == 4 { assert SupportedImageExtensions[k] == ".bmp"; }
      else { assert SupportedImageExtensions[k] == ".webp"; }
    }
  }

  /**
   * A name without a dot is never an image, so a bare "jpeg" is not one
   * (unlike the list icon, which treats a bare "png" as an image).
   */
  lemma NoDotIsNoImage(filename: string)
    requires forall i :: 0 <= i < |filename| ==> filename[i] != '.'
    ensures !IsImage(filename)
  {
    SuffixesAreDotExtensions();
    LowerKeepsDots(filename);
  }

  lemma BareExtensionIsNoImage()
    ensures !IsImage("jpeg")
  {
    NoDotIsNoImage("jpeg");
  }

  /** An SVG file gets the image icon in the list but is framed as a document. */
  lemma SvgIconButNoImagePreview()
    ensures FileList.FileIcon("logo.svg") == FileList.ImageIcon
    ensures !IsImage("logo.svg")
  {
    var name := "logo.svg";
    assert Lower(name) == name;
    assert EndsWith(Lower(name), "svg") by { assert name[5..] == "svg"; }
    assert FileList.EndsWithExtension(name, FileList.IconImageExtensions[5]);
    forall k | 0 <= k < |SupportedImageExtensions|
      ensures !EndsWith(Lower(name), SupportedImageExtensions[k])
    {
      var x := SupportedImageExtensions[k];
      if k == 0 { assert x[2] == 'p' && x[3] == 'g'; assert name[4..] != x; }
      else if k == 1 { assert x[3] == 'e' && x[4] == 'g'; assert name[3..] != x; }
      else if k == 2 { assert x[2] == 'n' && x[3] == 'g'; assert name[4..] != x; }
      else if k == 3 { assert x[3] == 'f'; assert name[4..] != x; }
      else if k == 4 { assert x[3] == 'p'; assert name[4..] != x; }
      else { assert x[4] == 'p'; assert name[3..] != x; }
    }
  }

  /** Without its dot, each supported suffix is one of the icon's image extensions. */
  lemma SuffixesAreIconExtensions()
    ensures forall k :: 0 <= k < |SupportedImageExtensions| ==>
      SupportedImageExtensions[k][1..] in FileList.IconImageExtensions
  {
    forall k | 0 <= k < |SupportedImageExtensions|
      ensures SupportedImageExtensions[k][1..] in FileList.IconImageExtensions
    {
      if k == 0 { assert SupportedImageExtensions[k][1..] == FileList.IconImageExtensions[0]; }
      else if k == 1 { assert SupportedImageExtensions[k][1..] == FileList.IconImageExtensions[1]; }
      else if k == 2 { assert SupportedImageExtensions[k][1..] == FileList.IconImageExtensions[2]; }
      else if k == 3 { assert SupportedImageExtensions[k][1..] == FileList.IconImageExtensions[3]; }
      else if k == 4 { assert SupportedImageExtensions[k][1..] == FileList.IconImageExtensions[4]; }
      else { assert SupportedImageExtensions[k][1..] == FileList.IconImageExtensions[6]; }
    }
  }

  /**
   * A name whose lower-cased form ends with a dot extension has that
   * extension, without the dot, as its lower-cased text after the last dot.
   */
  lemma LastDotTailOfSuffix(filename: string, ext: string)
    requires |ext| >= 2 && ext[0] == '.' && forall i :: 0 < i < |ext| ==> ext[i] != '.'
    requires EndsWith(Lower(filename), ext)
    ensures var d := |filename| - |ext|;
      && filename[d] == '.'
      && (forall i :: d < i < |filename| ==> filename[i] != '.')
      && Lower(filename[d + 1..]) == ext[1..]
  {
    var low := Lower(filename);
    var d := |filename| - |ext|;
    LowerKeepsDots(filename);
    assert low[d] == ext[0];
    forall i | d < i < |filename| ensures filename[i] != '.' {
      assert low[i] == ext[i - d];
    }
    LowerSlice(filename, d + 1, |filename|);
  }

  /**
   * Both classifications ignore ASCII case: two names that lower-case alike
   * get the same icon and the same image test.
   */
  lemma ClassificationIgnoresCase(s: string, t: string)
    requires Lower(s) == Lower(t)
    ensures FileList.FileIcon(s) == FileList.FileIcon(t)
    ensures IsImage(s) == IsImage(t)
  {
    FileList.IconExtensionIgnoresCase(s, t);
  }

  /** Every file previewed as an image also gets the image icon in the list. */
  lemma ImagePreviewHasImageIcon(filename: string)
    requires IsImage(filename)
    ensures FileList.FileIcon(filename) == FileList.ImageIcon
  {
    var k :| 0 <= k < |SupportedImageExtensions| && EndsWith(Lower(filename), SupportedImageExtensions[k]);
    var ext := SupportedImageExtensions[k];
    SuffixesAreDotExtensions();
    SuffixesAreIconExtensions();
    LastDotTailOfSuffix(filename, ext);
    FileList.FileIconByExtension(filename, |filename| - |ext| + 1);
  }

  // ---------------------------------------------------------------------
  // Properties of the panel choice
  // ---------------------------------------------------------------------

  /** Online with a URL: the image viewer for images, the framed document otherwise. */
  lemma OnlinePreview(filename: string, url: string)
    requires url != ""
    ensures IsImage(filename) ==> PreviewFor(filename, Some(url), true) == ImageViewer(url)
    ensures !IsImage(filename) ==> PreviewFor(filename, Some(url), true) == FramedDocument(url, filename)
  {
  }

  /** Offline with a URL: the offline notice, whatever the file. */
  lemma OfflinePreview(filename: string, url: string)
    requires url != ""
    ensures PreviewFor(filename, Some(url), false) == Notice(OfflineNotice)
  {
  }

  /** No URL, or an empty one: the invalid-URL notice, online or not. */
  lemma MissingUrlPreview(filename: string, signedUrl: Option<string>, online: bool)
    requires signedUrl.None? || signedUrl.value == ""
    ensures PreviewFor(filename, signedUrl, online) == Notice(InvalidUrlNotice)
  {
  }

  /**
   * A listed file whose URL could not be signed carries "#", so it never
   * shows the invalid-URL notice: online it is framed or viewed at "#".
   */
  lemma UnsignedFilePreview(files: seq<Services.FileRow>, sign: (string, int) -> Option<string>, online: bool)
    ensures Services.FetchFiles(files, Services.Ok, sign).Success?
    ensures forall e :: e in Services.FetchFiles(files, Services.Ok, sign).value &&
                        sign(e.file.filename, Services.SignedUrlTtl).None? ==>
      e.signedUrl == Services.UnsignedUrl &&
      PreviewFor(e.file.filename, Some(e.signedUrl), online) != Notice(InvalidUrlNotice)
  {
    var listed := Services.FetchFiles(files, Services.Ok, sign).value;
    forall e | e in listed && sign(e.file.filename, Services.SignedUrlTtl).None?
      ensures e.signedUrl == Services.UnsignedUrl
    {
      var i :| 0 <= i < |listed| && listed[i] == e;
    }
  }
}
