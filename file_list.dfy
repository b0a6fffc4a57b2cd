/**
 * The two filename rules of the document library list: the icon chosen
 * from the extension, and the display name shortened by a regular
 * expression replace.
 */
module FileList {
  import opened Wrappers
  import opened Strings

  // ---------------------------------------------------------------------
  // Icon classification
  // ---------------------------------------------------------------------

  /** Extensions that get the image icon, without their dot. */
  const IconImageExtensions: seq<string> := ["jpg", "jpeg", "png", "gif", "bmp", "svg", "webp"]

  datatype Icon = ImageIcon | DocumentIcon

  /**
   * `filename.split(".").pop()?.toLowerCase()`: the lower-cased tail of the
   * name after its last dot, or the whole name lower-cased when it has no dot.
   */
  function IconExtension(filename: string): (ext: string)
    ensures |ext| <= |filename|
    ensures ext == Lower(filename[|filename| - |ext|..])
    ensures LastDotTail(filename, |filename| - |ext|)
  {
    var parts := SplitOn(filename, '.');
    var last := parts[|parts| - 1];
    LastPiece(filename, '.');
    SplitPiecesPlain(filename, '.');
    assert '.' !in last;
    assert forall i :: |filename| - |last| <= i < |filename| ==> filename[i] == last[i - (|filename| - |last|)];
    Lower(last)
  }

  /**
   * Position k starts the text after the last dot: it is 0 or follows a
   * dot, and no dot comes from k on.
   */
  predicate LastDotTail(filename: string, k: nat) {
    && k <= |filename|
    && (k == 0 || filename[k - 1] == '.')
    && forall i :: k <= i < |filename| ==> filename[i] != '.'
  }

  /** A name has only one such position. */
  lemma LastDotTailUnique(filename: string, k1: nat, k2: nat)
    requires LastDotTail(filename, k1) && LastDotTail(filename, k2)
    ensures k1 == k2
  {
  }

  /**
   * `ext` is, in lower case, the whole name or the end of the name right
   * after a dot.
   */
  predicate EndsWithExtension(filename: string, ext: string) {
    EndsWith(Lower(filename), ext) && (|ext| == |filename| || (|ext| < |filename| && filename[|filename| - |ext| - 1] == '.'))
  }

  /** The icon extension ends the name in that sense. */
  lemma IconExtensionEndsName(filename: string)
    ensures EndsWithExtension(filename, IconExtension(filename))
  {
    var ext, n := IconExtension(filename), |filename|;
    LowerSlice(filename, n - |ext|, n);
    assert Lower(filename)[n - |ext|..] == ext;
  }

  /** A dot-free extension that ends the name in that sense is the icon extension. */
  lemma ExtensionEndingNameIsIconExtension(filename: string, e: string)
    requires '.' !in e
    requires EndsWithExtension(filename, e)
    ensures IconExtension(filename) == e
  {
    var n, low := |filename|, Lower(filename);
    assert |e| <= n && low[n - |e|..] == e;
    LowerKeepsDots(filename);
    forall i | n - |e| <= i < n ensures filename[i] != '.' {
      assert low[i] == e[i - (n - |e|)];
    }
    var ext := IconExtension(filename);
    LastDotTailUnique(filename, n - |e|, n - |ext|);
    LowerSlice(filename, n - |e|, n);
  }

  /**
   * Among dot-free candidate extensions, the icon extension is one exactly
   * when the name, lower-cased, is that candidate or ends with a dot and it.
   */
  lemma IconExtensionAmong(filename: string, candidates: seq<string>)
    requires forall j :: 0 <= j < |candidates| ==> '.' !in candidates[j]
    ensures IconExtension(filename) in candidates <==>
      exists j :: 0 <= j < |candidates| && EndsWithExtension(filename, candidates[j])
  {
    IconExtensionEndsName(filename);
    forall j | 0 <= j < |candidates| && EndsWithExtension(filename, candidates[j])
      ensures IconExtension(filename) == candidates[j]
    {
      ExtensionEndingNameIsIconExtension(filename, candidates[j]);
    }
  }

  /**
   * The icon a list entry shows for its file: the image icon exactly when
   * the lower-cased name is one of the seven extensions or ends with a dot
   * and one of them.
   */
  function FileIcon(filename: string): (icon: Icon)
    ensures icon == ImageIcon <==>
      exists j :: 0 <= j < |IconImageExtensions| && EndsWithExtension(filename, IconImageExtensions[j])
  {
    IconExtensionsDotFree();
    IconExtensionAmong(filename, IconImageExtensions);
    if IconExtension(filename) in IconImageExtensions then ImageIcon else DocumentIcon
  }

  lemma IconExtensionsDotFree()
    ensures forall j :: 0 <= j < |IconImageExtensions| ==> '.' !in IconImageExtensions[j]
  {
    forall j | 0 <= j < |IconImageExtensions| ensures '.' !in IconImageExtensions[j] {
      if j == 0 { assert IconImageExtensions[j] == "jpg"; }
      else if j == 1 { assert IconImageExtensions[j] == "jpeg"; }
      else if j == 2 { assert IconImageExtensions[j] == "png"; }
      else if j == 3 { assert IconImageExtensions[j] == "gif"; }
      else if j == 4 { assert IconImageExtensions[j] == "bmp"; }
      else if j == 5 { assert IconImageExtensions[j] == "svg"; }
      else { assert IconImageExtensions[j] == "webp"; }
    }
  }

  /**
   * The icon extension is the lower-cased text after the last dot: for any
   * position k that starts a dot-free tail directly after a dot (or at the
   * start of the name), it is the lower-cased tail.
   */
  lemma IconExtensionIsLastDotTail(filename: string, k: nat)
    requires k <= |filename|
    requires k == 0 || filename[k - 1] == '.'
    requires forall i :: k <= i < |filename| ==> filename[i] != '.'
    ensures IconExtension(filename) == Lower(filename[k..])
  {
    LastDotTailUnique(filename, k, |filename| - |IconExtension(filename)|);
  }

  /** Two names that lower-case alike have the same icon extension. */
  lemma IconExtensionIgnoresCase(s: string, t: string)
    requires Lower(s) == Lower(t)
    ensures IconExtension(s) == IconExtension(t)
  {
    var es, et := IconExtension(s), IconExtension(t);
    var n := |s|;
    LowerKeepsDots(s);
    LowerKeepsDots(t);
    forall i | n - |es| <= i < n ensures t[i] != '.' {
      assert Lower(s)[i] == Lower(t)[i];
    }
    LastDotTailUnique(t, n - |es|, n - |et|);
    LowerSlice(s, n - |es|, n);
    LowerSlice(t, n - |es|, n);
  }

  /**
   * A name gets the image icon exactly when its lower-cased text after the
   * last dot is one of the seven image extensions.
   */
  lemma FileIconByExtension(filename: string, k: nat)
    requires k <= |filename|
    requires k == 0 || filename[k - 1] == '.'
    requires forall i :: k <= i < |filename| ==> filename[i] != '.'
    ensures FileIcon(filename) == ImageIcon <==> Lower(filename[k..]) in IconImageExtensions
  {
    IconExtensionIsLastDotTail(filename, k);
  }

  /** A name without a dot is classified by the whole name: a bare "png" is an image. */
  lemma FileIconNoDot(filename: string)
    requires forall i :: 0 <= i < |filename| ==> filename[i] != '.'
    ensures FileIcon(filename) == ImageIcon <==> Lower(filename) in IconImageExtensions
  {
    FileIconByExtension(filename, 0);
  }

  lemma FileIconBarePng()
    ensures FileIcon("png") == ImageIcon
  {
    FileIconNoDot("png");
    assert Lower("png") == "png";
  }

  lemma FileIconUpperCase()
    ensures FileIcon("Scan.JPEG") == ImageIcon
  {
    FileIconByExtension("Scan.JPEG", 5);
    assert "Scan.JPEG"[5..] == "JPEG";
    assert Lower("JPEG") == "jpeg";
  }

  /** Only the last extension counts. */
  lemma FileIconLastExtensionOnly()
    ensures FileIcon("photo.png.pdf") == DocumentIcon
  {
    FileIconByExtension("photo.png.pdf", 10);
    assert "photo.png.pdf"[10..] == "pdf";
    assert Lower("pdf") == "pdf";
  }

  /** A trailing dot leaves an empty extension, which is a document. */
  lemma FileIconTrailingDot()
    ensures FileIcon("archive.") == DocumentIcon
  {
    FileIconByExtension("archive.", 8);
    assert Lower([]) == [];
  }

  // ---------------------------------------------------------------------
  // Display name: filename.replace(/(.+)(\.[^\.]+)$/, shorten)
  // ---------------------------------------------------------------------

  /** How many characters of the stem are kept before "...". */
  const MaxStemLength: nat := 25

  /** The characters a regular-expression `.` does not match. */
  predicate IsLineTerminator(c: char) {
    c == '\n' || c == '\r' || c == '\U{2028}' || c == '\U{2029}'
  }

  predicate NoLineTerminator(s: string) {
    forall i :: 0 <= i < |s| ==> !IsLineTerminator(s[i])
  }

  /**
   * The pattern `(.+)(\.[^\.]+)$` matches `s` starting at p with its `\.`
   * at d: the stem s[p..d] is non-empty and crosses no line terminator,
   * s[d] is a dot followed by at least one character and by no other dot up
   * to the end of the input.
   */
  ghost predicate PatternMatchesAt(s: string, p: int, d: int) {
    && 0 <= p < d
    && d + 1 < |s|
    && s[d] == '.'
    && (forall i :: d < i < |s| ==> s[i] != '.')
    && (forall i :: p <= i < d ==> !IsLineTerminator(s[i]))
  }

  /** The text before the match, the first group and the second group. */
  datatype NameParts = NameParts(prefix: string, stem: string, ext: string)

  /** Index just past the last line terminator of s, or 0 if it has none. */
  function LineStart(s: string): (p: nat)
    ensures p <= |s|
    ensures p == 0 || IsLineTerminator(s[p - 1])
    ensures forall i :: p <= i < |s| ==> !IsLineTerminator(s[i])
  {
    if s == [] then 0
    else if IsLineTerminator(s[|s| - 1]) then |s|
    else LineStart(s[..|s| - 1])
  }

  /**
   * The leftmost match of the pattern in `s`, split into the unmatched
   * prefix and the two groups, or None when the pattern does not match.
   */
  function MatchName(s: string): (m: Option<NameParts>)
    ensures m.Some? ==> s == m.value.prefix + m.value.stem + m.value.ext
    ensures m.Some? ==> PatternMatchesAt(s, |m.value.prefix|, |m.value.prefix| + |m.value.stem|)
    ensures m.Some? ==> forall q, e :: 0 <= q < |m.value.prefix| ==> !PatternMatchesAt(s, q, e)
    ensures m.None? ==> forall q, e :: !PatternMatchesAt(s, q, e)
  {
    match LastIndexOf(s, '.')
    case None => None
    case Some(d) =>
      var p := LineStart(s[..d]);
      if d + 1 < |s| && p < d then
        var m := NameParts(s[..p], s[p..d], s[d..]);
        assert s == m.prefix + m.stem + m.ext;
        Some(m)
      else
        None
  }

  /**
   * The name shown in the list. A name of at most 25 characters is never
   * changed, and the shown name is at most two characters longer than the
   * name: a 26-character stem becomes 25 characters and "...".
   */
  function DisplayName(filename: string): (shown: string)
    ensures |filename| <= MaxStemLength ==> shown == filename
    ensures |shown| <= |filename| + 2
  {
    match MatchName(filename)
    case None => filename
    case Some(m) =>
      m.prefix +
      (if |m.stem| > MaxStemLength then m.stem[..MaxStemLength] + "..." + m.ext
       else m.stem + m.ext)
  }

  /**
   * A decomposition that matches the pattern and starts right after a line
   * terminator (or at the start) is the one the replace finds.
   */
  lemma MatchNameUnique(s: string, parts: NameParts)
    requires s == parts.prefix + parts.stem + parts.ext
    requires PatternMatchesAt(s, |parts.prefix|, |parts.prefix| + |parts.stem|)
    requires parts.prefix == [] || IsLineTerminator(parts.prefix[|parts.prefix| - 1])
    ensures MatchName(s) == Some(parts)
  {
    var p, d := |parts.prefix|, |parts.prefix| + |parts.stem|;
    var m := MatchName(s);
    assert m.Some?;
    var p', d' := |m.value.prefix|, |m.value.prefix| + |m.value.stem|;
    if p > 0 {
      assert s[p - 1] == parts.prefix[p - 1];
    }
    assert p' == p;
    assert d' == d;
    assert m.value.prefix == s[..p] == parts.prefix;
    assert m.value.stem == s[p..d] == parts.stem;
    assert m.value.ext == s[d..] == parts.ext;
  }

  /**
   * For a name without line terminators whose last dot is at d, with at
   * least one character before and after it, the stem is everything before
   * d and the extension everything from d on.
   */
  lemma MatchPlainName(s: string, d: nat)
    requires NoLineTerminator(s)
    requires 0 < d && d + 1 < |s| && s[d] == '.'
    requires forall i :: d < i < |s| ==> s[i] != '.'
    ensures MatchName(s) == Some(NameParts([], s[..d], s[d..]))
  {
    assert s == [] + s[..d] + s[d..];
    MatchNameUnique(s, NameParts([], s[..d], s[d..]));
  }

  /** Where the pattern does not match, the name is shown unchanged. */
  lemma DisplayUnmatched(s: string)
    requires forall q, e :: !PatternMatchesAt(s, q, e)
    ensures DisplayName(s) == s
  {
  }

  /** A name without a dot is shown unchanged. */
  lemma DisplayNoDot(s: string)
    requires forall i :: 0 <= i < |s| ==> s[i] != '.'
    ensures DisplayName(s) == s
  {
    DisplayUnmatched(s);
  }

  /** A name ending in a dot is shown unchanged. */
  lemma DisplayTrailingDot(s: string)
    requires |s| > 0 && s[|s| - 1] == '.'
    ensures DisplayName(s) == s
  {
    DisplayUnmatched(s);
  }

  /** A name whose only dot is its first character (".env") is shown unchanged. */
  lemma DisplayLeadingDotOnly(s: string)
    requires |s| > 0 && s[0] == '.'
    requires forall i :: 0 < i < |s| ==> s[i] != '.'
    ensures DisplayName(s) == s
  {
    DisplayUnmatched(s);
  }

  /** A stem of at most 25 characters is shown unchanged. */
  lemma DisplayShortStem(s: string, d: nat)
    requires NoLineTerminator(s)
    requires 0 < d <= MaxStemLength && d + 1 < |s| && s[d] == '.'
    requires forall i :: d < i < |s| ==> s[i] != '.'
    ensures DisplayName(s) == s
  {
    MatchPlainName(s, d);
    assert s[..d] + s[d..] == s;
  }

  /**
   * A stem longer than 25 characters is cut to its first 25, followed by
   * "..." and the extension.
   */
  lemma DisplayLongStem(s: string, d: nat)
    requires NoLineTerminator(s)
    requires d > MaxStemLength && d + 1 < |s| && s[d] == '.'
    requires forall i :: d < i < |s| ==> s[i] != '.'
    ensures DisplayName(s) == s[..MaxStemLength] + "..." + s[d..]
  {
    MatchPlainName(s, d);
    assert s[..d][..MaxStemLength] == s[..MaxStemLength];
  }

  /**
   * Whatever happens, the text from the last dot on is still the end of the
   * displayed name.
   */
  lemma DisplayKeepsExtension(s: string, d: nat)
    requires d < |s| && s[d] == '.'
    requires forall i :: d < i < |s| ==> s[i] != '.'
    ensures EndsWith(DisplayName(s), s[d..])
  {
    match MatchName(s)
    case None =>
    case Some(m) =>
      var d' := |m.prefix| + |m.stem|;
      assert d' == d;
      assert m.ext == s[d..];
  }

  /**
   * For a name without line terminators that the pattern matches, the shown
   * name is at most 28 characters plus the extension.
   */
  lemma DisplayLength(s: string, d: nat)
    requires NoLineTerminator(s)
    requires 0 < d && d + 1 < |s| && s[d] == '.'
    requires forall i :: d < i < |s| ==> s[i] != '.'
    ensures |DisplayName(s)| <= MaxStemLength + 3 + |s[d..]|
  {
    MatchPlainName(s, d);
  }

  /**
   * The shortened name is matched again with the same prefix and
   * extension, its stem now being the 25 kept characters and "...".
   */
  lemma MatchShortened(prefix: string, stem: string, ext: string)
    requires PatternMatchesAt(prefix + stem + ext, |prefix|, |prefix| + |stem|)
    requires prefix == [] || IsLineTerminator(prefix[|prefix| - 1])
    requires |stem| > MaxStemLength
    ensures var stem' := stem[..MaxStemLength] + "...";
      MatchName(prefix + stem' + ext) == Some(NameParts(prefix, stem', ext))
  {
    var stem' := stem[..MaxStemLength] + "...";
    ShortenedStemMatches(prefix, stem, ext);
    MatchNameUnique(prefix + stem' + ext, NameParts(prefix, stem', ext));
  }

  /** What `(\.[^\.]+)$` accepts: a dot, then at least one character and no other dot. */
  predicate ExtensionGroup(ext: string) {
    |ext| >= 2 && ext[0] == '.' && forall i :: 0 < i < |ext| ==> ext[i] != '.'
  }

  /** The pattern matches a split exactly when each group matches its part. */
  lemma PatternByParts(prefix: string, stem: string, ext: string)
    ensures PatternMatchesAt(prefix + stem + ext, |prefix|, |prefix| + |stem|) <==>
      |stem| > 0 && NoLineTerminator(stem) && ExtensionGroup(ext)
  {
    var s := prefix + stem + ext;
    var p, d := |prefix|, |prefix| + |stem|;
    assert forall i :: 0 <= i < |stem| ==> s[p + i] == stem[i];
    assert forall i :: 0 <= i < |ext| ==> s[d + i] == ext[i];
    if PatternMatchesAt(s, p, d) {
      forall i | 0 < i < |ext| ensures ext[i] != '.' {
        assert s[d + i] == ext[i];
      }
    }
    if |stem| > 0 && NoLineTerminator(stem) && ExtensionGroup(ext) {
      forall i | d < i < |s| ensures s[i] != '.' {
        assert s[d + (i - d)] == ext[i - d];
      }
      forall i | p <= i < d ensures !IsLineTerminator(s[i]) {
        assert s[p + (i - p)] == stem[i - p];
      }
    }
  }

  /** The pattern still matches after the stem is shortened. */
  lemma ShortenedStemMatches(prefix: string, stem: string, ext: string)
    requires PatternMatchesAt(prefix + stem + ext, |prefix|, |prefix| + |stem|)
    requires |stem| > MaxStemLength
    ensures var stem' := stem[..MaxStemLength] + "...";
      PatternMatchesAt(prefix + stem' + ext, |prefix|, |prefix| + |stem'|)
  {
    var stem' := stem[..MaxStemLength] + "...";
    PatternByParts(prefix, stem, ext);
    PatternByParts(prefix, stem', ext);
    forall i | 0 <= i < |stem'| ensures !IsLineTerminator(stem'[i]) {
      if i < MaxStemLength {
        assert stem'[i] == stem[i];
      }
    }
  }

  /** Shortening a shown name again changes nothing. */
  lemma DisplayIdempotent(s: string)
    ensures DisplayName(DisplayName(s)) == DisplayName(s)
  {
    match MatchName(s)
    case None =>
    case Some(m) =>
      if |m.stem| > MaxStemLength {
        DisplayCutStable(m.prefix, m.stem, m.ext);
      } else {
        assert DisplayName(s) == s;
      }
  }

  /** A name whose long stem was cut is shown as it is. */
  lemma DisplayCutStable(prefix: string, stem: string, ext: string)
    requires MatchName(prefix + stem + ext) == Some(NameParts(prefix, stem, ext))
    requires |stem| > MaxStemLength
    ensures var shown := prefix + (stem[..MaxStemLength] + "..." + ext);
      DisplayName(prefix + stem + ext) == shown && DisplayName(shown) == shown
  {
    var stem' := stem[..MaxStemLength] + "...";
    assert prefix + (stem[..MaxStemLength] + "..." + ext) == prefix + stem' + ext;
    MatchShortened(prefix, stem, ext);
    assert stem'[..MaxStemLength] == stem[..MaxStemLength];
  }
}
