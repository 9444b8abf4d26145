/**
 * The records a post serializer produces (src/serializers.ts) and the two
 * site serializers, for 4chan and for The B Archive. The DOM queries a
 * serializer makes are its inputs: each lookup is an `Option` (`None` when
 * `querySelector` finds nothing), and the regular expressions and string
 * operations applied to the results are written out.
 */
module Serializers {
  import opened Wrappers
  import opened Text

  /** One media attachment of a post, as a site serializer reports it. */
  datatype SerializedMedia = SerializedMedia(
    url: string,
    filename: string,
    thumbnailUrl: string,
    width: Option<int>,
    height: Option<int>,
    size: Option<string>)

  /** A serialized post: its media and optionally its reply count. */
  datatype SerializedPost = SerializedPost(media: seq<SerializedMedia>, replies: Option<int>)

  /** An element whose `title` attribute and `textContent` a serializer reads. */
  datatype TitledElement = TitledElement(title: string, textContent: string)

  /** `a || b` on optional strings. */
  function OrElse(a: Option<string>, b: Option<string>): (r: Option<string>)
    ensures Truthy(r) <==> Truthy(a) || Truthy(b)
    ensures Truthy(a) ==> r == a
  {
    if Truthy(a) then a else b
  }

  /**
   * `titleElement?.title || titleElement?.textContent || url?.match(/\/([^\/]+)$/)?.[1]`:
   * the title, else the text, else the part of the URL after its last `/`.
   */
  function Filename(titleElement: Option<TitledElement>, url: Option<string>): (r: Option<string>)
    ensures r.Some? ==> r.value != ""
    ensures titleElement.Some? && titleElement.value.title != "" ==> r == Some(titleElement.value.title)
    ensures titleElement.Some? && titleElement.value.title == "" && titleElement.value.textContent != "" ==>
              r == Some(titleElement.value.textContent)
    ensures titleElement.None? || (titleElement.value.title == "" && titleElement.value.textContent == "") ==>
              r == if url.Some? then TailAfterLast(url.value, '/') else None
  {
    var title := if titleElement.Some? then Some(titleElement.value.title) else None;
    var text := if titleElement.Some? then Some(titleElement.value.textContent) else None;
    var tail := if url.Some? then TailAfterLast(url.value, '/') else None;
    OrElse(title, OrElse(text, tail))
  }

  /** Without a usable title or text, the filename is the URL's last path segment. */
  lemma FilenameFromUrl(titleElement: Option<TitledElement>, path: string, name: string)
    requires titleElement.None? || (titleElement.value.title == "" && titleElement.value.textContent == "")
    requires name != [] && '/' !in name
    ensures Filename(titleElement, Some(path + "/" + name)) == Some(name)
  {
    var url := path + "/" + name;
    var t := TailAfterLast(url, '/');
    assert url[|url| - 1] == name[|name| - 1];
    assert t.Some?;
    var i := LastIndexOf(url, '/').value;
    assert url[|path|] == '/';
    assert forall j :: |path| < j < |url| ==> url[j] == name[j - |path| - 1];
    assert i == |path|;
    assert url[|path| + 1..] == name;
  }

  /** A URL that ends in `/` (and has no usable title or text) yields no filename. */
  lemma NoFilenameForTrailingSlash(titleElement: Option<TitledElement>, url: string)
    requires titleElement.None? || (titleElement.value.title == "" && titleElement.value.textContent == "")
    requires url != [] && url[|url| - 1] == '/'
    ensures Filename(titleElement, Some(url)).None?
  {
  }

  /** The text matches ` *\d+x\d+` in full. */
  predicate DimensionsTail(q: string) {
    if q != [] && q[0] == ' ' then DimensionsTail(q[1..]) else q != [] && IsDigit(q[0]) && AfterWidthDigit(q[1..])
  }

  /** The text matches `\d*x\d+` in full. */
  predicate AfterWidthDigit(t: string) {
    t != [] && if IsDigit(t[0]) then AfterWidthDigit(t[1..]) else t[0] == 'x' && DigitsOnly(t[1..])
  }

  /** The text matches `\d+` in full. */
  predicate DigitsOnly(t: string) {
    t != [] && IsDigit(t[0]) && (|t| == 1 || DigitsOnly(t[1..]))
  }

  /**
   * A parenthesis-free text matches `[^()]+ *, *\d+x\d+` in full: the part
   * after its last comma reads as dimensions and at least one character
   * comes before that comma.
   */
  predicate MetaShape(g: string) {
    match LastIndexOf(g, ',')
    case None => false
    case Some(c) => c >= 1 && DimensionsTail(g[c + 1..])
  }

  predicate IsParen(c: char) { c == '(' || c == ')' }

  /** The position of the first parenthesis at or after `j`, or the length. */
  function NextParen(s: string, j: nat): (k: nat)
    requires j <= |s|
    ensures j <= k <= |s|
    ensures forall m :: j <= m < k ==> !IsParen(s[m])
    ensures k < |s| ==> IsParen(s[k])
    decreases |s| - j
  {
    if j == |s| || IsParen(s[j]) then j else NextParen(s, j + 1)
  }

  /** The pattern `\(([^\(\)]+ *, *\d+x\d+)\)` matches with its `(` at position `i`. */
  predicate MatchesAt(s: string, i: nat) {
    i < |s| && s[i] == '(' &&
    var k := NextParen(s, i + 1);
    k < |s| && s[k] == ')' && MetaShape(s[i + 1..k])
  }

  /** The leftmost match at or after `from`: the positions of its two parentheses. */
  function FindMeta(s: string, from: nat): (r: Option<(nat, nat)>)
    ensures r.Some? ==> from <= r.value.0 && MatchesAt(s, r.value.0) && r.value.1 == NextParen(s, r.value.0 + 1)
    decreases |s| - from
  {
    if from >= |s| then None
    else if MatchesAt(s, from) then Some((from, NextParen(s, from + 1)))
    else FindMeta(s, from + 1)
  }

  /** No match starts in front of the one found, and none at all when nothing is found. */
  lemma {:induction false} FindMetaLeftmost(s: string, from: nat)
    ensures FindMeta(s, from).Some? ==> forall m :: from <= m < FindMeta(s, from).value.0 ==> !MatchesAt(s, m)
    ensures FindMeta(s, from).None? ==> forall m :: from <= m < |s| ==> !MatchesAt(s, m)
    decreases |s| - from
  {
    if from < |s| && !MatchesAt(s, from) {
      FindMetaLeftmost(s, from + 1);
    }
  }

  /**
   * `text.match(/\(([^\(\)]+ *, *\d+x\d+)\)/)?.[1]`: the captured group of the
   * leftmost match. The group cannot hold a parenthesis, so for a given `(`
   * it must end at the next parenthesis, which must be `)`.
   */
  function FortuneMeta(text: string): (r: Option<string>)
    ensures r.Some? ==> ',' in r.value && forall m :: 0 <= m < |r.value| ==> !IsParen(r.value[m])
  {
    match FindMeta(text, 0)
    case None => None
    case Some((i, k)) =>
      var g := text[i + 1..k];
      assert forall m :: 0 <= m < |g| ==> g[m] == text[i + 1 + m];
      Some(g)
  }

  /** A match at `i` with no `(` in front of it is the one the search finds. */
  lemma FindMetaAt(s: string, i: nat)
    requires MatchesAt(s, i)
    requires forall m :: 0 <= m < i ==> s[m] != '('
    ensures FindMeta(s, 0) == Some((i, NextParen(s, i + 1)))
  {
    FindMetaLeftmost(s, 0);
    var r := FindMeta(s, 0);
    assert r.Some?;
    var j := r.value.0;
    assert s[j] == '(';
    assert j == i;
  }

  /** The next parenthesis after a parenthesis-free stretch is the one that ends it. */
  lemma {:induction false} NextParenAfter(s: string, j: nat, k: nat)
    requires j <= k < |s| && IsParen(s[k])
    requires forall m :: j <= m < k ==> !IsParen(s[m])
    ensures NextParen(s, j) == k
    decreases k - j
  {
    if j < k {
      NextParenAfter(s, j + 1, k);
    }
  }

  /** The middle part of a concatenation is the slice at its position. */
  lemma MiddleSlice(a: string, g: string, b: string, c: string)
    ensures (a + g + b + c)[|a|..|a| + |g|] == g
  {
    assert (a + g + b + c)[..|a| + |g|] == a + g;
    assert (a + g)[|a|..] == g;
  }

  /**
   * A `(` with nothing opening a parenthesis in front of it, a meta-shaped
   * text with no parenthesis, then `)`: the capture is that text.
   */
  lemma FortuneMetaAt(s: string, i: nat, k: nat, g: string)
    requires i < k < |s| && s[i] == '(' && s[k] == ')' && s[i + 1..k] == g
    requires forall m :: 0 <= m < i ==> s[m] != '('
    requires forall m :: 0 <= m < |g| ==> !IsParen(g[m])
    requires MetaShape(g)
    ensures FortuneMeta(s) == Some(g)
  {
    assert forall m :: i + 1 <= m < k ==> s[m] == g[m - i - 1];
    NextParenAfter(s, i + 1, k);
    assert s[i + 1..NextParen(s, i + 1)] == g;
    assert MetaShape(s[i + 1..NextParen(s, i + 1)]);
    assert MatchesAt(s, i);
    FindMetaAt(s, i);
    FortuneMetaOfFound(s, i, k);
  }

  /** The capture is the text between the parentheses the search finds. */
  lemma FortuneMetaOfFound(s: string, i: nat, k: nat)
    requires FindMeta(s, 0) == Some((i, k))
    ensures i + 1 <= k <= |s| && FortuneMeta(s) == Some(s[i + 1..k])
  {
  }

  /**
   * In a file text such as "name.png (1.2 MB, 800x600)", the capture is what
   * the parentheses enclose, provided nothing in front opens a parenthesis.
   */
  lemma FortuneMetaOfParenthesized(prefix: string, g: string, suffix: string)
    requires '(' !in prefix
    requires forall m :: 0 <= m < |g| ==> !IsParen(g[m])
    requires MetaShape(g)
    ensures FortuneMeta(prefix + "(" + g + ")" + suffix) == Some(g)
  {
    var s := prefix + "(" + g + ")" + suffix;
    var i, k := |prefix|, |prefix| + 1 + |g|;
    ParenthesizedLayout(prefix, g, suffix);
    assert forall m :: 0 <= m < i ==> s[m] != '(' by {
      assert forall m :: 0 <= m < i ==> s[m] == prefix[m];
    }
    FortuneMetaAt(s, i, k, g);
  }

  /** Where the prefix, the parentheses and the meta text sit in the file text. */
  lemma ParenthesizedLayout(prefix: string, g: string, suffix: string)
    ensures var s, i, k := prefix + "(" + g + ")" + suffix, |prefix|, |prefix| + 1 + |g|;
            k < |s| && s[i] == '(' && s[k] == ')' && s[i + 1..k] == g
            && (forall m :: 0 <= m < i ==> s[m] == prefix[m])
  {
    MiddleSlice(prefix + "(", g, ")", suffix);
  }

  /** `meta?.split(',').map((str) => str.trim()) || []`, destructured as `[size, dimensions]`. */
  function SizeAndDimensions(meta: Option<string>): (r: (Option<string>, Option<string>))
    ensures meta.None? ==> r == (None, None)
    ensures meta.Some? ==> r.0.Some?
    ensures r.1.Some? ==> meta.Some? && ',' in meta.value
  {
    match meta
    case None => (None, None)
    case Some(m) =>
      var pieces := Split(m, ',');
      SplitPieces(m, ',');
      (Some(Trim(pieces[0])), if |pieces| > 1 then Some(Trim(pieces[1])) else None)
  }

  /**
   * The size is the trimmed text in front of the first comma; the dimensions
   * are the trimmed text between the first and the second comma, and absent
   * without a comma.
   */
  lemma SizeAndDimensionsMeaning(m: string)
    ensures SizeAndDimensions(Some(m)).0 == Some(Trim(UpTo(m, ',')))
    ensures ',' !in m ==> SizeAndDimensions(Some(m)).1 == None
    ensures ',' in m ==> SizeAndDimensions(Some(m)).1 == Some(Trim(UpTo(m[|UpTo(m, ',')| + 1..], ',')))
  {
    SplitPieces(m, ',');
  }

  /** `parseInt(str, 10) || undefined`: both `NaN` and 0 become "absent". */
  function IntOrUndefined(s: string): (r: Option<int>)
    ensures r.None? <==> ParseInt(s).None? || ParseInt(s) == Some(0)
    ensures r.Some? ==> ParseInt(s) == r && r.value != 0
  {
    match ParseInt(s)
    case None => None
    case Some(v) => if v == 0 then None else Some(v)
  }

  /** `dimensions?.split('x').map(...) || []`, destructured as `[width, height]`. */
  function WidthAndHeight(dimensions: Option<string>): (r: (Option<int>, Option<int>))
    ensures dimensions.None? ==> r == (None, None)
    ensures r.1.Some? ==> dimensions.Some? && 'x' in dimensions.value
  {
    match dimensions
    case None => (None, None)
    case Some(d) =>
      var pieces := Split(d, 'x');
      SplitPieces(d, 'x');
      (IntOrUndefined(pieces[0]), if |pieces| > 1 then IntOrUndefined(pieces[1]) else None)
  }

  /**
   * The width is the number in front of the first `x`; the height is the
   * number between the first and the second `x`, and absent without an `x`.
   */
  lemma WidthAndHeightMeaning(d: string)
    ensures WidthAndHeight(Some(d)).0 == IntOrUndefined(UpTo(d, 'x'))
    ensures 'x' !in d ==> WidthAndHeight(Some(d)).1 == None
    ensures 'x' in d ==> WidthAndHeight(Some(d)).1 == IntOrUndefined(UpTo(d[|UpTo(d, 'x')| + 1..], 'x'))
  {
    SplitPieces(d, 'x');
  }

  /** A width with no digits, as in `x600`, is absent too (`parseInt` gives `NaN`). */
  lemma MissingWidthIsAbsent(h: nat)
    ensures WidthAndHeight(Some("x" + IntToString(h))) == (None, if h == 0 then None else Some(h))
  {
    var hs := IntToString(h);
    assert "x" + hs == [] + ['x'] + hs;
    SplitAtFirst([], 'x', hs);
    assert 'x' !in hs;
    SplitNoSeparator(hs, 'x');
    ParseIntOfIntToString(h);
  }

  /** Meta text "size, dimensions" splits back into its trimmed size and dimensions. */
  lemma SizeAndDimensionsOfJoined(size: string, dimensions: string)
    requires ',' !in size && ',' !in dimensions
    requires Trim(size) == size && Trim(dimensions) == dimensions
    ensures SizeAndDimensions(Some(size + ", " + dimensions)) == (Some(size), Some(dimensions))
  {
    SplitMetaText(size, dimensions);
    SizeAndDimensionsOfPieces(size + ", " + dimensions, size, " " + dimensions);
    TrimSpaceFront(dimensions);
  }

  lemma SplitMetaText(size: string, dimensions: string)
    requires ',' !in size && ',' !in dimensions
    ensures Split(size + ", " + dimensions, ',') == [size, " " + dimensions]
  {
    var rest := " " + dimensions;
    assert size + ", " + dimensions == size + [','] + rest;
    SplitAtFirst(size, ',', rest);
    SplitNoSeparator(rest, ',');
  }

  lemma SizeAndDimensionsOfPieces(meta: string, a: string, b: string)
    requires Split(meta, ',') == [a, b]
    ensures SizeAndDimensions(Some(meta)) == (Some(Trim(a)), Some(Trim(b)))
  {
  }

  lemma TrimSpaceFront(d: string)
    requires Trim(d) == d
    ensures Trim(" " + d) == d
  {
    var s := " " + d;
    assert s[1..] == d;
    assert TrimStart(s) == TrimStart(d);
  }

  /** Dimensions written as "WxH" read back as the pair, a zero side as absent. */
  lemma WidthAndHeightOfPair(w: nat, h: nat)
    ensures WidthAndHeight(Some(IntToString(w) + "x" + IntToString(h))) ==
            (if w == 0 then None else Some(w), if h == 0 then None else Some(h))
  {
    var ws, hs := IntToString(w), IntToString(h);
    assert 'x' !in ws && 'x' !in hs;
    assert ws + "x" + hs == ws + ['x'] + hs;
    SplitAtFirst(ws, 'x', hs);
    assert Split(hs, 'x') == [hs];
    ParseIntOfIntToString(w);
    ParseIntOfIntToString(h);
  }

  /** The meta text of a file: `size, WxH`. */
  function MetaText(size: string, w: nat, h: nat): string {
    size + ", " + (IntToString(w) + "x" + IntToString(h))
  }

  /** A meta text reads back as its size and its dimensions, a zero side as absent. */
  lemma MetaTextReadsBack(size: string, w: nat, h: nat)
    requires ',' !in size && Trim(size) == size
    ensures var (sz, dims) := SizeAndDimensions(Some(MetaText(size, w, h)));
            sz == Some(size) && WidthAndHeight(dims) == (if w == 0 then None else Some(w), if h == 0 then None else Some(h))
  {
    var d := IntToString(w) + "x" + IntToString(h);
    NoSpaceAtEitherEnd(w, h);
    SizeAndDimensionsOfJoined(size, d);
    WidthAndHeightOfPair(w, h);
  }

  /** The dimensions text `WxH` has no white space at either end and no comma. */
  lemma NoSpaceAtEitherEnd(w: nat, h: nat)
    ensures var d := IntToString(w) + "x" + IntToString(h);
            Trim(d) == d && ',' !in d
  {
    var ws, hs := NatToString(w), NatToString(h);
    assert IntToString(w) == ws && IntToString(h) == hs;
    NoSpaceOfDigits(ws, hs);
  }

  /** Digit runs around an `x`: no white space at either end and no comma. */
  lemma NoSpaceOfDigits(ws: string, hs: string)
    requires |ws| >= 1 && |hs| >= 1 && AllDigits(ws) && AllDigits(hs)
    ensures var d := ws + "x" + hs;
            Trim(d) == d && ',' !in d
  {
    var d := ws + "x" + hs;
    assert d[0] == ws[0] && d[|d| - 1] == hs[|hs| - 1];
    assert !IsJsSpace(d[0]) && !IsJsSpace(d[|d| - 1]);
    assert TrimStart(d) == d;
    assert TrimEnd(d) == d;
    NoCommaInDimensions(ws, hs);
  }

  /** What the 4chan serializer reads from one post element. */
  datatype FortunePost = FortunePost(
    titleAnchor: Option<TitledElement>,   // '.fileText a'
    thumbHref: Option<string>,            // 'a.fileThumb' href
    thumbSrc: Option<string>,             // 'a.fileThumb img' src
    fileText: Option<string>,             // '.fileText' textContent
    backlinkCount: nat)                   // '.postInfo .backlink a.quotelink' count

  /** What The B Archive serializer reads from one post element. */
  datatype ArchivePost = ArchivePost(
    titleElement: Option<TitledElement>,  // '.post_file_filename'
    imageLinkHref: Option<string>,        // 'a.thread_image_link' href
    imageSrc: Option<string>,             // 'img.post_image' src
    metadataText: Option<string>,         // '.post_file_metadata' textContent
    backlinkCount: nat)                   // '.backlink_list a.backlink' count

  /** The one media entry and the reply count that both serializers return on success. */
  function MediaPost(url: string, thumbnailUrl: string, filename: string, meta: Option<string>, replies: nat): (r: SerializedPost)
    ensures |r.media| == 1 && r.replies == Some(replies)
    ensures var m := r.media[0];
            m.url == url && m.thumbnailUrl == thumbnailUrl && m.filename == filename
            && m.size == SizeAndDimensions(meta).0
            && (m.width, m.height) == WidthAndHeight(SizeAndDimensions(meta).1)
  {
    var (size, dimensions) := SizeAndDimensions(meta);
    var (width, height) := WidthAndHeight(dimensions);
    SerializedPost([SerializedMedia(url, filename, thumbnailUrl, width, height, size)], Some(replies))
  }

  /** `fortunePostSerializer`. */
  function FortunePostSerializer(p: FortunePost): (r: Option<SerializedPost>)
    ensures r.Some? <==> Truthy(p.thumbHref) && Truthy(p.thumbSrc) && Truthy(Filename(p.titleAnchor, p.thumbHref))
    ensures r.Some? ==> |r.value.media| == 1 && r.value.replies == Some(p.backlinkCount)
    ensures r.Some? ==> var m := r.value.media[0];
      m.url == p.thumbHref.value && m.thumbnailUrl == p.thumbSrc.value
      && Some(m.filename) == Filename(p.titleAnchor, p.thumbHref)
    ensures r.Some? ==> var meta := if p.fileText.Some? then FortuneMeta(p.fileText.value) else None;
      var m := r.value.media[0];
      m.size == SizeAndDimensions(meta).0 && (m.width, m.height) == WidthAndHeight(SizeAndDimensions(meta).1)
    ensures r.Some? && (p.fileText.None? || FortuneMeta(p.fileText.value).None?) ==>
      r.value.media[0].size.None? && r.value.media[0].width.None? && r.value.media[0].height.None?
  {
    var url := p.thumbHref;
    var thumbnailUrl := p.thumbSrc;
    var meta := if p.fileText.Some? then FortuneMeta(p.fileText.value) else None;
    var filename := Filename(p.titleAnchor, url);
    if !Truthy(url) || !Truthy(thumbnailUrl) || !Truthy(filename) then None
    else Some(MediaPost(url.value, thumbnailUrl.value, filename.value, meta, p.backlinkCount))
  }

  /** `theBArchivePostSerializer`: the metadata text is split as it is, without a pattern. */
  function ArchivePostSerializer(p: ArchivePost): (r: Option<SerializedPost>)
    ensures r.Some? <==> Truthy(p.imageLinkHref) && Truthy(p.imageSrc) && Truthy(Filename(p.titleElement, p.imageLinkHref))
    ensures r.Some? ==> |r.value.media| == 1 && r.value.replies == Some(p.backlinkCount)
    ensures r.Some? ==> var m := r.value.media[0];
      m.url == p.imageLinkHref.value && m.thumbnailUrl == p.imageSrc.value
      && Some(m.filename) == Filename(p.titleElement, p.imageLinkHref)
    ensures r.Some? ==> var m := r.value.media[0];
      m.size == SizeAndDimensions(p.metadataText).0
      && (m.width, m.height) == WidthAndHeight(SizeAndDimensions(p.metadataText).1)
    ensures r.Some? ==> (r.value.media[0].size.Some? <==> p.metadataText.Some?)
  {
    var url := p.imageLinkHref;
    var thumbnailUrl := p.imageSrc;
    var filename := Filename(p.titleElement, url);
    if !Truthy(url) || !Truthy(thumbnailUrl) || !Truthy(filename) then None
    else Some(MediaPost(url.value, thumbnailUrl.value, filename.value, p.metadataText, p.backlinkCount))
  }

  /** The text matches `\d+` in full when it is a non-empty run of digits. */
  lemma {:induction false} DigitsOnlyOfDigits(t: string)
    requires |t| >= 1 && forall k :: 0 <= k < |t| ==> IsDigit(t[k])
    ensures DigitsOnly(t)
  {
    if |t| > 1 {
      DigitsOnlyOfDigits(t[1..]);
    }
  }

  /** Digits, an `x` and a run of digits match `\d*x\d+`. */
  lemma {:induction false} AfterWidthDigitOf(a: string, t: string)
    requires forall k :: 0 <= k < |a| ==> IsDigit(a[k])
    requires DigitsOnly(t)
    ensures AfterWidthDigit(a + "x" + t)
  {
    var q := a + "x" + t;
    if a == [] {
      assert q[1..] == t;
    } else {
      assert q[1..] == a[1..] + "x" + t;
      AfterWidthDigitOf(a[1..], t);
    }
  }

  /** A text of digits. */
  predicate AllDigits(t: string) {
    forall k :: 0 <= k < |t| ==> IsDigit(t[k])
  }

  /** `size, WxH` with digit runs W and H has the shape the 4chan pattern captures, provided the size has no comma. */
  lemma MetaShapeOfDigits(size: string, ws: string, hs: string)
    requires size != "" && ',' !in size
    requires |ws| >= 1 && |hs| >= 1 && AllDigits(ws) && AllDigits(hs)
    ensures MetaShape(size + ", " + (ws + "x" + hs))
  {
    var tail := " " + (ws + "x" + hs);
    var g := size + ", " + (ws + "x" + hs);
    assert g == size + [','] + tail;
    DimensionsTailOfDigits(ws, hs);
    LastIndexOfAfterPrefix(size, ',', tail);
    assert g[|size| + 1..] == tail;
  }

  /** ` WxH` with digit runs W and H matches ` *\d+x\d+` and holds no comma. */
  lemma DimensionsTailOfDigits(ws: string, hs: string)
    requires |ws| >= 1 && |hs| >= 1 && AllDigits(ws) && AllDigits(hs)
    ensures DimensionsTail(" " + (ws + "x" + hs)) && ',' !in " " + (ws + "x" + hs)
  {
    var d := ws + "x" + hs;
    var tail := " " + d;
    assert tail[0] == ' ' && tail[1..] == d;
    assert IsDigit(d[0]) && d[1..] == ws[1..] + "x" + hs;
    DigitsOnlyOfDigits(hs);
    AfterWidthDigitOf(ws[1..], hs);
    assert DimensionsTail(d);
    NoCommaInDimensions(ws, hs);
  }

  /** Digits and an `x` hold no comma. */
  lemma NoCommaInDimensions(ws: string, hs: string)
    requires AllDigits(ws) && AllDigits(hs)
    ensures ',' !in " " + (ws + "x" + hs)
  {
    assert ',' !in ws && ',' !in hs;
  }

  /** The last `c` of `a + [c] + b` is the one after `a` when `b` has none. */
  lemma {:induction false} LastIndexOfAfterPrefix(a: string, c: char, b: string)
    requires c !in b
    ensures LastIndexOf(a + [c] + b, c) == Some(|a|)
  {
    var g := a + [c] + b;
    if b != [] {
      var b' := b[..|b| - 1];
      assert g[..|g| - 1] == a + [c] + b';
      LastIndexOfAfterPrefix(a, c, b');
    }
  }

  /** The meta text of a file has the shape the 4chan pattern captures, provided its size has no comma. */
  lemma MetaShapeOf(size: string, w: nat, h: nat)
    requires size != "" && ',' !in size
    ensures MetaShape(MetaText(size, w, h))
  {
    MetaShapeOfDigits(size, NatToString(w), NatToString(h));
  }

  /** `size, WxH` with digit runs W and H holds no parenthesis when the size holds none. */
  lemma ParenFreeOfDigits(size: string, ws: string, hs: string)
    requires forall m :: 0 <= m < |size| ==> !IsParen(size[m])
    requires AllDigits(ws) && AllDigits(hs)
    ensures var g := size + ", " + (ws + "x" + hs);
            forall m :: 0 <= m < |g| ==> !IsParen(g[m])
  {
    var d := ws + "x" + hs;
    var g := size + ", " + d;
    forall m | 0 <= m < |g| ensures !IsParen(g[m]) {
      if m < |size| {
        assert g[m] == size[m];
      } else if m < |size| + 2 {
        assert g[m] == ", "[m - |size|];
      } else {
        var k := m - |size| - 2;
        assert g[m] == d[k];
        if k < |ws| { assert d[k] == ws[k]; }
        else if k > |ws| { assert d[k] == hs[k - |ws| - 1]; }
      }
    }
  }

  /** The meta text of a file holds no parenthesis when its size holds none. */
  lemma MetaTextParenFree(size: string, w: nat, h: nat)
    requires forall m :: 0 <= m < |size| ==> !IsParen(size[m])
    ensures var g := MetaText(size, w, h);
            forall m :: 0 <= m < |g| ==> !IsParen(g[m])
  {
    ParenFreeOfDigits(size, NatToString(w), NatToString(h));
  }

  /**
   * A 4chan file text "name (size, WxH) ..." gives the media its size and
   * dimensions, a zero side as absent, when nothing in front opens a
   * parenthesis.
   */
  lemma FortuneReadsMeta(p: FortunePost, prefix: string, size: string, w: nat, h: nat, suffix: string)
    requires Truthy(p.thumbHref) && Truthy(p.thumbSrc) && Truthy(Filename(p.titleAnchor, p.thumbHref))
    requires p.fileText == Some(prefix + "(" + MetaText(size, w, h) + ")" + suffix)
    requires '(' !in prefix && size != "" && ',' !in size && Trim(size) == size
    requires forall m :: 0 <= m < |size| ==> !IsParen(size[m])
    ensures var r := FortunePostSerializer(p);
            r.Some? && r.value.media[0].size == Some(size)
            && r.value.media[0].width == (if w == 0 then None else Some(w))
            && r.value.media[0].height == (if h == 0 then None else Some(h))
  {
    var g := MetaText(size, w, h);
    MetaShapeOf(size, w, h);
    MetaTextParenFree(size, w, h);
    FortuneMetaOfParenthesized(prefix, g, suffix);
    MetaTextReadsBack(size, w, h);
  }

  /** A B Archive metadata text "size, WxH" gives the media its size and dimensions, a zero side as absent. */
  lemma ArchiveReadsMeta(p: ArchivePost, size: string, w: nat, h: nat)
    requires Truthy(p.imageLinkHref) && Truthy(p.imageSrc) && Truthy(Filename(p.titleElement, p.imageLinkHref))
    requires p.metadataText == Some(MetaText(size, w, h))
    requires ',' !in size && Trim(size) == size
    ensures var r := ArchivePostSerializer(p);
            r.Some? && r.value.media[0].size == Some(size)
            && r.value.media[0].width == (if w == 0 then None else Some(w))
            && r.value.media[0].height == (if h == 0 then None else Some(h))
  {
    MetaTextReadsBack(size, w, h);
  }
}
