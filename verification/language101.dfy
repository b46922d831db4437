/** The string steps of the course downloader: the file-name body made from
    a lesson title, the names given to audio, video and PDF downloads, the
    PDF URL, the login URL, and the check that no command-line argument was
    given. Page search, HTTP and the file system stay outside: the tags a
    page holds arrive as values, and a download is the `Save` it would
    request. */
module Language101 {
  import opened Wrappers
  import opened PyStrings
  import opened Decimal

  // ---------------------------------------------------------------------------
  // the file-name body

  /** The characters `get_filename_body` removes from a title, in the order
      its loop visits them. In the Python literal `'\/'` is no escape, so
      both the backslash and the slash are removed. */
  const InvalidChars: seq<char> := ['#', '%', '&', '\\', '/', '?', ':', '*', '\"', '<', '>', '{', '|', '}', '\t']

  const InvalidSet: set<char> := {'#', '%', '&', '\\', '/', '?', ':', '*', '\"', '<', '>', '{', '|', '}', '\t'}

  /** What `get_filename_body` returns for a title: the title without its
      invalid characters, the others kept in order. */
  function FilenameBody(title: string): (r: string)
    ensures forall i :: 0 <= i < |r| ==> r[i] !in InvalidSet
  {
    FilterOut(title, InvalidSet)
  }

  /** `get_filename_body`: `title.replace(char, '')` for each invalid
      character in turn, which amounts to filtering the whole set at once. */
  method GetFilenameBody(title: string) returns (body: string)
    ensures body == FilenameBody(title)
  {
    body := title;
    ghost var removed: set<char> := {};
    FilterOutClean(title, {});
    var i := 0;
    while i < |InvalidChars|
      invariant 0 <= i <= |InvalidChars|
      invariant forall c :: c in removed <==> c in InvalidChars[..i]
      invariant body == FilterOut(title, removed)
    {
      ReplaceStep(title, removed, i);
      body := RemoveChar(body, InvalidChars[i]);
      removed := removed + {InvalidChars[i]};
      i := i + 1;
    }
    InvalidCharsAreInvalidSet(removed);
  }

  /** One round of the replacing loop removes one more character. */
  lemma ReplaceStep(title: string, removed: set<char>, i: int)
    requires 0 <= i < |InvalidChars|
    requires forall c :: c in removed <==> c in InvalidChars[..i]
    ensures RemoveChar(FilterOut(title, removed), InvalidChars[i]) == FilterOut(title, removed + {InvalidChars[i]})
    ensures forall c :: c in removed + {InvalidChars[i]} <==> c in InvalidChars[..i + 1]
  {
    FilterOutTwice(title, removed, {InvalidChars[i]});
    assert InvalidChars[..i + 1] == InvalidChars[..i] + [InvalidChars[i]];
  }

  /** The characters of the whole list make up the invalid set. */
  lemma InvalidCharsAreInvalidSet(removed: set<char>)
    requires forall c :: c in removed <==> c in InvalidChars[..|InvalidChars|]
    ensures removed == InvalidSet
  {
    assert InvalidChars[..|InvalidChars|] == InvalidChars;
  }

  /** No invalid character is left in the body, and every other character of
      the title is. */
  lemma FilenameBodyMeets(title: string)
    ensures var r := FilenameBody(title);
      && (forall c :: c in r ==> c !in InvalidSet)
      && (forall c :: c in r <==> c in title && c !in InvalidSet)
  {
  }

  /** Sanitising a sanitised body changes nothing. */
  lemma FilenameBodyIdempotent(title: string)
    ensures FilenameBody(FilenameBody(title)) == FilenameBody(title)
  {
    FilterOutClean(FilenameBody(title), InvalidSet);
  }

  /** Sanitising works character by character: a title split anywhere
      sanitises to the two sanitised halves, so the kept characters keep
      their order. */
  lemma FilenameBodyAppend(a: string, b: string)
    ensures FilenameBody(a + b) == FilenameBody(a) + FilenameBody(b)
  {
    FilterOutAppend(a, b, InvalidSet);
  }

  /** A title without invalid characters is its own body. */
  lemma FilenameBodyOfCleanTitle(title: string)
    requires forall c :: c in title ==> c !in InvalidSet
    ensures FilenameBody(title) == title
  {
    FilterOutClean(title, InvalidSet);
  }

  // ---------------------------------------------------------------------------
  // download names

  /** `str(lesson_number).zfill(2)`. */
  function LessonPrefix(n: int): string {
    ZFill(IntToString(n), 2)
  }

  /** For the lesson numbers `enumerate(..., start=1)` produces, the prefix is
      a digit string of at least two characters whose value is the lesson
      number; numbers below ten get one leading '0'. */
  lemma LessonPrefixMeets(n: int)
    requires n >= 0
    ensures var p := LessonPrefix(n);
      && |p| >= 2
      && AllDigits(p)
      && DigitsValue(p) == n
      && (n < 10 ==> p == ['0', DigitChar(n)])
  {
    ZFillNatValue(n, 2);
  }

  /** The class of an audio file, read from the last segment of its URL
      without regard to case. */
  function AudioSuffix(segment: string): (r: string)
    ensures r == "Dialogue" || r == "Review" || r == "Main Lesson"
  {
    var lower := Lower(segment);
    if Contains(lower, "dialog") || Contains(lower, "dialogue") then "Dialogue"
    else if Contains(lower, "review") then "Review"
    else "Main Lesson"
  }

  /** The three classes by what the lower-cased segment contains; the test
      for "dialogue" adds nothing to the test for "dialog". */
  lemma AudioSuffixCases(segment: string)
    ensures var lower := Lower(segment); var r := AudioSuffix(segment);
      && (r == "Dialogue" <==> Contains(lower, "dialog"))
      && (r == "Review" <==> !Contains(lower, "dialog") && Contains(lower, "review"))
      && (r == "Main Lesson" <==> !Contains(lower, "dialog") && !Contains(lower, "review"))
  {
    var lower := Lower(segment);
    if Contains(lower, "dialogue") {
      ContainsPrefix(lower, "dialogue", 6);
      assert "dialogue"[..6] == "dialog";
    }
  }

  /** The class does not depend on case: a segment and its lower-case form
      are classed alike. */
  lemma AudioSuffixIgnoresCase(segment: string)
    ensures AudioSuffix(Lower(segment)) == AudioSuffix(segment)
  {
    LowerIdempotent(segment);
  }

  /** The name `download_audios` gives the file at `url`: only a URL ending
      in ".mp3" gets one. */
  function AudioFileName(n: int, title: string, url: string): (r: Option<string>)
    ensures r.Some? <==> EndsWith(url, ".mp3")
  {
    if EndsWith(url, ".mp3") then
      Some(LessonPrefix(n) + " - " + FilenameBody(title) + " - " + AudioSuffix(LastSegment(url, '/'))
           + "." + LastSegment(url, '.'))
    else None
  }

  /** The audio name is prefix, body and class separated by " - ", with the
      extension "mp3" the URL ends in. */
  lemma AudioFileNameShape(n: int, title: string, url: string)
    requires EndsWith(url, ".mp3")
    ensures AudioFileName(n, title, url).value ==
      LessonPrefix(n) + " - " + FilenameBody(title) + " - " + AudioSuffix(LastSegment(url, '/')) + ".mp3"
  {
    LastSegmentOfSuffix(url, '.', "mp3");
  }

  /** The number in front of an audio name reads back as the lesson number. */
  lemma AudioFileNameNumber(n: int, title: string, url: string)
    requires n >= 0 && EndsWith(url, ".mp3")
    ensures var name := AudioFileName(n, title, url).value;
      |LessonPrefix(n)| <= |name| && DigitsValue(name[..|LessonPrefix(n)|]) == n
  {
    var p := LessonPrefix(n);
    var a1 := p + " - ";
    var a2 := a1 + FilenameBody(title);
    var a3 := a2 + " - ";
    var a4 := a3 + AudioSuffix(LastSegment(url, '/'));
    var name := a4 + ".mp3";
    AudioFileNameShape(n, title, url);
    assert AudioFileName(n, title, url).value == name;
    assert a1[..|p|] == p;
    assert a2[..|p|] == a1[..|p|];
    assert a3[..|p|] == a2[..|p|];
    assert a4[..|p|] == a3[..|p|];
    assert name[..|p|] == a4[..|p|];
    LessonPrefixMeets(n);
  }

  /** `s` holds no invalid character. */
  predicate Clean(s: string) {
    forall i :: 0 <= i < |s| ==> s[i] !in InvalidSet
  }

  lemma CleanAppend(a: string, b: string)
    requires Clean(a) && Clean(b)
    ensures Clean(a + b)
  {
    assert forall i :: |a| <= i < |a + b| ==> (a + b)[i] == b[i - |a|];
  }

  /** The separators and extensions a name is built with are clean. */
  lemma SeparatorsClean()
    ensures Clean(" - ") && Clean(".mp3") && Clean(".mp4") && Clean(".m4v")
  {
  }

  /** The three audio classes are clean. */
  lemma SuffixesClean()
    ensures Clean("Dialogue") && Clean("Review") && Clean("Main Lesson")
  {
  }

  /** Whatever class a segment gets is clean. */
  lemma AudioSuffixClean(segment: string)
    ensures Clean(AudioSuffix(segment))
  {
    SuffixesClean();
  }

  /** The lesson number is made of digits, none of them invalid. */
  lemma LessonPrefixClean(n: int)
    requires n >= 0
    ensures Clean(LessonPrefix(n))
  {
    LessonPrefixMeets(n);
  }

  /** No audio name holds an invalid character, so in particular none holds a
      path separator: every audio file lands in the current directory. */
  lemma AudioFileNameSafe(n: int, title: string, url: string)
    requires n >= 0 && EndsWith(url, ".mp3")
    ensures Clean(AudioFileName(n, title, url).value)
  {
    var p := LessonPrefix(n);
    var b := FilenameBody(title);
    var suffix := AudioSuffix(LastSegment(url, '/'));
    AudioFileNameShape(n, title, url);
    LessonPrefixClean(n);
    SeparatorsClean();
    AudioSuffixClean(LastSegment(url, '/'));
    CleanAppend(p, " - ");
    CleanAppend(p + " - ", b);
    CleanAppend(p + " - " + b, " - ");
    CleanAppend(p + " - " + b + " - ", suffix);
    CleanAppend(p + " - " + b + " - " + suffix, ".mp3");
  }

  /** The extension of a video URL the downloader accepts. */
  predicate IsVideoUrl(url: string) {
    EndsWith(url, ".mp4") || EndsWith(url, ".m4v")
  }

  /** The name `download_videos` gives the file at `url`: only a URL ending in
      ".mp4" or ".m4v" gets one. */
  function VideoFileName(n: int, title: string, url: string): (r: Option<string>)
    ensures r.Some? <==> IsVideoUrl(url)
  {
    if IsVideoUrl(url) then Some(LessonPrefix(n) + " - " + FilenameBody(title) + "." + LastSegment(url, '.'))
    else None
  }

  /** The video name is prefix and body separated by " - ", with the
      extension the URL ends in. */
  lemma VideoFileNameShape(n: int, title: string, url: string)
    requires IsVideoUrl(url)
    ensures var ext := if EndsWith(url, ".mp4") then ".mp4" else ".m4v";
      VideoFileName(n, title, url).value == LessonPrefix(n) + " - " + FilenameBody(title) + ext
  {
    var stem := LessonPrefix(n) + " - " + FilenameBody(title);
    var ext := if EndsWith(url, ".mp4") then "mp4" else "m4v";
    assert EndsWith(url, ['.'] + ext);
    LastSegmentOfSuffix(url, '.', ext);
    assert VideoFileName(n, title, url).value == stem + "." + ext;
    assert stem + "." + ext == stem + (['.'] + ext);
  }

  /** No video name holds an invalid character. */
  lemma VideoFileNameSafe(n: int, title: string, url: string)
    requires n >= 0 && IsVideoUrl(url)
    ensures Clean(VideoFileName(n, title, url).value)
  {
    var p := LessonPrefix(n);
    var b := FilenameBody(title);
    var ext := if EndsWith(url, ".mp4") then ".mp4" else ".m4v";
    VideoFileNameShape(n, title, url);
    LessonPrefixClean(n);
    SeparatorsClean();
    CleanAppend(p, " - ");
    CleanAppend(p + " - ", b);
    CleanAppend(p + " - " + b, ext);
  }

  // ---------------------------------------------------------------------------
  // download plans

  /** A download request: fetch `url` and store it as `fileName`. */
  datatype Save = Save(url: string, fileName: string)

  /** The requests a download loop issues: for each URL it found, in order,
      one request when the URL gets a name. */
  function Plan(urls: seq<Option<string>>, name: string -> Option<string>): (saves: seq<Save>)
    ensures |saves| <= |urls|
    ensures forall i :: 0 <= i < |saves| ==> name(saves[i].url) == Some(saves[i].fileName)
    ensures forall i :: 0 <= i < |saves| ==> Some(saves[i].url) in urls
    decreases |urls|
  {
    if urls == [] then []
    else
      var rest := Plan(urls[1..], name);
      assert forall u :: u in urls[1..] ==> u in urls;
      var head := if urls[0].Some? && name(urls[0].value).Some? then [Save(urls[0].value, name(urls[0].value).value)] else [];
      head + rest
  }

  /** Every URL found that gets a name is requested under that name. */
  lemma {:induction false} PlanComplete(urls: seq<Option<string>>, name: string -> Option<string>, i: int)
    requires 0 <= i < |urls| && urls[i].Some? && name(urls[i].value).Some?
    ensures Save(urls[i].value, name(urls[i].value).value) in Plan(urls, name)
    decreases i
  {
    if i > 0 {
      PlanComplete(urls[1..], name, i - 1);
    }
  }

  /** The plan follows the order of the URLs: the plan of two runs of URLs is
      the plan of the first followed by that of the second. */
  lemma {:induction false} PlanAppend(a: seq<Option<string>>, b: seq<Option<string>>, name: string -> Option<string>)
    ensures Plan(a + b, name) == Plan(a, name) + Plan(b, name)
    decreases |a|
  {
    if a == [] {
      assert a + b == b;
    } else {
      assert (a + b)[1..] == a[1..] + b;
      PlanAppend(a[1..], b, name);
    }
  }

  // ---------------------------------------------------------------------------
  // audio downloads

  /** An `<audio>` tag: its `data-trackurl` and `data-url` attributes. */
  datatype AudioTag = AudioTag(trackUrl: Option<string>, dataUrl: Option<string>)

  /** The URL the loop reads from a tag: `data-trackurl`, failing that
      `data-url`. */
  function TagUrl(t: AudioTag): (u: Option<string>)
    ensures u.Some? <==> t.trackUrl.Some? || t.dataUrl.Some?
    ensures t.trackUrl.Some? ==> u == t.trackUrl
    ensures t.trackUrl.None? ==> u == t.dataUrl
  {
    if t.trackUrl.Some? then t.trackUrl else t.dataUrl
  }

  /** The URL of each tag, in order. */
  function TagUrls(tags: seq<AudioTag>): (urls: seq<Option<string>>)
    ensures |urls| == |tags|
    ensures forall i :: 0 <= i < |tags| ==> urls[i] == TagUrl(tags[i])
  {
    seq(|tags|, i requires 0 <= i < |tags| => TagUrl(tags[i]))
  }

  /** The errors that end a download loop: a name read before assignment,
      and a PDF link without `href`. */
  datatype DownloadError = UnboundFileUrl | MissingHref

  /** The audio name of a URL, as a function of the URL. */
  function AudioNaming(n: int, title: string): string -> Option<string> {
    url => AudioFileName(n, title, url)
  }

  /** `download_audios` as its author evidently meant it: a tag without
      either URL is passed over. */
  function DownloadAudios(n: int, title: string, tags: seq<AudioTag>): (saves: seq<Save>)
    ensures forall i :: 0 <= i < |saves| ==>
      EndsWith(saves[i].url, ".mp3") && Some(saves[i].fileName) == AudioFileName(n, title, saves[i].url)
  {
    Plan(TagUrls(tags), AudioNaming(n, title))
  }

  /** The intended audio plan requests exactly the ".mp3" URLs of the tags,
      in order, each under its audio name. */
  lemma DownloadAudiosRequests(n: int, title: string, tags: seq<AudioTag>)
    ensures var saves := DownloadAudios(n, title, tags);
      && (forall s :: s in saves ==> exists i :: 0 <= i < |tags| && TagUrl(tags[i]) == Some(s.url))
      && (forall i :: 0 <= i < |tags| && TagUrl(tags[i]).Some? && EndsWith(TagUrl(tags[i]).value, ".mp3") ==>
            Save(TagUrl(tags[i]).value, AudioFileName(n, title, TagUrl(tags[i]).value).value) in saves)
  {
    var urls := TagUrls(tags);
    var name := AudioNaming(n, title);
    var saves := DownloadAudios(n, title, tags);
    forall s | s in saves
      ensures exists i :: 0 <= i < |tags| && TagUrl(tags[i]) == Some(s.url)
    {
      var k :| 0 <= k < |saves| && saves[k] == s;
      assert Some(s.url) in urls;
      var i :| 0 <= i < |urls| && urls[i] == Some(s.url);
      assert TagUrl(tags[i]) == Some(s.url);
    }
    forall i | 0 <= i < |tags| && TagUrl(tags[i]).Some? && EndsWith(TagUrl(tags[i]).value, ".mp3")
      ensures Save(TagUrl(tags[i]).value, AudioFileName(n, title, TagUrl(tags[i]).value).value) in saves
    {
      PlanComplete(urls, name, i);
    }
  }

  /** The loop of `download_audios` as written, with `file_url` the value the
      variable last held. A tag without either URL prints `file_url` and is
      passed over; when no earlier tag ever assigned `file_url`, that print
      raises `UnboundLocalError`, which nothing catches. */
  function AudioLoop(n: int, title: string, tags: seq<AudioTag>, fileUrl: Option<string>): (r: Result<seq<Save>, DownloadError>)
    ensures fileUrl.Some? ==> r.Success?
    decreases |tags|
  {
    if tags == [] then Success([])
    else
      var url := TagUrl(tags[0]);
      if url.None? then
        if fileUrl.None? then Failure(UnboundFileUrl)
        else AudioLoop(n, title, tags[1..], fileUrl)
      else
        var head := match AudioFileName(n, title, url.value)
          case Some(name) => [Save(url.value, name)]
          case None => [];
        match AudioLoop(n, title, tags[1..], url)
        case Failure(e) => Failure(e)
        case Success(rest) => Success(head + rest)
  }

  /** `download_audios` as written. */
  function DownloadAudiosAsWritten(n: int, title: string, tags: seq<AudioTag>): Result<seq<Save>, DownloadError> {
    AudioLoop(n, title, tags, None)
  }

  /** Once `file_url` is bound the as-written loop requests what the intended
      one does. */
  lemma {:induction false} AudioLoopBound(n: int, title: string, tags: seq<AudioTag>, fileUrl: Option<string>)
    requires fileUrl.Some?
    ensures AudioLoop(n, title, tags, fileUrl) == Success(DownloadAudios(n, title, tags))
    decreases |tags|
  {
    if tags != [] {
      var urls := TagUrls(tags);
      assert urls[1..] == TagUrls(tags[1..]);
      var rest := DownloadAudios(n, title, tags[1..]);
      var url := TagUrl(tags[0]);
      assert urls[0] == url;
      if url.None? {
        AudioLoopBound(n, title, tags[1..], fileUrl);
        assert DownloadAudios(n, title, tags) == rest;
      } else {
        AudioLoopBound(n, title, tags[1..], url);
        var head := match AudioFileName(n, title, url.value)
          case Some(name) => [Save(url.value, name)]
          case None => [];
        assert DownloadAudios(n, title, tags) == head + rest;
      }
    }
  }

  /** The loop as written fails exactly when the first tag has neither URL;
      otherwise it requests what the intended loop requests. */
  lemma DownloadAudiosAsWrittenFails(n: int, title: string, tags: seq<AudioTag>)
    ensures var r := DownloadAudiosAsWritten(n, title, tags);
      && (r.Failure? <==> tags != [] && TagUrl(tags[0]).None?)
      && (r.Success? ==> r.value == DownloadAudios(n, title, tags))
  {
    if tags != [] {
      assert TagUrls(tags)[1..] == TagUrls(tags[1..]);
      var url := TagUrl(tags[0]);
      if url.Some? {
        AudioLoopBound(n, title, tags[1..], url);
      }
    }
  }

  /** A page whose first `<audio>` tag carries neither attribute stops the
      download as written, while the intended loop still fetches the second
      tag's recording. */
  lemma UnboundFileUrlExample()
    ensures var tags := [AudioTag(None, None), AudioTag(Some("/a/x.mp3"), None)];
      && DownloadAudiosAsWritten(1, "L", tags) == Failure(UnboundFileUrl)
      && |DownloadAudios(1, "L", tags)| == 1
  {
    var tags := [AudioTag(None, None), AudioTag(Some("/a/x.mp3"), None)];
    var urls := TagUrls(tags);
    assert urls == [None, Some("/a/x.mp3")];
    assert EndsWith("/a/x.mp3", ".mp3");
    assert urls[1..][1..] == [];
  }

  // ---------------------------------------------------------------------------
  // video downloads

  /** A `<source>` tag: its `type` and `src` attributes. */
  datatype VideoSource = VideoSource(mimeType: Option<string>, src: Option<string>)

  /** The URL the loop reads from a source: `src`, for a source whose type is
      "video/mp4". A missing attribute raises `KeyError`, which the loop
      catches before passing on to the next source. */
  function SourceUrl(v: VideoSource): (u: Option<string>)
    ensures u.Some? <==> v.mimeType == Some("video/mp4") && v.src.Some?
    ensures u.Some? ==> u == v.src
  {
    if v.mimeType == Some("video/mp4") then v.src else None
  }

  /** The URL of each source, in order. */
  function SourceUrls(vs: seq<VideoSource>): (urls: seq<Option<string>>)
    ensures |urls| == |vs|
    ensures forall i :: 0 <= i < |vs| ==> urls[i] == SourceUrl(vs[i])
  {
    seq(|vs|, i requires 0 <= i < |vs| => SourceUrl(vs[i]))
  }

  /** `download_videos`: one request per "video/mp4" source whose URL ends
      in ".mp4" or ".m4v". */
  function DownloadVideos(n: int, title: string, vs: seq<VideoSource>): (saves: seq<Save>)
    ensures forall i :: 0 <= i < |saves| ==>
      IsVideoUrl(saves[i].url) && Some(saves[i].fileName) == VideoFileName(n, title, saves[i].url)
  {
    Plan(SourceUrls(vs), url => VideoFileName(n, title, url))
  }

  /** The video plan requests exactly the accepted URLs of the
      "video/mp4" sources, each under its video name. */
  lemma DownloadVideosRequests(n: int, title: string, vs: seq<VideoSource>)
    ensures var saves := DownloadVideos(n, title, vs);
      && (forall s :: s in saves ==> exists i :: 0 <= i < |vs| && vs[i].mimeType == Some("video/mp4") && vs[i].src == Some(s.url))
      && (forall i :: 0 <= i < |vs| && vs[i].mimeType == Some("video/mp4") && vs[i].src.Some? && IsVideoUrl(vs[i].src.value) ==>
            Save(vs[i].src.value, VideoFileName(n, title, vs[i].src.value).value) in saves)
  {
    var urls := SourceUrls(vs);
    var name := url => VideoFileName(n, title, url);
    var saves := DownloadVideos(n, title, vs);
    forall s | s in saves
      ensures exists i :: 0 <= i < |vs| && vs[i].mimeType == Some("video/mp4") && vs[i].src == Some(s.url)
    {
      var k :| 0 <= k < |saves| && saves[k] == s;
      assert Some(s.url) in urls;
      var i :| 0 <= i < |urls| && urls[i] == Some(s.url);
      assert SourceUrl(vs[i]) == Some(s.url);
    }
    forall i | 0 <= i < |vs| && vs[i].mimeType == Some("video/mp4") && vs[i].src.Some? && IsVideoUrl(vs[i].src.value)
      ensures Save(vs[i].src.value, VideoFileName(n, title, vs[i].src.value).value) in saves
    {
      PlanComplete(urls, name, i);
    }
  }

  // ---------------------------------------------------------------------------
  // PDF downloads

  /** An `<a>` of the `#pdfs` block: its `href`, if any. */
  datatype PdfLink = PdfLink(href: Option<string>)

  /** A site-relative PDF link gets the site root in front; any other link is
      used as it is. */
  function PdfUrl(root: string, href: string): (r: string)
    ensures EndsWith(r, href)
  {
    if StartsWith(href, "/pdfs/") then
      var r := root + href;
      assert r[|r| - |href|..] == href;
      r
    else href
  }

  /** Only a link under `/pdfs/` gets the root: such a link becomes the root
      followed by the link, and any other link is the URL as it stands. */
  lemma PdfUrlCases(root: string, href: string)
    ensures StartsWith(href, "/pdfs/") ==> PdfUrl(root, href) == root + href
    ensures !StartsWith(href, "/pdfs/") ==> PdfUrl(root, href) == href
    ensures StartsWith(href, "/pdfs/") ==> StartsWith(PdfUrl(root, href), root)
  {
  }

  /** The PDF keeps the name its link ends in, whatever root is put in
      front. */
  lemma PdfNameIndependentOfRoot(root: string, href: string)
    ensures LastSegment(PdfUrl(root, href), '/') == LastSegment(href, '/')
  {
    if StartsWith(href, "/pdfs/") {
      assert href[0] == '/';
      LastSegmentOfAppend(root, href, '/');
    }
  }

  /** `download_pdfs`: one request per link, the URL made absolute and the
      file named after its last segment. A link without `href` makes
      `None.startswith` raise `AttributeError`, which ends the download. */
  function DownloadPdfs(root: string, links: seq<PdfLink>): (r: Result<seq<Save>, DownloadError>)
    ensures r.Success? <==> forall i :: 0 <= i < |links| ==> links[i].href.Some?
    ensures r.Success? ==> |r.value| == |links|
    decreases |links|
  {
    if links == [] then Success([])
    else
      match links[0].href
      case None => Failure(MissingHref)
      case Some(href) =>
        var url := PdfUrl(root, href);
        match DownloadPdfs(root, links[1..])
        case Failure(e) => Failure(e)
        case Success(rest) => Success([Save(url, LastSegment(url, '/'))] + rest)
  }

  /** Each PDF request fetches its link made absolute and names the file
      after the link's last segment. */
  lemma {:induction false} DownloadPdfsRequests(root: string, links: seq<PdfLink>)
    requires forall i :: 0 <= i < |links| ==> links[i].href.Some?
    ensures var saves := DownloadPdfs(root, links).value;
      forall i :: 0 <= i < |links| ==>
        saves[i] == Save(PdfUrl(root, links[i].href.value), LastSegment(links[i].href.value, '/'))
    decreases |links|
  {
    if links != [] {
      DownloadPdfsRequests(root, links[1..]);
      PdfNameIndependentOfRoot(root, links[0].href.value);
      var saves := DownloadPdfs(root, links).value;
      assert saves[1..] == DownloadPdfs(root, links[1..]).value;
    }
  }

  // ---------------------------------------------------------------------------
  // the login URL

  const LoginPath: string := "/member/login_new.php"

  /** `parse_url`: the site root from the scheme and network location
      `urlparse` found, and the login URL under it. */
  function ParseUrl(scheme: string, netloc: string): (r: (string, string))
    ensures StartsWith(r.1, r.0) && EndsWith(r.1, LoginPath)
    ensures |r.1| == |r.0| + |LoginPath|
  {
    var root := scheme + "://" + netloc;
    var login := root + LoginPath;
    assert login[..|root|] == root;
    assert login[|login| - |LoginPath|..] == LoginPath;
    (root, login)
  }

  /** The login URL gives back its root: cutting off the login path leaves
      the root, so different roots have different login URLs. */
  lemma LoginUrlRoundTrip(scheme: string, netloc: string, scheme': string, netloc': string)
    ensures var (root, login) := ParseUrl(scheme, netloc);
      login[..|login| - |LoginPath|] == root
    ensures ParseUrl(scheme, netloc).1 == ParseUrl(scheme', netloc').1 ==>
      ParseUrl(scheme, netloc).0 == ParseUrl(scheme', netloc').0
  {
    var (root, login) := ParseUrl(scheme, netloc);
    var (root', login') := ParseUrl(scheme', netloc');
    assert login[..|login| - |LoginPath|] == login[..|root|];
    assert login'[..|login'| - |LoginPath|] == login'[..|root'|];
  }

  /** The page the login form posts to is "login_new.php". */
  lemma LoginPageName(scheme: string, netloc: string)
    ensures LastSegment(ParseUrl(scheme, netloc).1, '/') == "login_new.php"
  {
    var login := ParseUrl(scheme, netloc).1;
    assert EndsWith(login, ['/'] + "login_new.php");
    LastSegmentOfSuffix(login, '/', "login_new.php");
  }

  // ---------------------------------------------------------------------------
  // the arguments

  /** The value of a parsed argument: text, or a flag of `type=bool`. */
  datatype ArgValue = Text(text: string) | Flag(on: bool)

  /** `check_all_arguments_empty`: walk the arguments in order and answer
      false at the first one that has a value. */
  method CheckAllArgumentsEmpty(args: seq<(string, Option<ArgValue>)>) returns (empty: bool)
    ensures empty <==> forall i :: 0 <= i < |args| ==> args[i].1.None?
  {
    var i := 0;
    while i < |args|
      invariant 0 <= i <= |args|
      invariant forall j :: 0 <= j < i ==> args[j].1.None?
    {
      if args[i].1.Some? {
        return false;
      }
      i := i + 1;
    }
    return true;
  }

  /** What `parse_args` yields for the options of `get_input_arguments`, in
      declaration order: text options are absent unless given, and the
      three flags default to true; a given flag holds `bool` of its text,
      false only for the empty string. */
  function ParsedArguments(username: Option<string>, password: Option<string>, video: Option<string>,
                           audio: Option<string>, document: Option<string>, url: Option<string>,
                           config: Option<string>): (args: seq<(string, Option<ArgValue>)>)
    ensures |args| == 7
  {
    [("username", TextArg(username)), ("password", TextArg(password)),
     ("video", FlagArg(video)), ("audio", FlagArg(audio)), ("document", FlagArg(document)),
     ("url", TextArg(url)), ("config", TextArg(config))]
  }

  function TextArg(given: Option<string>): Option<ArgValue> {
    match given
    case None => None
    case Some(s) => Some(Text(s))
  }

  function FlagArg(given: Option<string>): (v: Option<ArgValue>)
    ensures v.Some?
  {
    match given
    case None => Some(Flag(true))
    case Some(s) => Some(Flag(s != ""))
  }

  /** The flags always have a value, so arguments from the command line are
      never all empty: the default configuration file is never read. */
  lemma CommandLineNeverEmpty(username: Option<string>, password: Option<string>, video: Option<string>,
                              audio: Option<string>, document: Option<string>, url: Option<string>,
                              config: Option<string>)
    ensures var args := ParsedArguments(username, password, video, audio, document, url, config);
      exists i :: 0 <= i < |args| && args[i].1.Some?
  {
    var args := ParsedArguments(username, password, video, audio, document, url, config);
    assert args[2].1.Some?;
  }
}
