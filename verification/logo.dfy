/**
  Logo detection: `get_logo` of the scraper. Images are searched in
  document order, first by their `src` attribute, then by their `class`
  values; the first hit wins.
 */
module Logo {
  import opened Base

  /** An `<img>` element: its `src` attribute, when present, and the
      values of its `class` attribute. */
  datatype Image = Image(src: Option<string>, classes: seq<string>)

  /** `image['src']` on an image that has no `src` attribute raises. */
  datatype LookupError = MissingSrc

  /** ASCII case folding. Python's case-insensitive matching of the
      letters `l`, `o`, `g` accepts exactly their ASCII upper and lower
      forms. */
  function Lower(c: char): char {
    if 'A' <= c <= 'Z' then (c as int + 32) as char else c
  }

  /** "logo", in any letter case, starts at index `i` of `s`. */
  predicate LogoAt(s: string, i: int) {
    && 0 <= i && i + 4 <= |s|
    && Lower(s[i]) == 'l' && Lower(s[i + 1]) == 'o'
    && Lower(s[i + 2]) == 'g' && Lower(s[i + 3]) == 'o'
  }

  /** `re.match('.*logo.*', s, re.IGNORECASE)` succeeds: the match is
      anchored at the start and `.` does not cross a newline. */
  function MatchesLogoPattern(s: string): (r: bool) {
    if |s| < 4 then false
    else if LogoAt(s, 0) then true
    else if s[0] == '\n' then false
    else MatchesLogoPattern(s[1..])
  }

  /** Reference reading of the same test: "logo" occurs before the first
      newline. */
  predicate LogoBeforeNewline(s: string) {
    exists i | 0 <= i <= |s| - 4 :: LogoAt(s, i) && '\n' !in s[..i]
  }

  lemma {:induction false} MatchesLogoPatternSpec(s: string)
    ensures MatchesLogoPattern(s) <==> LogoBeforeNewline(s)
  {
    if |s| < 4 {
    } else if LogoAt(s, 0) {
      assert s[..0] == [];
    } else if s[0] == '\n' {
      forall i | 0 <= i <= |s| - 4 && LogoAt(s, i)
        ensures '\n' in s[..i]
      {
        assert i > 0;
        assert s[..i][0] == '\n';
      }
    } else {
      MatchesLogoPatternSpec(s[1..]);
      LogoBeforeNewlineShift(s);
    }
  }

  /** Past a first character that is neither a newline nor the start of
      "logo", the search continues on the rest. */
  lemma LogoBeforeNewlineShift(s: string)
    requires |s| > 0 && !LogoAt(s, 0) && s[0] != '\n'
    ensures LogoBeforeNewline(s) <==> LogoBeforeNewline(s[1..])
  {
    if LogoBeforeNewline(s[1..]) {
      LogoBeforeNewlineFromRest(s);
    }
    if LogoBeforeNewline(s) {
      LogoBeforeNewlineToRest(s);
    }
  }

  lemma LogoBeforeNewlineFromRest(s: string)
    requires |s| > 0 && s[0] != '\n'
    requires LogoBeforeNewline(s[1..])
    ensures LogoBeforeNewline(s)
  {
    var t := s[1..];
    var i :| 0 <= i <= |t| - 4 && LogoAt(t, i) && '\n' !in t[..i];
    assert s[..i + 1] == [s[0]] + t[..i];
    assert LogoAt(s, i + 1);
  }

  lemma LogoBeforeNewlineToRest(s: string)
    requires |s| > 0 && !LogoAt(s, 0)
    requires LogoBeforeNewline(s)
    ensures LogoBeforeNewline(s[1..])
  {
    var t := s[1..];
    var i :| 0 <= i <= |s| - 4 && LogoAt(s, i) && '\n' !in s[..i];
    assert i > 0;
    assert s[..i] == [s[0]] + t[..i - 1];
    assert LogoAt(t, i - 1);
  }

  /** The class test of `soup.find`: the regex is searched, not matched,
      so "logo" may occur anywhere in a class value. */
  predicate ContainsLogo(c: string) {
    exists i | 0 <= i <= |c| - 4 :: LogoAt(c, i)
  }

  predicate HasLogoClass(img: Image) {
    exists k | 0 <= k < |img.classes| :: ContainsLogo(img.classes[k])
  }

  /** The image's `src` is present and matches the logo pattern. */
  predicate SrcHit(img: Image) {
    img.src.Some? && MatchesLogoPattern(img.src.value)
  }

  /** The `src` loop reads the first `n` images without stopping: each has
      a `src` and none matches. */
  predicate PassesSrcScan(images: seq<Image>, n: int) {
    forall j | 0 <= j < n && j < |images| :: SrcPresentNoHit(images[j])
  }

  predicate SrcPresentNoHit(img: Image) {
    img.src.Some? && !MatchesLogoPattern(img.src.value)
  }

  predicate NoLogoClassBefore(images: seq<Image>, n: int) {
    NoneBefore(HasLogoClass, images, n)
  }

  /** Lines 35-38: the first image whose `src` matches. */
  function SearchBySrc(images: seq<Image>): (r: Result<Option<string>, LookupError>) {
    if |images| == 0 then Ok(None)
    else match images[0].src
      case None => Err(MissingSrc)
      case Some(src) => if MatchesLogoPattern(src) then Ok(Some(src)) else SearchBySrc(images[1..])
  }

  /** Line 40: the first image with a logo class. */
  function FindByClass(images: seq<Image>): (r: Option<Image>)
    ensures r.Some? ==> r.value in images && HasLogoClass(r.value)
  {
    FindFirst(HasLogoClass, images)
  }

  /** Lines 32-43. */
  function GetLogo(images: seq<Image>): (r: Result<Option<string>, LookupError>) {
    match SearchBySrc(images)
    case Err(e) => Err(e)
    case Ok(Some(src)) => Ok(Some(src))
    case Ok(None) =>
      match FindByClass(images)
      case None => Ok(None)
      case Some(img) => if img.src.Some? then Ok(img.src) else Err(MissingSrc)
  }

  lemma PassesSrcScanShift(images: seq<Image>, n: int)
    requires |images| > 0 && n >= 0
    ensures PassesSrcScan(images, n + 1) <==>
      SrcPresentNoHit(images[0]) && PassesSrcScan(images[1..], n)
  {
    if SrcPresentNoHit(images[0]) && PassesSrcScan(images[1..], n) {
      forall j | 0 <= j < n + 1 && j < |images|
        ensures SrcPresentNoHit(images[j])
      {
        if j > 0 {
          assert images[j] == images[1..][j - 1];
        }
      }
    }
    if PassesSrcScan(images, n + 1) {
      forall j | 0 <= j < n && j < |images| - 1
        ensures SrcPresentNoHit(images[1..][j])
      {
        assert images[1..][j] == images[j + 1];
      }
    }
  }

  lemma {:induction false} SearchBySrcSpec(images: seq<Image>)
    ensures SearchBySrc(images).Err? <==>
      exists i | 0 <= i < |images| :: images[i].src.None? && PassesSrcScan(images, i)
    ensures forall i | 0 <= i < |images| :: SrcHit(images[i]) && PassesSrcScan(images, i) ==>
      SearchBySrc(images) == Ok(images[i].src)
    ensures SearchBySrc(images) == Ok(None) <==> PassesSrcScan(images, |images|)
  {
    if |images| > 0 {
      var t := images[1..];
      var img := images[0];
      if img.src.None? {
        assert PassesSrcScan(images, 0);
        assert !PassesSrcScan(images, |images|);
      } else if MatchesLogoPattern(img.src.value) {
        assert forall i | 0 < i <= |images| :: !PassesSrcScan(images, i);
      } else {
        SearchBySrcSpec(t);
        forall i | 0 <= i < |t|
          ensures PassesSrcScan(images, i + 1) <==> PassesSrcScan(t, i)
          ensures images[i + 1] == t[i]
        {
          PassesSrcScanShift(images, i);
        }
        PassesSrcScanShift(images, |t|);
        if SearchBySrc(images).Err? {
          var i :| 0 <= i < |t| && t[i].src.None? && PassesSrcScan(t, i);
          assert images[i + 1].src.None? && PassesSrcScan(images, i + 1);
        }
        if exists i | 0 <= i < |images| :: images[i].src.None? && PassesSrcScan(images, i) {
          var i :| 0 <= i < |images| && images[i].src.None? && PassesSrcScan(images, i);
          assert i > 0;
          assert t[i - 1].src.None? && PassesSrcScan(t, i - 1);
        }
        forall i | 0 <= i < |images| && SrcHit(images[i]) && PassesSrcScan(images, i)
          ensures SearchBySrc(images) == Ok(images[i].src)
        {
          assert i > 0;
          assert SrcHit(t[i - 1]) && PassesSrcScan(t, i - 1);
        }
      }
    }
  }

  lemma FindByClassSpec(images: seq<Image>)
    ensures FindByClass(images) == None <==> NoLogoClassBefore(images, |images|)
    ensures forall i | 0 <= i < |images| :: HasLogoClass(images[i]) && NoLogoClassBefore(images, i) ==>
      FindByClass(images) == Some(images[i])
  {
    FindFirstSpec(HasLogoClass, images);
  }

  /** `get_logo` returns the `src` of the first image, in document order,
      whose `src` has "logo" before any newline; failing that, the `src` of
      the first image with a class value containing "logo"; failing that,
      nothing. It raises exactly when an image without `src` is reached
      before any `src` matches. */
  lemma GetLogoSpec(images: seq<Image>)
    ensures GetLogo(images).Err? <==>
      exists i | 0 <= i < |images| :: images[i].src.None? && PassesSrcScan(images, i)
    ensures forall i | 0 <= i < |images| :: SrcHit(images[i]) && PassesSrcScan(images, i) ==>
      GetLogo(images) == Ok(images[i].src)
    ensures PassesSrcScan(images, |images|) ==>
      forall i | 0 <= i < |images| :: HasLogoClass(images[i]) && NoLogoClassBefore(images, i) ==>
        GetLogo(images) == Ok(images[i].src)
    ensures GetLogo(images) == Ok(None) <==>
      PassesSrcScan(images, |images|) && NoLogoClassBefore(images, |images|)
  {
    SearchBySrcSpec(images);
    FindByClassSpec(images);
    if PassesSrcScan(images, |images|) {
      assert forall i | 0 <= i < |images| :: images[i].src.Some?;
    }
  }

  /** Two images, `a/logo.png` then `b/banner.png`: the first is the logo. */
  lemma FirstSrcMatchWins()
    ensures GetLogo([Image(Some("a/logo.png"), []), Image(Some("b/banner.png"), [])])
      == Ok(Some("a/logo.png"))
  {
    var s := "a/logo.png";
    assert LogoAt(s, 2);
    assert s[..2] == "a/";
    MatchesLogoPatternSpec(s);
    GetLogoSpec([Image(Some(s), []), Image(Some("b/banner.png"), [])]);
  }
}
