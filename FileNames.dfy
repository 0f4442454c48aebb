/** Deriving download file names: `sanitizeFilename`, `getImageExtension`
    and the `{stem}.{extension}` rule shared by single and bulk downloads. */
module FileNames {
  import opened Wrappers
  import opened JsText

  /** `substring(0, 50)` in sanitizeFilename. */
  const MaxStemLength := 50

  /** The characters of the class `[<>:"/\\|?*]`. */
  predicate IsReserved(c: char) {
    c in "<>:\"/\\|?*"
  }

  /** A stem that is safe on every common file system: no reserved
      character and no whitespace. */
  predicate IsSafeStem(s: string) {
    forall i :: 0 <= i < |s| ==> !IsReserved(s[i]) && !IsWhitespace(s[i])
  }

  /** `replace(/[<>:"/\\|?*]/g, '_')`: each reserved character becomes '_'. */
  function ReplaceReserved(s: string): (r: string)
    ensures |r| == |s|
    ensures forall i :: 0 <= i < |s| ==> r[i] == if IsReserved(s[i]) then '_' else s[i]
  {
    if s == [] then [] else [if IsReserved(s[0]) then '_' else s[0]] + ReplaceReserved(s[1..])
  }

  /** `replace(/\s+/g, '_')`: each maximal run of whitespace becomes one '_'.
      The result holds no whitespace, is empty only for the empty string, and
      every character in it is a '_' or a character of s. */
  function CollapseWhitespace(s: string): (r: string)
    ensures |r| <= |s|
    ensures NoWhitespace(r)
    ensures r == [] <==> s == []
    ensures forall i :: 0 <= i < |r| ==> r[i] == '_' || r[i] in s
    decreases |s|
  {
    if s == [] then []
    else if IsWhitespace(s[0]) then
      var rest := TrimStart(s[1..]);
      TrimStartSpec(s[1..]);
      var r := "_" + CollapseWhitespace(rest);
      assert forall c :: c in rest ==> c in s;
      r
    else
      var r := [s[0]] + CollapseWhitespace(s[1..]);
      assert forall c :: c in s[1..] ==> c in s;
      r
  }

  /** The replacement changes nothing in a string without whitespace. */
  lemma {:induction false} CollapseWithoutWhitespace(s: string)
    requires NoWhitespace(s)
    ensures CollapseWhitespace(s) == s
  {
    if s != [] {
      CollapseWithoutWhitespace(s[1..]);
    }
  }

  /** `sanitizeFilename(filename)`: null for an absent or empty name;
      otherwise a non-empty safe stem of at most 50 characters. */
  function SanitizeFilename(filename: Option<string>): (r: Option<string>)
    ensures r.None? <==> filename.None? || filename.value == []
    ensures r.Some? ==> 0 < |r.value| <= MaxStemLength && IsSafeStem(r.value)
  {
    if filename.None? || filename.value == [] then None
    else
      var replaced := ReplaceReserved(filename.value);
      var collapsed := CollapseWhitespace(replaced);
      var stem := if |collapsed| <= MaxStemLength then collapsed else collapsed[..MaxStemLength];
      assert forall i :: 0 <= i < |stem| ==> stem[i] == collapsed[i];
      Some(stem)
  }

  /** A name that is already a safe stem of at most 50 characters comes back
      unchanged. */
  lemma SanitizeSafeStem(s: string)
    requires s != [] && |s| <= MaxStemLength && IsSafeStem(s)
    ensures SanitizeFilename(Some(s)) == Some(s)
  {
    var replaced := ReplaceReserved(s);
    assert replaced == s;
    CollapseWithoutWhitespace(s);
  }

  /** `substring(0, 50)` keeps the first 50 characters of the replaced and
      collapsed text, or all of it when it is shorter. */
  lemma SanitizePrefix(name: string)
    requires name != []
    ensures var collapsed := CollapseWhitespace(ReplaceReserved(name));
      && SanitizeFilename(Some(name)).Some?
      && |SanitizeFilename(Some(name)).value| == (if |collapsed| <= MaxStemLength then |collapsed| else MaxStemLength)
      && SanitizeFilename(Some(name)).value == collapsed[..|SanitizeFilename(Some(name)).value|]
  {
  }

  /** A safe stem longer than 50 characters is cut to its first 50. */
  lemma SanitizeLong(s: string)
    requires IsSafeStem(s) && |s| > MaxStemLength
    ensures SanitizeFilename(Some(s)) == Some(s[..MaxStemLength])
  {
    var replaced := ReplaceReserved(s);
    assert replaced == s;
    CollapseWithoutWhitespace(s);
  }

  /** Sanitizing twice is sanitizing once. */
  lemma SanitizeIdempotent(filename: Option<string>)
    ensures SanitizeFilename(filename).Some? ==>
              SanitizeFilename(SanitizeFilename(filename)) == SanitizeFilename(filename)
  {
    if SanitizeFilename(filename).Some? {
      SanitizeSafeStem(SanitizeFilename(filename).value);
    }
  }

  /** The list `validExtensions` of getImageExtension. */
  const ImageExtensions: seq<string> := ["jpg", "jpeg", "png", "gif", "webp", "bmp", "svg"]

  const DefaultExtension: string := "jpg"

  /** `getImageExtension(url)`, given `new URL(url).pathname` (None when
      the URL does not parse): the lowered last '.'-piece of the path when
      it is an allowed extension, "jpg" otherwise. */
  function ImageExtension(pathname: Option<string>): (r: string)
    ensures r in ImageExtensions
    ensures pathname.Some? && Lower(AfterLastDot(pathname.value)) in ImageExtensions ==>
              r == Lower(AfterLastDot(pathname.value))
    ensures pathname.None? || Lower(AfterLastDot(pathname.value)) !in ImageExtensions ==>
              r == DefaultExtension
  {
    match pathname
    case None => DefaultExtension
    case Some(path) =>
      var extension := Lower(AfterLastDot(path));
      if extension in ImageExtensions then extension else DefaultExtension
  }

  /** Every allowed extension is lower case and free of '.'. */
  lemma ImageExtensionShape(pathname: Option<string>)
    ensures '.' !in ImageExtension(pathname)
    ensures Lower(ImageExtension(pathname)) == ImageExtension(pathname)
  {
    ImageExtensionsAreLowerWords();
    LowerOfLowerWord(ImageExtension(pathname));
  }

  lemma ImageExtensionsAreLowerWords()
    ensures forall e :: e in ImageExtensions ==> IsLowerWord(e) && '.' !in e
  {
    assert IsLowerWord("jpg");
    assert IsLowerWord("jpeg");
    assert IsLowerWord("png");
    assert IsLowerWord("gif");
    assert IsLowerWord("webp");
    assert IsLowerWord("bmp");
    assert IsLowerWord("svg");
  }

  /** A path `{dir}/{name}.{ext}` whose lowered ext is allowed yields that
      ext, whatever the case it was written in and whatever dots come
      before it. */
  lemma ImageExtensionOfPath(stem: string, ext: string)
    requires '.' !in ext && Lower(ext) in ImageExtensions
    ensures ImageExtension(Some(stem + "." + ext)) == Lower(ext)
  {
    AfterLastDotOfJoin(stem, ext);
  }

  lemma LowerPng()
    ensures Lower("PNG") == "png"
  {
    assert Lower("PNG")[0] == LowerChar('P') == 'p';
    assert Lower("PNG")[1] == LowerChar('N') == 'n';
    assert Lower("PNG")[2] == LowerChar('G') == 'g';
  }

  /** `.PNG` gives `png`. */
  lemma ImageExtensionUpperCase(dir: string)
    ensures ImageExtension(Some(dir + ".PNG")) == "png"
  {
    LowerPng();
    AfterLastDotOfJoin(dir, "PNG");
    assert dir + ".PNG" == dir + "." + "PNG";
    assert Lower(AfterLastDot(dir + ".PNG")) == "png";
    assert "png" in ImageExtensions;
  }

  /** A last segment without any '.' gives `jpg` unless the whole segment
      spells an allowed extension. */
  lemma ImageExtensionNoDot(path: string)
    requires '.' !in path && |path| > 4
    ensures ImageExtension(Some(path)) == "jpg"
  {
    AfterLastDotNoDot(path);
    assert |Lower(path)| > 4;
  }

  /** An unknown extension gives `jpg`, and so does a URL that does not
      parse. */
  lemma ImageExtensionUnknown(dir: string)
    ensures ImageExtension(Some(dir + ".tiff")) == "jpg"
    ensures ImageExtension(None) == "jpg"
  {
    AfterLastDotOfJoin(dir, "tiff");
    assert dir + ".tiff" == dir + "." + "tiff";
    TiffIsNotAnImageExtension();
  }

  /** "tiff" lowers to itself and is not in the allow-list. */
  lemma TiffIsNotAnImageExtension()
    ensures Lower("tiff") == "tiff" && "tiff" !in ImageExtensions
  {
    assert IsLowerWord("tiff");
    LowerOfLowerWord("tiff");
    var t := "tiff"[0];
    assert t != "jpg"[0] && t != "jpeg"[0] && t != "png"[0] && t != "gif"[0];
    assert t != "webp"[0] && t != "bmp"[0] && t != "svg"[0];
  }

  /** The fallback stem `image_{index + 1}`. */
  function FallbackStem(index: nat): string {
    "image_" + Decimal(index + 1)
  }

  /** `this.sanitizeFilename(img.alt) || `image_${index + 1}``: the
      sanitized label, or the numbered fallback when the label is empty. */
  function ExportStem(alt: string, index: nat): (r: string)
    ensures r != []
    ensures alt != [] ==> Some(r) == SanitizeFilename(Some(alt))
    ensures alt == [] ==> r == FallbackStem(index)
  {
    SanitizeFilename(Some(alt)).GetOr(FallbackStem(index))
  }

  /** `${filename}.${extension}`: the name under which an image is saved or
      put into the archive. Its last '.'-piece is the image extension and
      what precedes the last '.' is the stem. */
  function ExportName(alt: string, index: nat, pathname: Option<string>): (r: string)
    ensures AfterLastDot(r) == ImageExtension(pathname)
    ensures r == ExportStem(alt, index) + "." + ImageExtension(pathname)
  {
    ImageExtensionShape(pathname);
    AfterLastDotOfJoin(ExportStem(alt, index), ImageExtension(pathname));
    ExportStem(alt, index) + "." + ImageExtension(pathname)
  }

  /** Skipping whitespace stops at the first other character. */
  lemma {:induction false} TrimStartSkipsRun(ws: string, rest: string)
    requires AllWhitespace(ws)
    requires rest == [] || !IsWhitespace(rest[0])
    ensures TrimStart(ws + rest) == rest
  {
    if ws != [] {
      assert (ws + rest)[1..] == ws[1..] + rest;
      TrimStartSkipsRun(ws[1..], rest);
    }
  }

  /** A maximal run of whitespace, however long, becomes a single '_'. */
  lemma CollapseRun(ws: string, rest: string)
    requires ws != [] && AllWhitespace(ws)
    requires rest == [] || !IsWhitespace(rest[0])
    ensures CollapseWhitespace(ws + rest) == "_" + CollapseWhitespace(rest)
  {
    assert (ws + rest)[1..] == ws[1..] + rest;
    TrimStartSkipsRun(ws[1..], rest);
  }

  /** Characters other than whitespace are kept as they are. */
  lemma {:induction false} CollapseWord(w: string, rest: string)
    requires NoWhitespace(w)
    ensures CollapseWhitespace(w + rest) == w + CollapseWhitespace(rest)
  {
    if w != [] {
      var s := w + rest;
      assert s[0] == w[0] && !IsWhitespace(s[0]);
      assert s[1..] == w[1..] + rest;
      assert CollapseWhitespace(s) == [s[0]] + CollapseWhitespace(s[1..]);
      CollapseWord(w[1..], rest);
      var c := CollapseWhitespace(rest);
      assert [w[0]] + (w[1..] + c) == ([w[0]] + w[1..]) + c;
      assert w == [w[0]] + w[1..];
    } else {
      assert w + rest == rest;
    }
  }

  /** No reserved character counts as whitespace. */
  lemma ReservedIsNotWhitespace(c: char)
    requires IsReserved(c)
    ensures !IsWhitespace(c)
  {
  }

  /** The reserved-character replacement changes nothing in a string
      without reserved characters. */
  lemma ReplaceReservedIdentity(s: string)
    requires forall i :: 0 <= i < |s| ==> !IsReserved(s[i])
    ensures ReplaceReserved(s) == s
  {
  }

  /** What sanitizing does to a non-empty name without reserved
      characters whose collapsed form fits in 50 characters. */
  lemma SanitizeUnreserved(s: string, t: string)
    requires s != [] && forall i :: 0 <= i < |s| ==> !IsReserved(s[i])
    requires CollapseWhitespace(s) == t && |t| <= MaxStemLength
    ensures SanitizeFilename(Some(s)) == Some(t)
  {
    ReplaceReservedIdentity(s);
  }

  /** Two safe words around a run of whitespace sanitize to the words joined
      by one '_', when they fit in 50 characters. */
  lemma SanitizeTwoWords(w1: string, ws: string, w2: string)
    requires IsSafeStem(w1) && IsSafeStem(w2)
    requires ws != [] && AllWhitespace(ws)
    requires |w1| + 1 + |w2| <= MaxStemLength
    ensures SanitizeFilename(Some(w1 + ws + w2)) == Some(w1 + "_" + w2)
  {
    var s := w1 + (ws + w2);
    assert forall i :: 0 <= i < |s| ==> !IsReserved(s[i]) by {
      forall i | 0 <= i < |s| ensures !IsReserved(s[i]) {
        if i < |w1| {
          assert s[i] == w1[i];
        } else if i < |w1| + |ws| {
          assert s[i] == ws[i - |w1|];
          if IsReserved(s[i]) { ReservedIsNotWhitespace(s[i]); }
        } else {
          assert s[i] == w2[i - |w1| - |ws|];
        }
      }
    }
    assert CollapseWhitespace(s) == w1 + "_" + w2 by {
      CollapseWord(w1, ws + w2);
      CollapseRun(ws, w2);
      CollapseWithoutWhitespace(w2);
      assert w1 + ("_" + w2) == w1 + "_" + w2;
    }
    SanitizeUnreserved(s, w1 + "_" + w2);
    assert w1 + ws + w2 == s;
  }

  /** A reserved character becomes '_' under sanitizing. */
  lemma SanitizeReserved(w1: string, c: char, w2: string)
    requires IsSafeStem(w1) && IsSafeStem(w2) && IsReserved(c)
    requires |w1| + 1 + |w2| <= MaxStemLength
    ensures SanitizeFilename(Some(w1 + [c] + w2)) == Some(w1 + "_" + w2)
  {
    var s := w1 + [c] + w2;
    var t := w1 + "_" + w2;
    assert ReplaceReserved(s) == t by {
      forall i | 0 <= i < |s| ensures ReplaceReserved(s)[i] == t[i] {
        if i < |w1| { assert s[i] == w1[i] == t[i]; }
        else if i == |w1| { }
        else { assert s[i] == w2[i - |w1| - 1] == t[i]; }
      }
    }
    assert NoWhitespace(t) by {
      forall i | 0 <= i < |t| ensures !IsWhitespace(t[i]) {
        if i < |w1| { assert t[i] == w1[i]; }
        else if i > |w1| { assert t[i] == w2[i - |w1| - 1]; }
      }
    }
    CollapseWithoutWhitespace(t);
  }

  /** Different labels can share a download name: "a b" at position 0 and
      "a_b" at position 1 are both saved as `a_b.{extension}`. */
  lemma DifferentLabelsCollide(pathname: Option<string>)
    ensures ExportName("a b", 0, pathname) == ExportName("a_b", 1, pathname)
  {
    assert IsSafeStem("a") && AllWhitespace(" ");
    SanitizeTwoWords("a", " ", "b");
    assert "a" + " " + "b" == "a b" && "a" + "_" + "b" == "a_b";
    SanitizeSafeStem("a_b");
  }
}
