/** The image catalogue `extractImages` builds from the rendered output, and
    the archive entries `downloadImages` collects from it. */
module Catalogue {
  import opened Wrappers
  import opened JsText
  import opened FileNames

  /** An `img` element as the DOM reports it: the resolved `src`, and the
      `alt` and `title` attributes ("" when absent). */
  datatype ImgElement = ImgElement(src: string, alt: string, title: string)

  /** An entry of `this.images` (the `element` back-reference is not kept). */
  datatype ImageInfo = ImageInfo(src: string, alt: string, title: string)

  /** The bytes a successful fetch returns. */
  type Blob = seq<bv8>

  /** `图片{index + 1}`, the label of an image without alt text. */
  function FallbackAlt(index: nat): string {
    "\U{56FE}\U{7247}" + Decimal(index + 1)
  }

  /** Different positions get different fallback labels. */
  lemma FallbackAltInjective(i: nat, j: nat)
    requires i != j
    ensures FallbackAlt(i) != FallbackAlt(j)
  {
    if FallbackAlt(i) == FallbackAlt(j) {
      assert FallbackAlt(i)[2..] == Decimal(i + 1);
      assert FallbackAlt(j)[2..] == Decimal(j + 1);
      DecimalInjective(i + 1, j + 1);
    }
  }

  /** The record extractImages pushes for the element at position index:
      the same src, the alt text or the numbered fallback, the title. */
  function Record(e: ImgElement, index: nat): (r: ImageInfo)
    ensures r.src == e.src && r.title == e.title
    ensures e.alt != [] ==> r.alt == e.alt
    ensures e.alt == [] ==> r.alt == FallbackAlt(index)
    ensures r.alt != []
  {
    ImageInfo(e.src, if e.alt != [] then e.alt else FallbackAlt(index), e.title)
  }

  /** The catalogue of a list of elements, one record per element,
      built front to back as the forEach in extractImages does. */
  function BuildCatalogue(elems: seq<ImgElement>): (images: seq<ImageInfo>)
    ensures |images| == |elems|
  {
    if elems == [] then []
    else
      var n := |elems| - 1;
      BuildCatalogue(elems[..n]) + [Record(elems[n], n)]
  }

  /** Entry k of the catalogue is the record of element k, in document order. */
  lemma {:induction false} CatalogueAt(elems: seq<ImgElement>, k: nat)
    requires k < |elems|
    ensures BuildCatalogue(elems)[k] == Record(elems[k], k)
  {
    var n := |elems| - 1;
    if k < n {
      CatalogueAt(elems[..n], k);
    }
  }

  /** Every label in the catalogue is non-empty. */
  predicate AllLabelled(images: seq<ImageInfo>) {
    forall k :: 0 <= k < |images| ==> images[k].alt != []
  }

  lemma CatalogueLabelled(elems: seq<ImgElement>)
    ensures AllLabelled(BuildCatalogue(elems))
  {
    forall k | 0 <= k < |elems| ensures BuildCatalogue(elems)[k].alt != [] {
      CatalogueAt(elems, k);
    }
  }

  /** Since every label is non-empty, the catalogue's images are always
      saved under their sanitized label: the `image_{i+1}` fallback of the
      download code never applies to them. */
  lemma CatalogueNeverFallsBack(images: seq<ImageInfo>, k: nat)
    requires AllLabelled(images) && k < |images|
    ensures Some(ExportStem(images[k].alt, k)) == SanitizeFilename(Some(images[k].alt))
  {
  }

  /** The URLs of the catalogue's images, in order: what downloadImages
      hands to fetchImageAsBlob. */
  function Sources(images: seq<ImageInfo>): (urls: seq<string>)
    ensures |urls| == |images|
    ensures forall i :: 0 <= i < |images| ==> urls[i] == images[i].src
  {
    seq(|images|, i requires 0 <= i < |images| => images[i].src)
  }

  /** The archive name of the image at position index. */
  function EntryName(img: ImageInfo, index: nat, pathnameOf: string -> Option<string>): string {
    ExportName(img.alt, index, pathnameOf(img.src))
  }

  /** The archive names of all the catalogue's images, in order. */
  function EntryNames(images: seq<ImageInfo>, pathnameOf: string -> Option<string>): (names: seq<string>)
    ensures |names| == |images|
    ensures forall i :: 0 <= i < |images| ==> names[i] == EntryName(images[i], i, pathnameOf)
  {
    seq(|images|, i requires 0 <= i < |images| => EntryName(images[i], i, pathnameOf))
  }

  /** The archive after adding, in order, one entry per fetch that produced
      a blob, under the name at the same position; a later entry of the same
      name overwrites an earlier one. */
  function Collect(names: seq<string>, fetched: seq<Option<Blob>>): map<string, Blob>
    requires |fetched| == |names|
  {
    if names == [] then map[]
    else
      var n := |names| - 1;
      var zip := Collect(names[..n], fetched[..n]);
      match fetched[n]
      case None => zip
      case Some(blob) => zip[names[n] := blob]
  }

  /** Adding one more position to the fold. */
  lemma CollectStep(names: seq<string>, fetched: seq<Option<Blob>>, i: nat)
    requires |fetched| == |names| && i < |names|
    ensures Collect(names[..i + 1], fetched[..i + 1]) ==
              match fetched[i]
              case None => Collect(names[..i], fetched[..i])
              case Some(blob) => Collect(names[..i], fetched[..i])[names[i] := blob]
  {
    assert names[..i + 1][..i] == names[..i];
    assert fetched[..i + 1][..i] == fetched[..i];
  }

  /** The archive downloadImages builds from the catalogue and the fetch
      results, one per image. */
  function ZipEntries(images: seq<ImageInfo>, fetched: seq<Option<Blob>>,
                      pathnameOf: string -> Option<string>): map<string, Blob>
    requires |fetched| == |images|
  {
    Collect(EntryNames(images, pathnameOf), fetched)
  }

  /** A name is in the archive exactly when some fetch at a position with
      that name succeeded. */
  lemma {:induction false} CollectKeys(names: seq<string>, fetched: seq<Option<Blob>>, name: string)
    requires |fetched| == |names|
    ensures name in Collect(names, fetched) <==>
              exists i :: 0 <= i < |names| && fetched[i].Some? && names[i] == name
  {
    if names != [] {
      var n := |names| - 1;
      CollectKeys(names[..n], fetched[..n], name);
      if exists i :: 0 <= i < |names| && fetched[i].Some? && names[i] == name {
        var i :| 0 <= i < |names| && fetched[i].Some? && names[i] == name;
        if i < n {
          assert names[..n][i] == names[i] && fetched[..n][i] == fetched[i];
        }
      }
      if exists i :: 0 <= i < n && fetched[..n][i].Some? && names[..n][i] == name {
        var i :| 0 <= i < n && fetched[..n][i].Some? && names[..n][i] == name;
        assert names[..n][i] == names[i] && fetched[..n][i] == fetched[i];
      }
    }
  }

  /** The blob stored under a name is that of the last successful fetch at a
      position with that name. */
  lemma {:induction false} CollectLastWins(names: seq<string>, fetched: seq<Option<Blob>>, i: nat)
    requires |fetched| == |names| && i < |names| && fetched[i].Some?
    requires forall j :: i < j < |names| && fetched[j].Some? ==> names[j] != names[i]
    ensures names[i] in Collect(names, fetched)
    ensures Collect(names, fetched)[names[i]] == fetched[i].value
  {
    var n := |names| - 1;
    if i < n {
      forall j | i < j < n && fetched[..n][j].Some?
        ensures names[..n][j] != names[..n][i]
      {
        assert names[..n][j] == names[j] && fetched[..n][j] == fetched[j];
      }
      CollectLastWins(names[..n], fetched[..n], i);
    }
  }

  /** The number of fetches that produced a blob. */
  function Successes(fetched: seq<Option<Blob>>): (c: nat)
    ensures c <= |fetched|
  {
    if fetched == [] then 0
    else Successes(fetched[..|fetched| - 1]) + (if fetched[|fetched| - 1].Some? then 1 else 0)
  }

  predicate Distinct(names: seq<string>) {
    forall i, j :: 0 <= i < j < |names| ==> names[i] != names[j]
  }

  /** With pairwise different names, the archive holds exactly one entry per
      successful fetch. */
  lemma {:induction false} CollectCount(names: seq<string>, fetched: seq<Option<Blob>>)
    requires |fetched| == |names| && Distinct(names)
    ensures |Collect(names, fetched)| == Successes(fetched)
  {
    if names != [] {
      var n := |names| - 1;
      assert Distinct(names[..n]) by {
        forall i, j | 0 <= i < j < n ensures names[..n][i] != names[..n][j] {
          assert names[..n][i] == names[i] && names[..n][j] == names[j];
        }
      }
      CollectCount(names[..n], fetched[..n]);
      CollectKeys(names[..n], fetched[..n], names[n]);
    }
  }

  /** The same facts for the archive of a catalogue: its names are exactly
      those of the images whose fetch succeeded, and when the images are all
      named differently there is one entry per successful fetch. */
  lemma ZipEntriesSpec(images: seq<ImageInfo>, fetched: seq<Option<Blob>>,
                       pathnameOf: string -> Option<string>, name: string)
    requires |fetched| == |images|
    ensures name in ZipEntries(images, fetched, pathnameOf) <==>
              exists i :: 0 <= i < |images| && fetched[i].Some? && EntryName(images[i], i, pathnameOf) == name
    ensures Distinct(EntryNames(images, pathnameOf)) ==>
              |ZipEntries(images, fetched, pathnameOf)| == Successes(fetched)
  {
    var names := EntryNames(images, pathnameOf);
    CollectKeys(names, fetched, name);
    if Distinct(names) {
      CollectCount(names, fetched);
    }
  }

  /** Failed fetches are skipped without affecting the others: with three
      differently named positions of which the second fails, the archive
      holds exactly the first and the third. */
  lemma OneOfThreeFails(names: seq<string>, b0: Blob, b2: Blob)
    requires |names| == 3 && Distinct(names)
    ensures Collect(names, [Some(b0), None, Some(b2)]) == map[names[0] := b0, names[2] := b2]
  {
    var fetched := [Some(b0), None, Some(b2)];
    assert names[..1][..0] == [] && fetched[..1][..0] == [];
    assert Collect(names[..1], fetched[..1]) == map[names[0] := b0];
    assert names[..2][..1] == names[..1] && fetched[..2][..1] == fetched[..1];
    assert Collect(names[..2], fetched[..2]) == map[names[0] := b0];
    assert names[..3] == names && fetched[..3] == fetched;
  }
}
