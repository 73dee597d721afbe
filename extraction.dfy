/** Link extraction (`parseAnimes`): the anchors of a page are scanned in
    document order and the `href` of each anchor that passes a fixed chain of
    checks is kept. The DOM is abstracted to one record per anchor. */
module Extraction {

  import opened Wrappers
  import opened Strings

  /** The same-site marker every kept link must contain. */
  const SiteHost: string := "mavanimes.co"

  /** The thumbnail upload path the anchor's single image must point into. */
  const UploadsPath: string := "mavanimes.co/wp-content/uploads/"

  /** What `parseAnimes` reads of one `<a>` element: its `href` attribute
      (absent when `getAttribute` yields null), its `className`, its
      `childElementCount`, and the `src` attribute of each `<img>` descendant. */
  datatype Anchor = Anchor(
    href: Option<string>,
    className: string,
    childElementCount: nat,
    imgSrcs: seq<Option<string>>)

  /** The checks an anchor must pass for its link to be kept: a non-empty
      `href`, no class name, at least one child element, exactly one image
      whose `src` is present and points into the uploads path, and an `href`
      on the site. */
  predicate Qualifies(a: Anchor)
  {
    && a.href.Some? && a.href.value != ""
    && a.className == ""
    && a.childElementCount >= 1
    && |a.imgSrcs| == 1
    && a.imgSrcs[0].Some? && Includes(a.imgSrcs[0].value, UploadsPath)
    && Includes(a.href.value, SiteHost)
  }

  /** The links extracted from `anchors`: the hrefs of the qualifying
      anchors, in document order. */
  function Extracted(anchors: seq<Anchor>): (links: seq<string>)
    ensures |links| <= |anchors|
  {
    if anchors == [] then []
    else
      var last := anchors[|anchors| - 1];
      Extracted(anchors[..|anchors| - 1]) + (if Qualifies(last) then [last.href.value] else [])
  }

  /** The positions of the qualifying anchors, in increasing order. */
  function Positions(anchors: seq<Anchor>): (idx: seq<nat>)
    ensures forall k :: 0 <= k < |idx| ==> idx[k] < |anchors| && Qualifies(anchors[idx[k]])
    ensures forall k, l :: 0 <= k < l < |idx| ==> idx[k] < idx[l]
    ensures forall i :: 0 <= i < |anchors| && Qualifies(anchors[i]) ==> i in idx
  {
    if anchors == [] then []
    else
      var n := |anchors| - 1;
      Positions(anchors[..n]) + (if Qualifies(anchors[n]) then [n] else [])
  }

  /** `parseAnimes`: an indexed loop whose guards skip every anchor that
      fails a check and push the `href` of every other one. */
  method ParseAnimes(anchors: seq<Anchor>) returns (animeList: seq<string>)
    ensures animeList == Extracted(anchors)
  {
    animeList := [];
    for i := 0 to |anchors|
      invariant animeList == Extracted(anchors[..i])
    {
      assert anchors[..i + 1][..i] == anchors[..i];
      var anchor := anchors[i];
      var href := anchor.href;
      var classNames := anchor.className;
      if href.None? || href.value == "" || classNames != "" || anchor.childElementCount == 0 {
        continue;
      }

      var imgAnimeElement := anchor.imgSrcs;
      if |imgAnimeElement| != 1 {
        continue;
      }

      var imgAnimeSrc := imgAnimeElement[0];
      if imgAnimeSrc.None? || imgAnimeSrc.value == "" || !Includes(imgAnimeSrc.value, UploadsPath) {
        continue;
      }

      if Includes(href.value, SiteHost) {
        animeList := animeList + [href.value];
      }
    }
    assert anchors[..|anchors|] == anchors;
  }

  /** The extracted links are exactly the hrefs of the qualifying anchors,
      taken at strictly increasing positions: document order, nothing
      qualifying skipped, nothing else added. */
  lemma {:induction false} ExtractedAtPositions(anchors: seq<Anchor>)
    ensures |Extracted(anchors)| == |Positions(anchors)|
    ensures forall k :: 0 <= k < |Extracted(anchors)| ==>
              Extracted(anchors)[k] == anchors[Positions(anchors)[k]].href.value
  {
    if anchors != [] {
      var n := |anchors| - 1;
      var init := anchors[..n];
      ExtractedAtPositions(init);
      forall k | 0 <= k < |Positions(init)|
        ensures init[Positions(init)[k]] == anchors[Positions(init)[k]]
      {
      }
    }
  }

  /** Every extracted link is the `href` of some anchor that passes every
      check; in particular it is non-empty and on the site. */
  lemma ExtractedSound(anchors: seq<Anchor>, link: string)
    requires link in Extracted(anchors)
    ensures exists i :: 0 <= i < |anchors| && Qualifies(anchors[i]) && anchors[i].href == Some(link)
    ensures link != "" && Includes(link, SiteHost)
  {
    ExtractedAtPositions(anchors);
    var k :| 0 <= k < |Extracted(anchors)| && Extracted(anchors)[k] == link;
    var i := Positions(anchors)[k];
    assert Qualifies(anchors[i]) && anchors[i].href == Some(link);
  }

  /** Every qualifying anchor contributes its `href`. */
  lemma ExtractedComplete(anchors: seq<Anchor>, i: nat)
    requires i < |anchors| && Qualifies(anchors[i])
    ensures anchors[i].href.value in Extracted(anchors)
  {
    ExtractedAtPositions(anchors);
    var k :| 0 <= k < |Positions(anchors)| && Positions(anchors)[k] == i;
    assert Extracted(anchors)[k] == anchors[i].href.value;
  }

  /** A page with no qualifying anchor yields no link, and conversely. */
  lemma ExtractedEmpty(anchors: seq<Anchor>)
    ensures Extracted(anchors) == [] <==> forall i :: 0 <= i < |anchors| ==> !Qualifies(anchors[i])
  {
    ExtractedAtPositions(anchors);
    if Extracted(anchors) != [] {
      assert Qualifies(anchors[Positions(anchors)[0]]);
    }
  }

  /** Extraction works anchor by anchor: the links of a page split in two are
      the links of its first part followed by those of its second part. */
  lemma {:induction false} ExtractedAppend(front: seq<Anchor>, back: seq<Anchor>)
    ensures Extracted(front + back) == Extracted(front) + Extracted(back)
  {
    if back != [] {
      var n := |back| - 1;
      assert (front + back)[..|front + back| - 1] == front + back[..n];
      ExtractedAppend(front, back[..n]);
    } else {
      assert front + back == front;
    }
  }

  /** An anchor failing any single check contributes nothing, whatever else
      holds of it. */
  lemma ExcludedAnchor(a: Anchor)
    requires || a.href.None? || a.href == Some("")
             || a.className != ""
             || a.childElementCount == 0
             || |a.imgSrcs| != 1
             || a.imgSrcs[0].None?
             || !Includes(a.imgSrcs[0].value, UploadsPath)
             || !Includes(a.href.value, SiteHost)
    ensures Extracted([a]) == []
  {
    assert [a][..0] == [];
  }
}
