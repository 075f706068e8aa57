/**
 * The one-time attribute injection of setupAccessibility: aria-labels for
 * icon-only links, the "region" role for sections, and the "presentation"
 * role for the contact image. Selector matching is taken as given: the
 * anchors are the page's matches of `a:has(svg):not(:has(span))` in
 * document order, and each records whether `closest('[class*="links"]')`
 * found a container.
 */
module Accessibility {
  import opened Wrappers
  import opened Text

  /** A matched icon-only anchor: its aria-label attribute, if any, and whether it sits in a links container. */
  datatype Anchor = Anchor(ariaLabel: Option<string>, inLinksContainer: bool)

  /** An element whose `role` attribute the injection may set. */
  datatype Element = Element(role: Option<string>)

  const REGION: string := "region"
  const PRESENTATION: string := "presentation"

  /** The label given to the anchor at 0-based position `index` of the matched list. */
  function LinkLabel(index: nat): string
  {
    "Link " + Decimal(index + 1)
  }

  /** The anchor at position `index` after labelling. */
  function Labelled(a: Anchor, index: nat): Anchor
  {
    if a.ariaLabel.None? && a.inLinksContainer then a.(ariaLabel := Some(LinkLabel(index))) else a
  }

  function LabelledAll(anchors: seq<Anchor>): (r: seq<Anchor>)
    ensures |r| == |anchors|
    ensures forall k | 0 <= k < |anchors| :: r[k] == Labelled(anchors[k], k)
  {
    seq(|anchors|, k requires 0 <= k < |anchors| => Labelled(anchors[k], k))
  }

  /** A section after role injection. */
  function WithRegion(e: Element): Element
  {
    if e.role.None? then Element(Some(REGION)) else e
  }

  function WithRegionAll(sections: seq<Element>): (r: seq<Element>)
    ensures |r| == |sections|
    ensures forall k | 0 <= k < |sections| :: r[k] == WithRegion(sections[k])
  {
    seq(|sections|, k requires 0 <= k < |sections| => WithRegion(sections[k]))
  }

  /** The contact image, when there is one, after role injection. */
  function WithPresentation(img: Option<Element>): Option<Element>
  {
    match img
    case Some(e) => if e.role.None? then Some(Element(Some(PRESENTATION))) else img
    case None => None
  }

  /** The attributes the injection touches, across the whole page. */
  datatype Page = Page(anchors: seq<Anchor>, sections: seq<Element>, contactImage: Option<Element>)

  function Inject(p: Page): Page
  {
    Page(LabelledAll(p.anchors), WithRegionAll(p.sections), WithPresentation(p.contactImage))
  }

  /** The `img` inside `.contact-image`, when the page has one. */
  class Image {
    var role: Option<string>

    constructor (role: Option<string>)
      ensures this.role == role
    {
      this.role := role;
    }
  }

  /**
   * Labels icon-only anchors: the anchor at position i of the whole matched
   * list, if it has no aria-label and sits in a links container, gets
   * "Link " + (i + 1). Skipped anchors keep their position, so the numbers
   * can have gaps.
   */
  method LabelIconLinks(anchors: array<Anchor>)
    modifies anchors
    ensures forall k | 0 <= k < anchors.Length ::
      anchors[k] == if old(anchors[k]).ariaLabel.None? && old(anchors[k]).inLinksContainer
                    then old(anchors[k]).(ariaLabel := Some(LinkLabel(k)))
                    else old(anchors[k])
    ensures anchors[..] == LabelledAll(old(anchors[..]))
  {
    var index := 0;
    while index < anchors.Length
      invariant 0 <= index <= anchors.Length
      invariant forall k | 0 <= k < index :: anchors[k] == Labelled(old(anchors[k]), k)
      invariant forall k | index <= k < anchors.Length :: anchors[k] == old(anchors[k])
    {
      var button := anchors[index];
      if button.ariaLabel.None? {
        if button.inLinksContainer {
          anchors[index] := button.(ariaLabel := Some("Link " + Decimal(index + 1)));
        }
      }
      index := index + 1;
    }
  }

  /** Every section without a role gets "region"; a role already there is kept. */
  method AddRegionRoles(sections: array<Element>)
    modifies sections
    ensures forall k | 0 <= k < sections.Length ::
      sections[k].role == if old(sections[k]).role.None? then Some(REGION) else old(sections[k]).role
    ensures sections[..] == WithRegionAll(old(sections[..]))
  {
    for i := 0 to sections.Length
      invariant forall k | 0 <= k < i :: sections[k] == WithRegion(old(sections[k]))
      invariant forall k | i <= k < sections.Length :: sections[k] == old(sections[k])
    {
      if sections[i].role.None? {
        sections[i] := sections[i].(role := Some(REGION));
      }
    }
  }

  /** The contact image, if present and without a role, gets "presentation". */
  method MarkContactImage(contactImg: Image?)
    modifies contactImg
    ensures contactImg != null ==>
      contactImg.role == if old(contactImg.role).None? then Some(PRESENTATION) else old(contactImg.role)
  {
    if contactImg != null && contactImg.role.None? {
      contactImg.role := Some(PRESENTATION);
    }
  }

  /** The whole injection, as setupAccessibility runs it once at startup. */
  method InjectAttributes(anchors: array<Anchor>, sections: array<Element>, contactImg: Image?)
    modifies anchors, sections, contactImg
    ensures Page(anchors[..], sections[..], if contactImg == null then None else Some(Element(contactImg.role)))
         == Inject(Page(old(anchors[..]), old(sections[..]),
                        if contactImg == null then None else Some(Element(old(contactImg.role)))))
  {
    LabelIconLinks(anchors);
    AddRegionRoles(sections);
    MarkContactImage(contactImg);
  }

  /**
   * An anchor is labelled "Link n" exactly when it had no label, sits in a
   * links container, and is the n-th matched anchor of the page; all other
   * anchors are unchanged.
   */
  lemma LabelledExactly(anchors: seq<Anchor>, k: nat, n: nat)
    requires k < |anchors|
    ensures LabelledAll(anchors)[k].ariaLabel == Some("Link " + Decimal(n)) <==>
      (anchors[k].ariaLabel == Some("Link " + Decimal(n))) ||
      (anchors[k].ariaLabel.None? && anchors[k].inLinksContainer && n == k + 1)
    ensures LabelledAll(anchors)[k].inLinksContainer == anchors[k].inLinksContainer
    ensures anchors[k].ariaLabel.Some? || !anchors[k].inLinksContainer ==> LabelledAll(anchors)[k] == anchors[k]
  {
    var a := anchors[k];
    if a.ariaLabel.None? && a.inLinksContainer {
      assert LabelledAll(anchors)[k].ariaLabel == Some(LinkLabel(k));
      if LinkLabel(k) == "Link " + Decimal(n) {
        assert Decimal(k + 1) == (LinkLabel(k))[5..];
        assert Decimal(n) == ("Link " + Decimal(n))[5..];
        DecimalInjective(k + 1, n);
      }
    }
  }

  /** Two anchors labelled by the injection never get the same label. */
  lemma InjectedLabelsDistinct(anchors: seq<Anchor>, i: nat, j: nat)
    requires i < j < |anchors|
    requires anchors[i].ariaLabel.None? && anchors[i].inLinksContainer
    requires anchors[j].ariaLabel.None? && anchors[j].inLinksContainer
    ensures LabelledAll(anchors)[i].ariaLabel != LabelledAll(anchors)[j].ariaLabel
  {
    assert LinkLabel(i)[5..] == Decimal(i + 1);
    assert LinkLabel(j)[5..] == Decimal(j + 1);
    DecimalInjective(i + 1, j + 1);
  }

  /**
   * Numbering follows the whole matched list, not the labelled anchors: an
   * already-labelled anchor and one outside any links container use up
   * positions 1 and 3, so the two labelled anchors get "Link 2" and "Link 4".
   */
  lemma NumberingKeepsGaps(x: string)
    ensures LabelledAll([Anchor(Some(x), true), Anchor(None, true), Anchor(None, false), Anchor(None, true)])
         == [Anchor(Some(x), true), Anchor(Some("Link 2"), true), Anchor(None, false), Anchor(Some("Link 4"), true)]
  {
    var anchors := [Anchor(Some(x), true), Anchor(None, true), Anchor(None, false), Anchor(None, true)];
    assert Decimal(2) == "2" && Decimal(4) == "4";
    assert LinkLabel(1) == "Link 2" && LinkLabel(3) == "Link 4";
    assert LabelledAll(anchors)[1] == Labelled(anchors[1], 1);
    assert LabelledAll(anchors)[3] == Labelled(anchors[3], 3);
  }

  /** Running the injection a second time changes nothing. */
  lemma InjectIdempotent(p: Page)
    ensures Inject(Inject(p)) == Inject(p)
  {
    var once := Inject(p);
    assert LabelledAll(once.anchors) == once.anchors;
    assert WithRegionAll(once.sections) == once.sections;
  }

  /** Roles are only ever added: an element with a role keeps it, and afterwards every section has one. */
  lemma RolesOnlyAdded(p: Page)
    ensures forall k | 0 <= k < |p.sections| ::
      Inject(p).sections[k].role.Some? &&
      (p.sections[k].role.Some? ==> Inject(p).sections[k] == p.sections[k])
    ensures p.contactImage.Some? <==> Inject(p).contactImage.Some?
    ensures p.contactImage.Some? && p.contactImage.value.role.Some? ==> Inject(p).contactImage == p.contactImage
    ensures p.contactImage.Some? ==> Inject(p).contactImage.value.role.Some?
  {
  }
}
