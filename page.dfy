/** Model of the stateful parts of app/page.tsx: the scroll-spy that decides
    which menu section is active, the mobile-menu open flag, and the choice
    between the image slider and a single image for each portfolio project. */
module CreativePortfolio {

  datatype Option<T> = None | Some(value: T)

  /** The ids of the menu entries, in menu order. */
  const MenuIds: seq<string> := ["inicio", "sobre-mi", "experiencia", "portafolio", "contacto"]

  /** The section that is active before any scroll event. */
  const InitialSection := "inicio"

  /** How far below the top of the viewport the scroll-spy probes. */
  const ScrollOffset := 100

  /** The image shown for a project whose first image is missing. */
  const Placeholder := "/placeholder.svg"

  /** The layout of a rendered section element, in whole pixels. */
  datatype Element = Element(offsetTop: int, offsetHeight: int)

  /** The document as the page sees it: the element registered under each id. */
  type Document = map<string, Element>

  /** The lookup by id: the registered element, or nothing when none is. */
  function GetElementById(doc: Document, id: string): (r: Option<Element>)
    ensures r.Some? <==> id in doc
    ensures r.Some? ==> r.value == doc[id]
  {
    if id in doc then Some(doc[id]) else None
  }

  /** The elements looked up for the given ids, in the same order. */
  function Sections(doc: Document, ids: seq<string>): (r: seq<Option<Element>>)
    ensures |r| == |ids|
    ensures forall k :: 0 <= k < |ids| ==> (r[k].Some? <==> ids[k] in doc)
    ensures forall k :: 0 <= k < |ids| && ids[k] in doc ==> r[k].value == doc[ids[k]]
  {
    seq(|ids|, k requires 0 <= k < |ids| => GetElementById(doc, ids[k]))
  }

  /** A section that exists and whose half-open vertical range
      [offsetTop, offsetTop + offsetHeight) holds the probe position. */
  predicate Matches(section: Option<Element>, position: int): (b: bool)
    ensures section.None? ==> !b
    ensures b <==> section.Some? && 0 <= position - section.value.offsetTop < section.value.offsetHeight
    ensures b ==> section.value.offsetHeight > 0
  {
    section.Some? &&
    position >= section.value.offsetTop &&
    position < section.value.offsetTop + section.value.offsetHeight
  }

  // ---------------------------------------------------------------------------
  // Scroll-spy specification
  // ---------------------------------------------------------------------------

  /** The index of the last matching section in menu order, if any. */
  function LastMatch(sections: seq<Option<Element>>, position: int): (r: Option<nat>)
    ensures r.Some? ==> r.value < |sections| && Matches(sections[r.value], position)
    ensures r.Some? ==> forall j :: r.value < j < |sections| ==> !Matches(sections[j], position)
    ensures r.None? ==> forall j :: 0 <= j < |sections| ==> !Matches(sections[j], position)
    decreases |sections|
  {
    if sections == [] then None
    else if Matches(sections[|sections| - 1], position) then Some(|sections| - 1)
    else LastMatch(sections[..|sections| - 1], position)
  }

  /** The ensures of LastMatch determine its result. */
  lemma LastMatchUnique(sections: seq<Option<Element>>, position: int, k: nat)
    requires k < |sections| && Matches(sections[k], position)
    requires forall j :: k < j < |sections| ==> !Matches(sections[j], position)
    ensures LastMatch(sections, position) == Some(k)
  {
  }

  /** The section the scroll handler leaves active: the id of the last
      matching section, or the current one when no section matches. */
  function ActiveAfterScroll(ids: seq<string>, sections: seq<Option<Element>>,
                             position: int, current: string): (r: string)
    requires |ids| == |sections|
    ensures r == current || r in ids
    ensures (forall j :: 0 <= j < |sections| ==> !Matches(sections[j], position)) ==> r == current
  {
    match LastMatch(sections, position)
    case None => current
    case Some(k) => ids[k]
  }

  /** Of several matching sections, the last in menu order wins. */
  lemma LastSectionWins(ids: seq<string>, sections: seq<Option<Element>>,
                        position: int, current: string, k: nat)
    requires |ids| == |sections|
    requires k < |sections| && Matches(sections[k], position)
    requires forall j :: k < j < |sections| ==> !Matches(sections[j], position)
    ensures ActiveAfterScroll(ids, sections, position, current) == ids[k]
  {
  }

  /** A section that is not in the document is skipped: dropping it from the
      menu changes nothing. */
  lemma MissingSectionIgnored(ids: seq<string>, sections: seq<Option<Element>>,
                              position: int, current: string, k: nat)
    requires |ids| == |sections| && k < |sections| && sections[k].None?
    ensures ActiveAfterScroll(ids, sections, position, current)
         == ActiveAfterScroll(ids[..k] + ids[k + 1..], sections[..k] + sections[k + 1..], position, current)
  {
    var ids', sections' := ids[..k] + ids[k + 1..], sections[..k] + sections[k + 1..];
    // entry j of the shortened menu is entry j, or j + 1 past k, of the full one
    assert forall j :: 0 <= j < |sections'| ==>
      sections'[j] == sections[if j < k then j else j + 1] && ids'[j] == ids[if j < k then j else j + 1];
    match LastMatch(sections, position)
    case None =>
      assert forall j :: 0 <= j < |sections'| ==> !Matches(sections'[j], position);
    case Some(m) =>
      assert m != k;
      var m' := if m < k then m else m - 1;
      assert sections'[m'] == sections[m];
      LastMatchUnique(sections', position, m');
  }

  /** A section that no later section outranks becomes active exactly when the
      probe position scrollY + 100 lies in its element's half-open range,
      provided its id differs from the current one and from earlier ids. */
  lemma SectionMatchesExactly(ids: seq<string>, sections: seq<Option<Element>>,
                              scrollY: int, current: string, k: nat)
    requires |ids| == |sections| && k < |sections| && sections[k].Some?
    requires forall j :: k < j < |sections| ==> !Matches(sections[j], scrollY + ScrollOffset)
    requires current != ids[k]
    requires forall j :: 0 <= j < k ==> ids[j] != ids[k]
    ensures ActiveAfterScroll(ids, sections, scrollY + ScrollOffset, current) == ids[k]
        <==> (scrollY + 100 >= sections[k].value.offsetTop &&
              scrollY + 100 < sections[k].value.offsetTop + sections[k].value.offsetHeight)
  {
  }

  // ---------------------------------------------------------------------------
  // Project media
  // ---------------------------------------------------------------------------

  /** What a project card shows: the slider over its images, or one image. */
  datatype Media = Slider(images: seq<string>, title: string) | SingleImage(src: string, alt: string)

  /** The slider is used only for more than one image; otherwise the first
      image is shown, or the placeholder when it is missing or empty. */
  function ProjectMedia(images: seq<string>, title: string): (m: Media)
    ensures m.Slider? <==> |images| > 1
    ensures m.Slider? ==> m.images == images && |m.images| >= 2 && m.title == title
    ensures m.SingleImage? ==> m.src != "" && m.alt == title
    ensures m.SingleImage? && |images| == 1 && images[0] != "" ==> m.src == images[0]
    ensures m.SingleImage? && (images == [] || images[0] == "") ==> m.src == Placeholder
  {
    if |images| > 1 then Slider(images, title)
    else SingleImage(if |images| > 0 && images[0] != "" then images[0] else Placeholder, title)
  }

  // ---------------------------------------------------------------------------
  // The page's state
  // ---------------------------------------------------------------------------

  class Page {
    var isMenuOpen: bool
    var activeSection: string

    /** The menu starts closed and the first section active. */
    constructor ()
      ensures !isMenuOpen && activeSection == InitialSection
    {
      isMenuOpen := false;
      activeSection := InitialSection;
    }

    /** The scroll listener: probe 100 pixels below the scroll offset and let
        every section that holds the probe, in menu order, overwrite the
        active section. */
    method HandleScroll(doc: Document, scrollY: int)
      modifies this
      ensures isMenuOpen == old(isMenuOpen)
      ensures activeSection == ActiveAfterScroll(MenuIds, Sections(doc, MenuIds), scrollY + ScrollOffset, old(activeSection))
      ensures activeSection == old(activeSection) || activeSection in MenuIds
    {
      var sections := Sections(doc, MenuIds);
      var scrollPosition := scrollY + ScrollOffset;
      var index := 0;
      while index < |sections|
        invariant 0 <= index <= |sections|
        invariant isMenuOpen == old(isMenuOpen)
        invariant activeSection == ActiveAfterScroll(MenuIds[..index], sections[..index], scrollPosition, old(activeSection))
      {
        assert sections[..index + 1][..index] == sections[..index];
        var section := sections[index];
        if section.Some? {
          var element := section.value;
          if scrollPosition >= element.offsetTop && scrollPosition < element.offsetTop + element.offsetHeight {
            activeSection := MenuIds[index];
          }
        }
        index := index + 1;
      }
      assert sections[..index] == sections && MenuIds[..index] == MenuIds;
    }

    /** Navigation to a section: scrolls to it when the element exists (the
        result says whether it did) and always closes the menu. */
    method ScrollToSection(doc: Document, sectionId: string) returns (scrolled: bool)
      modifies this
      ensures scrolled <==> sectionId in doc
      ensures !isMenuOpen && activeSection == old(activeSection)
    {
      var element := GetElementById(doc, sectionId);
      scrolled := element.Some?;
      isMenuOpen := false;
    }

    /** The mobile menu button. */
    method ToggleMenu()
      modifies this
      ensures isMenuOpen == !old(isMenuOpen) && activeSection == old(activeSection)
    {
      isMenuOpen := !isMenuOpen;
    }
  }

  /** Two presses of the menu button restore the menu's state. */
  method ToggleTwiceRestores(page: Page)
    modifies page
    ensures page.isMenuOpen == old(page.isMenuOpen) && page.activeSection == old(page.activeSection)
  {
    page.ToggleMenu();
    page.ToggleMenu();
  }
}
