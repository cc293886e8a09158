/**
 * The walkthrough page as the script finds it when the document has loaded:
 * its content sections, the entries and buttons of the left navigation, the
 * Hidden-Manager list, the "Manage Hidden Sections" link and the highlight
 * buttons. Everything here is fixed; what the script changes lives in
 * `Controller.Walkthrough`.
 */
module Document {
  import opened Text
  import Highlight

  datatype Option<T> = None | Some(value: T)

  /** An element with class "content-section". */
  datatype Section = Section(
    id: string,               // its `id` attribute
    heading: Option<string>,  // text content of its first `h2`, if it has one
    hasHideButton: bool,      // whether it contains a ".hide-section-btn"
    hideLabel: string,        // text of that button as written in the document
    visible: bool)            // whether it carries the "visible" class in the document

  /** A ".nav-item" with a `data-section` attribute; its ".nav-link" text, if it has a link. */
  datatype NavEntry = NavEntry(linkText: Option<string>)

  /** A ".nav-link" button; `section` is its `data-section` attribute, "" when absent. */
  datatype NavButton = NavButton(section: string, active: bool)

  datatype Page = Page(
    sections: seq<Section>,            // the content sections, in document order
    navItems: map<string, NavEntry>,   // the first nav item for each `data-section` value
    navButtons: seq<NavButton>,        // the nav links, in document order
    hasHiddenList: bool,               // whether "#hiddenList" exists
    manageLink: Option<string>,        // the manage-hidden link's `data-section`, "" when absent
    hasHighlightButtons: bool,         // whether the New, Current and NTR buttons all exist
    highlights: Highlight.Flags)       // the highlight classes as written in the document
  {
    /** Element ids are non-empty and unique in the document. */
    predicate Valid() {
      && (forall i, j :: 0 <= i < j < |sections| ==> sections[i].id != sections[j].id)
      && (forall i :: 0 <= i < |sections| ==> sections[i].id != "")
    }
  }

  /** `document.getElementById(id)` restricted to the content sections: the first section with that id. */
  function FindSection(sections: seq<Section>, id: string): (r: Option<nat>)
    ensures r.Some? ==> r.value < |sections| && sections[r.value].id == id
    ensures r.Some? ==> forall j :: 0 <= j < r.value ==> sections[j].id != id
    ensures r.None? ==> forall j :: 0 <= j < |sections| ==> sections[j].id != id
  {
    if sections == [] then None
    else if sections[0].id == id then Some(0)
    else match FindSection(sections[1..], id)
      case None => None
      case Some(k) => Some(k + 1)
  }

  /** The text of the first `h2` of the section whose id is `id`, if both exist. */
  function Heading(p: Page, id: string): Option<string> {
    match FindSection(p.sections, id)
    case None => None
    case Some(k) => p.sections[k].heading
  }

  /** The text of the ".nav-link" inside the nav item for `id`, if both exist. */
  function NavLinkText(p: Page, id: string): Option<string> {
    if id in p.navItems then p.navItems[id].linkText else None
  }

  /**
   * The display title of a section: the trimmed heading, else the trimmed
   * nav-link text, else the id itself. A heading or link whose text trims to
   * "" still wins over the next fallback.
   */
  function FindSectionTitle(p: Page, id: string): (t: string)
    ensures Heading(p, id).Some? ==> t == Trim(Heading(p, id).value)
    ensures Heading(p, id).None? && NavLinkText(p, id).Some? ==> t == Trim(NavLinkText(p, id).value)
    ensures Heading(p, id).None? && NavLinkText(p, id).None? ==> t == id
    ensures t == id || IsTrimmed(t)
  {
    match Heading(p, id)
    case Some(h) => Trim(h)
    case None =>
      match NavLinkText(p, id)
      case Some(text) => Trim(text)
      case None => id
  }
}
