/**
 * The script of the walkthrough page, run once the document has loaded. It
 * keeps the set of sections the reader hid (persisted in local storage under
 * "hiddenSections"), mirrors it in the navigation, the Hidden-Manager list
 * and each section's Hide/Unhide button, shows one section at a time, and
 * drives the highlight toggles.
 */
module Controller {
  import opened OrderedSet
  import opened Document
  import opened HiddenManager
  import Highlight

  /** The stored list read at load time; an absent entry reads as the empty list. */
  function StoredList(store: Option<seq<string>>): seq<string> {
    match store
    case None => []
    case Some(list) => list
  }

  class Walkthrough {
    const page: Page
    var hidden: seq<string>          // hiddenSet, in insertion order
    var stored: Option<seq<string>>  // the "hiddenSections" entry of local storage
    var navHidden: set<string>       // ids of nav items whose display is "none"
    var rows: seq<Row>               // the rows of the Hidden-Manager list
    var hideLabels: seq<string>      // text of each section's hide button, by section index
    var visible: seq<bool>           // "visible" class of each section
    var active: seq<bool>            // "active" class of each nav button
    var newActive: bool
    var pulse: bool
    var currentActive: bool
    var ntrActive: bool
    var tagActive: seq<bool>

    /**
     * The hidden set has no repetitions; the nav items it names are exactly
     * the ones not displayed; the Hidden-Manager list holds one row per
     * hidden id, in the same order; and every hide button reads "Unhide"
     * exactly when its section is hidden.
     */
    ghost predicate Valid()
      reads this
    {
      && page.Valid()
      && |visible| == |page.sections|
      && |active| == |page.navButtons|
      && |tagActive| == |page.highlights.tags|
      && Distinct(hidden)
      && navHidden == HiddenNavItems(page, hidden)
      && RowsMirror(page, hidden, rows)
      && LabelsFollow(page, hidden, hideLabels)
    }

    /** The highlight classes as one value. */
    function Flags(): Highlight.Flags
      reads this`newActive, this`pulse, this`currentActive, this`ntrActive, this`tagActive
    {
      Highlight.Flags(newActive, pulse, currentActive, ntrActive, tagActive)
    }

    /** Load: read the stored list into the hidden set and replay it onto the page. */
    constructor (p: Page, store: Option<seq<string>>)
      requires p.Valid()
      ensures Valid()
      ensures page == p && stored == store
      ensures hidden == Dedup(StoredList(store))
      ensures forall k :: 0 <= k < |p.sections| ==> visible[k] == p.sections[k].visible
      ensures forall k :: 0 <= k < |p.navButtons| ==> active[k] == p.navButtons[k].active
      ensures Flags() == p.highlights
    {
      page := p;
      hidden := Dedup(StoredList(store));
      stored := store;
      navHidden := {};
      rows := [];
      hideLabels := seq(|p.sections|, k requires 0 <= k < |p.sections| => p.sections[k].hideLabel);
      var shown := seq(|p.sections|, k requires 0 <= k < |p.sections| => p.sections[k].visible);
      var selected := seq(|p.navButtons|, k requires 0 <= k < |p.navButtons| => p.navButtons[k].active);
      visible := shown;
      active := selected;
      newActive := p.highlights.newOn;
      pulse := p.highlights.pulse;
      currentActive := p.highlights.current;
      ntrActive := p.highlights.ntr;
      tagActive := p.highlights.tags;
      new;
      assert Flags() == p.highlights;
      LoadHidden();
      assert visible == shown && active == selected;
    }

    /** The load-time work on the page: replay the stored ids, then label every hide button. */
    method LoadHidden()
      requires page.Valid() && |visible| == |page.sections| && |active| == |page.navButtons|
      requires |tagActive| == |page.highlights.tags| && |hideLabels| == |page.sections|
      requires Distinct(hidden) && navHidden == {} && rows == []
      modifies this`navHidden, this`rows, this`hideLabels
      ensures Valid()
    {
      ReplayHidden();
      InitHideButtonLabels();
    }

    /**
     * Load-time replay of the stored ids: hide each one's nav item, give it a
     * Hidden-Manager row and set its hide button to "Unhide".
     */
    method ReplayHidden()
      requires page.Valid() && |hideLabels| == |page.sections| && Distinct(hidden)
      requires navHidden == {} && rows == []
      modifies this`navHidden, this`rows, this`hideLabels
      ensures navHidden == HiddenNavItems(page, hidden)
      ensures RowsMirror(page, hidden, rows)
      ensures |hideLabels| == |page.sections|
      ensures forall k :: 0 <= k < |page.sections| ==>
        hideLabels[k] == if page.sections[k].id in hidden && page.sections[k].hasHideButton
                         then "Unhide" else old(hideLabels[k])
    {
      var i := 0;
      while i < |hidden|
        invariant 0 <= i <= |hidden|
        invariant navHidden == HiddenNavItems(page, hidden[..i])
        invariant RowsMirror(page, hidden[..i], rows)
        invariant |hideLabels| == |page.sections|
        invariant forall k :: 0 <= k < |page.sections| ==>
          hideLabels[k] == if page.sections[k].id in hidden[..i] && page.sections[k].hasHideButton
                           then "Unhide" else old(hideLabels[k])
      {
        assert hidden[..i + 1] == hidden[..i] + [hidden[i]];
        ReplayOne(hidden[i], hidden[..i]);
        i := i + 1;
      }
      assert hidden[..i] == hidden;
    }

    /** The replay of one stored id `id`, after the ids `done` were replayed. */
    method ReplayOne(id: string, ghost done: seq<string>)
      requires page.Valid() && |hideLabels| == |page.sections|
      requires id in hidden && Distinct(done + [id])
      requires navHidden == HiddenNavItems(page, done) && RowsMirror(page, done, rows)
      modifies this`navHidden, this`rows, this`hideLabels
      ensures navHidden == HiddenNavItems(page, done + [id])
      ensures RowsMirror(page, done + [id], rows)
      ensures hideLabels == Relabel(page, old(hideLabels), id, true)
    {
      if id in page.navItems {
        navHidden := navHidden + {id};
      }
      forall j | 0 <= j < |done| ensures done[j] != id {
        assert (done + [id])[j] == done[j] && (done + [id])[|done|] == id;
      }
      assert Add(done, id) == done + [id];
      HideKeepsRows(page, done, rows, id);
      AddHiddenRow(id);
      UpdateHideButtonLabel(id);
    }

    /** Set the label of every section's hide button from the hidden set. */
    method InitHideButtonLabels()
      requires page.Valid() && |hideLabels| == |page.sections|
      modifies this`hideLabels
      ensures LabelsFollow(page, hidden, hideLabels)
    {
      var k := 0;
      while k < |page.sections|
        invariant 0 <= k <= |page.sections|
        invariant |hideLabels| == |page.sections|
        invariant forall j :: 0 <= j < k && page.sections[j].hasHideButton ==>
          hideLabels[j] == HideLabel(page.sections[j].id in hidden)
      {
        if page.sections[k].hasHideButton {
          UpdateHideButtonLabel(page.sections[k].id);
        }
        k := k + 1;
      }
    }

    /** Write the hidden set to storage, in insertion order. */
    method SaveHidden()
      modifies this`stored
      ensures stored == Some(hidden)
    {
      stored := Some(hidden);
    }

    /** Set the hide button of the section `id`, if there is one, from membership in the hidden set. */
    method UpdateHideButtonLabel(id: string)
      requires page.Valid() && |hideLabels| == |page.sections|
      modifies this`hideLabels
      ensures hideLabels == Relabel(page, old(hideLabels), id, id in hidden)
    {
      match FindSection(page.sections, id)
      case None =>
      case Some(k) =>
        if page.sections[k].hasHideButton {
          hideLabels := hideLabels[k := HideLabel(id in hidden)];
        }
    }

    /** Append a row for `id` to the Hidden-Manager list unless the list is missing or already has one. */
    method AddHiddenRow(id: string)
      modifies this`rows
      ensures rows == WithRow(page, old(rows), id)
    {
      if !page.hasHiddenList {
        return;
      }
      if FindRow(rows, id).Some? {
        return;
      }
      rows := rows + [Row(id, FindSectionTitle(page, id))];
    }

    /** Remove the Hidden-Manager row for `id`, if the list exists and has one. */
    method RemoveHiddenRow(id: string)
      requires !page.hasHiddenList ==> rows == []
      modifies this`rows
      ensures rows == WithoutRow(old(rows), id)
    {
      if page.hasHiddenList {
        match FindRow(rows, id)
        case None =>
        case Some(k) =>
          rows := rows[..k] + rows[k + 1..];
      }
    }

    /** Hide `id`: hide its nav item, add it to the hidden set, save, list it and relabel its button. */
    method HideSection(id: string)
      requires Valid()
      modifies this`navHidden, this`hidden, this`stored, this`rows, this`hideLabels
      ensures Valid()
      ensures hidden == Add(old(hidden), id)
      ensures stored == Some(hidden)
      ensures navHidden == old(navHidden) + (if id in page.navItems then {id} else {})
      ensures rows == WithRow(page, old(rows), id)
      ensures hideLabels == Relabel(page, old(hideLabels), id, true)
    {
      if id in page.navItems {
        navHidden := navHidden + {id};
      }
      HideKeepsRows(page, hidden, rows, id);
      RelabelKeepsLabels(page, hidden, Add(hidden, id), hideLabels, id);
      hidden := Add(hidden, id);
      SaveHidden();
      AddHiddenRow(id);
      UpdateHideButtonLabel(id);
    }

    /** Unhide `id`: show its nav item, drop it from the hidden set, save, remove its row and relabel its button. */
    method UnhideSection(id: string)
      requires Valid()
      modifies this`navHidden, this`hidden, this`stored, this`rows, this`hideLabels
      ensures Valid()
      ensures hidden == Remove(old(hidden), id)
      ensures stored == Some(hidden)
      ensures navHidden == old(navHidden) - {id}
      ensures rows == WithoutRow(old(rows), id)
      ensures hideLabels == Relabel(page, old(hideLabels), id, false)
    {
      if id in page.navItems {
        navHidden := navHidden - {id};
      }
      UnhideKeepsRows(page, hidden, rows, id);
      RelabelKeepsLabels(page, hidden, Remove(hidden, id), hideLabels, id);
      hidden := Remove(hidden, id);
      SaveHidden();
      RemoveHiddenRow(id);
      UpdateHideButtonLabel(id);
    }

    /** The Hide/Unhide button of section `k`: unhide the section if it is hidden, hide it otherwise. */
    method ClickHideToggle(k: nat)
      requires Valid()
      requires k < |page.sections| && page.sections[k].hasHideButton
      modifies this`navHidden, this`hidden, this`stored, this`rows, this`hideLabels
      ensures Valid()
      ensures hidden == Toggle(old(hidden), page.sections[k].id)
      ensures stored == Some(hidden)
      ensures page.sections[k].id in hidden <==> page.sections[k].id !in old(hidden)
      ensures hideLabels == Relabel(page, old(hideLabels), page.sections[k].id, page.sections[k].id in hidden)
    {
      var id := page.sections[k].id;
      if id in hidden {
        UnhideSection(id);
      } else {
        HideSection(id);
      }
    }

    /** The Unhide button of row `k` of the Hidden-Manager list. */
    method ClickRowUnhide(k: nat)
      requires Valid() && k < |rows|
      modifies this`navHidden, this`hidden, this`stored, this`rows, this`hideLabels
      ensures Valid()
      ensures hidden == old(hidden[..k] + hidden[k + 1..])
      ensures rows == old(rows[..k] + rows[k + 1..])
      ensures stored == Some(hidden)
    {
      assert page.hasHiddenList;
      UnhideRowAt(hidden, rows, k);
      UnhideSection(rows[k].sectionId);
    }

    /** Mark as visible exactly the sections whose id is `id`. */
    method ShowSection(id: string)
      requires |visible| == |page.sections|
      modifies this`visible
      ensures |visible| == |page.sections|
      ensures forall k :: 0 <= k < |page.sections| ==> visible[k] == (page.sections[k].id == id)
    {
      var i := 0;
      while i < |page.sections|
        modifies this`visible
        invariant 0 <= i <= |page.sections| && |visible| == |page.sections|
        invariant forall k :: 0 <= k < i ==> visible[k] == (page.sections[k].id == id)
      {
        visible := visible[i := page.sections[i].id == id];
        i := i + 1;
      }
    }

    /** Nav button `b`: show its section and make it the only active button, unless it names no section. */
    method ClickNav(b: nat)
      requires Valid() && b < |page.navButtons|
      modifies this`visible, this`active
      ensures Valid()
      ensures page.navButtons[b].section == "" ==> visible == old(visible) && active == old(active)
      ensures page.navButtons[b].section != "" ==>
        && (forall k :: 0 <= k < |page.sections| ==>
              visible[k] == (page.sections[k].id == page.navButtons[b].section))
        && (forall j :: 0 <= j < |page.navButtons| ==> active[j] == (j == b))
    {
      var id := page.navButtons[b].section;
      if id == "" {
        return;
      }
      ShowSection(id);
      var j := 0;
      while j < |active|
        modifies this`active
        invariant 0 <= j <= |active| && |active| == |page.navButtons|
        invariant forall i :: 0 <= i < j ==> active[i] == (i == b)
      {
        active := active[j := j == b];
        j := j + 1;
      }
    }

    /** The "Manage Hidden Sections" link: show its section and clear every active nav button. */
    method ClickManageHidden()
      requires Valid()
      modifies this`visible, this`active
      ensures Valid()
      ensures page.manageLink.None? || page.manageLink.value == "" ==>
        visible == old(visible) && active == old(active)
      ensures page.manageLink.Some? && page.manageLink.value != "" ==>
        && (forall k :: 0 <= k < |page.sections| ==>
              visible[k] == (page.sections[k].id == page.manageLink.value))
        && (forall j :: 0 <= j < |page.navButtons| ==> !active[j])
    {
      if page.manageLink.None? || page.manageLink.value == "" {
        return;
      }
      ShowSection(page.manageLink.value);
      var j := 0;
      while j < |active|
        modifies this`active
        invariant 0 <= j <= |active| && |active| == |page.navButtons|
        invariant forall i :: 0 <= i < j ==> !active[i]
      {
        active := active[j := false];
        j := j + 1;
      }
    }

    /** The New button (its handler exists only when New, Current and NTR all do). */
    method ClickNew()
      requires Valid()
      modifies this`newActive, this`pulse, this`ntrActive
      ensures Flags() == if page.hasHighlightButtons then Highlight.ClickNew(old(Flags())) else old(Flags())
      ensures Valid()
    {
      if !page.hasHighlightButtons {
        return;
      }
      if newActive {
        newActive := false;
        pulse := false;
      } else {
        newActive := true;
        pulse := true;
        ntrActive := false;
      }
    }

    /** The Current button. */
    method ClickCurrent()
      requires Valid()
      modifies this`currentActive
      ensures Flags() == if page.hasHighlightButtons then Highlight.ClickCurrent(old(Flags())) else old(Flags())
      ensures Valid()
    {
      if !page.hasHighlightButtons {
        return;
      }
      if currentActive {
        currentActive := false;
      } else {
        currentActive := true;
      }
    }

    /** The NTR button. */
    method ClickNtr()
      requires Valid()
      modifies this`ntrActive, this`newActive, this`pulse
      ensures Flags() == if page.hasHighlightButtons then Highlight.ClickNtr(old(Flags())) else old(Flags())
      ensures Valid()
    {
      if !page.hasHighlightButtons {
        return;
      }
      if ntrActive {
        ntrActive := false;
      } else {
        ntrActive := true;
        newActive := false;
        pulse := false;
      }
    }

    /** Section tag button `k`. */
    method ClickTag(k: nat)
      requires Valid() && k < |tagActive|
      modifies this`tagActive, this`newActive, this`pulse
      ensures Valid()
      ensures Flags() == if page.hasHighlightButtons then Highlight.ClickTag(old(Flags()), k) else old(Flags())
    {
      if !page.hasHighlightButtons {
        return;
      }
      if tagActive[k] {
        tagActive := tagActive[k := false];
      } else {
        tagActive := tagActive[k := true];
      }
      newActive := false;
      pulse := false;
    }
  }
}
