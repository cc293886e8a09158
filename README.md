# HBS Walkthrough page script — a Dafny model

This project models `docs/script.js`, the script of the HBS walkthrough page.
The page has three parts: a left-hand navigation, a content pane that shows
one section at a time, and a "Manage Hidden Sections" list. The script keeps
a set of sections the reader hid and persists it in local storage under the
key `hiddenSections`. It mirrors that set in the page:

- the hidden sections' nav items are not displayed;
- the Hidden-Manager list has one row per hidden section, and each row has an
  Unhide button;
- each section's Hide/Unhide button reads "Unhide" exactly when the section
  is hidden.

The script also shows the section a nav button or the manage-hidden link
points to. It drives the highlight toggles: New (with a pulse class on the
page body), Current, NTR and the section tag buttons.

The page is abstracted to values. `Document.Page` holds:

- the content sections, in document order;
- the nav items, keyed by their `data-section`;
- the nav buttons;
- whether `#hiddenList` exists;
- the manage-hidden link's target;
- the highlight classes as the document has them.

Everything the script changes lives in one object, `Controller.Walkthrough`,
whose fields are:

- `hidden`, the hidden set in insertion order;
- `stored`, the local-storage entry;
- `navHidden`, the ids of nav items with `display: none`;
- `rows`, the Hidden-Manager rows;
- `hideLabels`, the hide-button texts;
- the `visible` and `active` flags;
- the highlight flags.

A JavaScript `Set` keeps insertion order, and `[...set]` lists the values in
that order. So the hidden set is a sequence without repetitions (module
`OrderedSet`). `add` appends, `delete` closes the gap, and `new Set(list)`
drops repeated values.

The object's invariant, `Controller.Walkthrough.Valid`, says four things:

- the hidden set has no repetitions;
- the non-displayed nav items are exactly the hidden ids that have a nav item;
- the Hidden-Manager rows list exactly the hidden ids, in the same order, so
  no row is ever duplicated;
- every hide button reads "Unhide" exactly when its section is hidden.

The load step establishes the invariant, and every handler keeps it.

Behaviour of the code worth noting:

- `showSection` with an id that matches no section clears `visible` on every
  section. It does not leave the previous section visible.
- A malformed stored value makes `JSON.parse` throw at
  `docs/script.js:17-19`. There is no fallback to an empty set.
- New and NTR exclude each other. The Current Storylines
  filter derivation is commented out (`docs/script.js:239`, `242`), so
  Current only flips its own flag.

## Model

| member | source | states |
|---|---|---|
| OrderedSet.Add | docs/script.js:83 | `hiddenSet.add(id)`: afterwards `id` is a member, the members are the old ones plus `id`, a present `id` leaves the listing unchanged, the old listing is a prefix, no repetition is introduced |
| OrderedSet.Remove | docs/script.js:97 | `hiddenSet.delete(id)`: afterwards `id` is not a member, every other member stays, an absent `id` changes nothing, no repetition is introduced |
| OrderedSet.Dedup | docs/script.js:17-20 | `new Set(list)`: no repetitions, the same members as the stored list, listed in the order of their first occurrence in it, and a list without repetitions is kept exactly |
| OrderedSet.FirstIndex | docs/script.js:20 | the position where a value first occurs in the stored list, the order `new Set(list)` keeps |
| OrderedSet.FirstIndexAppend | docs/script.js:20 | appending a value to the list moves no earlier first occurrence, and a new value's first occurrence is the appended position |
| OrderedSet.AddKeepsFirstOrder | docs/script.js:20 | adding the last value of a list to a first-occurrence listing of the rest gives a first-occurrence listing of the whole list, the step by which `new Set(list)` keeps that order |
| OrderedSet.Toggle | docs/script.js:164-173 | the hide toggle on the set: membership of `id` flips, every other value's membership is unchanged, no repetition is introduced |
| OrderedSet.ToggleTwice | docs/script.js:164-173 | two toggle clicks restore every membership; for a section that was not hidden they restore the stored listing exactly, for a hidden one it reappears at the end |
| OrderedSet.RemoveAfterAdd | docs/script.js:83-97 | hiding a not-hidden id and then unhiding it restores the set's listing exactly |
| OrderedSet.RemoveAt | docs/script.js:97-103 | deleting the value at position k of a listing without repetitions removes exactly position k, which is how the row removal matches the set deletion |
| Text.Trim | docs/script.js:30-37 | `trim()`: the result starts and ends with no ECMAScript white space and is no longer than the input |
| Text.TrimPadded | docs/script.js:30-37 | trimming white space around an already trimmed string gives exactly that string back, so only padding is removed |
| Text.TrimIdempotent | docs/script.js:30-37 | trimming a trimmed title changes nothing |
| Document.FindSection | docs/script.js:27-28 | `getElementById` over the sections: the index found holds the id and no earlier section does, or no section holds it |
| Document.FindSectionTitle | docs/script.js:26-41 | the fallback chain: the trimmed heading when the section has an `h2`, else the trimmed nav-link text when there is one, else the id; the title is either trimmed or the id itself |
| HiddenManager.HideLabel | docs/script.js:49 | the button reads "Unhide" exactly when the section is hidden and "Hide" exactly when it is not |
| HiddenManager.FindRow | docs/script.js:56 | the duplicate check: a row index found holds the id and no earlier row does, and nothing is found exactly when no row has the id |
| HiddenManager.WithoutRow | docs/script.js:100-105 | removing the row of `id` turns the row ids into the set deletion of `id`, and adds no row |
| HiddenManager.WithRow | docs/script.js:52-73 | the rows after `addHiddenRow`: unchanged when the list is missing or already has a row for `id`; otherwise the old rows followed by one row for `id`, titled by `FindSectionTitle`; row ids stay free of repetitions |
| HiddenManager.Relabel | docs/script.js:43-50 | the button texts after `updateHideButtonLabel`: only the button of the section with id `id`, if it has one, changes, and it reads according to membership |
| HiddenManager.HiddenNavItems | docs/script.js:76-81 | the nav items the set hides are exactly the hidden ids that have a nav item |
| HiddenManager.HideKeepsRows | docs/script.js:83-85 | adding `id` to the set and `addHiddenRow(id)` keep the rows an ordered mirror of the set, each titled by `FindSectionTitle` |
| HiddenManager.UnhideKeepsRows | docs/script.js:97-105 | deleting `id` from the set and removing its row keep the rows an ordered mirror of the set |
| HiddenManager.UnhideRowAt | docs/script.js:67-69 | the Unhide button of row k names the id at position k of the set, and unhiding it removes exactly position k from the set and from the rows |
| HiddenManager.RelabelKeepsLabels | docs/script.js:43-50 | after a change of the set that touches only `id`, relabelling `id`'s button leaves every button reading "Unhide" exactly when its section is hidden |
| Controller.Walkthrough.constructor | docs/script.js:3-20 | after load the invariant holds; the hidden set is the stored list without repetitions (an absent entry reads as the empty list); storage is not written; visible, active and highlight flags are as in the document |
| Controller.Walkthrough.ReplayHidden | docs/script.js:110-120 | every stored id's nav item is hidden; the rows list exactly the stored ids, one row each, titled by `FindSectionTitle`; each hidden section's button reads "Unhide" and no other button changes |
| Controller.Walkthrough.ReplayOne | docs/script.js:111-120 | replaying one stored id hides its nav item, extends the rows mirror by that id, and sets its button to "Unhide" |
| Controller.Walkthrough.LoadHidden | docs/script.js:110-162 | the replay followed by the labelling of every hide button establishes the invariant |
| Controller.Walkthrough.InitHideButtonLabels | docs/script.js:156-162 | every section's hide button reads "Unhide" exactly when the section is hidden |
| Controller.Walkthrough.SaveHidden | docs/script.js:22-24 | the stored list becomes the hidden set's listing |
| Controller.Walkthrough.UpdateHideButtonLabel | docs/script.js:43-50 | only the button of section `id`, if it has one, changes; it follows membership of `id` |
| Controller.Walkthrough.AddHiddenRow | docs/script.js:52-73 | the rows become `WithRow` of the old rows: a row titled by `FindSectionTitle` is appended only when the list exists and has no row for `id` |
| Controller.Walkthrough.RemoveHiddenRow | docs/script.js:100-105 | the rows become `WithoutRow` of the old rows: the row of `id`, if any, is removed |
| Controller.Walkthrough.HideSection | docs/script.js:75-87 | `id` joins the hidden set; storage mirrors the set; `id`'s nav item (if any) is hidden and no other; a row is appended only when `id` was not hidden, so hiding twice adds nothing; only `id`'s button changes, to "Unhide"; the invariant is kept |
| Controller.Walkthrough.UnhideSection | docs/script.js:89-108 | `id` leaves the hidden set and every other id stays; storage mirrors the set; only `id`'s nav item is shown again; only `id`'s row is removed; only `id`'s button changes, to "Hide"; the invariant is kept |
| Controller.Walkthrough.ClickHideToggle | docs/script.js:164-173 | the section's membership flips (unhide when hidden, hide otherwise), the set changes by `Toggle`, storage mirrors it, and the button reads according to the new membership |
| Controller.Walkthrough.ClickRowUnhide | docs/script.js:67-69 | the Unhide button of row k removes exactly position k from both the hidden set and the rows, and storage mirrors the set |
| Controller.Walkthrough.ShowSection | docs/script.js:123-127 | a section is visible exactly when its id equals the argument, so no section is visible when none matches |
| Controller.Walkthrough.ClickNav | docs/script.js:129-140 | a button without a section changes nothing; otherwise its section is the only visible one and the clicked button is the only active one |
| Controller.Walkthrough.ClickManageHidden | docs/script.js:143-153 | without a link target nothing changes; otherwise its section is the only visible one and no nav button is active |
| Controller.Walkthrough.ClickNew | docs/script.js:214-231 | the New handler applies `Highlight.ClickNew` when the three highlight buttons exist and changes nothing otherwise; the invariant is kept |
| Controller.Walkthrough.ClickCurrent | docs/script.js:234-244 | the Current handler applies `Highlight.ClickCurrent` when the three highlight buttons exist and changes nothing otherwise; the invariant is kept |
| Controller.Walkthrough.ClickNtr | docs/script.js:247-259 | the NTR handler applies `Highlight.ClickNtr` when the three highlight buttons exist and changes nothing otherwise; the invariant is kept |
| Controller.Walkthrough.ClickTag | docs/script.js:262-277 | a tag handler applies `Highlight.ClickTag` when the three highlight buttons exist and changes nothing otherwise; the invariant is kept |
| Highlight.ClickNew | docs/script.js:216-231 | New flips and the pulse follows it; turning New on forces NTR off, turning it off leaves NTR; Current and tags unchanged |
| Highlight.ClickCurrent | docs/script.js:234-244 | Current flips and nothing else changes |
| Highlight.ClickNtr | docs/script.js:247-259 | NTR flips; turning it on forces New and the pulse off, turning it off leaves them; Current and tags unchanged |
| Highlight.ClickTag | docs/script.js:262-277 | the clicked tag flips, every other tag is unchanged, New and the pulse end off, Current and NTR unchanged |
| Highlight.StepKeepsNotBoth | docs/script.js:216-277 | no handler turns New and NTR both on when they were not both on |
| Highlight.StepKeepsPulse | docs/script.js:216-277 | every handler keeps the pulse class equal to New when it was |
| Highlight.RunKeepsNotBoth | docs/script.js:216-277 | from any state where New and NTR are not both on, whatever the pulse, no sequence of clicks makes both on |
| Highlight.RunKeepsPulse | docs/script.js:216-277 | from any state where the pulse matches New, no sequence of clicks separates them |
| Highlight.ClickEstablishesExclusion | docs/script.js:216-277 | from any state, one click on New, NTR or a tag leaves New and NTR not both on; it also makes the pulse match New, except that turning NTR off leaves that as it was |
| Highlight.DoubleClick | docs/script.js:216-277 | from a state whose pulse matches New: two clicks on Current restore the flags; two on a tag restore the tags; two on New (NTR off) or two on NTR (New off) restore the flags |

## Left out

- Local-storage I/O and JSON are left out. The stored entry is a value `Option<seq<string>>`, where `None` means the key is absent. `JSON.parse` throws on malformed text at `docs/script.js:17-19`; the model does not represent that failure. A stored array with non-string elements is not represented either.
- DOM querying and element creation are abstracted to maps and sequences: `querySelector`, `createElement`, `appendChild`, `removeChild` and `classList`. The selectors are built by string interpolation. An id containing `"` would make `querySelector` throw; that failure is not modelled.
- `getElementById` is modelled over the content sections only. Another element carrying a section's id is not represented.
- `Document.Page.Valid` requires every content section to have a non-empty id and no two to share one. Pages with a section without an id, or with a repeated id, are not modelled. For an id-less section the code toggles `""` in the set while `updateHideButtonLabel("")` finds no section, so its button never reads "Unhide".
- `Document.Page.navItems` keeps one nav item per `data-section` value. The code's title lookup at `docs/script.js:34-36` takes the first `.nav-link` under any nav item with that value. A page where the first such item has no link and a later one has is not modelled: the code then returns the later link's text, the model the id.
- At load, the Hidden-Manager list is taken as empty and every nav item as displayed. Inline `display` styles written in the document are not represented.
- A missing `#navList` is represented as a page with no nav items and no nav buttons, which is what the code then does.
- The Back button and its smooth scroll (`docs/script.js:175-199`) are left out. The Back button also carries the class `hide-section-btn` (`docs/script.js:178`), which `updateHideButtonLabel` queries (`docs/script.js:46`). When a `.section-header-buttons` wrapper precedes the Hide button, later relabelling would write onto the Back button. The model assumes the Hide/Unhide button stays the first match.
- `console.warn` (`docs/script.js:12-14`) and `evt.preventDefault()` are left out: they have no effect on the modelled state.
- Event registration is not modelled. Each handler is a method, and a click on an element without a handler is a call that changes nothing.
- `docs/script.js` does not contain a Current Storylines filter derivation or its overrides, a Pregnancy toggle, color priority, per-version New filters, a Paths regrouping or a back-navigation history, so none of these is modelled.
