/**
 * The page elements that mirror the hidden set: the Hidden-Manager list, with
 * one row per hidden section, the hidden nav items, and the text of each
 * section's Hide/Unhide button. The functions here say what one update does
 * to each of them; the predicates say how each must agree with the hidden
 * set, and the lemmas show that hiding and unhiding keep that agreement.
 */
module HiddenManager {
  import opened OrderedSet
  import opened Document

  /** The text of a section's hide button for a given membership in the hidden set. */
  function HideLabel(isHidden: bool): (text: string)
    ensures text == "Unhide" <==> isHidden
    ensures text == "Hide" <==> !isHidden
  {
    if isHidden then "Unhide" else "Hide"
  }

  /** An `li` of the Hidden-Manager list: its `data-section-id` and the title in its label. */
  datatype Row = Row(sectionId: string, title: string)

  function RowIds(rows: seq<Row>): (ids: seq<string>)
    ensures |ids| == |rows|
    ensures forall i :: 0 <= i < |rows| ==> ids[i] == rows[i].sectionId
  {
    seq(|rows|, i requires 0 <= i < |rows| => rows[i].sectionId)
  }

  lemma RowIdsAppend(rows: seq<Row>, row: Row)
    ensures RowIds(rows + [row]) == RowIds(rows) + [row.sectionId]
  {
  }

  /** `hiddenList.querySelector('li[data-section-id="id"]')`: the first row for `id`. */
  function FindRow(rows: seq<Row>, id: string): (r: Option<nat>)
    ensures r.Some? ==> r.value < |rows| && rows[r.value].sectionId == id
    ensures r.Some? ==> forall j :: 0 <= j < r.value ==> rows[j].sectionId != id
    ensures r.None? ==> forall j :: 0 <= j < |rows| ==> rows[j].sectionId != id
  {
    if rows == [] then None
    else if rows[0].sectionId == id then Some(0)
    else match FindRow(rows[1..], id)
      case None => None
      case Some(k) => Some(k + 1)
  }

  /**
   * The row list after `addHiddenRow(id)`: a row titled by `FindSectionTitle`
   * is appended unless the list is missing or already has a row for `id`.
   */
  function WithRow(p: Page, rows: seq<Row>, id: string): (r: seq<Row>)
    ensures !p.hasHiddenList || id in RowIds(rows) ==> r == rows
    ensures p.hasHiddenList && id !in RowIds(rows) ==>
      RowIds(r) == RowIds(rows) + [id] && r[..|rows|] == rows
    ensures Distinct(RowIds(rows)) ==> Distinct(RowIds(r))
    ensures forall i :: |rows| <= i < |r| ==> r[i] == Row(id, FindSectionTitle(p, id))
  {
    if !p.hasHiddenList || FindRow(rows, id).Some? then rows
    else
      RowIdsAppend(rows, Row(id, FindSectionTitle(p, id)));
      rows + [Row(id, FindSectionTitle(p, id))]
  }

  /** The row list after removing the first row for `id`, if there is one. */
  function WithoutRow(rows: seq<Row>, id: string): (r: seq<Row>)
    ensures Distinct(RowIds(rows)) ==> RowIds(r) == Remove(RowIds(rows), id)
    ensures forall i :: 0 <= i < |r| ==> r[i] in rows
  {
    match FindRow(rows, id)
    case None => rows
    case Some(k) =>
      var r := rows[..k] + rows[k + 1..];
      assert RowIds(r) == RowIds(rows)[..k] + RowIds(rows)[k + 1..];
      assert forall i :: 0 <= i < |r| ==> r[i] == rows[if i < k then i else i + 1];
      if Distinct(RowIds(rows)) then
        RemoveAt(RowIds(rows), k);
        r
      else r
  }

  /**
   * The hide-button texts after `updateHideButtonLabel(id)`: the button of
   * section `id`, if that section has one, reads according to `isHidden`.
   */
  function Relabel(p: Page, labels: seq<string>, id: string, isHidden: bool): (r: seq<string>)
    requires p.Valid() && |labels| == |p.sections|
    ensures |r| == |labels|
    ensures forall k :: 0 <= k < |labels| ==>
      r[k] == if p.sections[k].id == id && p.sections[k].hasHideButton then HideLabel(isHidden) else labels[k]
  {
    match FindSection(p.sections, id)
    case None => labels
    case Some(k) => if p.sections[k].hasHideButton then labels[k := HideLabel(isHidden)] else labels
  }

  /** The nav items the hidden set hides: those of hidden ids that have a nav item. */
  function HiddenNavItems(p: Page, hidden: seq<string>): (items: set<string>)
    ensures forall id :: id in items <==> id in hidden && id in p.navItems
  {
    set id | id in hidden && id in p.navItems
  }

  /** The rows list exactly the hidden ids, in order, each titled by `FindSectionTitle`. */
  ghost predicate RowsMirror(p: Page, hidden: seq<string>, rows: seq<Row>) {
    && (if p.hasHiddenList then RowIds(rows) == hidden else rows == [])
    && forall i :: 0 <= i < |rows| ==> rows[i].title == FindSectionTitle(p, rows[i].sectionId)
  }

  /** Every hide button reads "Unhide" exactly when its section is hidden. */
  ghost predicate LabelsFollow(p: Page, hidden: seq<string>, labels: seq<string>) {
    && |labels| == |p.sections|
    && forall k :: 0 <= k < |p.sections| && p.sections[k].hasHideButton ==>
         labels[k] == HideLabel(p.sections[k].id in hidden)
  }

  /** Adding `id` to the set and a row for it keeps the rows a mirror of the set, without duplicates. */
  lemma HideKeepsRows(p: Page, hidden: seq<string>, rows: seq<Row>, id: string)
    requires RowsMirror(p, hidden, rows)
    ensures RowsMirror(p, Add(hidden, id), WithRow(p, rows, id))
  {
    var r := WithRow(p, rows, id);
    forall i | 0 <= i < |r| ensures r[i].title == FindSectionTitle(p, r[i].sectionId) {
      if i < |rows| {
        assert r[i] == rows[i];
      }
    }
  }

  /** Deleting `id` from the set and its row keeps the rows a mirror of the set. */
  lemma UnhideKeepsRows(p: Page, hidden: seq<string>, rows: seq<Row>, id: string)
    requires Distinct(hidden) && RowsMirror(p, hidden, rows)
    ensures RowsMirror(p, Remove(hidden, id), WithoutRow(rows, id))
  {
    var r := WithoutRow(rows, id);
    forall i | 0 <= i < |r| ensures r[i].title == FindSectionTitle(p, r[i].sectionId) {
      var j :| 0 <= j < |rows| && rows[j] == r[i];
    }
  }

  /**
   * The Unhide button of row `k` names the id at position `k` of the set, so
   * unhiding it drops exactly position `k` from both the set and the rows.
   */
  lemma UnhideRowAt(hidden: seq<string>, rows: seq<Row>, k: nat)
    requires Distinct(hidden) && RowIds(rows) == hidden && k < |rows|
    ensures hidden[k] == rows[k].sectionId
    ensures Remove(hidden, rows[k].sectionId) == hidden[..k] + hidden[k + 1..]
    ensures WithoutRow(rows, rows[k].sectionId) == rows[..k] + rows[k + 1..]
  {
    var id := rows[k].sectionId;
    RemoveAt(hidden, k);
    forall j | 0 <= j < |rows| && j != k ensures rows[j].sectionId != id {
      assert hidden[j] == rows[j].sectionId;
    }
    assert FindRow(rows, id) == Some(k);
  }

  /**
   * Relabelling the button of `id` after a change of the set that touches no
   * other id keeps every button in agreement with the set.
   */
  lemma RelabelKeepsLabels(p: Page, hidden: seq<string>, hidden': seq<string>, labels: seq<string>, id: string)
    requires p.Valid() && LabelsFollow(p, hidden, labels)
    requires forall y :: y != id ==> (y in hidden' <==> y in hidden)
    ensures LabelsFollow(p, hidden', Relabel(p, labels, id, id in hidden'))
  {
  }
}
