/**
 * The highlight toggles of the walkthrough page: the New, Current and NTR
 * buttons, the section tag buttons, and the pulse class on the page body
 * that accompanies New. Each click handler is a transition on these flags.
 */
module Highlight {

  datatype Flags = Flags(
    newOn: bool,       // "active" class of the New button
    pulse: bool,       // "v0610-new-active" class of the body
    current: bool,     // "active" class of the Current button
    ntr: bool,         // "active" class of the NTR button
    tags: seq<bool>)   // "active" class of each section tag button, in document order

  /** New and NTR are not on together. */
  predicate NotBoth(f: Flags) {
    !(f.newOn && f.ntr)
  }

  /** The pulse class is on exactly when New is. */
  predicate PulseFollows(f: Flags) {
    f.pulse == f.newOn
  }

  /** A click on New: off with the pulse, or on with the pulse and NTR forced off. */
  function ClickNew(f: Flags): (r: Flags)
    ensures r.newOn == !f.newOn && r.pulse == r.newOn
    ensures r.ntr == (f.ntr && !r.newOn)
    ensures r.current == f.current && r.tags == f.tags
  {
    if f.newOn then f.(newOn := false, pulse := false)
    else f.(newOn := true, pulse := true, ntr := false)
  }

  /** A click on Current flips Current and nothing else. */
  function ClickCurrent(f: Flags): (r: Flags)
    ensures r.current == !f.current
    ensures r == f.(current := r.current)
  {
    f.(current := !f.current)
  }

  /** A click on NTR: off, or on with New and the pulse forced off. */
  function ClickNtr(f: Flags): (r: Flags)
    ensures r.ntr == !f.ntr
    ensures r.ntr ==> !r.newOn && !r.pulse
    ensures !r.ntr ==> r.newOn == f.newOn && r.pulse == f.pulse
    ensures r.current == f.current && r.tags == f.tags
  {
    if f.ntr then f.(ntr := false)
    else f.(ntr := true, newOn := false, pulse := false)
  }

  /** A click on tag button `k` flips that tag and turns New and the pulse off. */
  function ClickTag(f: Flags, k: nat): (r: Flags)
    requires k < |f.tags|
    ensures |r.tags| == |f.tags| && r.tags[k] == !f.tags[k]
    ensures forall j :: 0 <= j < |f.tags| && j != k ==> r.tags[j] == f.tags[j]
    ensures !r.newOn && !r.pulse
    ensures r.current == f.current && r.ntr == f.ntr
  {
    f.(tags := f.tags[k := !f.tags[k]], newOn := false, pulse := false)
  }

  datatype Click = New | Current | Ntr | Tag(index: nat)

  /** The effect of one click; a click on a tag button that does not exist changes nothing. */
  function Step(f: Flags, c: Click): (r: Flags)
    ensures |r.tags| == |f.tags|
  {
    match c
    case New => ClickNew(f)
    case Current => ClickCurrent(f)
    case Ntr => ClickNtr(f)
    case Tag(k) => if k < |f.tags| then ClickTag(f, k) else f
  }

  /** The effect of a sequence of clicks, the first one first. */
  function Run(f: Flags, cs: seq<Click>): (r: Flags)
    ensures |r.tags| == |f.tags|
    decreases cs
  {
    if cs == [] then f else Run(Step(f, cs[0]), cs[1..])
  }

  /** Every handler keeps New and NTR from being on together. */
  lemma StepKeepsNotBoth(f: Flags, c: Click)
    requires NotBoth(f)
    ensures NotBoth(Step(f, c))
  {
  }

  /** Every handler keeps the pulse tied to New. */
  lemma StepKeepsPulse(f: Flags, c: Click)
    requires PulseFollows(f)
    ensures PulseFollows(Step(f, c))
  {
  }

  /** From a page where New and NTR are not both on, no sequence of clicks turns both on. */
  lemma {:induction false} RunKeepsNotBoth(f: Flags, cs: seq<Click>)
    requires NotBoth(f)
    ensures NotBoth(Run(f, cs))
    decreases cs
  {
    if cs != [] {
      StepKeepsNotBoth(f, cs[0]);
      RunKeepsNotBoth(Step(f, cs[0]), cs[1..]);
    }
  }

  /** From a page where the pulse matches New, no sequence of clicks separates them. */
  lemma {:induction false} RunKeepsPulse(f: Flags, cs: seq<Click>)
    requires PulseFollows(f)
    ensures PulseFollows(Run(f, cs))
    decreases cs
  {
    if cs != [] {
      StepKeepsPulse(f, cs[0]);
      RunKeepsPulse(Step(f, cs[0]), cs[1..]);
    }
  }

  /**
   * Whatever state the page starts in, one click on New, NTR or a tag leaves
   * New and NTR apart; it also ties the pulse to New, except for a click that
   * turns NTR off, which leaves both as they were.
   */
  lemma ClickEstablishesExclusion(f: Flags, c: Click)
    requires c.New? || c.Ntr? || (c.Tag? && c.index < |f.tags|)
    ensures NotBoth(Step(f, c))
    ensures !(c.Ntr? && f.ntr) ==> PulseFollows(Step(f, c))
    ensures c.Ntr? && f.ntr ==> (PulseFollows(Step(f, c)) <==> PulseFollows(f))
  {
  }

  /** Two clicks on Current, on New, on NTR or on the same tag: Current and tags come back, New and NTR as stated. */
  lemma {:induction false} DoubleClick(f: Flags, c: Click)
    requires PulseFollows(f)
    ensures c.Current? ==> Run(f, [c, c]) == f
    ensures c.Tag? ==> Run(f, [c, c]).tags == f.tags
    ensures c.New? && !f.ntr ==> Run(f, [c, c]) == f
    ensures c.Ntr? && !f.newOn ==> Run(f, [c, c]) == f
  {
    assert [c, c][1..] == [c] && [c][1..] == [];
    assert Run(f, [c, c]) == Run(Step(f, c), [c]) == Step(Step(f, c), c);
    if c.Tag? && c.index < |f.tags| {
      assert f.tags[c.index := !f.tags[c.index]][c.index := f.tags[c.index]] == f.tags;
    }
  }
}
