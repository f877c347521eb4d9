/** The project cards (assets/main.js, lines 74-78). Each card toggles its
    `expanded` class on a click, and on a key press only when the key is `"Enter"`.
    A card's class list is a set of class names. */
module Cards {

  const Expanded := "expanded"
  const EnterKey := "Enter"

  /** `classList.toggle(c)`: remove `c` if present, add it otherwise. */
  function ToggleClass(classes: set<string>, c: string): (r: set<string>)
    ensures c in r <==> c !in classes
    ensures r - {c} == classes - {c}
  {
    if c in classes then classes - {c} else classes + {c}
  }

  /** Toggling the same class twice restores the class list. */
  lemma ToggleTwice(classes: set<string>, c: string)
    ensures ToggleClass(ToggleClass(classes, c), c) == classes
  {
  }

  /** The two events a card listens to. */
  datatype CardEvent = Click | KeyPress(key: string)

  /** Whether the event's handler toggles the card. */
  predicate Toggles(ev: CardEvent)
  {
    match ev
    case Click => true
    case KeyPress(key) => key == EnterKey
  }

  /** The class list after one event. */
  function AfterEvent(classes: set<string>, ev: CardEvent): set<string>
  {
    if Toggles(ev) then ToggleClass(classes, Expanded) else classes
  }

  /** The class list after a sequence of events, handled in order. */
  function AfterEvents(classes: set<string>, evs: seq<CardEvent>): set<string>
    decreases evs
  {
    if evs == [] then classes else AfterEvents(AfterEvent(classes, evs[0]), evs[1..])
  }

  /** The number of events in `evs` whose handler toggles the card. */
  function ToggleCount(evs: seq<CardEvent>): nat
  {
    if evs == [] then 0 else (if Toggles(evs[0]) then 1 else 0) + ToggleCount(evs[1..])
  }

  /** After any sequence of events the card is expanded exactly when it started
      expanded and an even number of events toggled it, or started collapsed and an
      odd number did; no other class is ever touched. */
  lemma {:induction false} AfterEventsParity(classes: set<string>, evs: seq<CardEvent>)
    ensures Expanded in AfterEvents(classes, evs) <==> (Expanded in classes) == (ToggleCount(evs) % 2 == 0)
    ensures AfterEvents(classes, evs) - {Expanded} == classes - {Expanded}
    decreases evs
  {
    if evs != [] {
      AfterEventsParity(AfterEvent(classes, evs[0]), evs[1..]);
    }
  }

  /** Key presses other than Enter leave the card alone, whatever their number. */
  lemma {:induction false} OtherKeysIgnored(classes: set<string>, evs: seq<CardEvent>)
    requires forall k :: 0 <= k < |evs| ==> evs[k].KeyPress? && evs[k].key != EnterKey
    ensures AfterEvents(classes, evs) == classes
    decreases evs
  {
    if evs != [] {
      OtherKeysIgnored(classes, evs[1..]);
    }
  }

  class ProjectCard {
    /** The card's class list. */
    var classes: set<string>

    constructor (classes: set<string>)
      ensures this.classes == classes
    {
      this.classes := classes;
    }

    /** The click listener. */
    method OnClick()
      modifies this
      ensures classes == AfterEvent(old(classes), Click)
    {
      classes := ToggleClass(classes, Expanded);
    }

    /** The key-press listener: only `"Enter"` toggles. */
    method OnKeyPress(key: string)
      modifies this
      ensures classes == AfterEvent(old(classes), KeyPress(key))
    {
      if key == EnterKey {
        classes := ToggleClass(classes, Expanded);
      }
    }
  }
}
