/** The skill-bar reveal (assets/main.js, lines 58-72). Every bar is observed; when
    the observer reports a bar on screen, the callback sets the bar's width from its
    `data-level` attribute, adds the `active` class and stops observing that bar.
    Bars are numbered 0 .. |levels| - 1; the observer's visibility machinery is not
    modelled, only the effect of its callback. */
module SkillBars {
  import opened Util

  const DefaultLevel := "60"
  const ActiveClass := "active"

  /** `getAttribute("data-level") || "60"`: a missing or empty attribute gives the default. */
  function Level(attr: Option<string>): (l: string)
    ensures l != ""
    ensures attr.Some? && attr.value != "" ==> l == attr.value
    ensures attr.None? || attr.value == "" ==> l == DefaultLevel
  {
    match attr
    case Some(v) => if v != "" then v else DefaultLevel
    case None => DefaultLevel
  }

  /** The value a bar's `width` is set to: the level is a prefix of it, and it is
      one character longer, that character being a percent sign. */
  function Width(attr: Option<string>): (w: string)
    ensures |w| >= 2 && w[|w| - 1] == '%'
    ensures w[..|w| - 1] == Level(attr)
  {
    Level(attr) + "%"
  }

  /** A bar with `data-level="75"` is widened to `75%`; one without the attribute to `60%`. */
  lemma WidthExamples()
    ensures Width(Some("75")) == "75%"
    ensures Width(None) == "60%" && Width(Some("")) == "60%"
  {
  }

  /** One record of the observer's callback argument. */
  datatype Entry = Entry(target: nat, isIntersecting: bool)

  /** One application of the callback body to a bar, with the number of the
      callback invocation it happened in. */
  datatype Activation = Activation(bar: nat, batch: nat)

  class RevealObserver {
    /** The `data-level` attribute of each bar. */
    const levels: seq<Option<string>>
    /** The width each bar is given when it is revealed: `Width` of its attribute,
        which nothing in the script changes. */
    const targets: seq<string>
    /** The bars the observer still watches. */
    var observed: set<nat>
    /** The value passed to `style.setProperty("width", …)` for each bar the
        callback has set; whether the browser accepts it as a CSS length is not
        modelled. */
    var widths: map<nat, string>
    /** The bars carrying the `active` class. */
    var active: set<nat>
    /** Number of callback invocations so far, and every activation they made. */
    ghost var callbacks: nat
    ghost var log: seq<Activation>

    /** A bar is either still observed or already active, never both; every active
        bar has its target width; every activation so far is of an active bar by
        an earlier invocation, and no bar was activated by two invocations. */
    ghost predicate Valid()
      reads this
    {
      |targets| == |levels| && BarsAgree(targets, observed, widths, active) && LogAgrees(log, active, callbacks)
    }

    /** Every activation of bar `b` so far happened in the current invocation. */
    ghost predicate OnlyThisBatch(b: nat)
      reads this
    {
      OnlyBatch(log, callbacks, b)
    }

    /** `bars.forEach(b => io.observe(b))`, run only where the browser offers an
        intersection observer. */
    constructor (levels: seq<Option<string>>, supported: bool)
      ensures Valid()
      ensures this.levels == levels
      ensures |targets| == |levels| && forall b :: 0 <= b < |levels| ==> targets[b] == Width(levels[b])
      ensures forall b: nat :: b in observed <==> supported && b < |levels|
      ensures widths == map[] && active == {} && log == [] && callbacks == 0
    {
      var watched: set<nat> := {};
      if supported {
        var i := 0;
        while i < |levels|
          invariant 0 <= i <= |levels|
          invariant forall b: nat :: b in watched <==> b < i
        {
          watched := watched + {i};
          i := i + 1;
        }
      }
      this.levels := levels;
      targets := seq(|levels|, b requires 0 <= b < |levels| => Width(levels[b]));
      observed := watched;
      widths := map[];
      active := {};
      callbacks := 0;
      log := [];
    }

    /** The callback body for one entry: an intersecting entry activates its bar and
        stops observing it; any other entry changes nothing. A bar may show up again
        in the same invocation, so its target is either still observed or was only
        ever activated by this invocation. */
    method OnEntry(e: Entry)
      requires Valid() && callbacks > 0
      requires e.target < |levels|
      requires e.target in observed || OnlyThisBatch(e.target)
      modifies this`observed, this`widths, this`active, this`log
      ensures Valid()
      ensures observed == old(observed) - Hit(e)
      ensures active == old(active) + Hit(e)
      ensures widths == if e.isIntersecting then old(widths)[e.target := targets[e.target]] else old(widths)
      ensures log == old(log) + Activated(e, callbacks - 1)
      ensures Covered(old(observed), observed, log, callbacks)
      ensures StillOnly(old(log), log, callbacks)
    {
      if e.isIntersecting {
        var t := e.target;
        var a := Activation(t, callbacks - 1);
        ActivateKeepsBars(targets, observed, widths, active, t);
        ActivateKeepsLog(log, observed, active, callbacks, t);
        ActivateKeepsBatches(log, observed, active, callbacks, t);
        widths := widths[t := targets[t]];
        active := active + {t};
        observed := observed - {t};
        log := log + [a];
      }
    }

    /** The observer callback. The browser hands it entries only for bars it was
        observing when the entries were queued. */
    method OnEntries(entries: seq<Entry>)
      requires Valid()
      requires forall k :: 0 <= k < |entries| ==> entries[k].target in observed
      modifies this
      ensures Valid()
      ensures callbacks == old(callbacks) + 1
      ensures observed == old(observed) - Hits(entries)
      ensures active == old(active) + Hits(entries)
      ensures KeepsWidths(old(widths), widths, Hits(entries))
      ensures Extends(old(log), log, old(callbacks), Hits(entries))
    {
      callbacks := callbacks + 1;
      var i := 0;
      while i < |entries|
        invariant 0 <= i <= |entries|
        invariant Valid() && callbacks == old(callbacks) + 1
        invariant Covered(old(observed), observed, log, callbacks)
        invariant Moved(old(observed), observed, old(active), active, Hits(entries[..i]))
        invariant KeepsWidths(old(widths), widths, Hits(entries[..i]))
        invariant Extends(old(log), log, old(callbacks), Hits(entries[..i]))
      {
        var e := entries[i];
        assert entries[..i + 1] == entries[..i] + [e];
        HitsAppend(entries[..i], e);
        ghost var w, l, o, a := widths, log, observed, active;
        assert e.target in old(observed);
        OnEntry(e);
        CoveredStep(old(observed), o, observed, l, log, callbacks);
        MovedStep(old(observed), o, old(active), a, Hits(entries[..i]), e);
        WidthsStep(old(widths), w, Hits(entries[..i]), e, targets[e.target]);
        ExtendsStep(old(log), l, old(callbacks), Hits(entries[..i]), e);
        i := i + 1;
      }
      assert entries[..|entries|] == entries;
    }
  }

  /** Every bar of `observed0` is still observed, or was only activated by the
      latest invocation. */
  ghost predicate Covered(observed0: set<nat>, observed: set<nat>, log: seq<Activation>, callbacks: nat)
  {
    forall b :: b in observed0 ==> b in observed || OnlyBatch(log, callbacks, b)
  }

  /** A bar that only the latest invocation activated in `log0` still is only
      activated by it in `log`. */
  ghost predicate StillOnly(log0: seq<Activation>, log: seq<Activation>, callbacks: nat)
  {
    forall b :: OnlyBatch(log0, callbacks, b) ==> OnlyBatch(log, callbacks, b)
  }

  lemma CoveredStep(o0: set<nat>, o1: set<nat>, o2: set<nat>, l1: seq<Activation>, l2: seq<Activation>, c: nat)
    requires Covered(o0, o1, l1, c) && Covered(o1, o2, l2, c) && StillOnly(l1, l2, c)
    ensures Covered(o0, o2, l2, c)
  {
  }

  /** Exactly the bars of `hits` have moved from the observed to the active set. */
  ghost predicate Moved(observed0: set<nat>, observed: set<nat>, active0: set<nat>, active: set<nat>, hits: set<nat>)
  {
    observed == observed0 - hits && active == active0 + hits
  }

  lemma MovedStep(o0: set<nat>, o1: set<nat>, a0: set<nat>, a1: set<nat>, hits: set<nat>, e: Entry)
    requires Moved(o0, o1, a0, a1, hits)
    ensures Moved(o0, o1 - Hit(e), a0, a1 + Hit(e), hits + Hit(e))
  {
  }

  /** The bar an entry activates, if any. */
  function Hit(e: Entry): set<nat>
  {
    if e.isIntersecting then {e.target} else {}
  }

  /** The activation an entry makes in invocation `batch`, if any. */
  function Activated(e: Entry, batch: nat): seq<Activation>
  {
    if e.isIntersecting then [Activation(e.target, batch)] else []
  }

  /** `log` is `log0` followed by activations of bars in `hits`, all by invocation `batch`. */
  ghost predicate Extends(log0: seq<Activation>, log: seq<Activation>, batch: nat, hits: set<nat>)
  {
    && log0 <= log
    && forall k :: |log0| <= k < |log| ==> log[k].batch == batch && log[k].bar in hits
  }

  lemma ExtendsStep(log0: seq<Activation>, log: seq<Activation>, batch: nat, hits: set<nat>, e: Entry)
    requires Extends(log0, log, batch, hits)
    ensures Extends(log0, log + Activated(e, batch), batch, hits + Hit(e))
  {
    var log' := log + Activated(e, batch);
    assert log0 <= log' by {
      assert log'[..|log|] == log;
    }
    forall k | |log0| <= k < |log'|
      ensures log'[k].batch == batch && log'[k].bar in hits + Hit(e)
    {
      if k < |log| {
        assert log'[k] == log[k];
      }
    }
  }

  /** `widths` keeps every width of `widths0` and adds widths exactly for `hits`. */
  ghost predicate KeepsWidths(widths0: map<nat, string>, widths: map<nat, string>, hits: set<nat>)
  {
    && widths.Keys == widths0.Keys + hits
    && forall b :: b in widths0 ==> widths[b] == widths0[b]
  }

  /** Setting a bar to the width it already has, if it has one, keeps `KeepsWidths`. */
  lemma WidthsStep(widths0: map<nat, string>, widths: map<nat, string>, hits: set<nat>, e: Entry, w: string)
    requires KeepsWidths(widths0, widths, hits)
    requires e.target in widths ==> widths[e.target] == w
    ensures KeepsWidths(widths0, if e.isIntersecting then widths[e.target := w] else widths, hits + Hit(e))
  {
  }

  /** The bars whose entries report them on screen. */
  function Hits(entries: seq<Entry>): set<nat>
  {
    if entries == [] then {}
    else
      var last := entries[|entries| - 1];
      Hits(entries[..|entries| - 1]) + (if last.isIntersecting then {last.target} else {})
  }

  /** The bars' state as the callback leaves it: observed and active bars are
      disjoint, and exactly the active bars have been given a width, their target
      width. */
  ghost predicate BarsAgree(targets: seq<string>, observed: set<nat>, widths: map<nat, string>, active: set<nat>)
  {
    && (forall b :: b in observed ==> b < |targets|)
    && observed !! active
    && widths.Keys == active
    && (forall b :: b in widths ==> b < |targets| && widths[b] == targets[b])
  }

  /** Every logged activation is of an active bar by one of the `callbacks` invocations
      so far, and no bar was activated by two of them. */
  ghost predicate LogAgrees(log: seq<Activation>, active: set<nat>, callbacks: nat)
  {
    && (forall k :: 0 <= k < |log| ==> log[k].bar in active && log[k].batch < callbacks)
    && OncePerBar(log)
  }

  /** No bar is activated by two different callback invocations. */
  ghost predicate OncePerBar(log: seq<Activation>)
  {
    forall k, l :: 0 <= k < |log| && 0 <= l < |log| && log[k].bar == log[l].bar ==> log[k].batch == log[l].batch
  }

  lemma HitsAppend(entries: seq<Entry>, e: Entry)
    ensures Hits(entries + [e]) == Hits(entries) + (if e.isIntersecting then {e.target} else {})
  {
    assert (entries + [e])[..|entries|] == entries;
  }

  /** Appending an activation keeps `OncePerBar` when earlier activations of the
      same bar, if any, come from the same invocation. */
  lemma OnceAfterAppend(log: seq<Activation>, a: Activation)
    requires OncePerBar(log)
    requires forall k :: 0 <= k < |log| && log[k].bar == a.bar ==> log[k].batch == a.batch
    ensures OncePerBar(log + [a])
  {
    var log' := log + [a];
    forall k, l | 0 <= k < |log'| && 0 <= l < |log'| && log'[k].bar == log'[l].bar
      ensures log'[k].batch == log'[l].batch
    {
      if k < |log| {
        assert log'[k] == log[k];
      }
      if l < |log| {
        assert log'[l] == log[l];
      }
    }
  }

  /** Every activation of bar `b` in `log` happened in the latest of `callbacks`
      invocations. */
  ghost predicate OnlyBatch(log: seq<Activation>, callbacks: nat, b: nat)
  {
    forall k :: 0 <= k < |log| && log[k].bar == b ==> log[k].batch + 1 == callbacks
  }

  /** Activating an observed bar keeps the bars' agreement. */
  lemma ActivateKeepsBars(targets: seq<string>, observed: set<nat>, widths: map<nat, string>, active: set<nat>, t: nat)
    requires BarsAgree(targets, observed, widths, active) && t < |targets|
    ensures BarsAgree(targets, observed - {t}, widths[t := targets[t]], active + {t})
  {
    var widths' := widths[t := targets[t]];
    forall b | b in widths'
      ensures b < |targets| && widths'[b] == targets[b]
    {
      if b != t {
        assert b in widths;
      }
    }
  }

  /** Activating a bar that is still observed, or was only activated by the current
      invocation, keeps the log's agreement. */
  lemma ActivateKeepsLog(log: seq<Activation>, observed: set<nat>, active: set<nat>, callbacks: nat, t: nat)
    requires LogAgrees(log, active, callbacks) && observed !! active && callbacks > 0
    requires t in observed || OnlyBatch(log, callbacks, t)
    ensures LogAgrees(log + [Activation(t, callbacks - 1)], active + {t}, callbacks)
  {
    var a := Activation(t, callbacks - 1);
    assert forall k :: 0 <= k < |log| && log[k].bar == t ==> log[k].batch == a.batch;
    OnceAfterAppend(log, a);
    var log' := log + [a];
    forall k | 0 <= k < |log'|
      ensures log'[k].bar in active + {t} && log'[k].batch < callbacks
    {
      if k < |log| {
        assert log'[k] == log[k];
      }
    }
  }

  /** After activating `t` in the current invocation, `t` and every bar that was
      only activated by this invocation are still only activated by it. */
  lemma ActivateKeepsBatches(log: seq<Activation>, observed: set<nat>, active: set<nat>, callbacks: nat, t: nat)
    requires LogAgrees(log, active, callbacks) && observed !! active && callbacks > 0
    requires t in observed || OnlyBatch(log, callbacks, t)
    ensures StillOnly(log, log + [Activation(t, callbacks - 1)], callbacks)
    ensures Covered(observed, observed - {t}, log + [Activation(t, callbacks - 1)], callbacks)
  {
    var log' := log + [Activation(t, callbacks - 1)];
    forall b | OnlyBatch(log, callbacks, b) || b == t
      ensures OnlyBatch(log', callbacks, b)
    {
      forall k | 0 <= k < |log'| && log'[k].bar == b
        ensures log'[k].batch + 1 == callbacks
      {
        if k < |log| {
          assert log'[k] == log[k];
        }
      }
    }
  }
}
