/** Page transitions (assets/main.js, lines 121-137). Every anchor whose `href`
    attribute ends in `.html` (the selector `a[href$=".html"]`) gets a click
    listener; a click on a link whose `href` is non-empty and does not start with
    `http` is intercepted: the default navigation is cancelled, the body is marked
    `page-exit`, and the navigation to the same `href` is scheduled 180 ms later. At
    setup the body is marked `page-enter`, and 20 ms later `page-enter-active`.
    Timers are events the caller delivers; their delays are not modelled. */
module PageTransitions {
  import opened Util

  const HtmlSuffix := ".html"
  const ExternalPrefix := "http"
  const ExitClass := "page-exit"
  const EnterClass := "page-enter"
  const EnterActiveClass := "page-enter-active"

  /** Whether the anchor is picked by `a[href$=".html"]`: it has an `href`
      attribute whose last five characters are `.html` (case-sensitively). */
  predicate Selected(href: Option<string>)
    ensures Selected(href)
        <==> href.Some? && |href.value| >= |HtmlSuffix|
             && href.value[|href.value| - |HtmlSuffix|..] == HtmlSuffix
  {
    if href.Some? then
      EndsWithIsSuffix(href.value, HtmlSuffix);
      EndsWith(href.value, HtmlSuffix)
    else false
  }

  /** The click guard `href && !href.startsWith("http")`: the attribute is present
      and non-empty, and its first four characters are not `http`. */
  predicate Guard(href: Option<string>)
    ensures Guard(href)
        <==> href.Some? && href.value != ""
             && !(|ExternalPrefix| <= |href.value| && href.value[..|ExternalPrefix|] == ExternalPrefix)
  {
    if href.Some? then
      StartsWithIsPrefix(href.value, ExternalPrefix);
      href.value != "" && !StartsWith(href.value, ExternalPrefix)
    else false
  }

  /** Whether a click on the anchor is intercepted: it has a listener, and the
      listener's guard holds. The guard's emptiness test never decides anything,
      since a selected `href` ends in `.html` and so is never empty. */
  predicate Intercepts(href: Option<string>)
    ensures Intercepts(href) <==> Selected(href) && !StartsWith(href.value, ExternalPrefix)
  {
    Selected(href) && Guard(href)
  }

  /** Interception in plain terms: the attribute is present, its last five
      characters are `.html`, and its first four are not `http`. */
  lemma InterceptsIff(href: Option<string>)
    ensures Intercepts(href)
        <==> href.Some? && |href.value| >= |HtmlSuffix|
             && href.value[|href.value| - |HtmlSuffix|..] == HtmlSuffix
             && !(|ExternalPrefix| <= |href.value| && href.value[..|ExternalPrefix|] == ExternalPrefix)
  {
  }

  /** Absolute `http:` and `https:` links are never intercepted, whatever they end in. */
  lemma ExternalNeverIntercepted(h: string)
    requires |ExternalPrefix| <= |h| && h[..|ExternalPrefix|] == ExternalPrefix
    ensures !Intercepts(Some(h))
  {
    StartsWithIsPrefix(h, ExternalPrefix);
  }

  /** Any name followed by `.html` is selected. */
  lemma HtmlNameSelected(stem: string)
    ensures Selected(Some(stem + HtmlSuffix))
  {
    var h := stem + HtmlSuffix;
    assert h[|h| - |HtmlSuffix|..] == HtmlSuffix;
    EndsWithIsSuffix(h, HtmlSuffix);
  }

  /** A relative page link is intercepted; an `https` link to a page, one not
      ending in `.html`, and a missing attribute are not. */
  lemma InterceptExamples()
    ensures Intercepts(Some("projects.html"))
    ensures !Intercepts(Some("https://example.com/x.html"))
    ensures !Intercepts(Some("cv.pdf"))
    ensures !Intercepts(None)
  {
    assert "projects.html" == "projects" + HtmlSuffix;
    HtmlNameSelected("projects");
    InterceptsIff(Some("projects.html"));
    InterceptsIff(Some("https://example.com/x.html"));
    InterceptsIff(Some("cv.pdf"));
  }

  /** The guard tests a literal, case-sensitive prefix only: a protocol-relative
      link to another host and an upper-case scheme are intercepted, while a
      relative page whose name merely begins with `http` is not. */
  lemma GuardEdgeCases()
    ensures Intercepts(Some("//other.example/x.html"))
    ensures Intercepts(Some("HTTP://example.com/x.html"))
    ensures !Intercepts(Some("http-notes.html"))
  {
    assert "//other.example/x.html" == "//other.example/x" + HtmlSuffix;
    HtmlNameSelected("//other.example/x");
    InterceptsIff(Some("//other.example/x.html"));
    assert "HTTP://example.com/x.html" == "HTTP://example.com/x" + HtmlSuffix;
    HtmlNameSelected("HTTP://example.com/x");
    InterceptsIff(Some("HTTP://example.com/x.html"));
    InterceptsIff(Some("http-notes.html"));
  }

  class Page {
    /** The class list of the document body. */
    var bodyClasses: set<string>
    /** Navigations scheduled by intercepted clicks, oldest first. */
    var scheduled: seq<string>
    /** The location the window has been sent to, if any. */
    var location: Option<string>
    /** Whether the enter-animation timer is still pending. */
    var enterPending: bool

    /** Every scheduled navigation is to a page an intercepted click named, and a
        body with a scheduled navigation is marked as leaving. */
    ghost predicate Valid()
      reads this
    {
      && (forall k :: 0 <= k < |scheduled| ==> Intercepts(Some(scheduled[k])))
      && (scheduled != [] ==> ExitClass in bodyClasses)
    }

    /** `enablePageTransitions()`: mark the body as entering and start the timer
        that will activate the enter animation. */
    constructor (bodyClasses: set<string>)
      ensures Valid()
      ensures this.bodyClasses == bodyClasses + {EnterClass}
      ensures scheduled == [] && location == None && enterPending
    {
      this.bodyClasses := bodyClasses + {EnterClass};
      scheduled := [];
      location := None;
      enterPending := true;
    }

    /** The enter timer fires. */
    method OnEnterTimer()
      requires Valid() && enterPending
      modifies this`bodyClasses, this`enterPending
      ensures Valid()
      ensures bodyClasses == old(bodyClasses) + {EnterActiveClass} && !enterPending
    {
      bodyClasses := bodyClasses + {EnterActiveClass};
      enterPending := false;
    }

    /** A click on an anchor whose `href` attribute (read at setup) is `href`. The
        default navigation is cancelled exactly when the click is intercepted; an
        intercepted click marks the body and schedules the navigation, any other
        click changes nothing here (the browser follows the link itself). */
    method OnLinkClick(href: Option<string>) returns (prevented: bool)
      requires Valid()
      modifies this`bodyClasses, this`scheduled
      ensures Valid()
      ensures prevented <==> Intercepts(href)
      ensures prevented ==> bodyClasses == old(bodyClasses) + {ExitClass}
                            && scheduled == old(scheduled) + [href.value]
      ensures !prevented ==> bodyClasses == old(bodyClasses) && scheduled == old(scheduled)
    {
      prevented := false;
      if Selected(href) {
        if href.value != "" && !StartsWith(href.value, ExternalPrefix) {
          prevented := true;
          bodyClasses := bodyClasses + {ExitClass};
          scheduled := scheduled + [href.value];
        }
      }
    }

    /** The oldest scheduled navigation fires; timers with the same delay run in
        the order they were set. */
    method OnNavigationTimer()
      requires Valid() && scheduled != []
      modifies this`scheduled, this`location
      ensures Valid()
      ensures location == Some(old(scheduled)[0]) && scheduled == old(scheduled)[1..]
      ensures Intercepts(location)
    {
      location := Some(scheduled[0]);
      scheduled := scheduled[1..];
    }
  }
}
