# A verified model of the portfolio site's page script

The site's only script, `assets/main.js`, wires seven small behaviours into the page:

- a light/dark theme toggle that persists the choice in browser storage;
- a canvas starfield that drifts to the right and wraps around;
- skill bars that widen to their level the first time they scroll into view;
- project cards that expand and collapse on a click or an Enter key press;
- a contact form that composes a `mailto:` URI (section 2 of RFC 6068) with the
  subject and body escaped by `encodeURIComponent` (section 19.2.6 of ECMA-262);
- a mail link whose `href` is `mailto:` followed by the address;
- page transitions that intercept clicks on links whose `href` ends in `.html` and
  does not start with `http`, and play an exit animation before navigating.

This project models each behaviour in Dafny, in one module per behaviour:

- `Util`: option values and the `startsWith`/`endsWith` string tests.
- `Theme`: the theme.
- `Starfield`: the stars.
- `SkillBars`: the bar reveal.
- `Cards`: the cards.
- `UriEncoding`: `encodeURIComponent`, plus `decodeURIComponent` as its independent inverse.
- `Contact`: `trim`, the composer and a `mailto:` reader.
- `ContactExample`: the composer's worked example, through lemmas over arbitrary words.
- `PageTransitions`: the link guard and the body classes.

Handlers that change page state are class methods. Their fields are the attribute, class list or storage entry the handler changes:

- the document theme and its storage entry;
- the star array, updated in place;
- the bars' widths and classes;
- a card's class list;
- the body's class list and the pending navigations.

The values the handlers compute are pure functions:

- the initial and next theme;
- the star count and a star's step;
- a bar's width;
- the encoded URI.

What the model proves:

- **Theme.** After any click, the stored theme equals the document attribute. From a known theme, the theme alternates between `dark` and `light`.
- **Starfield.** Every star stays inside the canvas and keeps its radius and speed ranges, over any number of frames.
- **Skill bars.** A bar is widened to `data-level || "60"` percent. It is then no longer observed, and no two observer callbacks ever activate the same bar.
- **Cards.** A card's state after any sequence of events depends only on how many clicks and Enter presses it received, counted mod 2.
- **Mailto URI.** A mail client reading the composed URI finds the fixed recipient and exactly two header fields, `subject` and `body`. Their values decode back to the prefixed, trimmed form fields. The worked example (`Ada`, `Hello`, `Hi there`) gives exactly `mailto:michaelcebralclase@gmail.com?subject=%5BSite%5D%20Hello&body=From%3A%20Ada%0A%0AHi%20there`. The mail link reads back as the address alone.
- **Page transitions.** A click is intercepted exactly when the `href` attribute ends in `.html` and does not start with `http`.

Floating-point numbers are modelled as exact reals, and screen sizes as natural numbers. The `Math.random()` values a resize consumes are an input sequence of draws in [0, 1). Browser storage is a field holding an optional string. Timer callbacks are methods the caller invokes.

The wrap test at assets/main.js:47 is strict (`st.x > w`), so a star can sit exactly on the right edge. `Starfield.InField` allows `x == w`, and `Starfield.StepCanLandOnRightEdge` shows a star that gets there.

Each bar's target width is computed once, when the observer is built, from its `data-level` attribute (`SkillBars.RevealObserver.targets`). The callback at assets/main.js:64-65 reads the attribute when it fires; nothing in the script changes the attribute, so the two agree.

The page-transition listener reads each link's `href` when it is attached (assets/main.js:124), not when the link is clicked. `PageTransitions.Page.OnLinkClick` takes that value as its argument.

## Model

| member | source | states |
|---|---|---|
| Theme.InitialTheme | assets/main.js:16-17 | The first theme is never empty. It is the saved entry when that is a non-empty string, and `dark` when the entry is missing or empty. |
| Theme.NextTheme | assets/main.js:21 | A click always yields `dark` or `light`, and yields `light` exactly when the current theme is `dark`. |
| Theme.ToggleTwiceRestores | assets/main.js:20-22 | Two clicks restore the theme if and only if it was `dark` or `light`; an unknown saved theme never comes back. |
| Theme.ThemeAfterTogglesAlternates | assets/main.js:20-22 | After n >= 1 clicks the theme is `dark` or `light`. It is the one-click theme for odd n and the two-click theme for even n. |
| Theme.EvenTogglesRestore | assets/main.js:20-22 | From `dark` or `light`, any even number of clicks returns to the starting theme. |
| Theme.ThemeController.constructor | assets/main.js:15-17 | On page load the root theme is `saved || "dark"`, storage is untouched and the invariant holds. |
| Theme.ThemeController.Toggle | assets/main.js:20-25 | A click flips the attribute, stores exactly the new theme, marks the button `active` and sets one more acknowledgement timer. It keeps the invariant that storage equals the attribute after any click. |
| Theme.ThemeController.EndAcknowledgement | assets/main.js:25 | The delayed callback fires only for a timer a click has set and not yet run. It removes only the `active` class, leaves the theme and storage alone, and uses up that one timer. |
| Starfield.StarCount | assets/main.js:37 | The count is at most 280 and uses at least 7000 square pixels per star. Below the cap, one more star would not fit: it is the floor of area/7000. |
| Starfield.StarsNeedArea | assets/main.js:37 | A surface with zero width or zero height gets no stars. |
| Starfield.Scale | assets/main.js:38 | `Math.random() * n` lies in [0, n) for n > 0, and is 0 for n = 0. |
| Starfield.MakeStar | assets/main.js:38 | A new star's radius is in [0.2, 1.4) and its speed in [0.2, 1.0). On a non-empty surface its position is inside the surface, right and bottom edges excluded. |
| Starfield.Step | assets/main.js:47 | A frame changes only `x`. The new `x` is either the old one plus 0.02 or 0, and never exceeds the width. |
| Starfield.StepKeepsInField | assets/main.js:47 | A frame keeps a star inside the field. |
| Starfield.StepCanLandOnRightEdge | assets/main.js:47 | Because the wrap test is strict, a star can land exactly on the right edge. |
| Starfield.StepNKeepsInField | assets/main.js:42-48 | After any number of frames a star is still inside the field, with `y`, `r` and `s` unchanged. |
| Starfield.StepNDrifts | assets/main.js:47 | Until it reaches the right edge, a star moves exactly 0.02 per frame. |
| Starfield.Generate | assets/main.js:37-38 | A resize builds a fresh array of `StarCount(w, h)` stars; the i-th star comes from the i-th draw. |
| Starfield.StarsPlaced | assets/main.js:37-38 | Every star of a freshly generated array is inside the field, and there are at most 280. |
| Starfield.Starfield.constructor | assets/main.js:34-39 | The first resize sets the size and places `StarCount(w, h)` stars inside the field. |
| Starfield.Starfield.Resize | assets/main.js:34-39 | A resize adopts the new size and replaces the stars wholesale with a fresh array built from the new draws. |
| Starfield.Starfield.DrawFrame | assets/main.js:42-48 | A frame steps every star in place, exactly once, and keeps every star inside the field. |
| SkillBars.Level | assets/main.js:64 | A bar's level is never empty. It is the `data-level` attribute when present and non-empty, otherwise `"60"`. |
| SkillBars.Width | assets/main.js:64-65 | The width passed to `setProperty` ends in `%`, and removing that last character gives back the level. |
| SkillBars.WidthExamples | assets/main.js:64-65 | `data-level="75"` gives `75%`; a missing or empty attribute gives `60%`. |
| SkillBars.RevealObserver.constructor | assets/main.js:59-72 | Every bar is observed if and only if the browser offers an intersection observer; none is active and none has a width. Each bar's target width is `Width` of its attribute. |
| SkillBars.RevealObserver.OnEntry | assets/main.js:62-68 | An intersecting entry sets its bar's width to its level, adds `active` and stops observing the bar. Any other entry changes nothing. Observed bars and active bars stay disjoint. |
| SkillBars.RevealObserver.OnEntries | assets/main.js:61-69 | A callback moves exactly the bars its intersecting entries name from the observed set to the active set. It gives exactly those bars a width and keeps earlier widths. Every activation it logs is of one of those bars, in this invocation. No bar is ever activated by two callbacks. |
| Cards.ToggleClass | assets/main.js:76 | `classList.toggle` flips membership of the one class and keeps every other class. |
| Cards.ToggleTwice | assets/main.js:76 | Toggling twice restores the class list. |
| Cards.AfterEventsParity | assets/main.js:75-78 | After any events, a card is expanded if and only if its initial state and the parity of clicks plus Enter presses agree. No other class changes. |
| Cards.OtherKeysIgnored | assets/main.js:77 | Any number of key presses other than Enter leaves the card unchanged. |
| Cards.ProjectCard.OnClick | assets/main.js:76 | A click toggles `expanded`. |
| Cards.ProjectCard.OnKeyPress | assets/main.js:77 | A key press toggles `expanded` exactly when the key is `"Enter"`, and otherwise changes nothing. |
| UriEncoding.Encode | assets/main.js:104-105 | Each character is kept or replaced by at least one `%XX` triple, so the result is never shorter than the input. |
| UriEncoding.EncodeWellFormed | assets/main.js:104-105 | The result holds only unreserved characters and complete `%XX` triples with upper-case hex digits. |
| UriEncoding.DecodeEncode | assets/main.js:104-105 | `decodeURIComponent(encodeURIComponent(s)) == s` for every string. |
| UriEncoding.EncodeInjective | assets/main.js:104-105 | Different strings never encode alike. |
| UriEncoding.EncodeConcat | assets/main.js:104-105 | Encoding distributes over concatenation. |
| UriEncoding.EncodeUnreservedIdentity | assets/main.js:104-105 | Letters, digits and `-_.!~*'()` pass through unchanged. |
| UriEncoding.EncodedHasNoDelimiters | assets/main.js:106 | Encoded output never contains `&`, `=`, `?` or `#`. |
| UriEncoding.EncodeCharThen | assets/main.js:104-105 | A string that starts with one character is encoded as that character's escape followed by the encoded rest. |
| UriEncoding.EncodeWordThen | assets/main.js:104-105 | A leading run of unreserved characters is copied through unchanged, and the rest is encoded after it. |
| UriEncoding.EncodeAsciiChar | assets/main.js:104-105 | A reserved ASCII character becomes a single `%XX` triple; a space is `%20` and a line feed `%0A`. |
| Contact.MailLinkHref | assets/main.js:84 | A mail client reads the link's `href` as exactly the address, with no header fields. |
| Contact.TrimStart | assets/main.js:101-103 | The result is the suffix of the input that starts at its first character that is not white space or a line terminator. |
| Contact.TrimEnd | assets/main.js:101-103 | The result is the prefix of the input that ends at its last character that is not white space or a line terminator. |
| Contact.TrimStartDropsWhite | assets/main.js:101-103 | Leading white space in front of a string that starts with another character is removed, and nothing else is. |
| Contact.TrimEndDropsWhite | assets/main.js:101-103 | Trailing white space after a string that ends with another character is removed, and nothing else is. |
| Contact.Trim | assets/main.js:101-103 | The result neither starts nor ends with white space or a line terminator, and it is a slice of the input with only white space cut off before and after it. |
| Contact.TrimIsCore | assets/main.js:101-103 | Trimming white space, a core and white space gives exactly that core, provided the core neither starts nor ends with white space. |
| Contact.TrimIdempotent | assets/main.js:101-103 | A trimmed field is unchanged by a second trim. |
| Contact.EncodeFree | assets/main.js:104-106 | An encoded header value contains none of the delimiters `?`, `&`, `=`, `#`. |
| Contact.MailtoRoundTrip | assets/main.js:104-106 | For any recipient without `?` or `%` and any two values, a mail client reads the composed URI back as that recipient and the two headers `subject` and `body`, in order, with their exact values. |
| Contact.PlainParses | assets/main.js:84 | `mailto:` followed by a recipient without `?` or `%` reads back as that recipient alone. |
| Contact.ComposeMailto | assets/main.js:101-106 | The submitted URI parses as the fixed address with exactly two headers: `subject` is `"[Site] "` plus the trimmed subject, and `body` is `"From: "` plus the trimmed name, a blank line and the trimmed message. |
| ContactExample.SubjectEncoded | assets/main.js:102-104 | A subject made of unreserved characters is sent as `%5BSite%5D%20` followed by the subject. |
| ContactExample.BodyEncoded | assets/main.js:101-105 | A one-word name and a two-word message are sent as `From%3A%20`, the name, `%0A%0A`, and the two words joined by `%20`. |
| ContactExample.ComposeMailtoExample | assets/main.js:101-106 | The name `Ada`, the subject `Hello` and the message `Hi there` give exactly `mailto:michaelcebralclase@gmail.com?subject=%5BSite%5D%20Hello&body=From%3A%20Ada%0A%0AHi%20there`. |
| PageTransitions.Selected | assets/main.js:123 | The selector `a[href$=".html"]` picks an anchor if and only if it has an `href` whose last five characters are `.html`. |
| PageTransitions.Guard | assets/main.js:126 | The guard holds if and only if the `href` is present, non-empty, and does not have `http` as its first four characters. |
| PageTransitions.InterceptsIff | assets/main.js:123-126 | A click is intercepted if and only if the attribute is present, its last five characters are `.html`, and its first four are not `http`. |
| PageTransitions.Intercepts | assets/main.js:123-126 | Interception is decided by the selector and the `http` test alone; the non-empty test of the guard never matters. |
| PageTransitions.ExternalNeverIntercepted | assets/main.js:126 | An `href` that starts with `http` is never intercepted, whatever it ends in. |
| PageTransitions.InterceptExamples | assets/main.js:123-126 | `projects.html` is intercepted. `https://example.com/x.html`, `cv.pdf` and a missing attribute are not. |
| PageTransitions.GuardEdgeCases | assets/main.js:126 | The prefix test is literal and case-sensitive: `//other.example/x.html` and `HTTP://example.com/x.html` are intercepted, while `http-notes.html` is not. |
| PageTransitions.Page.constructor | assets/main.js:134 | Setup adds `page-enter` to the body and starts the enter timer; nothing is scheduled yet. |
| PageTransitions.Page.OnEnterTimer | assets/main.js:135 | The enter timer adds `page-enter-active` and nothing else. |
| PageTransitions.Page.OnLinkClick | assets/main.js:125-129 | The default navigation is cancelled if and only if the click is intercepted. An intercepted click adds `page-exit` and schedules navigation to the same `href`; any other click changes nothing. |
| PageTransitions.Page.OnNavigationTimer | assets/main.js:129 | The oldest scheduled navigation goes to an `href` that an intercepted click named. |

## Left out

- The year display (assets/main.js:11-12) writes the clock's year into the page; it computes nothing.
- Element lookups and the guards for missing elements (`if(toggle)`, `if(canvas)`, `if(form)` and the others) are not modelled. Each class models the component as if its elements exist.
- Browser storage reads and writes are a field of `Theme.ThemeController`, not a persistent store shared between pages.
- Canvas drawing is left out: `clearRect`, `arc`, `fill` and the time-dependent opacity (lines 41-46). Only the star state a frame changes is modelled.
- `requestAnimationFrame` (line 49) and the `resize` listener (line 51) are left out. The caller invokes `DrawFrame` and `Resize`.
- `Math.random()` is given as input draws, and `window.innerWidth` and `innerHeight` as natural numbers. Floating-point rounding is not modelled: coordinates are exact reals.
- The AOS library call (line 56) is left out: it is outside code.
- The intersection observer's visibility computation and its 0.4 threshold (line 70) are left out. The callback's entries are inputs.
- The e-mail text (lines 81-82), the clipboard copy button (lines 85-96) and the CV check with `fetch` (lines 110-119) are browser I/O with no logic to prove.
- The submit handler's assignment of `window.location.href` (line 106) is left out: the model stops at the URI the composer builds. The navigation at line 129 is modelled by `PageTransitions.Page.OnNavigationTimer`.
- Timer delays (250 ms, 20 ms, 180 ms) are not modelled. Their callbacks are methods the caller invokes. Navigation timers are assumed to fire in the order they were set.
- The shooting star (lines 139-153) is random decoration.
- UriEncoding.Encode: does not model the `URIError` that `encodeURIComponent` throws on a lone surrogate, because a Dafny `char` is always a Unicode scalar value.
- SkillBars.RevealObserver.OnEntries: states "at most once" per callback invocation, not per entry. One entry list may name the same bar twice, and the source then sets the same width a second time.
- CSS value parsing is not modelled: `SkillBars.RevealObserver.widths` holds the value passed to `style.setProperty`. A browser ignores a value that is not a valid width, such as `"abc%"` from `data-level="abc"`. Such a bar is still marked `active` but keeps no inline width.
