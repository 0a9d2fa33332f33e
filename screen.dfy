/**
 * The screen's behaviour as a finite-state machine over logical events.
 *
 * The screen keeps the text typed so far, the content URI of the last saved
 * image (a cache, cleared by every text change), the text field's label and
 * the debounce timer of `LaunchedEffect(key1 = text) { delay(500); ... }`.
 * Three events drive it: a text change from the text field, the end of an
 * uninterrupted 500 ms wait, and a tap on the image.
 */
module ScreenLogic {
  import opened Options

  /** The label of the text field. */
  datatype Label = EnterAnything | TapToShare {
    function Text(): string
    {
      match this
      case EnterAnything => "Enter anything to generate qr"
      case TapToShare => "tap image to share qr"
    }
  }

  /** The two snackbars a tap can show: message and action button. */
  datatype Notice = PleaseEnter | BadThings {
    function Message(): string
    {
      match this
      case PleaseEnter => "please enter something in text field"
      case BadThings => "oh no! some bad things happened."
    }

    function ActionLabel(): string
    {
      match this
      case PleaseEnter => "okay"
      case BadThings => "dismiss"
    }
  }

  /** A content URI handed out by the file provider for a saved image. */
  datatype Uri = ContentUri(path: string)

  /** Kotlin's `Char.isWhitespace` on the JVM: Java's `isWhitespace` or
      `isSpaceChar` (tab through carriage return, the four information
      separators, and the Unicode space, line and paragraph separators). */
  predicate IsWhitespace(c: char)
  {
    c == ' ' || ('\t' <= c <= '\r') || ('\U{1C}' <= c <= '\U{1F}') ||
    c == '\U{A0}' || c == '\U{1680}' || ('\U{2000}' <= c <= '\U{200A}') ||
    c == '\U{2028}' || c == '\U{2029}' || c == '\U{202F}' || c == '\U{205F}' ||
    c == '\U{3000}'
  }

  /** Kotlin's `String.isBlank`: empty or whitespace only. */
  predicate IsBlank(s: string)
  {
    forall i | 0 <= i < |s| :: IsWhitespace(s[i])
  }

  /**
   * The observable state. `waiting` is true while the debounce effect is in
   * its 500 ms delay; `shown` is the text whose QR code the bitmap currently
   * holds.
   */
  datatype Screen = Screen(text: string, uri: Option<Uri>, fieldLabel: Label, waiting: bool, shown: string)

  /** What the outside world sees happen. */
  datatype Effect =
    | Rendered(text: string)                  // bitmap := generateQRCode(text)
    | SaveCalled                              // saveImage(bitmap) was called
    | Shared(uri: Uri)                        // shareImage(uri) was called
    | Snackbar(notice: Notice)

  /** Logical inputs. `saved` is what `saveImage` returns should the tap call it. */
  datatype Event =
    | TextChanged(text: string)
    | TimerFired
    | Tapped(saved: Option<Uri>)

  /** First composition: empty text, no URI, the initial label, the bitmap of
      `generateQRCode("")`, and the debounce effect launched for key "". */
  const Start := Screen("", None, EnterAnything, true, "")

  /** `onValueChange`: store the text, drop the cached URI, switch the label.
      The effect keyed on the text restarts only if the key really changed. */
  function ChangeText(s: Screen, t: string): Screen
  {
    s.(text := t, uri := None, fieldLabel := TapToShare, waiting := s.waiting || t != s.text)
  }

  /** The delay ended without interruption: render the current text. */
  function FireTimer(s: Screen): (Screen, seq<Effect>)
  {
    if s.waiting then (s.(waiting := false, shown := s.text), [Rendered(s.text)])
    else (s, [])
  }

  /** The one user-visible outcome of a tap, chosen from the text and the URI
      after the save attempt. */
  function TapOutcome(text: string, uri: Option<Uri>): Effect
  {
    if uri.Some? then Shared(uri.value)
    else if IsBlank(text) then Snackbar(PleaseEnter)
    else Snackbar(BadThings)
  }

  /** Is e one of the three outcomes a tap can have? */
  predicate IsOutcome(e: Effect)
  {
    e.Shared? || e == Snackbar(PleaseEnter) || e == Snackbar(BadThings)
  }

  /**
   * The tap handler: save the bitmap when there is no cached URI and the text
   * is not blank, then share the URI if there is one, otherwise tell the user
   * why not.
   */
  function Tap(s: Screen, saved: Option<Uri>): (r: (Screen, seq<Effect>))
    // only the cached URI can change
    ensures r.0 == s.(uri := r.0.uri)
    // exactly one outcome, possibly preceded by the save
    ensures |r.1| > 0 && IsOutcome(r.1[|r.1| - 1])
    ensures forall i | 0 <= i < |r.1| - 1 :: r.1[i] == SaveCalled
    // saveImage is called exactly when nothing is cached and the text is not blank
    ensures SaveCalled in r.1 <==> s.uri.None? && !IsBlank(s.text)
    // a cached URI is shared again, without saving
    ensures s.uri.Some? ==> r == (s, [Shared(s.uri.value)])
    // a blank text with nothing cached only shows the prompt
    ensures s.uri.None? && IsBlank(s.text) ==> r == (s, [Snackbar(PleaseEnter)])
    // a failed save leaves nothing cached and shows the failure message
    ensures s.uri.None? && !IsBlank(s.text) && saved.None? ==>
              r == (s, [SaveCalled, Snackbar(BadThings)])
    // a successful save is cached and shared
    ensures s.uri.None? && !IsBlank(s.text) && saved.Some? ==>
              r == (s.(uri := saved), [SaveCalled, Shared(saved.value)])
  {
    if s.uri.None? && !IsBlank(s.text) then
      (s.(uri := saved), [SaveCalled, TapOutcome(s.text, saved)])
    else
      (s, [TapOutcome(s.text, s.uri)])
  }

  /** One event. */
  function Step(s: Screen, e: Event): (r: (Screen, seq<Effect>))
    // a render happens only when the wait ends, and it renders the text current then
    ensures forall i | 0 <= i < |r.1| && r.1[i].Rendered? :: e.TimerFired? && r.1[i].text == s.text
    // after a text change nothing is cached
    ensures e.TextChanged? ==> r.0.text == e.text && r.0.uri.None? && r.0.fieldLabel == TapToShare
  {
    match e
    case TextChanged(t) => (ChangeText(s, t), [])
    case TimerFired => FireTimer(s)
    case Tapped(saved) => Tap(s, saved)
  }

  /** A sequence of events, from state s: the final state and all effects in order. */
  function Run(s: Screen, evs: seq<Event>): (Screen, seq<Effect>)
    decreases |evs|
  {
    if evs == [] then (s, [])
    else
      var before := Run(s, evs[..|evs| - 1]);
      var last := Step(before.0, evs[|evs| - 1]);
      (last.0, before.1 + last.1)
  }

  /** Running evs and then one more event e. */
  lemma RunLast(s: Screen, evs: seq<Event>, e: Event)
    ensures Run(s, evs + [e]) == (Step(Run(s, evs).0, e).0, Run(s, evs).1 + Step(Run(s, evs).0, e).1)
  {
  }

  /** What holds in every state the screen can reach. */
  predicate Inv(s: Screen)
  {
    // a cached URI belongs to a non-blank text
    (s.uri.Some? ==> !IsBlank(s.text)) &&
    // once the wait is over the bitmap shows the current text
    (!s.waiting ==> s.shown == s.text) &&
    // the initial label only before any change
    (s.fieldLabel == EnterAnything ==> s.text == "" && s.uri.None?)
  }

  /** Every event keeps the invariant. */
  lemma {:induction false} InvPreserved(s: Screen, evs: seq<Event>)
    requires Inv(s)
    ensures Inv(Run(s, evs).0)
    decreases |evs|
  {
    if evs != [] {
      InvPreserved(s, evs[..|evs| - 1]);
    }
  }

  /** Invariant: in every reachable state a cached URI implies a non-blank
      text, and a finished wait means the bitmap shows the current text. */
  lemma {:induction false} ReachableInvariant(evs: seq<Event>)
    ensures Inv(Run(Start, evs).0)
    ensures Run(Start, evs).0.uri.Some? ==> !IsBlank(Run(Start, evs).0.text)
  {
    InvPreserved(Start, evs);
  }

  /** A tap on blank text, in any reachable state, neither saves nor shares:
      it shows the prompt and changes nothing. */
  lemma {:induction false} BlankTapShowsPrompt(evs: seq<Event>, saved: Option<Uri>)
    requires IsBlank(Run(Start, evs).0.text)
    ensures Tap(Run(Start, evs).0, saved) == (Run(Start, evs).0, [Snackbar(PleaseEnter)])
  {
    ReachableInvariant(evs);
  }

  /** No event in evs is a tap. */
  predicate NoTaps(evs: seq<Event>)
  {
    forall i | 0 <= i < |evs| :: !evs[i].Tapped?
  }

  /** Only a tap can cache a URI: without taps, a cleared URI stays cleared. */
  lemma {:induction false} UriStaysClear(s: Screen, evs: seq<Event>)
    requires s.uri.None? && NoTaps(evs)
    ensures Run(s, evs).0.uri.None?
    decreases |evs|
  {
    if evs != [] {
      var prefix := evs[..|evs| - 1];
      assert NoTaps(prefix) by {
        forall i | 0 <= i < |prefix| ensures !prefix[i].Tapped? {
          assert prefix[i] == evs[i];
        }
      }
      UriStaysClear(s, prefix);
      assert !evs[|evs| - 1].Tapped?;
    }
  }

  /** Invalidation: after a text change, whatever text changes and renders
      follow, the next tap finds no URI cached. It calls saveImage again
      exactly when the text is then not blank, and the URI it caches is what
      that save returns. */
  lemma {:induction false} NextTapSavesAgain(s: Screen, t: string, evs: seq<Event>, saved: Option<Uri>)
    requires NoTaps(evs)
    ensures Run(ChangeText(s, t), evs).0.uri.None?
    ensures SaveCalled in Tap(Run(ChangeText(s, t), evs).0, saved).1 <==> !IsBlank(Run(ChangeText(s, t), evs).0.text)
    ensures !IsBlank(Run(ChangeText(s, t), evs).0.text) ==> Tap(Run(ChangeText(s, t), evs).0, saved).0.uri == saved
  {
    UriStaysClear(ChangeText(s, t), evs);
  }

  /** Typing a non-blank text, letting the wait end, and tapping: the code of
      that text is rendered once, the image is saved, and the new URI is
      shared, or the failure snackbar is shown if the save failed. */
  lemma TypeWaitTap(t: string, saved: Option<Uri>)
    requires !IsBlank(t)
    ensures Run(Start, [TextChanged(t), TimerFired, Tapped(saved)]).1 ==
              [Rendered(t), SaveCalled, if saved.Some? then Shared(saved.value) else Snackbar(BadThings)]
  {
    var none: seq<Effect> := [];
    var once: seq<Effect> := [Rendered(t)];
    var typed := ChangeText(Start, t);
    var rendered := typed.(waiting := false, shown := t);
    var one := [TextChanged(t)];
    var two := [TextChanged(t), TimerFired];
    assert one[..0] == [] && none + none == none;
    assert Run(Start, one) == (typed, none);
    assert two[..1] == one && none + once == once;
    assert Run(Start, two) == (rendered, once);
    assert [TextChanged(t), TimerFired, Tapped(saved)][..2] == two;
  }

  /** The events of a burst of keystrokes. */
  function Changes(ts: seq<string>): (evs: seq<Event>)
    ensures |evs| == |ts|
  {
    if ts == [] then [] else Changes(ts[..|ts| - 1]) + [TextChanged(ts[|ts| - 1])]
  }

  /** A burst of text changes, with a wait already pending or started by its
      first change: no effect at all, the last text is current, nothing is
      cached, and the wait is pending. */
  lemma {:induction false} BurstIsQuiet(s: Screen, ts: seq<string>)
    requires s.waiting || (ts != [] && ts[0] != s.text)
    ensures Run(s, Changes(ts)).1 == []
    ensures Run(s, Changes(ts)).0.waiting
    ensures Run(s, Changes(ts)).0.shown == s.shown
    ensures ts != [] ==> Run(s, Changes(ts)).0.text == ts[|ts| - 1] && Run(s, Changes(ts)).0.uri.None?
    decreases |ts|
  {
    if ts != [] {
      var prefix := ts[..|ts| - 1];
      assert Changes(ts)[..|ts| - 1] == Changes(prefix);
      if prefix == [] {
        assert Run(s, Changes(prefix)) == (s, []);
      } else {
        assert prefix[0] == ts[0];
        BurstIsQuiet(s, prefix);
      }
    }
  }

  /** Debounce, latest wins: keystrokes t1 ... tn, with a wait already pending
      or started by the first of them, followed by the end of the wait render
      exactly once, and they render tn only. */
  lemma {:induction false} Debounce(s: Screen, ts: seq<string>)
    requires ts != [] && (s.waiting || ts[0] != s.text)
    ensures Run(s, Changes(ts) + [TimerFired]).1 == [Rendered(ts[|ts| - 1])]
    ensures Run(s, Changes(ts) + [TimerFired]).0.shown == ts[|ts| - 1]
  {
    BurstIsQuiet(s, ts);
    RunLast(s, Changes(ts), TimerFired);
  }

  /** The events of repeated taps, with what each save would return. */
  function Taps(saves: seq<Option<Uri>>): (evs: seq<Event>)
    ensures |evs| == |saves|
  {
    if saves == [] then [] else Taps(saves[..|saves| - 1]) + [Tapped(saves[|saves| - 1])]
  }

  /** Memoisation: while a URI is cached and the text does not change, every
      tap shares that same URI and saveImage is never called again. */
  lemma {:induction false} CachedUriReused(s: Screen, saves: seq<Option<Uri>>)
    requires s.uri.Some?
    ensures Run(s, Taps(saves)).0 == s
    ensures Run(s, Taps(saves)).1 == seq(|saves|, _ => Shared(s.uri.value))
    decreases |saves|
  {
    if saves != [] {
      var prefix := saves[..|saves| - 1];
      assert Taps(saves)[..|saves| - 1] == Taps(prefix);
      CachedUriReused(s, prefix);
      assert seq(|prefix|, _ => Shared(s.uri.value)) + [Shared(s.uri.value)] == seq(|saves|, _ => Shared(s.uri.value));
    }
  }
}
