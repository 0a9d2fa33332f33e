/**
 * The screen as the activity holds it: state cells that the text field's
 * `onValueChange`, the debounce effect and the image's click handler update
 * in place, and the bitmap buffer the image displays.
 */
module Activity {
  import opened Options
  import opened Raster
  import opened ScreenLogic

  class QrScreen {
    /** The barcode library, injected. */
    const encode: Encoder

    var text: string
    var uri: Option<Uri>
    var fieldLabel: Label
    /** The debounce effect is in its 500 ms delay. */
    var waiting: bool
    var bitmap: array2<Argb>
    /** The text the bitmap was generated from. */
    ghost var shown: string

    /** The bitmap is the 512 x 512 buffer `generateQRCode(shown)` returns. */
    ghost predicate Valid()
      reads this, bitmap
    {
      bitmap.Length0 == Width && bitmap.Length1 == Height &&
      forall x, y | 0 <= x < Width && 0 <= y < Height :: bitmap[x, y] == Pixel(encode(shown), x, y)
    }

    /** The abstract state the pure model reasons about. */
    ghost function State(): Screen
      reads this
    {
      Screen(text, uri, fieldLabel, waiting, shown)
    }

    /** First composition: `bitmap` starts as `generateQRCode("")`, `text` as
        "", no URI, the initial label, and the effect keyed on "" is launched. */
    constructor (encode: Encoder)
      ensures Valid() && fresh(bitmap)
      ensures this.encode == encode && State() == Start
    {
      this.encode := encode;
      var initial := GenerateQRCode(encode, "");
      bitmap := initial;
      text := "";
      uri := None;
      fieldLabel := EnterAnything;
      waiting := true;
      shown := "";
    }

    /** `TextField.onValueChange`: store the text, forget the saved URI and
        switch the label, whatever the new text is. The bitmap is untouched;
        the effect keyed on the text restarts when the text really changed. */
    method OnValueChange(t: string)
      requires Valid()
      modifies this
      ensures Valid() && bitmap == old(bitmap) && shown == old(shown)
      ensures text == t && uri == None && fieldLabel == TapToShare
      ensures waiting == (old(waiting) || t != old(text))
      ensures State() == ChangeText(old(State()), t)
    {
      if t != text {
        waiting := true;
      }
      text := t;
      uri := None;
      fieldLabel := TapToShare;
    }

    /** The effect's `delay(500)` ended without being restarted:
        `bitmap = generateQRCode(text)`, a new buffer replacing the old one. */
    method OnDelayElapsed()
      requires Valid()
      modifies this
      ensures Valid()
      ensures old(waiting) ==> fresh(bitmap) && shown == text && !waiting
      ensures !old(waiting) ==> bitmap == old(bitmap)
      ensures text == old(text) && uri == old(uri) && fieldLabel == old(fieldLabel)
      ensures State() == FireTimer(old(State())).0
    {
      if waiting {
        bitmap := GenerateQRCode(encode, text);
        shown := text;
        waiting := false;
      }
    }

    /** The image's click handler. `saved` stands for what `saveImage(bitmap)`
        returns if the handler calls it; the returned effects list the call,
        and the share or the snackbar that follows. */
    method OnImageClick(saved: Option<Uri>) returns (effects: seq<Effect>)
      requires Valid()
      modifies this`uri
      ensures Valid()
      ensures (State(), effects) == Tap(old(State()), saved)
    {
      effects := [];
      if uri.None? && !IsBlank(text) {
        effects := [SaveCalled];
        uri := saved;
      }
      if uri.Some? {
        effects := effects + [Shared(uri.value)];
      } else if IsBlank(text) {
        effects := effects + [Snackbar(PleaseEnter)];
      } else {
        effects := effects + [Snackbar(BadThings)];
      }
      assert effects == if old(uri).None? && !IsBlank(text) then [SaveCalled, TapOutcome(text, uri)]
                        else [TapOutcome(text, uri)];
    }
  }
}
