# QR Generator: the screen's state machine and the rasterizer

This project models the core of a single-screen Android app that turns typed
text into a QR code, shows it, and shares it as a PNG when the image is tapped
(`app/src/main/java/com/hitmeows/qrgenerator/MainActivity.kt`). The Compose
layout is platform plumbing; two pieces of logic inside it are modelled and
proved here.

- **The rasterizer** (`raster.dfy`, module `Raster`): `generateQRCode`
  allocates a fresh 512 x 512 ARGB_8888 bitmap (every pixel the transparent
  word 0), asks the barcode library for a module matrix, and paints pixel
  (x, y) `Color.BLACK` (0xFF000000) where `bitMatrix[x, y]` is set and
  `Color.WHITE` (0xFFFFFFFF) elsewhere, column by column. Any exception is
  caught and the buffer is returned as it stands. The library is an injected
  function from text to an optional matrix (None: it threw). A read of a module
  outside the matrix is treated as an exception at that cell, so the buffer then
  keeps exactly the pixels painted before it. `Pixel` is the specification of
  the result pixel by pixel. The method proves three things:
  - it matches `Pixel` everywhere;
  - an encoder failure leaves every pixel blank;
  - a matrix covering 512 x 512 gives black exactly where the module is set and
    white elsewhere.
- **The screen** (`screen.dfy`, module `ScreenLogic`): a pure state machine
  over the state `text`, `uri`, the text field's label, the debounce wait and
  the text the bitmap currently shows. It has three logical events:
  - `TextChanged(t)`: the text field's `onValueChange`;
  - `TimerFired`: the `LaunchedEffect(key1 = text) { delay(500) ... }` wait
    ended without being restarted;
  - `Tapped(saved)`: the image's click handler, where `saved` is what
    `saveImage` returns if the handler calls it.

  `Step` and `Run` give the new state and the effects: rendered, save called,
  shared, or a snackbar. The lemmas prove these properties:
  - the invariants of every reachable state;
  - that a cached URI is re-shared without saving;
  - the blank-text and failed-save paths;
  - latest-wins debouncing.
- **The activity's state cells** (`activity.dfy`, class `Activity.QrScreen`):
  fields `text`, `uri`, `fieldLabel`, `waiting` and the `bitmap` array, which
  the three handlers update in place. Each method states its new fields
  outright and ties the new state to `ScreenLogic`'s step function. The class
  invariant `Valid()` says the bitmap is, pixel for pixel, what
  `generateQRCode` returns for the text it was rendered from. After a wait ends
  that text is the current one, and the buffer is a fresh one that replaces the
  old bitmap.

`options.dfy` holds the `Option` type used for Kotlin's nullable values.

Three details of the code:
- The label becomes "tap image to share qr" on every text change, even to a
  blank text, not only once non-blank text has been entered. The initial label
  is "Enter anything to generate qr", with a capital E.
- When encoding fails, the bitmap is replaced by a freshly allocated blank
  buffer. The previously rendered image is not kept.
- There is no input-character filter in this code, so none is modelled.

## Model

| member | source | states |
|---|---|---|
| Raster.GenerateQRCode | app/src/main/java/com/hitmeows/qrgenerator/MainActivity.kt:141-166 | returns a fresh 512 x 512 buffer equal to `Pixel` of the encoder's outcome everywhere; on encoder failure every pixel is the untouched blank word; when the matrix covers 512 x 512, pixel (x, y) is BLACK if module (x, y) is set and WHITE otherwise |
| Raster.UnpaintedFrom | app/src/main/java/com/hitmeows/qrgenerator/MainActivity.kt:155-163 | once a module read raises, no pixel at or after it in the column-by-column scan is painted (the exception leaves the loops) |
| Raster.PaintedNext | app/src/main/java/com/hitmeows/qrgenerator/MainActivity.kt:155-160 | a pixel is painted exactly when every read up to it in scan order succeeded |
| ScreenLogic.Tap | app/src/main/java/com/hitmeows/qrgenerator/MainActivity.kt:98-115 | a tap changes at most the cached URI; it ends in exactly one outcome (share, the blank-text prompt with "okay", or the failure message with "dismiss"), optionally preceded by the save; saveImage is called iff no URI is cached and the text is not blank; a cached URI is shared again without saving; a failed save leaves the URI null and shows the failure snackbar; a successful save caches and shares the new URI |
| ScreenLogic.Step | app/src/main/java/com/hitmeows/qrgenerator/MainActivity.kt:72-124 | a render happens only when the debounce wait ends and renders the text current at that moment; a text change stores the new text, nulls the URI and sets the label to "tap image to share qr", unconditionally |
| ScreenLogic.InvPreserved | app/src/main/java/com/hitmeows/qrgenerator/MainActivity.kt:79-124 | every event sequence keeps the invariant: a cached URI implies non-blank text; once no wait is pending the bitmap shows the current text; the initial label only with the initial empty text and no URI |
| ScreenLogic.ReachableInvariant | app/src/main/java/com/hitmeows/qrgenerator/MainActivity.kt:65-124 | in every state reachable from the first composition, a non-null URI implies non-blank text (and the rest of the invariant holds) |
| ScreenLogic.BlankTapShowsPrompt | app/src/main/java/com/hitmeows/qrgenerator/MainActivity.kt:100-108 | in every reachable state, a tap with blank text neither saves nor shares, leaves the state unchanged, and shows "please enter something in text field" with action "okay" |
| ScreenLogic.NextTapSavesAgain | app/src/main/java/com/hitmeows/qrgenerator/MainActivity.kt:100-122 | after a text change followed by any taps-free sequence of text changes and ended waits, the URI is still null; the next tap then calls saveImage again exactly when the text is not blank and caches what that save returns, so an earlier URI is never reused |
| ScreenLogic.TypeWaitTap | app/src/main/java/com/hitmeows/qrgenerator/MainActivity.kt:65-124 | from the first composition, typing non-blank t, letting the wait end and tapping renders t once, saves, then shares the new URI, or shows the failure snackbar if the save failed |
| ScreenLogic.BurstIsQuiet | app/src/main/java/com/hitmeows/qrgenerator/MainActivity.kt:72-75 | a burst of text changes renders nothing, leaves the wait pending and the URI null, and makes the last text current |
| ScreenLogic.Debounce | app/src/main/java/com/hitmeows/qrgenerator/MainActivity.kt:72-75 | text changes t1..tn, with a wait already pending or started by the first of them, followed by the end of the wait render exactly once, and render tn |
| ScreenLogic.CachedUriReused | app/src/main/java/com/hitmeows/qrgenerator/MainActivity.kt:100-103 | while a URI is cached, any number of taps leaves the state unchanged, never calls saveImage, and shares that same URI each time |
| Activity.QrScreen.constructor | app/src/main/java/com/hitmeows/qrgenerator/MainActivity.kt:65-82 | the first composition: bitmap is `generateQRCode("")`, text empty, URI null, label "Enter anything to generate qr", the wait for key "" pending |
| Activity.QrScreen.OnValueChange | app/src/main/java/com/hitmeows/qrgenerator/MainActivity.kt:119-124 | sets text to the new value, URI to null and the label to "tap image to share qr", whatever the text; leaves the bitmap alone; restarts the wait iff the text changed |
| Activity.QrScreen.OnDelayElapsed | app/src/main/java/com/hitmeows/qrgenerator/MainActivity.kt:72-75 | when a wait was pending, replaces the bitmap with a fresh `generateQRCode(text)` for the current text; nothing else changes |
| Activity.QrScreen.OnImageClick | app/src/main/java/com/hitmeows/qrgenerator/MainActivity.kt:98-115 | the in-place click handler: its new URI and the effects it reports are exactly those of `ScreenLogic.Tap` |

## Left out

- The QR encoding itself (`MultiFormatWriter.encode`, MainActivity.kt:145-153) is a library call. The model takes it as an injected function from text to an optional module matrix. Its behaviour on particular texts, including the empty one, is not modelled.
- Reading a module outside the matrix is modelled as an exception at that cell. The library's real behaviour for such reads is not part of this model.
- `saveImage` (MainActivity.kt:168-183) writes a PNG at quality 90 to `cache/images/shared_image.png` and asks the `FileProvider` for a URI. Only its outcome is modelled: a URI, or null when anything throws.
- `shareImage` (MainActivity.kt:185-194) builds an `ACTION_SEND` intent with type `image/png`, the caption "check out this qr code I generated" and the chooser title "qr generator". It is recorded only as the effect `Shared(uri)`.
- Compose layout, the theme, image and text-field modifiers, and the unused `rememberInfiniteTransition` are left out. Snackbar display, duration (`SnackbarDuration.Short`) and queueing in `SnackbarHostState` are left out too: a snackbar is only a recorded effect.
- Real time and coroutines are left out. The 500 ms delay is the logical event `TimerFired`, and a restart of the effect is the `waiting` flag staying set. The click handler runs in a launched coroutine; the model treats each tap as atomic, so interleaving of overlapping taps is not modelled.
- Recomposition is not modelled. The screen re-runs `var uri: Uri? = null` (MainActivity.kt:79) whenever it recomposes, for instance after a new bitmap. The model clears `uri` only where the handlers do. So `ScreenLogic.FireTimer` and `Activity.QrScreen.OnDelayElapsed` keep a cached URI across a render (`uri == old(uri)`) where the app would drop it. In the model, a tap before the wait ends, then the render, then a second tap shares the first URI again; in the app the second tap saves again. No lemma relies on the cache surviving a render.
- `e.printStackTrace()` and `Log.d` are diagnostics and are left out.
