# Live dictation typist — a verified model

This project models the live typist of a GNOME dictation client. A speech
recogniser keeps sending the full transcription of the utterance so far.
The typist remembers the text it believes it has already typed into the
focused field (`currentlyTyped`). On each update it brings the field from
that text to the new transcription:

- it skips an empty transcription, or one equal to what is already typed;
- it scans both texts left to right for their longest common prefix,
  case-sensitively, stopping at the first mismatch;
- it deletes the typed characters after that prefix with Backspace, then
  pastes the remainder of the transcription through the clipboard
  (Ctrl+V);
- when more than 100 characters would have to be deleted, it instead
  selects all (Ctrl+A), deletes, and pastes the whole transcription;
- it then records the transcription as typed.

Keys are pressed on a virtual keyboard. Pressing a chord means: every key
goes down in list order, a sync report, every key comes up in reverse
order, another sync report.

The model has five modules:

- `Keyboard` (`keyboard.dfy`): the keys of the virtual keyboard, the
  entries written to the output, and `Chord`, the event pattern of one
  key press.
- `TextField` (`text_field.dfy`): a model of the receiving text field,
  with the cursor at the end. Backspace deletes the last character, or
  the whole text when it is selected. Ctrl+A selects everything. Ctrl+V
  inserts the clipboard. This field is the environment: it is an
  assumption about the desktop, not code of the client.
- `Edits` (`edits.dfy`): the three edit operations the typist emits
  (`ClearAll`, `Backspace(n)`, `Paste(s)`), their effect on the field's
  text (`Apply`), and the key events each is carried out with (`Lower`).
  It proves that those events, run on the field model, have exactly the
  effect `Apply` states.
- `Reconciler` (`reconciler.dfy`): the common-prefix diff and
  `Reconcile`, the operations one update emits, with their properties.
  These include edit correctness, the threshold path, idempotence and
  minimality of the deletions.
- `GnomeDictationClient` (`gnome_dictation_client.dfy`): the class
  `GnomeLiveTypist`. It has the field `currentlyTyped`, the log `events`
  of everything written to the keyboard and the clipboard, and a ghost
  log `ops` of the edit operations. Its methods mirror the source's
  methods. `OnTranscription` keeps the object invariant `Valid()`. That
  invariant says a field that started empty and received every event
  written so far is at rest and shows exactly `currentlyTyped`.

The code and the repository's design description disagree, and the model
follows the code:

- The design describes hallucination filtering, time-window locking of
  settled segments, voice commands for lists and new lines, and text
  assembly. None of them is in the code: the client uses the server's
  already joined `full_text` as it is and ignores `segments`.
- The design's diff has no deletion threshold. The code falls back to
  clear-all-and-paste past 100 deletions.
- The design returns without output when no segments are left after
  filtering, and otherwise diffs even against an empty target, which
  clears the field. The code skips an empty `full_text` whatever segments
  arrive, so an empty transcription never clears the field.

One consequence of the code shows up in two lemmas. Suppose the field
already held text the typist did not type, ahead of the typed text.
Within the threshold that text is kept (`NormalPathKeepsTextBefore`).
Past the threshold, Ctrl+A erases it along with the typed text
(`ThresholdPathErasesTextBefore`). The source comment says the fallback
deliberately clears everything, so this is recorded as behaviour, not as
a defect.

## Model

| member | source | states |
|---|---|---|
| `Keyboard.Chord` | scripts/gnome_dictation_client.py:29-37 | what pressing a list of keys writes: two events per key plus two syncs, a sync right after the presses and one at the end, and no clipboard entry |
| `Keyboard.PressesAt` | scripts/gnome_dictation_client.py:31-32 | the press events are one key-down per key, in list order |
| `Keyboard.ReleasesAt` | scripts/gnome_dictation_client.py:35-36 | the release events are one key-up per key, last key first |
| `Keyboard.ChordLayout` | scripts/gnome_dictation_client.py:29-37 | a chord is the presses in order, a sync, the releases in reverse order, a sync; its length is twice the key count plus two |
| `Keyboard.ChordReleasesOnce` | scripts/gnome_dictation_client.py:29-37 | each key goes down and comes up exactly as often as it occurs in the list |
| `Keyboard.ChordReleasesAfterPresses` | scripts/gnome_dictation_client.py:29-37 | in a chord, every key-up event comes after every key-down event |
| `TextField.TapBackspace` | scripts/gnome_dictation_client.py:45 | one Backspace chord on a field at rest removes its last character and leaves it at rest |
| `TextField.SelectAllThenBackspace` | scripts/gnome_dictation_client.py:54-59 | Ctrl+A followed by Backspace empties a field at rest |
| `TextField.CopyThenPaste` | scripts/gnome_dictation_client.py:61-70 | copying a text to the clipboard and pressing Ctrl+V appends that text to a field at rest |
| `Edits.Lower` | scripts/gnome_dictation_client.py:39-70 | the events each operation is carried out with: 10 for a clear, 4 per character for a backspace request, 7 for a paste, the first of which copies the pasted text to the clipboard; what these events do to the field is stated by `Edits.LowerMeaning` |
| `Edits.BackspaceOps` | scripts/gnome_dictation_client.py:39-41 | a backspace request emits at most one operation, none exactly when `count` is not positive, and deletes `count` characters when `count` is positive and none otherwise |
| `Edits.PasteOps` | scripts/gnome_dictation_client.py:61-63 | a paste request emits nothing exactly when its text is empty, otherwise the single operation `Paste` of that text; either way it appends the text |
| `Edits.BackspacePressCount` | scripts/gnome_dictation_client.py:39-52 | a backspace request for a count presses Backspace exactly that many times when it is positive, otherwise never, and presses no other key |
| `Edits.RepeatBackspace` | scripts/gnome_dictation_client.py:43-52 | n Backspace chords delete the last n characters, or everything when there are fewer |
| `Edits.LowerMeaning` | scripts/gnome_dictation_client.py:39-70 | the key events of one edit operation change the field's text exactly as the operation says and leave the field at rest |
| `Edits.LowerAllMeaning` | scripts/gnome_dictation_client.py:39-70 | the same holds for a whole sequence of operations |
| `Reconciler.CommonPrefixLen` | scripts/gnome_dictation_client.py:79-85 | the result is at most both lengths, both texts agree up to it, and below both lengths they differ at it, so it is the longest common prefix |
| `Reconciler.CommonPrefixLenUnique` | scripts/gnome_dictation_client.py:79-85 | those three facts determine the common prefix length |
| `Reconciler.PrefixDiff` | scripts/gnome_dictation_client.py:87-88 | the delete count is between 0 and the typed length; deleting that many characters from the typed text and appending the insert text gives the target; the insert text is a suffix of the target |
| `Reconciler.PrefixDiffMinimal` | scripts/gnome_dictation_client.py:79-88 | any number of backspaces that leaves a prefix of the target is at least the diff's delete count |
| `Reconciler.Skips` | scripts/gnome_dictation_client.py:74-77 | the early return: the target is empty, or its common prefix with the typed text covers both texts |
| `Reconciler.Reconcile` | scripts/gnome_dictation_client.py:76-106 | the operations one update emits: at most two; none when the update skips; past `DeleteThreshold` (100) deletions ClearAll then Paste of the whole target; otherwise the diff's backspaces if any, then the paste of its insert text if any. A backspace never deletes more than the typed length or 100 characters, and every paste is of a non-empty suffix of the target |
| `Reconciler.TypedAfter` | scripts/gnome_dictation_client.py:76-108 | the text recorded as typed after an update: the target whenever it is not empty, otherwise the old typed text; the same update again then skips |
| `Reconciler.ReconcileEmptyIffSkips` | scripts/gnome_dictation_client.py:76-77 | an update emits no operation if and only if the target is empty or equal to the typed text |
| `Reconciler.ReconcileReachesTarget` | scripts/gnome_dictation_client.py:76-108 | applying the emitted operations to the typed text yields the text recorded as typed afterwards: the target, or the unchanged text when the update skips |
| `Reconciler.ReconcileThresholdPath` | scripts/gnome_dictation_client.py:94-100 | past 100 deletions the update is exactly ClearAll then Paste of the whole target, with no backspace |
| `Reconciler.ReconcileNormalPath` | scripts/gnome_dictation_client.py:102-106 | within the threshold the update is the diff's backspaces if any, then the paste of its insert text if any; every backspace precedes every paste and there is no ClearAll |
| `Reconciler.NormalPathKeepsTextBefore` | scripts/gnome_dictation_client.py:102-108 | within the threshold, text the field holds ahead of the typed text is kept in front of the target |
| `Reconciler.ThresholdPathErasesTextBefore` | scripts/gnome_dictation_client.py:94-100 | past the threshold, the field ends holding the target alone, whatever preceded the typed text |
| `Reconciler.ReconcileIdempotent` | scripts/gnome_dictation_client.py:76-77 | repeating an update with the same target emits nothing |
| `Reconciler.EmptyTargetEmitsNothing` | scripts/gnome_dictation_client.py:76-77 | an empty target emits nothing and leaves the typed text as it was |
| `Reconciler.ScenarioSimpleExtension` | scripts/gnome_dictation_client.py:76-108 | from nothing typed, the target "hello" is pasted whole and recorded |
| `Reconciler.ScenarioRevision` | scripts/gnome_dictation_client.py:79-106 | from "hello" to "hell": common prefix 4, one backspace, nothing pasted |
| `GnomeDictationClient.ScanCommonPrefix` | scripts/gnome_dictation_client.py:79-85 | the left-to-right scan that stops at the first mismatch returns the longest common prefix length |
| `GnomeDictationClient.ReconcileKeystrokesReachTarget` | scripts/gnome_dictation_client.py:72-108 | the key events of one update, run on a field at rest that shows the typed text, leave it at rest showing the text recorded as typed |
| `GnomeDictationClient.UpdateKeepsFieldInSync` | scripts/gnome_dictation_client.py:72-108 | appending one update's operations and events to logs that agree keeps them agreeing, and the field then shows the new typed text |
| `GnomeDictationClient.GnomeLiveTypist.constructor` | scripts/gnome_dictation_client.py:19-27 | a new typist has typed nothing, written nothing and satisfies its invariant |
| `GnomeDictationClient.GnomeLiveTypist.PressKeys` | scripts/gnome_dictation_client.py:29-37 | the event log grows by exactly the chord of the given keys |
| `GnomeDictationClient.GnomeLiveTypist.Backspace` | scripts/gnome_dictation_client.py:39-52 | for a positive count, one Backspace operation and that many Backspace chords are logged; for any other count nothing is logged |
| `GnomeDictationClient.GnomeLiveTypist.ClearAll` | scripts/gnome_dictation_client.py:54-59 | one ClearAll operation is logged, and the events grow by exactly its lowering: the Ctrl+A chord then the Backspace chord |
| `GnomeDictationClient.GnomeLiveTypist.PasteText` | scripts/gnome_dictation_client.py:61-70 | the logs grow by exactly the paste request's operations and their events: for a non-empty text a clipboard copy of it then the Ctrl+V chord, for the empty text nothing |
| `GnomeDictationClient.GnomeLiveTypist.OnTranscription` | scripts/gnome_dictation_client.py:72-108 | the logs grow by exactly the update's operations and their events, `currentlyTyped` becomes the target unless the update skips, and the field model keeps showing `currentlyTyped` |

## Left out

- Creating the evdev virtual keyboard, and exiting when that fails: this is device I/O. Writing to the device is modelled only as entries appended to the `events` log.
- The numeric evdev key codes: keys are a datatype of the six declared keys. Left Shift and Insert are declared but never pressed.
- The `time.sleep` delays: they only affect timing. For this reason the two branches of `backspace` (fewer than ten presses, or more) are one loop in the model; they differ only in the delay.
- `pyperclip`, a foreign library: the clipboard copy that `paste_text` makes is modelled as a `CopyToClipboard` entry in the same log. Saving and restoring the user's clipboard in `main` is not modelled.
- Signal handlers, process exit and the `TranscriptionClient` network client with its callback wiring: this is process lifecycle and networking. A sequence of callbacks is a sequence of `OnTranscription` calls on one typist.
- The debug `print` lines: logging only.
- The `segments` argument of `on_transcription`: the source ignores it, so `OnTranscription` takes only the full text.
- The behaviour of the real GNOME text field: `TextField` is an assumed model of it, covering the keys the typist presses. It assumes a field that starts empty and that no one else edits. It also assumes that one Backspace removes exactly one `char` (one code point), which is what the source's deletion count (the difference of two code-point lengths) relies on. A real field deletes a whole grapheme cluster after some base letters, for example a decomposed "é" (a base letter followed by a combining accent). `ReconcileKeystrokesReachTarget`, `UpdateKeepsFieldInSync` and the invariant `Valid()` hold only under this assumption.
- Failures of the foreign calls: writes and sync reports to the virtual keyboard and the clipboard copy are assumed never to fail. In the source, an exception from one of them leaves `on_transcription` part-way through. On the threshold path the typed text is then "" after the clear; on the normal path it keeps the old text although backspaces were already sent. The model cannot represent either state.
