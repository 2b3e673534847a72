/** A model of the focused text field that receives the virtual keyboard's
    events, with the cursor always at the end of its text. It is the
    environment the typist writes to, not part of the typist itself: it
    gives the emitted events a meaning so that their effect can be stated. */
module TextField {
  import opened Keyboard

  /** The field's text, whether all of it is selected, the keys held down,
      and the clipboard contents. */
  datatype Field = Field(text: string, selected: bool, held: set<Key>, clipboard: string)

  /** An empty field with nothing selected and no key held. */
  function Initial(): Field
  {
    Field("", false, {}, "")
  }

  /** At rest: no key held down and nothing selected. */
  predicate Quiet(f: Field)
  {
    f.held == {} && !f.selected
  }

  /** The text with its last character removed (a backspace at the end). */
  function DropLast(s: string): (r: string)
    ensures |s| > 0 ==> s == r + [s[|s| - 1]]
    ensures |s| == 0 ==> r == ""
  {
    if s == "" then "" else s[..|s| - 1]
  }

  /** Typing `s`: it replaces the selection, or is appended at the cursor. */
  function TypeText(f: Field, s: string): Field
  {
    f.(text := (if f.selected then "" else f.text) + s, selected := false)
  }

  /** What pressing `k` does to `f` (in which `k` is already held); `ctrl`
      says whether the left Ctrl key was held before. */
  function PressKey(f: Field, k: Key, ctrl: bool): Field
  {
    match k
    case KeyBackspace =>
      if f.selected then f.(text := "", selected := false) else f.(text := DropLast(f.text))
    case KeyA => if ctrl then f.(selected := true) else TypeText(f, "a")
    case KeyV => if ctrl then TypeText(f, f.clipboard) else TypeText(f, "v")
    case _ => f
  }

  /** The effect of one event on the field. */
  function Step(f: Field, e: Event): Field
  {
    match e
    case KeyDown(k) => PressKey(f.(held := f.held + {k}), k, KeyLeftCtrl in f.held)
    case KeyUp(k) => f.(held := f.held - {k})
    case Sync => f
    case CopyToClipboard(s) => f.(clipboard := s)
  }

  /** The effect of a sequence of events, in order. */
  function Run(f: Field, evs: seq<Event>): Field
    decreases |evs|
  {
    if evs == [] then f else Run(Step(f, evs[0]), evs[1..])
  }

  /** Running two event sequences one after the other is running their
      concatenation. */
  lemma {:induction false} RunAppend(f: Field, a: seq<Event>, b: seq<Event>)
    ensures Run(f, a + b) == Run(Run(f, a), b)
    decreases |a|
  {
    if a == [] {
      assert a + b == b;
    } else {
      assert (a + b)[0] == a[0];
      assert (a + b)[1..] == a[1..] + b;
      RunAppend(Step(f, a[0]), a[1..], b);
    }
  }

  lemma RunCons(f: Field, e: Event, rest: seq<Event>)
    ensures Run(f, [e] + rest) == Run(Step(f, e), rest)
  {
    assert ([e] + rest)[1..] == rest;
  }

  /** A backspace chord on a field at rest removes the last character. */
  lemma TapBackspace(f: Field)
    requires Quiet(f)
    ensures Run(f, Chord([KeyBackspace])) == f.(text := DropLast(f.text))
  {
    ChordOfOne(KeyBackspace);
  }

  /** Ctrl+A on a field at rest selects all of it. */
  lemma SelectAll(f: Field)
    requires Quiet(f)
    ensures Run(f, Chord([KeyLeftCtrl, KeyA])) == f.(selected := true)
  {
    ChordOfTwo(KeyLeftCtrl, KeyA);
    var g1 := f.(held := {KeyLeftCtrl});
    var g2 := f.(held := {KeyLeftCtrl, KeyA}, selected := true);
    var g3 := f.(held := {KeyLeftCtrl}, selected := true);
    RunCons(f, KeyDown(KeyLeftCtrl), [KeyDown(KeyA), Sync, KeyUp(KeyA), KeyUp(KeyLeftCtrl), Sync]);
    RunCons(g1, KeyDown(KeyA), [Sync, KeyUp(KeyA), KeyUp(KeyLeftCtrl), Sync]);
    RunCons(g2, Sync, [KeyUp(KeyA), KeyUp(KeyLeftCtrl), Sync]);
    RunCons(g2, KeyUp(KeyA), [KeyUp(KeyLeftCtrl), Sync]);
    assert {KeyLeftCtrl, KeyA} - {KeyA} == {KeyLeftCtrl};
    RunCons(g3, KeyUp(KeyLeftCtrl), [Sync]);
    RunCons(f.(selected := true), Sync, []);
  }

  /** Ctrl+A followed by a backspace chord empties a field at rest. */
  lemma SelectAllThenBackspace(f: Field)
    requires Quiet(f)
    ensures Run(f, Chord([KeyLeftCtrl, KeyA]) + Chord([KeyBackspace])) == f.(text := "")
  {
    RunAppend(f, Chord([KeyLeftCtrl, KeyA]), Chord([KeyBackspace]));
    SelectAll(f);
    var g := f.(selected := true);
    ChordOfOne(KeyBackspace);
    var h := f.(held := {KeyBackspace}, text := "");
    RunCons(g, KeyDown(KeyBackspace), [Sync, KeyUp(KeyBackspace), Sync]);
    RunCons(h, Sync, [KeyUp(KeyBackspace), Sync]);
    RunCons(h, KeyUp(KeyBackspace), [Sync]);
    RunCons(h.(held := {}), Sync, []);
  }

  /** Copying `s` to the clipboard and pressing Ctrl+V appends `s` to a
      field at rest. */
  lemma CopyThenPaste(f: Field, s: string)
    requires Quiet(f)
    ensures Run(f, [CopyToClipboard(s)] + Chord([KeyLeftCtrl, KeyV])) == f.(text := f.text + s, clipboard := s)
  {
    ChordOfTwo(KeyLeftCtrl, KeyV);
    var g0 := f.(clipboard := s);
    var g1 := g0.(held := {KeyLeftCtrl});
    var g2 := g0.(held := {KeyLeftCtrl, KeyV}, text := f.text + s);
    var g3 := g2.(held := {KeyLeftCtrl});
    RunCons(f, CopyToClipboard(s), Chord([KeyLeftCtrl, KeyV]));
    RunCons(g0, KeyDown(KeyLeftCtrl), [KeyDown(KeyV), Sync, KeyUp(KeyV), KeyUp(KeyLeftCtrl), Sync]);
    RunCons(g1, KeyDown(KeyV), [Sync, KeyUp(KeyV), KeyUp(KeyLeftCtrl), Sync]);
    RunCons(g2, Sync, [KeyUp(KeyV), KeyUp(KeyLeftCtrl), Sync]);
    RunCons(g2, KeyUp(KeyV), [KeyUp(KeyLeftCtrl), Sync]);
    assert {KeyLeftCtrl, KeyV} - {KeyV} == {KeyLeftCtrl};
    RunCons(g3, KeyUp(KeyLeftCtrl), [Sync]);
    RunCons(g3.(held := {}), Sync, []);
  }
}
