/** The edit operations the typist emits, what each does to the text of a
    field whose cursor is at the end, and the keyboard events each one is
    carried out with. */
module Edits {
  import opened Keyboard
  import opened TextField

  /** Select all and delete; `count` backspaces; paste `text` through the
      clipboard. */
  datatype Op = ClearAll | Backspace(count: nat) | Paste(text: string)

  /** `s` after `n` backspaces at its end (a backspace on an empty text does
      nothing). */
  function DeleteBack(s: string, n: nat): string
  {
    if n <= |s| then s[..|s| - n] else ""
  }

  /** The text after `op`. */
  function Apply(text: string, op: Op): string
  {
    match op
    case ClearAll => ""
    case Backspace(n) => DeleteBack(text, n)
    case Paste(s) => text + s
  }

  /** The text after `ops`, in order. */
  function ApplyAll(text: string, ops: seq<Op>): string
    decreases |ops|
  {
    if ops == [] then text else ApplyAll(Apply(text, ops[0]), ops[1..])
  }

  /** `evs` written `n` times. */
  function Repeat(evs: seq<Event>, n: nat): (r: seq<Event>)
    ensures |r| == n * |evs|
  {
    if n == 0 then [] else Repeat(evs, n - 1) + evs
  }

  /** The key events `op` is carried out with: Ctrl+A then Backspace; one
      Backspace chord per character; a clipboard copy then Ctrl+V. */
  function Lower(op: Op): (evs: seq<Event>)
    ensures op.ClearAll? ==> |evs| == 10
    ensures op.Backspace? ==> |evs| == 4 * op.count
    ensures op.Paste? ==> |evs| == 7 && evs[0] == CopyToClipboard(op.text)
  {
    match op
    case ClearAll => Chord([KeyLeftCtrl, KeyA]) + Chord([KeyBackspace])
    case Backspace(n) => Repeat(Chord([KeyBackspace]), n)
    case Paste(s) => [CopyToClipboard(s)] + Chord([KeyLeftCtrl, KeyV])
  }

  /** The key events of `ops`, in order. */
  function LowerAll(ops: seq<Op>): seq<Event>
    decreases |ops|
  {
    if ops == [] then [] else Lower(ops[0]) + LowerAll(ops[1..])
  }

  /** What a backspace request emits: nothing for a count that is not
      positive, one `Backspace` otherwise. Either way it deletes `count`
      characters when `count` is positive and none otherwise. */
  function BackspaceOps(count: int): (ops: seq<Op>)
    ensures |ops| <= 1
    ensures ops == [] <==> count <= 0
    ensures forall t :: ApplyAll(t, ops) == DeleteBack(t, if count > 0 then count else 0)
  {
    if count > 0 then
      assert [Backspace(count)][1..] == [];
      [Backspace(count)]
    else []
  }

  /** What a paste request emits: nothing for the empty text, otherwise
      one `Paste` of exactly `text`. Either way it appends `text`. */
  function PasteOps(text: string): (ops: seq<Op>)
    ensures |ops| <= 1
    ensures ops == [] <==> text == ""
    ensures forall op :: op in ops ==> op == Paste(text)
    ensures forall t :: ApplyAll(t, ops) == t + text
  {
    if text == "" then
      assert forall t: string :: t + text == t;
      []
    else
      assert [Paste(text)][1..] == [];
      [Paste(text)]
  }

  lemma AppendAssociates<T>(a: seq<T>, b: seq<T>, c: seq<T>)
    ensures (a + b) + c == a + (b + c)
  {
  }

  lemma {:induction false} LowerAllAppend(a: seq<Op>, b: seq<Op>)
    ensures LowerAll(a + b) == LowerAll(a) + LowerAll(b)
    decreases |a|
  {
    if a == [] {
      assert a + b == b;
    } else {
      assert (a + b)[0] == a[0];
      assert (a + b)[1..] == a[1..] + b;
      LowerAllAppend(a[1..], b);
    }
  }

  lemma LowerAllOne(op: Op)
    ensures LowerAll([op]) == Lower(op)
  {
    assert [op][1..] == [];
  }

  lemma {:induction false} ApplyAllAppend(text: string, a: seq<Op>, b: seq<Op>)
    ensures ApplyAll(text, a + b) == ApplyAll(ApplyAll(text, a), b)
    decreases |a|
  {
    if a == [] {
      assert a + b == b;
    } else {
      assert (a + b)[0] == a[0];
      assert (a + b)[1..] == a[1..] + b;
      ApplyAllAppend(Apply(text, a[0]), a[1..], b);
    }
  }

  /** A backspace request for `count` presses the Backspace key exactly
      `count` times when `count` is positive and never otherwise, and
      presses no other key. */
  lemma BackspacePressCount(count: int, k: Key)
    ensures multiset(LowerAll(BackspaceOps(count)))[KeyDown(k)] ==
              if k == KeyBackspace && count > 0 then count else 0
  {
    if count > 0 {
      LowerAllOne(Backspace(count));
      RepeatCount(count, k);
    }
  }

  lemma {:induction false} RepeatCount(n: nat, k: Key)
    ensures multiset(Repeat(Chord([KeyBackspace]), n))[KeyDown(k)] == if k == KeyBackspace then n else 0
  {
    if n > 0 {
      var tap, rest := Chord([KeyBackspace]), Repeat(Chord([KeyBackspace]), n - 1);
      RepeatCount(n - 1, k);
      TapCount(k);
      assert Repeat(tap, n) == rest + tap;
      assert multiset(rest + tap)[KeyDown(k)] == multiset(rest)[KeyDown(k)] + multiset(tap)[KeyDown(k)];
    }
  }

  lemma TapCount(k: Key)
    ensures multiset(Chord([KeyBackspace]))[KeyDown(k)] == if k == KeyBackspace then 1 else 0
  {
    ChordReleasesOnce([KeyBackspace], k);
    assert multiset([KeyBackspace])[k] == if k == KeyBackspace then 1 else 0;
  }

  /** `n` backspace chords on a field at rest delete `n` characters. */
  lemma {:induction false} RepeatBackspace(f: Field, n: nat)
    requires Quiet(f)
    ensures Run(f, Repeat(Chord([KeyBackspace]), n)) == f.(text := DeleteBack(f.text, n))
  {
    if n > 0 {
      var tap := Chord([KeyBackspace]);
      RepeatBackspace(f, n - 1);
      RunAppend(f, Repeat(tap, n - 1), tap);
      TapBackspace(f.(text := DeleteBack(f.text, n - 1)));
    }
  }

  /** The key events of `op`, interpreted by a field at rest, change its
      text exactly as `op` says and leave it at rest. */
  lemma LowerMeaning(f: Field, op: Op)
    requires Quiet(f)
    ensures Quiet(Run(f, Lower(op)))
    ensures Run(f, Lower(op)).text == Apply(f.text, op)
  {
    match op
    case ClearAll => SelectAllThenBackspace(f);
    case Backspace(n) => RepeatBackspace(f, n);
    case Paste(s) => CopyThenPaste(f, s);
  }

  /** The same for a sequence of operations. */
  lemma {:induction false} LowerAllMeaning(f: Field, ops: seq<Op>)
    requires Quiet(f)
    ensures Quiet(Run(f, LowerAll(ops)))
    ensures Run(f, LowerAll(ops)).text == ApplyAll(f.text, ops)
    decreases |ops|
  {
    if ops != [] {
      LowerMeaning(f, ops[0]);
      RunAppend(f, Lower(ops[0]), LowerAll(ops[1..]));
      LowerAllMeaning(Run(f, Lower(ops[0])), ops[1..]);
    }
  }
}
