/** The live typist: it keeps the text it believes it has typed into the
    focused field and, on each transcription update, emits the keyboard
    events that turn that text into the new transcription. */
module GnomeDictationClient {
  import opened Keyboard
  import opened TextField
  import opened Edits
  import opened Reconciler

  /** The events of one update, interpreted by a field at rest that shows
      the typed text, leave it at rest and showing the text the typist then
      records as typed. */
  lemma ReconcileKeystrokesReachTarget(f: Field, target: string)
    requires Quiet(f)
    ensures Quiet(Run(f, LowerAll(Reconcile(f.text, target))))
    ensures Run(f, LowerAll(Reconcile(f.text, target))).text == TypedAfter(f.text, target)
  {
    LowerAllMeaning(f, Reconcile(f.text, target));
    ReconcileReachesTarget(f.text, target);
  }

  /** Appending one update's operations and events keeps a log whose
      events are those of its operations and whose field shows the typed
      text consistent. */
  lemma UpdateKeepsFieldInSync(events: seq<Event>, ops: seq<Op>, typed: string, target: string)
    requires events == LowerAll(ops)
    requires Quiet(Run(Initial(), events)) && Run(Initial(), events).text == typed
    ensures var ops' := ops + Reconcile(typed, target);
      var events' := events + LowerAll(Reconcile(typed, target));
      events' == LowerAll(ops') &&
      Quiet(Run(Initial(), events')) && Run(Initial(), events').text == TypedAfter(typed, target)
  {
    RunAppend(Initial(), events, LowerAll(Reconcile(typed, target)));
    ReconcileKeystrokesReachTarget(Run(Initial(), events), target);
    LowerAllAppend(ops, Reconcile(typed, target));
  }

  /** The length of the longest common prefix of `target` and `typed`,
      found by a left-to-right scan that stops at the first mismatch. */
  method ScanCommonPrefix(target: string, typed: string) returns (common: nat)
    ensures common <= |target| && common <= |typed|
    ensures target[..common] == typed[..common]
    ensures common < |target| && common < |typed| ==> target[common] != typed[common]
    ensures common == CommonPrefixLen(target, typed)
  {
    common := 0;
    var minLen := if |target| < |typed| then |target| else |typed|;
    for i := 0 to minLen
      invariant common == i
      invariant target[..common] == typed[..common]
    {
      if target[i] == typed[i] {
        assert target[..common + 1] == target[..common] + [target[i]];
        assert typed[..common + 1] == typed[..common] + [typed[i]];
        common := common + 1;
      } else {
        break;
      }
    }
    CommonPrefixLenUnique(target, typed, common);
  }

  class GnomeLiveTypist {
    /** The text the typist believes the focused field holds. */
    var currentlyTyped: string
    /** Everything written so far: key events to the virtual keyboard and
        copies to the clipboard, in order. */
    var events: seq<Event>
    /** The edit operations those events carry out, in order. */
    ghost var ops: seq<Op>

    /** The events are exactly those of the operations, and a field that
        started empty and received them is at rest and shows
        `currentlyTyped`. */
    ghost predicate Valid()
      reads this
    {
      events == LowerAll(ops) &&
      Quiet(Run(Initial(), events)) &&
      Run(Initial(), events).text == currentlyTyped
    }

    constructor ()
      ensures Valid()
      ensures currentlyTyped == "" && events == [] && ops == []
    {
      currentlyTyped := "";
      events := [];
      ops := [];
    }

    /** Press every key of `keys` in order, sync, release them in reverse
        order, sync. */
    method PressKeys(keys: seq<Key>)
      modifies this`events
      ensures events == old(events) + Chord(keys)
    {
      for i := 0 to |keys|
        invariant events == old(events) + Presses(keys[..i])
      {
        assert keys[..i + 1][..i] == keys[..i];
        events := events + [KeyDown(keys[i])];
      }
      assert keys[..|keys|] == keys;
      events := events + [Sync];
      for j := |keys| downto 0
        invariant events == old(events) + Presses(keys) + [Sync] + Releases(keys[j..])
      {
        assert keys[j..][1..] == keys[j + 1..];
        events := events + [KeyUp(keys[j])];
      }
      events := events + [Sync];
    }

    /** Press Backspace `count` times; nothing for a count that is not
        positive. */
    method Backspace(count: int)
      modifies this`events, this`ops
      ensures ops == old(ops) + BackspaceOps(count)
      ensures events == old(events) + LowerAll(BackspaceOps(count))
    {
      if count <= 0 {
        assert BackspaceOps(count) == [];
        return;
      }
      // Below ten presses and from ten on, the presses are the same; only
      // the delay between them differs.
      for i := 0 to count
        invariant events == old(events) + Repeat(Chord([KeyBackspace]), i)
        invariant ops == old(ops)
      {
        PressKeys([KeyBackspace]);
      }
      ops := ops + [Op.Backspace(count)];
      LowerAllOne(Op.Backspace(count));
    }

    /** Select all with Ctrl+A, then delete with Backspace. */
    method ClearAll()
      modifies this`events, this`ops
      ensures ops == old(ops) + [Op.ClearAll]
      ensures events == old(events) + LowerAll([Op.ClearAll])
      ensures events == old(events) + Chord([KeyLeftCtrl, KeyA]) + Chord([KeyBackspace])
    {
      PressKeys([KeyLeftCtrl, KeyA]);
      PressKeys([KeyBackspace]);
      ops := ops + [Op.ClearAll];
      LowerAllOne(Op.ClearAll);
    }

    /** Copy `text` to the clipboard and press Ctrl+V; nothing for the
        empty text. */
    method PasteText(text: string)
      modifies this`events, this`ops
      ensures ops == old(ops) + PasteOps(text)
      ensures events == old(events) + LowerAll(PasteOps(text))
      ensures text == "" ==> events == old(events)
      ensures text != "" ==> events == old(events) + [CopyToClipboard(text)] + Chord([KeyLeftCtrl, KeyV])
    {
      if text == "" {
        assert PasteOps(text) == [];
        return;
      }
      events := events + [CopyToClipboard(text)];
      PressKeys([KeyLeftCtrl, KeyV]);
      ops := ops + [Op.Paste(text)];
      LowerAllOne(Op.Paste(text));
    }

    /** Bring the field from `currentlyTyped` to `fullText`. */
    method OnTranscription(fullText: string)
      requires Valid()
      modifies this
      ensures Valid()
      ensures currentlyTyped == TypedAfter(old(currentlyTyped), fullText)
      ensures ops == old(ops) + Reconcile(old(currentlyTyped), fullText)
      ensures events == old(events) + LowerAll(Reconcile(old(currentlyTyped), fullText))
    {
      var target := fullText;
      if target == "" || target == currentlyTyped {
        return;
      }

      var common := ScanCommonPrefix(target, currentlyTyped);

      var charsToDelete := |currentlyTyped| - common;
      var textToAdd := target[common..];
      ghost var typed := currentlyTyped;
      assert PrefixDiff(typed, target) == Diff(charsToDelete, textToAdd);
      ghost var emitted := Reconcile(typed, target);

      if charsToDelete > DeleteThreshold {
        assert emitted == [Op.ClearAll] + PasteOps(target);
        ClearAll();
        currentlyTyped := "";
        PasteText(target);
        currentlyTyped := target;
        LowerAllAppend([Op.ClearAll], PasteOps(target));
        AppendAssociates(old(events), LowerAll([Op.ClearAll]), LowerAll(PasteOps(target)));
        AppendAssociates(old(ops), [Op.ClearAll], PasteOps(target));
      } else {
        assert emitted == BackspaceOps(charsToDelete) + PasteOps(textToAdd);
        if charsToDelete > 0 {
          Backspace(charsToDelete);
        } else {
          assert BackspaceOps(charsToDelete) == [];
        }
        ghost var opsMid, eventsMid := ops, events;
        assert opsMid == old(ops) + BackspaceOps(charsToDelete);
        assert eventsMid == old(events) + LowerAll(BackspaceOps(charsToDelete));
        if textToAdd != "" {
          PasteText(textToAdd);
        } else {
          assert PasteOps(textToAdd) == [];
        }
        assert ops == opsMid + PasteOps(textToAdd);
        assert events == eventsMid + LowerAll(PasteOps(textToAdd));
        currentlyTyped := target;
        LowerAllAppend(BackspaceOps(charsToDelete), PasteOps(textToAdd));
        AppendAssociates(old(events), LowerAll(BackspaceOps(charsToDelete)), LowerAll(PasteOps(textToAdd)));
        AppendAssociates(old(ops), BackspaceOps(charsToDelete), PasteOps(textToAdd));
      }
      UpdateKeepsFieldInSync(old(events), old(ops), typed, target);
    }
  }
}
