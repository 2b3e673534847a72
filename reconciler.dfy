/** What one transcription update makes the typist emit: a common-prefix
    diff of the typed text against the new target, carried out either with
    backspaces and a paste or, past a deletion threshold, by clearing the
    field and pasting the whole target. */
module Reconciler {
  import opened Edits

  /** More deletions than this clear the whole field instead. */
  const DeleteThreshold: nat := 100

  /** The length of the longest common prefix of `a` and `b`
      (case-sensitive, character by character). */
  function CommonPrefixLen(a: string, b: string): (n: nat)
    ensures n <= |a| && n <= |b|
    ensures a[..n] == b[..n]
    ensures n < |a| && n < |b| ==> a[n] != b[n]
  {
    if a == [] || b == [] || a[0] != b[0] then 0
    else
      var m := CommonPrefixLen(a[1..], b[1..]);
      assert a[..m + 1] == [a[0]] + a[1..][..m];
      assert b[..m + 1] == [b[0]] + b[1..][..m];
      m + 1
  }

  /** The three facts about a common prefix length determine it. */
  lemma CommonPrefixLenUnique(a: string, b: string, n: nat)
    requires n <= |a| && n <= |b|
    requires a[..n] == b[..n]
    requires n < |a| && n < |b| ==> a[n] != b[n]
    ensures n == CommonPrefixLen(a, b)
  {
  }

  /** A suffix edit: delete `deleteCount` characters at the end, then
      insert `insertText`. */
  datatype Diff = Diff(deleteCount: nat, insertText: string)

  /** The common-prefix diff from `typed` to `target`. */
  function PrefixDiff(typed: string, target: string): (d: Diff)
    ensures d.deleteCount <= |typed|
    ensures DeleteBack(typed, d.deleteCount) + d.insertText == target
    ensures |d.insertText| <= |target| && d.insertText == target[|target| - |d.insertText|..]
  {
    var c := CommonPrefixLen(target, typed);
    assert target == target[..c] + target[c..];
    Diff(|typed| - c, target[c..])
  }

  /** No diff deletes fewer characters: whenever `k` backspaces leave a
      prefix of `target`, `k` is at least the diff's delete count. */
  lemma PrefixDiffMinimal(typed: string, target: string, k: nat)
    requires k <= |typed|
    requires |typed| - k <= |target| && typed[..|typed| - k] == target[..|typed| - k]
    ensures PrefixDiff(typed, target).deleteCount <= k
  {
  }

  /** The early return: nothing to do for an empty target or one that is
      already typed, that is, one whose common prefix with the typed text
      covers both texts. */
  predicate Skips(typed: string, target: string): (b: bool)
    ensures b <==> target == "" || CommonPrefixLen(target, typed) == |target| == |typed|
  {
    assert target[..|target|] == target && typed[..|typed|] == typed;
    target == "" || target == typed
  }

  /** The operations one update emits. There are at most two; a backspace
      never deletes more than the typed length or the threshold, and every
      paste is of a non-empty suffix of the target. */
  function Reconcile(typed: string, target: string): (ops: seq<Op>)
    ensures |ops| <= 2
    ensures forall op :: op in ops && op.Backspace? ==> 0 < op.count <= |typed| && op.count <= DeleteThreshold
    ensures forall op :: op in ops && op.Paste? ==>
              op.text != "" && |op.text| <= |target| && op.text == target[|target| - |op.text|..]
  {
    if Skips(typed, target) then []
    else
      var d := PrefixDiff(typed, target);
      if d.deleteCount > DeleteThreshold then [ClearAll] + PasteOps(target)
      else BackspaceOps(d.deleteCount) + PasteOps(d.insertText)
  }

  /** The typed text after one update: the target whenever it is not
      empty, so that the same update again skips. */
  function TypedAfter(typed: string, target: string): (t: string)
    ensures target != "" ==> t == target
    ensures target == "" ==> t == typed
    ensures Skips(t, target)
  {
    if Skips(typed, target) then typed else target
  }

  /** An update emits nothing exactly when it skips. */
  lemma ReconcileEmptyIffSkips(typed: string, target: string)
    ensures Reconcile(typed, target) == [] <==> Skips(typed, target)
  {
  }

  /** Applied to the typed text, the emitted operations leave exactly the
      text the typist records as typed: the target, unless the update
      skips. */
  lemma ReconcileReachesTarget(typed: string, target: string)
    ensures ApplyAll(typed, Reconcile(typed, target)) == TypedAfter(typed, target)
  {
  }

  /** Past the threshold the update is: clear all, then paste the whole
      target, with no backspaces. */
  lemma ReconcileThresholdPath(typed: string, target: string)
    requires !Skips(typed, target)
    requires PrefixDiff(typed, target).deleteCount > DeleteThreshold
    ensures Reconcile(typed, target) == [ClearAll, Paste(target)]
    ensures forall op :: op in Reconcile(typed, target) ==> !op.Backspace?
  {
  }

  /** Within the threshold the update is: the diff's backspaces, if any,
      then the paste of its insert text, if any, and nothing else. */
  lemma ReconcileNormalPath(typed: string, target: string)
    requires !Skips(typed, target)
    requires PrefixDiff(typed, target).deleteCount <= DeleteThreshold
    ensures var d := PrefixDiff(typed, target);
      Reconcile(typed, target) == BackspaceOps(d.deleteCount) + PasteOps(d.insertText)
    ensures forall i, j ::
              (0 <= i < j < |Reconcile(typed, target)|) ==>
                Reconcile(typed, target)[i].Backspace? && Reconcile(typed, target)[j].Paste?
    ensures forall op :: op in Reconcile(typed, target) ==> !op.ClearAll?
  {
  }

  /** Within the threshold, text `before` that the field holds ahead of
      the typed text (text the typist did not type) is kept. */
  lemma NormalPathKeepsTextBefore(before: string, typed: string, target: string)
    requires !Skips(typed, target)
    requires PrefixDiff(typed, target).deleteCount <= DeleteThreshold
    ensures ApplyAll(before + typed, Reconcile(typed, target)) == before + target
  {
    var d := PrefixDiff(typed, target);
    assert Reconcile(typed, target) == BackspaceOps(d.deleteCount) + PasteOps(d.insertText);
    BackspacesThenPaste(before, typed, d.deleteCount, d.insertText);
    var mid := DeleteBack(typed, d.deleteCount);
    assert mid + d.insertText == target;
    AppendAssociates(before, mid, d.insertText);
  }

  /** Past the threshold, text ahead of the typed text is erased along
      with it: the field ends holding the target alone. */
  lemma ThresholdPathErasesTextBefore(before: string, typed: string, target: string)
    requires !Skips(typed, target)
    requires PrefixDiff(typed, target).deleteCount > DeleteThreshold
    ensures ApplyAll(before + typed, Reconcile(typed, target)) == target
  {
    ClearThenPaste(before + typed, target);
  }

  lemma ClearThenPaste(text: string, target: string)
    ensures ApplyAll(text, [ClearAll] + PasteOps(target)) == target
  {
  }

  lemma BackspacesThenPaste(before: string, typed: string, n: nat, s: string)
    requires n <= |typed|
    ensures ApplyAll(before + typed, BackspaceOps(n) + PasteOps(s)) == (before + DeleteBack(typed, n)) + s
  {
  }

  /** Repeating an update with the same target emits nothing. */
  lemma ReconcileIdempotent(typed: string, target: string)
    ensures Reconcile(TypedAfter(typed, target), target) == []
  {
  }

  /** An empty target never clears the field: it emits nothing. */
  lemma EmptyTargetEmitsNothing(typed: string)
    ensures Reconcile(typed, "") == []
    ensures TypedAfter(typed, "") == typed
  {
  }

  /** From an empty field, "hello" is pasted whole. */
  lemma ScenarioSimpleExtension()
    ensures Reconcile("", "hello") == [Paste("hello")]
    ensures TypedAfter("", "hello") == "hello"
  {
  }

  /** Revising "hello" to "hell" keeps the common prefix "hell" and deletes
      one character, with nothing to paste. */
  lemma ScenarioRevision()
    ensures CommonPrefixLen("hell", "hello") == 4
    ensures Reconcile("hello", "hell") == [Backspace(1)]
  {
  }
}
