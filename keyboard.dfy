/** The virtual keyboard's vocabulary: the keys it is created with, the
    entries written to it, and the event pattern of one key chord. */
module Keyboard {

  /** The keys the virtual keyboard declares as its capabilities. */
  datatype Key = KeyBackspace | KeyLeftCtrl | KeyV | KeyLeftShift | KeyInsert | KeyA

  /** One entry of the output: a key going down, a key going up, a
      synchronisation report, or a copy of text to the clipboard. */
  datatype Event = KeyDown(key: Key) | KeyUp(key: Key) | Sync | CopyToClipboard(text: string)

  /** Key-down events for `keys`, in list order. */
  function Presses(keys: seq<Key>): seq<Event>
  {
    if keys == [] then [] else Presses(keys[..|keys| - 1]) + [KeyDown(keys[|keys| - 1])]
  }

  /** Key-up events for `keys`, last key first. */
  function Releases(keys: seq<Key>): seq<Event>
  {
    if keys == [] then [] else Releases(keys[1..]) + [KeyUp(keys[0])]
  }

  /** What pressing the chord `keys` writes: every press, a sync, every
      release, a sync. It is made of key and sync events only, two per key
      plus two syncs, and nothing in it touches the clipboard. */
  function Chord(keys: seq<Key>): (evs: seq<Event>)
    ensures |evs| == 2 * |keys| + 2
    ensures evs[|keys|] == Sync && evs[2 * |keys| + 1] == Sync
    ensures forall e :: e in evs ==> !e.CopyToClipboard?
  {
    PressesAt(keys);
    ReleasesAt(keys);
    Presses(keys) + [Sync] + Releases(keys) + [Sync]
  }

  lemma {:induction false} PressesAt(keys: seq<Key>)
    ensures |Presses(keys)| == |keys|
    ensures forall i :: 0 <= i < |keys| ==> Presses(keys)[i] == KeyDown(keys[i])
  {
    if keys != [] {
      PressesAt(keys[..|keys| - 1]);
    }
  }

  lemma {:induction false} ReleasesAt(keys: seq<Key>)
    ensures |Releases(keys)| == |keys|
    ensures forall i :: 0 <= i < |keys| ==> Releases(keys)[i] == KeyUp(keys[|keys| - 1 - i])
  {
    if keys != [] {
      ReleasesAt(keys[1..]);
    }
  }

  lemma {:induction false} PressesCount(keys: seq<Key>, k: Key)
    ensures multiset(Presses(keys))[KeyDown(k)] == multiset(keys)[k]
    ensures multiset(Presses(keys))[KeyUp(k)] == 0
  {
    if keys != [] {
      var init := keys[..|keys| - 1];
      assert keys == init + [keys[|keys| - 1]];
      PressesCount(init, k);
    }
  }

  lemma {:induction false} ReleasesCount(keys: seq<Key>, k: Key)
    ensures multiset(Releases(keys))[KeyUp(k)] == multiset(keys)[k]
    ensures multiset(Releases(keys))[KeyDown(k)] == 0
  {
    if keys != [] {
      assert keys == [keys[0]] + keys[1..];
      ReleasesCount(keys[1..], k);
    }
  }

  /** The layout of a chord: presses in list order, a sync, releases in
      reverse list order, a sync. */
  lemma ChordLayout(keys: seq<Key>)
    ensures |Chord(keys)| == 2 * |keys| + 2
    ensures forall i :: 0 <= i < |keys| ==> Chord(keys)[i] == KeyDown(keys[i])
    ensures Chord(keys)[|keys|] == Sync
    ensures forall i :: |keys| < i < 2 * |keys| + 1 ==> Chord(keys)[i] == KeyUp(keys[2 * |keys| - i])
    ensures Chord(keys)[2 * |keys| + 1] == Sync
  {
    PressesAt(keys);
    ReleasesAt(keys);
  }

  /** Every key of a chord goes down and comes up exactly as often as it
      occurs in `keys`. */
  lemma ChordReleasesOnce(keys: seq<Key>, k: Key)
    ensures multiset(Chord(keys))[KeyDown(k)] == multiset(keys)[k]
    ensures multiset(Chord(keys))[KeyUp(k)] == multiset(keys)[k]
  {
    PressesCount(keys, k);
    ReleasesCount(keys, k);
    var p, r := Presses(keys), Releases(keys);
    assert Chord(keys) == p + [Sync] + r + [Sync];
    assert multiset(Chord(keys)) == multiset(p) + multiset{Sync} + multiset(r) + multiset{Sync};
  }

  /** No key of a chord comes up before the last one has gone down. */
  lemma ChordReleasesAfterPresses(keys: seq<Key>)
    ensures forall i, j ::
              (0 <= i < |Chord(keys)| && 0 <= j < |Chord(keys)| &&
               Chord(keys)[i].KeyDown? && Chord(keys)[j].KeyUp?) ==> i < j
  {
    ChordLayout(keys);
  }

  lemma ChordOfOne(k: Key)
    ensures Chord([k]) == [KeyDown(k), Sync, KeyUp(k), Sync]
  {
    ChordLayout([k]);
  }

  lemma ChordOfTwo(k1: Key, k2: Key)
    ensures Chord([k1, k2]) == [KeyDown(k1), KeyDown(k2), Sync, KeyUp(k2), KeyUp(k1), Sync]
  {
    ChordLayout([k1, k2]);
  }
}
