/**
 * The hotkey state machine of the `listen` callback: a set of held modifiers
 * where a press of either Meta key inserts `MetaLeft` and a release of either
 * removes it, and a press of J fires while `MetaLeft` is held.
 */
module Hotkey {

  /** The keys the callback distinguishes; every other key is `OtherKey`. */
  datatype Key = MetaLeft | MetaRight | KeyJ | OtherKey(code: nat)

  /** Raw input events; mouse and wheel events are `OtherEvent`. */
  datatype Event = KeyPress(key: Key) | KeyRelease(key: Key) | OtherEvent

  predicate IsMeta(k: Key) {
    k == MetaLeft || k == MetaRight
  }

  predicate IsMetaPress(e: Event) {
    e.KeyPress? && IsMeta(e.key)
  }

  predicate IsMetaRelease(e: Event) {
    e.KeyRelease? && IsMeta(e.key)
  }

  /** The only modifier ever tracked is `MetaLeft`. */
  predicate Tracked(mods: set<Key>) {
    mods <= {MetaLeft}
  }

  /**
   * The modifier set after one event: left and right Meta collapse into
   * `MetaLeft`; every other event leaves the set alone.
   */
  function Step(mods: set<Key>, e: Event): (r: set<Key>)
    ensures MetaLeft in r <==> IsMetaPress(e) || (MetaLeft in mods && !IsMetaRelease(e))
    ensures r - {MetaLeft} == mods - {MetaLeft}
    ensures Tracked(mods) ==> Tracked(r)
  {
    if IsMetaPress(e) then mods + {MetaLeft}
    else if IsMetaRelease(e) then mods - {MetaLeft}
    else mods
  }

  /** A press of J fires exactly while `MetaLeft` is held; firing leaves the held set as it was. */
  predicate Fires(mods: set<Key>, e: Event)
    ensures Fires(mods, e) ==> Step(mods, e) == mods
    ensures e == KeyPress(KeyJ) ==> (Fires(mods, e) <==> MetaLeft in mods)
    ensures e != KeyPress(KeyJ) ==> !Fires(mods, e)
  {
    e == KeyPress(KeyJ) && MetaLeft in mods
  }

  /** The modifier set after a run of events. */
  function After(mods: set<Key>, events: seq<Event>): set<Key> {
    if events == [] then mods
    else Step(After(mods, events[..|events| - 1]), events[|events| - 1])
  }

  /** How many times a run of events fires. */
  function FireCount(mods: set<Key>, events: seq<Event>): nat {
    if events == [] then 0
    else
      var init := events[..|events| - 1];
      FireCount(mods, init) + if Fires(After(mods, init), events[|events| - 1]) then 1 else 0
  }

  /** No Meta key is released after position `i`. */
  predicate NoMetaReleaseAfter(events: seq<Event>, i: int) {
    forall j :: 0 <= j < |events| && i < j ==> !IsMetaRelease(events[j])
  }

  /**
   * Meta is held after a run when some Meta press in it is followed by no Meta
   * release, or when it was held before and no Meta release came at all.
   */
  predicate HeldAfter(mods: set<Key>, events: seq<Event>) {
    || (exists i :: 0 <= i < |events| && IsMetaPress(events[i]) && NoMetaReleaseAfter(events, i))
    || (MetaLeft in mods && NoMetaReleaseAfter(events, -1))
  }

  /** The set the callback keeps agrees with the history of Meta presses and releases. */
  lemma {:induction false} AfterMatchesHistory(mods: set<Key>, events: seq<Event>)
    ensures MetaLeft in After(mods, events) <==> HeldAfter(mods, events)
  {
    if events != [] {
      var n := |events|;
      var init := events[..n - 1];
      var e := events[n - 1];
      AfterMatchesHistory(mods, init);
      if IsMetaPress(e) {
        assert NoMetaReleaseAfter(events, n - 1);
      } else if IsMetaRelease(e) {
        forall i | 0 <= i < n && IsMetaPress(events[i]) ensures !NoMetaReleaseAfter(events, i) {
          assert i < n - 1;
        }
      } else {
        forall i | -1 <= i < n - 1 ensures NoMetaReleaseAfter(events, i) <==> NoMetaReleaseAfter(init, i) {
          if NoMetaReleaseAfter(init, i) {
            forall j | 0 <= j < n && i < j ensures !IsMetaRelease(events[j]) {
              if j < n - 1 {
                assert events[j] == init[j];
              }
            }
          }
          if NoMetaReleaseAfter(events, i) {
            forall j | 0 <= j < n - 1 && i < j ensures !IsMetaRelease(init[j]) {
              assert events[j] == init[j];
            }
          }
        }
        if HeldAfter(mods, init) {
          if MetaLeft in mods && NoMetaReleaseAfter(init, -1) {
            assert NoMetaReleaseAfter(events, -1);
          } else {
            var i :| 0 <= i < n - 1 && IsMetaPress(init[i]) && NoMetaReleaseAfter(init, i);
            assert events[i] == init[i];
            assert NoMetaReleaseAfter(events, i);
          }
        }
        if HeldAfter(mods, events) {
          if MetaLeft in mods && NoMetaReleaseAfter(events, -1) {
            assert NoMetaReleaseAfter(init, -1);
          } else {
            var i :| 0 <= i < n && IsMetaPress(events[i]) && NoMetaReleaseAfter(events, i);
            assert i < n - 1;
            assert init[i] == events[i];
            assert NoMetaReleaseAfter(init, i);
          }
        }
      }
    }
  }

  /** Every reachable set tracks at most `MetaLeft`. */
  lemma {:induction false} AfterTracked(mods: set<Key>, events: seq<Event>)
    requires Tracked(mods)
    ensures Tracked(After(mods, events))
  {
    if events != [] {
      AfterTracked(mods, events[..|events| - 1]);
    }
  }

  /**
   * Left and right Meta are one key: press left, press right, release right
   * leaves no Meta held, so the J press after it does not fire.
   */
  lemma MixedMetaDoesNotFire()
    ensures FireCount({}, [KeyPress(MetaLeft), KeyPress(MetaRight), KeyRelease(MetaRight), KeyPress(KeyJ)]) == 0
  {
    var es := [KeyPress(MetaLeft), KeyPress(MetaRight), KeyRelease(MetaRight), KeyPress(KeyJ)];
    assert es[..3] == [KeyPress(MetaLeft), KeyPress(MetaRight), KeyRelease(MetaRight)];
    assert es[..3][..2] == [KeyPress(MetaLeft), KeyPress(MetaRight)];
    assert es[..3][..2][..1] == [KeyPress(MetaLeft)];
    assert After({}, es[..3][..2][..1]) == {MetaLeft};
    assert After({}, es[..3][..2]) == {MetaLeft};
    assert After({}, es[..3]) == {};
    assert FireCount({}, es[..3][..2][..1]) == 0;
    assert FireCount({}, es[..3][..2]) == 0;
    assert FireCount({}, es[..3]) == 0;
  }

  /** Meta then J fires once; J alone, or after Meta was released, does not; a second J fires again. */
  lemma ChordExamples()
    ensures FireCount({}, [KeyPress(MetaLeft), KeyPress(KeyJ)]) == 1
    ensures FireCount({}, [KeyPress(KeyJ)]) == 0
    ensures FireCount({}, [KeyPress(MetaRight), KeyRelease(MetaRight), KeyPress(KeyJ)]) == 0
    ensures FireCount({}, [KeyPress(MetaLeft), KeyPress(KeyJ), KeyPress(KeyJ)]) == 2
  {
    var a := [KeyPress(MetaLeft), KeyPress(KeyJ)];
    assert a[..1] == [KeyPress(MetaLeft)];
    var b := [KeyPress(MetaRight), KeyRelease(MetaRight), KeyPress(KeyJ)];
    assert b[..2] == [KeyPress(MetaRight), KeyRelease(MetaRight)];
    assert b[..2][..1] == [KeyPress(MetaRight)];
    var c := [KeyPress(MetaLeft), KeyPress(KeyJ), KeyPress(KeyJ)];
    assert c[..2] == a;
  }
}
