/**
 * Layered maps. A generation chain stores, per generation, only the heap cells and stack levels
 * it changed; what the chain means is the overlay of those layers, newer layers shadowing older
 * ones. Layer 0 is the oldest generation.
 */
module Overlays {
  function Overlay<T>(layers: seq<map<int, T>>): map<int, T> {
    if layers == [] then map[] else Overlay(layers[..|layers| - 1]) + layers[|layers| - 1]
  }

  lemma {:induction false} OverlayAppend<T>(a: seq<map<int, T>>, b: seq<map<int, T>>)
    ensures Overlay(a + b) == Overlay(a) + Overlay(b)
    decreases |b|
  {
    if b == [] {
      assert a + b == a;
    } else {
      var b0 := b[..|b| - 1];
      assert (a + b)[..|a + b| - 1] == a + b0;
      OverlayAppend(a, b0);
    }
  }

  /** The layers after moving the newest layer into layer 0, as a collapse does one generation at a time. */
  function MoveTopDown<T>(segment: seq<map<int, T>>): (r: seq<map<int, T>>)
    requires |segment| >= 2
    ensures |r| == |segment| - 1
  {
    var top := segment[|segment| - 1];
    [segment[0] + top] + seq(|segment| - 2, j requires 0 <= j < |segment| - 2 => segment[j + 1] - top.Keys)
  }

  /**
   * Moving the newest layer's entries into the oldest layer, and deleting the now-superseded
   * entries of those keys from the layers in between, keeps the overlay of the segment.
   */
  lemma {:induction false} MoveTopDownKeepsOverlay<T>(segment: seq<map<int, T>>)
    requires |segment| >= 2
    ensures Overlay(MoveTopDown(segment)) == Overlay(segment)
  {
    var s0, top := segment[0], segment[|segment| - 1];
    var middle := segment[1..|segment| - 1];
    var minus := seq(|middle|, j requires 0 <= j < |middle| => middle[j] - top.Keys);
    var moved := MoveTopDown(segment);
    assert segment == ([s0] + middle) + [top];
    assert moved == [s0 + top] + minus;
    OverlayAppend([s0] + middle, [top]);
    OverlayAppend([s0], middle);
    OverlayAppend([s0 + top], minus);
    OverlayMinus(middle, top.Keys);
    OverlaySingle(s0);
    OverlaySingle(top);
    OverlaySingle(s0 + top);
    ShadowReorder(s0, Overlay(middle), top);
  }

  lemma {:induction false} OverlaySingle<T>(m: map<int, T>)
    ensures Overlay([m]) == m
  {
    assert [m][..0] == [];
  }

  lemma {:induction false} ShadowReorder<T>(older: map<int, T>, middle: map<int, T>, newer: map<int, T>)
    ensures (older + middle) + newer == (older + newer) + (middle - newer.Keys)
  {
  }

  /** Deleting the same keys from every layer deletes them from the overlay. */
  lemma {:induction false} OverlayMinus<T>(layers: seq<map<int, T>>, keys: set<int>)
    ensures Overlay(seq(|layers|, j requires 0 <= j < |layers| => layers[j] - keys)) == Overlay(layers) - keys
    decreases |layers|
  {
    var minus := seq(|layers|, j requires 0 <= j < |layers| => layers[j] - keys);
    if layers != [] {
      var init := layers[..|layers| - 1];
      assert minus[..|minus| - 1] == seq(|init|, j requires 0 <= j < |init| => init[j] - keys);
      OverlayMinus(init, keys);
    }
  }

  /** Keeping only the keys below `bound`. */
  function KeysBelow<T>(m: map<int, T>, bound: int): (r: map<int, T>)
    ensures forall k :: k in r <==> k in m && k < bound
  {
    map k | k in m && k < bound :: m[k]
  }
}
