/**
 * `getVisibleBackground` of content.js: the colour an element appears to stand
 * on. The walk starts at the element itself and climbs through its ancestors,
 * stopping before the document element (or when the chain of parents ends),
 * and returns the first computed background colour that is neither empty nor
 * transparent. When there is none it returns the body's background, or white
 * when the body has none.
 *
 * The DOM is abstracted to the sequence of computed `backgroundColor` strings
 * of the elements the walk visits, nearest first, and the body's own computed
 * background.
 */
module VisibleBackground {

  /** The white used when even the body has no background. */
  const White: string := "rgb(255,255,255)"

  /** A computed background that the walk accepts: non-empty, and neither the
      fully transparent black of the style engine nor the keyword. */
  predicate IsVisible(bg: string) {
    bg != "" && bg != "rgba(0, 0, 0, 0)" && bg != "transparent"
  }

  /** `bodyBackground || "rgb(255,255,255)"`: only the empty string is
      replaced. */
  function BodyFallback(body: string): (bg: string)
    ensures bg != ""
    ensures body != "" ==> bg == body
    ensures body == "" ==> bg == White
  {
    if body != "" then body else White
  }

  /** The background the walk settles on, as a reference definition over the
      chain of visited backgrounds. */
  function VisibleBackgroundOf(chain: seq<string>, body: string): string
    decreases |chain|
  {
    if chain == [] then BodyFallback(body)
    else if IsVisible(chain[0]) then chain[0]
    else VisibleBackgroundOf(chain[1..], body)
  }

  /** No element before index `k` of the chain has a visible background. */
  predicate NoneVisibleBefore(chain: seq<string>, k: int)
    requires 0 <= k <= |chain|
  {
    forall j :: 0 <= j < k ==> !IsVisible(chain[j])
  }

  /** The walk returns the nearest visible background: if the element at `k` is
      the first with a visible background, that is the result. */
  lemma {:induction false} FirstVisibleWins(chain: seq<string>, body: string, k: nat)
    requires k < |chain| && IsVisible(chain[k]) && NoneVisibleBefore(chain, k)
    ensures VisibleBackgroundOf(chain, body) == chain[k]
  {
    if k > 0 {
      assert !IsVisible(chain[0]);
      assert NoneVisibleBefore(chain[1..], k - 1) by {
        forall j | 0 <= j < k - 1 ensures !IsVisible(chain[1..][j]) {
          assert chain[1..][j] == chain[j + 1];
        }
      }
      FirstVisibleWins(chain[1..], body, k - 1);
    }
  }

  /** With no visible background on the way up, the walk falls back to the
      body's background, or white. */
  lemma {:induction false} NoneVisibleFallsBack(chain: seq<string>, body: string)
    requires NoneVisibleBefore(chain, |chain|)
    ensures VisibleBackgroundOf(chain, body) == BodyFallback(body)
  {
    if chain != [] {
      assert !IsVisible(chain[0]);
      assert NoneVisibleBefore(chain[1..], |chain| - 1) by {
        forall j | 0 <= j < |chain| - 1 ensures !IsVisible(chain[1..][j]) {
          assert chain[1..][j] == chain[j + 1];
        }
      }
      NoneVisibleFallsBack(chain[1..], body);
    }
  }

  /** The result is never the empty string: it is either a visible background
      of the chain or the body fallback. */
  lemma {:induction false} NeverEmpty(chain: seq<string>, body: string)
    ensures VisibleBackgroundOf(chain, body) != ""
    ensures VisibleBackgroundOf(chain, body) in chain || VisibleBackgroundOf(chain, body) == BodyFallback(body)
  {
    if chain != [] && !IsVisible(chain[0]) {
      NeverEmpty(chain[1..], body);
    }
  }

  /** A transparent body background is not replaced by white: only an empty
      one is. */
  lemma TransparentBodyKept()
    ensures VisibleBackgroundOf([], "rgba(0, 0, 0, 0)") == "rgba(0, 0, 0, 0)"
    ensures VisibleBackgroundOf(["transparent"], "") == White
  {
  }

  /** The loop of `getVisibleBackground`: `current` climbs the chain until a
      visible background is found or the chain ends. The result is the first
      visible background, at index `k`, or the body fallback when there is
      none. */
  method GetVisibleBackground(chain: seq<string>, body: string) returns (bg: string)
    ensures bg == VisibleBackgroundOf(chain, body)
    ensures (exists k :: 0 <= k < |chain| && IsVisible(chain[k]) && NoneVisibleBefore(chain, k) && bg == chain[k])
         || (NoneVisibleBefore(chain, |chain|) && bg == BodyFallback(body))
  {
    var current := 0;
    while current < |chain|
      invariant 0 <= current <= |chain|
      invariant NoneVisibleBefore(chain, current)
      invariant VisibleBackgroundOf(chain[current..], body) == VisibleBackgroundOf(chain, body)
    {
      var here := chain[current];
      if IsVisible(here) {
        assert chain[current..][0] == here;
        return here;
      }
      assert chain[current..][1..] == chain[current + 1..];
      current := current + 1;
    }
    assert chain[current..] == [];
    bg := BodyFallback(body);
  }
}
