/** The mobile navigation: a click on `.nav-toggle` flips `is-open` on
    `.nav-links`, and a click inside `.nav-links` whose target is itself an
    anchor removes it. Neither handler exists unless both elements do. */
module NavToggle {

  /** `wired`: both `.nav-toggle` and `.nav-links` exist, so the handlers
      are installed. `isOpen`: `.nav-links` has `is-open`. */
  datatype Nav = Nav(wired: bool, isOpen: bool)

  /** A click on the toggle, or a click inside the links whose event target
      has the given `tagName`. */
  datatype Click = ToggleClick | LinksClick(tagName: string)

  /** The tag name an HTML anchor element reports. */
  const AnchorTag: string := "A"

  function Step(n: Nav, c: Click): (r: Nav)
    ensures r.wired == n.wired
    ensures !n.wired ==> r == n
    ensures n.wired && c.ToggleClick? ==> r.isOpen == !n.isOpen
    ensures n.wired && c.LinksClick? ==> r.isOpen == (n.isOpen && c.tagName != AnchorTag)
  {
    if !n.wired then n
    else
      match c
      case ToggleClick => n.(isOpen := !n.isOpen)
      case LinksClick(tag) => if tag == AnchorTag then n.(isOpen := false) else n
  }

  /** The state after a sequence of clicks, oldest first. */
  function Run(n: Nav, clicks: seq<Click>): (r: Nav)
    ensures r.wired == n.wired
    decreases |clicks|
  {
    if clicks == [] then n else Run(Step(n, clicks[0]), clicks[1..])
  }

  /** Two toggle clicks cancel out. */
  lemma ToggleTwice(n: Nav)
    ensures Step(Step(n, ToggleClick), ToggleClick) == n
  {
  }

  /** A click on an anchor inside the links always leaves them closed,
      whatever happened before. */
  lemma {:induction false} AnchorClickCloses(n: Nav, clicks: seq<Click>)
    requires n.wired
    ensures !Run(n, clicks + [LinksClick(AnchorTag)]).isOpen
    decreases |clicks|
  {
    if clicks == [] {
      assert clicks + [LinksClick(AnchorTag)] == [LinksClick(AnchorTag)];
    } else {
      assert (clicks + [LinksClick(AnchorTag)])[1..] == clicks[1..] + [LinksClick(AnchorTag)];
      AnchorClickCloses(Step(n, clicks[0]), clicks[1..]);
    }
  }

  function Toggles(k: nat): (cs: seq<Click>)
    ensures |cs| == k
    ensures forall i :: 0 <= i < k ==> cs[i] == ToggleClick
  {
    seq(k, i => ToggleClick)
  }

  /** Each toggle click flips the state exactly once: after `k` of them the
      links are open exactly when they started open and `k` is even, or
      started closed and `k` is odd. */
  lemma {:induction false} TogglesFlipParity(n: Nav, k: nat)
    requires n.wired
    ensures Run(n, Toggles(k)).isOpen == (n.isOpen != (k % 2 == 1))
    decreases k
  {
    if k > 0 {
      assert Toggles(k)[1..] == Toggles(k - 1);
      TogglesFlipParity(Step(n, ToggleClick), k - 1);
    }
  }

  /** Without both elements no click does anything. */
  lemma {:induction false} UnwiredIgnoresClicks(n: Nav, clicks: seq<Click>)
    requires !n.wired
    ensures Run(n, clicks) == n
    decreases |clicks|
  {
    if clicks != [] {
      UnwiredIgnoresClicks(Step(n, clicks[0]), clicks[1..]);
    }
  }
}
