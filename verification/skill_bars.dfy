/** `animateSkillBars`, run on every scroll and once on load: a bar whose
    box is inside the visibility band and whose fill is not yet marked
    animated gets `${target}%` assigned to its fill's width and is marked,
    so the width is assigned at most once. Whether the browser accepts the
    assigned string as a CSS length is not modelled. */
module SkillBars {
  import opened Optional

  /** The band's margin, in pixels, at the top and at the bottom of the
      viewport. */
  const Margin: int := 80

  /** The value written to the fill's `data-animated` attribute. */
  const AnimatedMark: string := "true"

  /** The `.skill-fill` element: `width` is the last string the script
      assigned to its `style.width` (the browser may discard a string that is
      not a valid length), and `animated` its `data-animated` attribute
      (`None` when the attribute is absent). */
  datatype Fill = Fill(width: string, animated: Option<string>)

  /** A `.skill-bar`: its `data-skill` attribute and its fill, if it has one. */
  datatype Bar = Bar(skill: Option<string>, fill: Option<Fill>)

  /** The vertical edges of a bar's bounding box, in whole pixels. */
  datatype Rect = Rect(top: int, bottom: int)

  /** The bar's box overlaps the viewport shrunk by the margin at both ends. */
  predicate InBand(r: Rect, innerHeight: int)
  {
    r.top < innerHeight - Margin && r.bottom > Margin
  }

  /** JavaScript truthiness of `fill.dataset.animated`: present and
      non-empty. */
  predicate Latched(f: Fill)
  {
    f.animated.Some? && f.animated.value != []
  }

  /** The template literal `${target}%`; a missing attribute reads as
      `null`. */
  function WidthFor(skill: Option<string>): string
  {
    match skill
    case None => "null%"
    case Some(t) => t + "%"
  }

  /** The bar after its one write: target width, marked animated. */
  function Written(b: Bar): Bar
  {
    b.(fill := Some(Fill(WidthFor(b.skill), Some(AnimatedMark))))
  }

  /** One bar's turn in the loop. A bar without a fill is skipped; a bar
      changes only if it was unmarked and is in the band, and then it is
      marked and `${target}%` is assigned to its width. */
  function AnimateBar(b: Bar, r: Rect, innerHeight: int): (b': Bar)
    ensures b.fill.None? ==> b' == b
    ensures b.fill.Some? ==> b'.fill.Some? && (Latched(b'.fill.value) <==> Latched(b.fill.value) || InBand(r, innerHeight))
    ensures b' != b ==> b.fill.Some? && !Latched(b.fill.value) && InBand(r, innerHeight)
    ensures b.fill.Some? && !Latched(b.fill.value) && InBand(r, innerHeight) ==>
              b'.skill == b.skill && b'.fill.value.width == WidthFor(b.skill)
  {
    match b.fill
    case None => b
    case Some(f) => if InBand(r, innerHeight) && !Latched(f) then Written(b) else b
  }

  /** The whole `forEach`: each bar, in order, against its own box. */
  function AnimateSkillBars(bars: seq<Bar>, rects: seq<Rect>, innerHeight: int): (r: seq<Bar>)
    requires |rects| == |bars|
    ensures |r| == |bars|
    ensures forall i :: 0 <= i < |bars| ==> r[i] == AnimateBar(bars[i], rects[i], innerHeight)
  {
    if bars == [] then []
    else [AnimateBar(bars[0], rects[0], innerHeight)] + AnimateSkillBars(bars[1..], rects[1..], innerHeight)
  }

  /** Once a fill is marked, no later call changes the bar, wherever it is
      and whatever the viewport. */
  lemma LatchedBarIsFinal(b: Bar, r: Rect, innerHeight: int)
    requires b.fill.Some? && Latched(b.fill.value)
    ensures AnimateBar(b, r, innerHeight) == b
  {
  }

  /** Repeating a pass over the same geometry changes nothing more. */
  lemma AnimateSkillBarsIdempotent(bars: seq<Bar>, rects: seq<Rect>, innerHeight: int)
    requires |rects| == |bars|
    ensures var once := AnimateSkillBars(bars, rects, innerHeight);
            AnimateSkillBars(once, rects, innerHeight) == once
  {
    var once := AnimateSkillBars(bars, rects, innerHeight);
    var twice := AnimateSkillBars(once, rects, innerHeight);
    forall i | 0 <= i < |bars|
      ensures twice[i] == once[i]
    {
      var b := bars[i];
      if b.fill.Some? && !Latched(b.fill.value) && InBand(rects[i], innerHeight) {
        assert once[i] == Written(b);
      }
    }
  }

  /** One scroll or load event as one bar sees it. */
  datatype View = View(rect: Rect, innerHeight: int)

  /** The bar after a sequence of events, oldest first. */
  function Replay(b: Bar, views: seq<View>): (r: Bar)
    ensures r.skill == b.skill
    ensures b.fill.None? ==> r == b
    ensures b.fill.Some? ==> r.fill.Some? && (Latched(b.fill.value) ==> r == b)
    decreases |views|
  {
    if views == [] then b
    else Replay(AnimateBar(b, views[0].rect, views[0].innerHeight), views[1..])
  }

  predicate SomeInBand(views: seq<View>)
  {
    exists i :: 0 <= i < |views| && InBand(views[i].rect, views[i].innerHeight)
  }

  /** Over any sequence of events a bar is written at most once: it ends
      written exactly when it had an unmarked fill and some event saw it in
      the band, and is otherwise unchanged. */
  lemma {:induction false} ReplayWritesOnce(b: Bar, views: seq<View>)
    ensures Replay(b, views) ==
            if b.fill.Some? && !Latched(b.fill.value) && SomeInBand(views) then Written(b) else b
    decreases |views|
  {
    if views != [] {
      var v := views[0];
      var b1 := AnimateBar(b, v.rect, v.innerHeight);
      ReplayWritesOnce(b1, views[1..]);
      if b.fill.Some? && !Latched(b.fill.value) && InBand(v.rect, v.innerHeight) {
        assert b1 == Written(b);
        assert Latched(b1.fill.value);
        assert SomeInBand(views);
      } else {
        assert b1 == b;
        if SomeInBand(views[1..]) {
          var i :| 0 <= i < |views[1..]| && InBand(views[1..][i].rect, views[1..][i].innerHeight);
          assert views[i + 1] == views[1..][i];
        }
        if SomeInBand(views) {
          var i :| 0 <= i < |views| && InBand(views[i].rect, views[i].innerHeight);
          if b.fill.Some? && !Latched(b.fill.value) {
            assert i != 0;
            assert views[1..][i - 1] == views[i];
          }
        }
      }
    }
  }
}
