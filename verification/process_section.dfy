/** The narrative slider of the process section: on wide viewports the
    section is pinned and vertical scrolling drives a horizontal track of
    one-viewport-wide panels, one per step. Everything the section renders
    is derived from the scroll progress and the number of steps; the
    animation library itself is replaced by its target values. */
module ProcessSection {
  import opened Common

  /** `(min-width: 768px)`: the slider is only installed at or above it. */
  const MinWidth: real := 768.0

  /** The scrub window is this many viewport heights long. */
  const ScrollHeights: real := 3.0

  function Abs(x: real): real {
    if x < 0.0 then -x else x
  }

  /** `Math.round(x)`: the nearest integer, halves rounded up. */
  function Round(x: real): (r: int)
    ensures r as real - 0.5 <= x < r as real + 0.5
  {
    (x + 0.5).Floor
  }

  /** `Round` picks a nearest integer, and rounds an integer to itself. */
  lemma RoundIsNearest(x: real, k: int)
    ensures Abs(x - Round(x) as real) <= Abs(x - k as real)
    ensures x == k as real ==> Round(x) == k
  {
  }

  lemma RoundMonotone(x: real, y: real)
    requires x <= y
    ensures Round(x) <= Round(y)
  {
  }

  /** Scaling by a non-negative factor keeps the order of progress values
      and maps [0, 1] into [0, m]. */
  lemma ScaleMonotone(p: real, q: real, m: real)
    requires 0.0 <= p <= q && m >= 0.0
    ensures 0.0 <= p * m <= q * m
    ensures q <= 1.0 ==> q * m <= m
  {
  }

  /** `Math.round(progress * (steps.length - 1))`, the step shown as active. */
  function ActiveStep(progress: real, n: nat): (r: int)
    requires 0.0 <= progress <= 1.0
    ensures n >= 1 ==> 0 <= r <= n - 1
    ensures progress == 0.0 ==> r == 0
    ensures n >= 1 && progress == 1.0 ==> r == n - 1
  {
    Round(progress * (n - 1) as real)
  }

  /** The active step never goes back while the progress moves forward. */
  lemma ActiveStepMonotone(p: real, q: real, n: nat)
    requires 0.0 <= p <= q <= 1.0 && n >= 1
    ensures ActiveStep(p, n) <= ActiveStep(q, n)
  {
    ScaleMonotone(p, q, (n - 1) as real);
    RoundMonotone(p * (n - 1) as real, q * (n - 1) as real);
  }

  /** `snapTo: 1 / (steps.length - 1)`. With a single step the source divides
      by zero (JavaScript yields Infinity); that case is `None`. */
  function SnapIncrement(n: nat): (r: Option<real>)
    ensures r.None? <==> n == 1
    ensures n >= 2 ==> r.Some? && r.value * (n - 1) as real == 1.0
  {
    if n == 1 then None else Some(1.0 / (n - 1) as real)
  }

  /** The `k`-th snap point of an `n`-step slider. */
  function SnapPoint(n: nat, k: nat): (p: real)
    requires n >= 2 && k <= n - 1
    ensures 0.0 <= p <= 1.0
    ensures p * (n - 1) as real == k as real
  {
    k as real / (n - 1) as real
  }

  /** Snapping never changes the step: the `k`-th multiple of the snap
      increment is exactly step `k`, so the snap grid is the set of step
      positions. */
  lemma SnapPointIsStep(n: nat, k: nat)
    requires n >= 2 && k <= n - 1
    ensures SnapIncrement(n).value * k as real == SnapPoint(n, k)
    ensures ActiveStep(SnapPoint(n, k), n) == k
  {
  }

  /** Four steps, half-way through the window: round(1.5) is step 2. */
  lemma HalfwayOfFourSteps()
    ensures ActiveStep(0.5, 4) == 2
  {
  }

  /** What the setup effect installs: a tween of the track towards `targetX`
      with linear ease, pinned over a scroll window, snapping to a grid. */
  datatype SliderTween = SliderTween(targetX: real, start: real, scrollDistance: real, snap: Option<real>)

  /** The browser facts the effect reads. */
  datatype Viewport = Viewport(innerWidth: real, innerHeight: real)

  /** The setup effect: nothing below the breakpoint or when either the
      section or the track element is missing; otherwise a track that travels
      one viewport width per step transition, driven by a scroll window that
      starts when the section's top reaches the viewport's top. */
  function Install(vp: Viewport, sectionTop: real, hasSection: bool, hasTrack: bool, n: nat): (r: Option<SliderTween>)
    ensures r.Some? <==> vp.innerWidth >= MinWidth && hasSection && hasTrack
    ensures r.Some? ==> r.value.start == sectionTop
    ensures r.Some? ==> r.value.scrollDistance == ScrollHeights * vp.innerHeight
    ensures r.Some? ==> r.value.snap == SnapIncrement(n)
  {
    if vp.innerWidth < MinWidth then None
    else if !hasSection || !hasTrack then None
    else
      var travelX := vp.innerWidth * (n - 1) as real;
      var scrollDist := vp.innerHeight * 3.0;
      Some(SliderTween(-travelX, sectionTop, scrollDist, SnapIncrement(n)))
  }

  /** The track's horizontal offset at a given progress (`ease: 'none'`). */
  function TrackOffset(t: SliderTween, progress: real): real {
    progress * t.targetX
  }

  /** The offset starts at 0 and ends one viewport width per transition to
      the left, moving monotonically; at the `k`-th snap point it is exactly
      `k` panel widths, so the panel in view is the active step's panel. */
  lemma TrackOffsetProperties(vp: Viewport, sectionTop: real, n: nat, p: real, q: real, k: nat)
    requires vp.innerWidth >= MinWidth && n >= 2
    requires 0.0 <= p <= q <= 1.0 && k <= n - 1
    ensures var t := Install(vp, sectionTop, true, true, n).value;
      && TrackOffset(t, 0.0) == 0.0
      && TrackOffset(t, 1.0) == -vp.innerWidth * (n - 1) as real
      && TrackOffset(t, q) <= TrackOffset(t, p) <= 0.0
      && TrackOffset(t, SnapPoint(n, k)) == -(k as real) * vp.innerWidth
      && ActiveStep(SnapPoint(n, k), n) == k
  {
  }

  /** Scroll position to progress over the scrub window, clamped to [0, 1]
      (the scroll-trigger semantics the tween is bound to). */
  function Progress(t: SliderTween, scroll: real): (r: real)
    requires t.scrollDistance > 0.0
    ensures 0.0 <= r <= 1.0
  {
    var raw := (scroll - t.start) / t.scrollDistance;
    if raw < 0.0 then 0.0 else if raw > 1.0 then 1.0 else raw
  }

  /** Progress is 0 at the window's start, 1 at its end, follows the scroll
      position monotonically in both directions, and is linear in between. */
  lemma ProgressProperties(t: SliderTween, a: real, b: real)
    requires t.scrollDistance > 0.0 && a <= b
    ensures Progress(t, t.start) == 0.0
    ensures Progress(t, t.start + t.scrollDistance) == 1.0
    ensures Progress(t, a) <= Progress(t, b)
    ensures t.start <= a <= t.start + t.scrollDistance ==>
      Progress(t, a) * t.scrollDistance == a - t.start
  {
  }

  /** Four steps on a 1024px-wide viewport, scrolled half-way through the
      window: progress 0.5 and active step 2. */
  lemma FourStepScenario(innerHeight: real, sectionTop: real)
    requires innerHeight > 0.0
    ensures var t := Install(Viewport(1024.0, innerHeight), sectionTop, true, true, 4).value;
      && Progress(t, sectionTop + 0.5 * t.scrollDistance) == 0.5
      && ActiveStep(Progress(t, sectionTop + 0.5 * t.scrollDistance), 4) == 2
  {
    var t := Install(Viewport(1024.0, innerHeight), sectionTop, true, true, 4).value;
    assert (0.5 * t.scrollDistance) / t.scrollDistance == 0.5;
  }

  /** A 500px viewport is below the breakpoint: nothing is installed. */
  lemma NarrowViewportScenario(innerHeight: real, sectionTop: real, n: nat)
    ensures Install(Viewport(500.0, innerHeight), sectionTop, true, true, n).None?
  {
  }

  /** What the effect has installed at a given moment. */
  datatype Slider = Reverted | Installed(tween: SliderTween)

  /** The media-query binding: when the viewport starts matching the
      breakpoint the setup runs (once; an installed slider is kept as it is),
      and when it stops matching everything installed is reverted. */
  function OnViewport(s: Slider, vp: Viewport, sectionTop: real, hasSection: bool, hasTrack: bool, n: nat): (r: Slider)
    ensures vp.innerWidth < MinWidth ==> r.Reverted?
    ensures s.Installed? && vp.innerWidth >= MinWidth ==> r == s
    ensures s.Reverted? && vp.innerWidth >= MinWidth ==>
      (r.Installed? <==> hasSection && hasTrack)
  {
    if vp.innerWidth < MinWidth then Reverted
    else if s.Installed? then s
    else
      match Install(vp, sectionTop, hasSection, hasTrack, n)
      case Some(t) => Installed(t)
      case None => Reverted
  }

  /** `mm.revert()` on unmount or when the step count changes. */
  function Cleanup(s: Slider): (r: Slider)
    ensures r.Reverted?
  {
    Reverted
  }

  /** Runs the binding over a sequence of viewport changes. */
  function RunViewports(s: Slider, vps: seq<Viewport>, sectionTop: real, hasSection: bool, hasTrack: bool, n: nat): Slider
    decreases |vps|
  {
    if |vps| == 0 then s
    else RunViewports(OnViewport(s, vps[0], sectionTop, hasSection, hasTrack, n), vps[1..], sectionTop, hasSection, hasTrack, n)
  }

  /** Mode exclusivity: after any sequence of viewport changes a slider is
      installed only if the last viewport is at least the breakpoint wide,
      and never one without both elements present. */
  lemma {:induction false} InstalledOnlyWhenWide(s: Slider, vps: seq<Viewport>, sectionTop: real, hasSection: bool, hasTrack: bool, n: nat)
    requires s.Installed? ==> hasSection && hasTrack
    ensures var r := RunViewports(s, vps, sectionTop, hasSection, hasTrack, n);
      (r.Installed? ==> hasSection && hasTrack)
      && (|vps| > 0 && r.Installed? ==> vps[|vps| - 1].innerWidth >= MinWidth)
      && (|vps| > 0 && vps[|vps| - 1].innerWidth < MinWidth ==> r.Reverted?)
    decreases |vps|
  {
    if |vps| > 0 {
      var s' := OnViewport(s, vps[0], sectionTop, hasSection, hasTrack, n);
      InstalledOnlyWhenWide(s', vps[1..], sectionTop, hasSection, hasTrack, n);
      if |vps| > 1 {
        assert vps[1..][|vps[1..]| - 1] == vps[|vps| - 1];
      }
    }
  }

  /** How a timeline node is drawn relative to the active step. */
  datatype NodeState = Past | Current | Future

  function NodeOf(i: int, active: int): NodeState {
    if i < active then Past else if i == active then Current else Future
  }

  /** The timeline nodes of an `n`-step slider. */
  function Nodes(n: nat, active: int): (r: seq<NodeState>)
    ensures |r| == n
  {
    seq(n, i requires 0 <= i < n => NodeOf(i, active))
  }

  /** One step title above the timeline: visible and exposed to assistive
      technology only for the active step. */
  datatype Title = Title(visible: bool, ariaHidden: bool)

  function Titles(n: nat, active: int): (r: seq<Title>)
    ensures |r| == n
  {
    seq(n, i requires 0 <= i < n => Title(i == active, i != active))
  }

  /** With the active step in range, the nodes before it are Past, the ones
      after it Future, exactly one node is Current, and exactly one title is
      visible and not hidden from assistive technology, the same one. */
  lemma ExactlyOneCurrent(n: nat, active: int)
    requires 0 <= active < n
    ensures (set i | 0 <= i < n && Nodes(n, active)[i] == Current) == {active}
    ensures forall i :: 0 <= i < n ==> (Nodes(n, active)[i] == Past <==> i < active)
    ensures forall i :: 0 <= i < n ==> (Nodes(n, active)[i] == Future <==> i > active)
    ensures (set i | 0 <= i < n && Titles(n, active)[i].visible) == {active}
    ensures (set i | 0 <= i < n && !Titles(n, active)[i].ariaHidden) == {active}
  {
  }

  /** The progress bar's width in percent: the share of transitions done. */
  function ProgressBarWidth(active: int, n: nat): real {
    if n > 1 then (active as real / (n - 1) as real) * 100.0 else 0.0
  }

  /** For an in-range active step the bar lies within [0, 100], is full
      exactly on the last step and empty exactly on the first (or when there
      is at most one step). */
  lemma ProgressBarBounds(active: int, n: nat)
    requires 0 <= active && (active < n || active == 0)
    ensures 0.0 <= ProgressBarWidth(active, n) <= 100.0
    ensures n > 1 ==> (ProgressBarWidth(active, n) == 100.0 <==> active == n - 1)
    ensures ProgressBarWidth(active, n) == 0.0 <==> (active == 0 || n <= 1)
  {
  }

  /** Everything rendered from a reachable scroll state is consistent: the
      active step is in range, exactly one node and one title are current,
      and the bar is within bounds. The initial state (step 0) is included. */
  lemma DerivedStateConsistent(progress: real, n: nat)
    requires 0.0 <= progress <= 1.0 && n >= 1
    ensures var a := ActiveStep(progress, n);
      && 0 <= a < n
      && (set i | 0 <= i < n && Nodes(n, a)[i] == Current) == {a}
      && 0.0 <= ProgressBarWidth(a, n) <= 100.0
  {
  }
}
