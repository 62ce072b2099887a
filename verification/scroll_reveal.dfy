/** The one-shot reveal of a container's direct children: on setup every
    child is hidden and shifted down; the first visibility notification
    animates them all back in with a per-child stagger and disconnects the
    observer, so the reveal happens at most once and never re-hides. */
module ScrollReveal {
  import opened Common

  /** The component's knobs: stagger between children (s), starting vertical
      offset (px), animation duration (s). */
  datatype Config = Config(stagger: real, distance: real, duration: real)

  /** The defaults of the component's props. */
  const DefaultConfig: Config := Config(0.08, 24.0, 0.75)

  /** The fraction of the container that must be on screen to count as
      intersecting. */
  const Threshold: real := 0.08

  /** The pose a child is set or animated to: `autoAlpha` and `y`. */
  datatype Pose = Pose(autoAlpha: real, y: real)

  /** One child's entrance animation. */
  datatype Tween = Tween(target: Pose, delay: real, duration: real)

  const Shown: Pose := Pose(1.0, 0.0)

  function Hidden(cfg: Config): Pose {
    Pose(0.0, cfg.distance)
  }

  /** Where the effect stands.
      Inert: there was no container, so nothing was hidden or observed.
      Observing: children hidden, observer connected.
      Revealed: the reveal was launched and the observer disconnected itself.
      Disposed: the cleanup disconnected the observer. */
  datatype Phase = Inert | Observing | Revealed | Disposed

  /** The effect's state: its phase, the pose each child was last set or
      animated to, and every batch of entrance animations launched so far. */
  datatype Reveal = Reveal(phase: Phase, cfg: Config, poses: seq<Pose>, launches: seq<seq<Tween>>)

  predicate ObserverConnected(s: Reveal) {
    s.phase == Observing
  }

  /** The effect body. `children` is the number of direct children of the
      container, `None` when the container ref is empty. */
  function Setup(children: Option<nat>, cfg: Config): (s: Reveal)
    ensures children.None? ==> s.phase == Inert && s.poses == [] && !ObserverConnected(s)
    ensures children.Some? ==> ObserverConnected(s) && |s.poses| == children.value
    ensures children.Some? ==> forall i :: 0 <= i < |s.poses| ==> s.poses[i] == Pose(0.0, cfg.distance)
    ensures s.launches == []
  {
    match children
    case None => Reveal(Inert, cfg, [], [])
    case Some(n) => Reveal(Observing, cfg, seq(n, _ => Hidden(cfg)), [])
  }

  /** The batch launched on reveal: child `i` starts `i * stagger` after
      child 0 and every child ends fully visible at its resting place. */
  function EntranceTweens(n: nat, cfg: Config): (r: seq<Tween>)
    ensures |r| == n
    ensures forall i :: 0 <= i < n ==> r[i].target == Shown && r[i].duration == cfg.duration
    ensures forall i :: 0 <= i < n ==> r[i].delay - r[0].delay == i as real * cfg.stagger
  {
    seq(n, i => Tween(Shown, i as real * cfg.stagger, cfg.duration))
  }

  /** What the observer can report, or the cleanup. */
  datatype Event = Notify(isIntersecting: bool) | Cleanup

  /** One event. Notifications only reach a connected observer; a
      non-intersecting one is ignored; an intersecting one launches the
      entrance and disconnects. The cleanup disconnects in every phase. */
  function Step(s: Reveal, e: Event): (r: Reveal)
    ensures r.cfg == s.cfg && |r.poses| == |s.poses|
    ensures r.launches != s.launches <==> ObserverConnected(s) && e == Notify(true)
    ensures r.launches != s.launches ==> r.launches == s.launches + [EntranceTweens(|s.poses|, s.cfg)]
    ensures ObserverConnected(r) ==> r == s
    ensures forall i :: 0 <= i < |s.poses| && s.poses[i] == Shown ==> r.poses[i] == Shown
    ensures e.Cleanup? ==> !ObserverConnected(r) && r.poses == s.poses && r.launches == s.launches
    ensures e == Notify(false) ==> r == s
    ensures !ObserverConnected(s) && e.Notify? ==> r == s
  {
    match e
    case Cleanup =>
      if s.phase == Observing then s.(phase := Disposed) else s
    case Notify(isIntersecting) =>
      if s.phase != Observing || !isIntersecting then s
      else
        Reveal(Revealed, s.cfg, seq(|s.poses|, _ => Shown),
               s.launches + [EntranceTweens(|s.poses|, s.cfg)])
  }

  function Run(s: Reveal, es: seq<Event>): Reveal
    decreases |es|
  {
    if |es| == 0 then s else Run(Step(s, es[0]), es[1..])
  }

  /** The invariant every reachable state keeps: until the reveal nothing
      has been launched, and while observing every child is hidden; once
      revealed exactly one batch was launched, covering every child, and
      every child is shown. */
  predicate Good(s: Reveal) {
    && (s.phase == Observing ==> s.launches == [] && forall i :: 0 <= i < |s.poses| ==> s.poses[i] == Hidden(s.cfg))
    && (s.phase == Inert ==> s.launches == [] && s.poses == [])
    && (s.phase == Disposed ==> s.launches == [])
    && |s.launches| <= 1
    && (s.phase == Revealed ==>
          && |s.launches| == 1 && s.launches[0] == EntranceTweens(|s.poses|, s.cfg)
          && forall i :: 0 <= i < |s.poses| ==> s.poses[i] == Shown)
  }

  lemma StepKeepsGood(s: Reveal, e: Event)
    requires Good(s)
    ensures Good(Step(s, e))
  {
  }

  /** The effect's setup starts in a good state, with or without a
      container. */
  lemma SetupIsGood(children: Option<nat>, cfg: Config)
    ensures Good(Setup(children, cfg))
  {
  }

  /** From any good state, whatever sequence of notifications and cleanups
      follows, at most one batch of entrance animations is launched, and
      after the reveal the poses and the launches never change. */
  lemma {:induction false} RevealAtMostOnce(s: Reveal, es: seq<Event>)
    requires Good(s)
    ensures Good(Run(s, es))
    ensures |Run(s, es).launches| <= 1
    ensures Run(s, es).cfg == s.cfg
    ensures s.phase == Revealed ==> Run(s, es).poses == s.poses && Run(s, es).launches == s.launches
    decreases |es|
  {
    if |es| > 0 {
      StepKeepsGood(s, es[0]);
      RevealAtMostOnce(Step(s, es[0]), es[1..]);
    }
  }

  /** At most once per effect run: from the setup, whatever sequence of
      notifications and cleanups follows, at most one batch is launched; if
      one was, it animates every child in, and every child ends shown. */
  lemma RevealAtMostOncePerRun(children: Option<nat>, cfg: Config, es: seq<Event>)
    ensures var r := Run(Setup(children, cfg), es);
      && |r.launches| <= 1
      && (|r.launches| == 1 ==> r.launches[0] == EntranceTweens(|r.poses|, cfg))
      && (|r.launches| == 1 ==> forall i :: 0 <= i < |r.poses| ==> r.poses[i] == Shown)
  {
    SetupIsGood(children, cfg);
    RevealAtMostOnce(Setup(children, cfg), es);
  }

  /** Without a container the effect is a no-op: no child is hidden, no
      observer exists, and no notification or cleanup changes anything. */
  lemma {:induction false} NoContainerNoEffect(cfg: Config, es: seq<Event>)
    ensures Run(Setup(None, cfg), es) == Setup(None, cfg)
    decreases |es|
  {
    if |es| > 0 {
      assert Step(Setup(None, cfg), es[0]) == Setup(None, cfg);
      NoContainerNoEffect(cfg, es[1..]);
    }
  }

  /** The first intersecting notification after setup reveals every child,
      launches one batch and leaves the observer disconnected. */
  lemma FirstIntersectionReveals(n: nat, cfg: Config)
    ensures var r := Step(Setup(Some(n), cfg), Notify(true));
      && r.phase == Revealed && !ObserverConnected(r)
      && r.launches == [EntranceTweens(n, cfg)]
      && forall i :: 0 <= i < n ==> r.poses[i] == Shown
  {
  }

  /** With the default stagger, the third child starts 0.16 s after the
      first; the default knobs and threshold are the component's. */
  lemma DefaultStagger()
    ensures EntranceTweens(3, DefaultConfig)[2].delay - EntranceTweens(3, DefaultConfig)[0].delay == 0.16
    ensures DefaultConfig.stagger == 0.08 && DefaultConfig.distance == 24.0 && DefaultConfig.duration == 0.75
    ensures Threshold == 0.08
  {
  }
}
