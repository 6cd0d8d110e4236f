/** Facts about recorded readings, independent of the charger's own fields. */
module ChargerHistory {
  import opened ChargerModel

  // ---------- stretches of readings ----------

  /** One entry per step: nothing of interest, or a reading that is on or off. */
  datatype Obs = Nothing | Seen(t: Millis, on: bool)

  ghost predicate Ordered(h: seq<Obs>) {
    forall i, j :: 0 <= i < j < |h| && h[i].Seen? && h[j].Seen? ==> h[i].t <= h[j].t
  }

  /** When the current unbroken stretch of "on" readings began; `INVALID` if the last one was off. */
  function Since(h: seq<Obs>): int {
    if h == [] then INVALID else Extend(Since(h[..|h| - 1]), h[|h| - 1])
  }

  function Extend(since: int, o: Obs): int {
    match o
    case Nothing => since
    case Seen(t, on) => if !on then INVALID else if since == INVALID then t else since
  }

  /** A reading at `j` no later than `limit`, with no "off" reading from there on. */
  ghost predicate HeldFrom(h: seq<Obs>, j: int, limit: int) {
    0 <= j < |h| && h[j].Seen? && h[j].t <= limit && forall k :: j <= k < |h| && h[k].Seen? ==> h[k].on
  }

  /** The reading that began the stretch was "on". */
  lemma {:induction false} SinceSeen(h: seq<Obs>)
    requires Since(h) != INVALID
    ensures exists i :: 0 <= i < |h| && h[i].Seen? && h[i].on && h[i].t == Since(h)
  {
    var n := |h| - 1;
    if h[n].Nothing? || Since(h[..n]) != INVALID {
      SinceSeen(h[..n]);
      var i :| 0 <= i < n && h[..n][i].Seen? && h[..n][i].on && h[..n][i].t == Since(h[..n]);
      assert h[i] == h[..n][i];
    } else {
      assert h[n].on && h[n].t == Since(h);
    }
  }

  /** The stretch began by `limit` if and only if some reading by then was never followed by "off". */
  lemma {:induction false} SinceIsHeld(h: seq<Obs>, limit: int)
    requires Ordered(h)
    ensures Since(h) != INVALID && Since(h) <= limit <==> exists j :: HeldFrom(h, j, limit)
  {
    if h == [] {
    } else {
      var n := |h| - 1;
      var p := h[..n];
      SinceIsHeld(p, limit);
      forall j | j < n ensures HeldFrom(h, j, limit) <==> HeldFrom(p, j, limit) && (h[n].Seen? ==> h[n].on) { }
      if HeldFrom(h, n, limit) {
        if Since(p) != INVALID { SinceSeen(p); }
      } else if h[n].Seen? && h[n].on && Since(p) == INVALID {
        assert forall j :: !HeldFrom(p, j, limit);
        assert forall j :: !HeldFrom(h, j, limit);
      }
    }
  }

  // ---------- effects over time ----------

  datatype Mark = Mark(t: Millis, effect: Effect)

  /** The backlight timer as the effects alone determine it. */
  function Timer(h: seq<Mark>): int {
    if h == [] then INVALID else
      match h[|h| - 1].effect
      case Wake => h[|h| - 1].t - 1
      case ScreenOff => INVALID
      case _ => Timer(h[..|h| - 1])
  }

  /** A wake at `i` not followed by a timed screen-off. */
  ghost predicate Pending(h: seq<Mark>, i: int) {
    0 <= i < |h| && h[i].effect == Wake && forall j :: i < j < |h| ==> h[j].effect != ScreenOff
  }

  ghost predicate Sorted(h: seq<Mark>) { forall i, j :: 0 <= i < j < |h| ==> h[i].t <= h[j].t }

  lemma {:induction false} TimerArmed(h: seq<Mark>)
    ensures Timer(h) != INVALID <==> exists i :: Pending(h, i)
  {
    if h == [] {
    } else {
      var n := |h| - 1;
      TimerArmed(h[..n]);
      forall i | i < n ensures Pending(h, i) <==> Pending(h[..n], i) && h[n].effect != ScreenOff { }
      if h[n].effect == Wake { assert Pending(h, n); }
    }
  }

  lemma {:induction false} TimerIsLatest(h: seq<Mark>)
    requires Sorted(h) && Timer(h) != INVALID
    ensures forall i :: 0 <= i < |h| && h[i].effect == Wake ==> h[i].t - 1 <= Timer(h)
    ensures exists i :: 0 <= i < |h| && h[i].effect == Wake && h[i].t - 1 == Timer(h)
  {
    var n := |h| - 1;
    if h[n].effect != Wake {
      TimerIsLatest(h[..n]);
      var i :| 0 <= i < n && h[..n][i].effect == Wake && h[..n][i].t - 1 == Timer(h[..n]);
      assert h[i].effect == Wake;
      assert forall i :: 0 <= i < n ==> h[i] == h[..n][i];
    }
  }

  lemma ExpiredIff(h: seq<Mark>, now: Millis)
    requires Sorted(h)
    ensures Timer(h) != INVALID && now > Timer(h) + BACKLIGHT_OFF_TIME_MS <==>
      && (exists i :: Pending(h, i))
      && (forall i :: 0 <= i < |h| && h[i].effect == Wake ==> h[i].t + BACKLIGHT_OFF_TIME_MS <= now)
  {
    TimerArmed(h);
    if Timer(h) != INVALID { TimerIsLatest(h); }
  }
}
