/** What every step of the registry keeps, and what every run delivers. */
module SensorTheorems {
  import opened Hdf
  import opened SensorModel

  // ---------- lists ----------

  ghost predicate Distinct(l: seq<Remote>) {
    forall i, j :: 0 <= i < j < |l| ==> l[i] != l[j]
  }

  /** The members of `l` other than `c`, in order. */
  function Others(l: seq<Remote>, c: Remote): seq<Remote> {
    if l == [] then [] else (if l[0] == c then [] else [l[0]]) + Others(l[1..], c)
  }

  lemma {:induction false} OthersOfAbsent(l: seq<Remote>, c: Remote)
    requires c !in l
    ensures Others(l, c) == l
  {
    if l == [] {
    } else {
      OthersOfAbsent(l[1..], c);
    }
  }

  lemma {:induction false} WithoutFacts(l: seq<Remote>, c: Remote)
    requires Distinct(l)
    ensures Distinct(Without(l, c)) && Without(l, c) == Others(l, c)
    ensures forall x :: x in Without(l, c) <==> x in l && x != c
    ensures |Without(l, c)| == if c in l then |l| - 1 else |l|
  {
    if l == [] {
    } else {
      assert forall x :: x in l <==> x == l[0] || x in l[1..];
      assert l[0] !in l[1..];
      WithoutFacts(l[1..], c);
      if l[0] == c { OthersOfAbsent(l[1..], c); }
    }
  }

  lemma {:induction false} OthersIdempotent(l: seq<Remote>, c: Remote)
    ensures c !in Others(l, c) && Others(Others(l, c), c) == Others(l, c)
  {
    if l == [] {
    } else {
      OthersIdempotent(l[1..], c);
    }
    OthersOfAbsent(Others(l, c), c);
  }

  // ---------- the invariant ----------

  /** A group is present exactly when the hardware is subscribed for it, and then has distinct clients. */
  ghost predicate GroupsSound(s: State) {
    && s.groups.Keys == s.live
    && forall g :: g in s.groups ==> InRange(g) && s.groups[g] != [] && Distinct(s.groups[g])
  }

  /** Table entries point at attached recipients of registered clients. */
  ghost predicate TableSound(s: State) {
    && (forall c :: c in s.table ==> s.table[c] in s.Attached(c) && s.Registered(c))
    && (forall c, r :: r in s.Attached(c) ==> r < s.next)
  }

  /** No registered client can die unnoticed: it has a recipient for every group it is in. */
  ghost predicate Watched(s: State) {
    forall c: Remote :: s.Joined(c) <= |s.Attached(c)|
  }

  ghost predicate Inv(s: State) { GroupsSound(s) && TableSound(s) && Watched(s) }

  function Surplus(s: State, c: Remote): int { |s.Attached(c)| - s.Joined(c) }

  // ---------- what one call does ----------

  /** A registration appends its client to its own group exactly when it succeeds and is new there. */
  lemma RegisterMembers(hal: Hal, s: State, g: int, c: Remote, env: Env)
    ensures var (t, ret) := Register(hal, s, g, c, env);
      && (forall h :: h != g ==> t.Members(h) == s.Members(h))
      && t.Members(g) == s.Members(g) + (if ret == SENSOR_SUCCESS && c !in s.Members(g) then [c] else [])
      && (ret == SENSOR_SUCCESS ==> c in t.Members(g))
  {
  }

  /** A removal changes at most its own client's membership of its own group. */
  lemma UnregisterMembers(hal: Hal, s: State, g: int, c: Remote, env: Env)
    requires GroupsSound(s)
    ensures var (t, ret) := Unregister(hal, s, g, c, env);
      && (forall h :: h != g ==> t.Members(h) == s.Members(h))
      && t.Members(g) == (if ret == SENSOR_SUCCESS then Others(s.Members(g), c) else s.Members(g))
      && forall x :: x in t.Members(g) <==> x in s.Members(g) && (x == c ==> ret != SENSOR_SUCCESS)
  {
    var l := s.Members(g);
    WithoutFacts(l, c);
    if c in l && |l| == 1 { assert l == [c]; }
  }

  /** When a registration succeeds, and what it answers otherwise. */
  lemma RegisterReturns(hal: Hal, s: State, g: int, c: Remote, env: Env)
    ensures var ret := Register(hal, s, g, c, env).1; var asks := hal.canRegister && InRange(g) && c !in s.Members(g);
      && (ret == SENSOR_SUCCESS <==>
            && hal.canRegister && InRange(g)
            && (c in s.Members(g) || (env.addOk && (g in s.groups || env.halRet == SENSOR_SUCCESS))))
      && (!hal.canRegister || (asks && !env.addOk) ==> ret == HDF_FAILURE)
      && (hal.canRegister && !InRange(g) ==> ret == SENSOR_INVALID_PARAM)
      && (asks && env.addOk && g !in s.groups ==> ret == env.halRet)
  {
  }

  /** When a removal succeeds, and what it answers otherwise. */
  lemma UnregisterReturns(hal: Hal, s: State, g: int, c: Remote, env: Env)
    ensures var ret := Unregister(hal, s, g, c, env).1;
      && (ret == SENSOR_SUCCESS <==> InRange(g) && Leaves(hal, s, g, c, env))
      && (!hal.canUnregister || (InRange(g) && c !in s.Members(g)) ==> ret == HDF_FAILURE)
      && (hal.canUnregister && !InRange(g) ==> ret == SENSOR_INVALID_PARAM)
      && (hal.canUnregister && InRange(g) && c in s.Members(g) && |s.Members(g)| <= 1 ==> ret == env.halRet)
  {
  }

  lemma ErrorsLeaveListsAlone(hal: Hal, s: State, g: int, c: Remote, env: Env)
    ensures Register(hal, s, g, c, env).1 != SENSOR_SUCCESS ==> Register(hal, s, g, c, env).0.groups == s.groups
    ensures Unregister(hal, s, g, c, env).1 != SENSOR_SUCCESS ==> Unregister(hal, s, g, c, env).0 == s
  {
  }

  /** A removal delivers nothing, and changes nothing at all unless it succeeds. */
  lemma UnregisterLog(hal: Hal, s: State, g: int, c: Remote, env: Env)
    ensures var (t, ret) := Unregister(hal, s, g, c, env);
      t.log == s.log && (ret != SENSOR_SUCCESS ==> t == s)
  {
  }

  /** Whether a removal of `c` from `g` goes through. */
  predicate Leaves(hal: Hal, s: State, g: int, c: Remote, env: Env) {
    hal.canUnregister && c in s.Members(g) && (|s.Members(g)| > 1 || env.halRet == SENSOR_SUCCESS)
  }

  /** A first registration whose hardware call fails: the recipient just added is dropped again. */
  predicate Undone(hal: Hal, s: State, g: int, env: Env) {
    hal.canRegister && InRange(g) && g !in s.groups && env.addOk && env.halRet != SENSOR_SUCCESS
  }

  /** What a step does to the table entry of one client. */
  datatype Touch = Untouched | Added | Removed

  function TouchOf(hal: Hal, s: State, step: Step, x: Remote): Touch {
    match step
    case DoRegister(g, c, env) =>
      if x != c || !hal.canRegister || !InRange(g) || c in s.Members(g) || !env.addOk then Untouched
      else if Undone(hal, s, g, env) then Removed else Added
    case DoUnregister(g, c, env) =>
      if x == c && InRange(g) && Leaves(hal, s, g, c, env) then Removed else Untouched
    case Died(Some(c), env0, env1) =>
      if x == c && (Leaves(hal, s, TRADITIONAL_SENSOR_TYPE, c, env0) || Leaves(hal, s, MEDICAL_SENSOR_TYPE, c, env1))
      then Removed else Untouched
    case _ => Untouched
  }

  /** A removal of `c` from `g` that goes through without detaching a recipient. */
  predicate LeavesUndetached(hal: Hal, s: State, g: int, c: Remote, env: Env) {
    Leaves(hal, s, g, c, env) && (c !in s.table || !env.removeOk)
  }

  /** How many recipients a step leaves attached to `x` beyond what its memberships account for.  The
      second half of an obituary finds no table entry once the first half has gone through. */
  function Leaked(hal: Hal, s: State, step: Step, x: Remote): nat {
    match step
    case DoRegister(g, c, env) =>
      if x == c && Undone(hal, s, g, env) && !env.removeOk then 1 else 0
    case DoUnregister(g, c, env) =>
      if x == c && InRange(g) && LeavesUndetached(hal, s, g, c, env) then 1 else 0
    case Died(Some(c), env0, env1) =>
      if x != c then 0 else
        var first := Leaves(hal, s, TRADITIONAL_SENSOR_TYPE, c, env0);
        var second := Leaves(hal, s, MEDICAL_SENSOR_TYPE, c, env1);
        (if LeavesUndetached(hal, s, TRADITIONAL_SENSOR_TYPE, c, env0) then 1 else 0) +
        (if second && (first || c !in s.table || !env1.removeOk) then 1 else 0)
    case _ => 0
  }

  predicate Leaks(hal: Hal, s: State, step: Step, x: Remote) { Leaked(hal, s, step, x) > 0 }

  /** Adding a recipient and dropping it again. */
  lemma AddThenRemove(s: State, c: Remote, ok: bool)
    requires s.next !in s.Attached(c)
    ensures var t := RemoveRecipient(AddRecipient(s, c, true), c, ok).0;
      && t.groups == s.groups && t.next == s.next + 1 && t.table == s.table - {c}
      && t.Attached(c) == (if ok then s.Attached(c) else s.Attached(c) + {s.next})
      && (forall x :: x != c ==> t.Attached(x) == s.Attached(x))
  {
    var u := AddRecipient(s, c, true);
    assert u.table - {c} == s.table - {c};
    assert u.Attached(c) - {s.next} == s.Attached(c);
  }

  /** When a registration succeeds, and when it succeeds with something new. */
  lemma RegisterResult(hal: Hal, s: State, g: int, c: Remote, env: Env)
    ensures var ret := Register(hal, s, g, c, env).1;
      && (ret == SENSOR_SUCCESS ==> InRange(g))
      && (ret == SENSOR_SUCCESS && c !in s.Members(g) <==> TouchOf(hal, s, DoRegister(g, c, env), c) == Added)
      && (Undone(hal, s, g, env) ==> ret != SENSOR_SUCCESS && TouchOf(hal, s, DoRegister(g, c, env), c) == Removed)
  {
  }

  lemma RegisterAttached(hal: Hal, s: State, g: int, c: Remote, env: Env)
    requires s.next !in s.Attached(c)
    ensures var t := Register(hal, s, g, c, env).0; var step := DoRegister(g, c, env);
      && t.Attached(c) == (if TouchOf(hal, s, step, c) == Added || Leaks(hal, s, step, c)
                           then s.Attached(c) + {s.next} else s.Attached(c))
      && (forall x :: x != c ==> t.Attached(x) == s.Attached(x))
      && s.next <= t.next && (TouchOf(hal, s, step, c) == Added || Leaks(hal, s, step, c) ==> s.next < t.next)
  {
    AddThenRemove(s, c, env.removeOk);
    hide RemoveRecipient;
  }

  /** A registration sets its client's entry to a fresh recipient, or drops it, or leaves it alone. */
  lemma RegisterTable(hal: Hal, s: State, g: int, c: Remote, env: Env)
    requires s.next !in s.Attached(c)
    ensures Register(hal, s, g, c, env).0.table ==
            match TouchOf(hal, s, DoRegister(g, c, env), c)
            case Untouched => s.table
            case Added => s.table[c := s.next]
            case Removed => s.table - {c}
  {
    AddThenRemove(s, c, env.removeOk);
    hide RemoveRecipient;
  }

  lemma UnregisterAttached(hal: Hal, s: State, g: int, c: Remote, env: Env)
    ensures var (t, ret) := Unregister(hal, s, g, c, env);
      && (ret == SENSOR_SUCCESS <==> InRange(g) && Leaves(hal, s, g, c, env)) && t.next == s.next
      && t.Attached(c) == (if ret == SENSOR_SUCCESS && c in s.table && env.removeOk then s.Attached(c) - {s.table[c]}
                           else s.Attached(c))
      && (forall x :: x != c ==> t.Attached(x) == s.Attached(x))
  {
  }

  lemma UnregisterTable(hal: Hal, s: State, g: int, c: Remote, env: Env)
    ensures Unregister(hal, s, g, c, env).0.table ==
            if InRange(g) && Leaves(hal, s, g, c, env) then s.table - {c} else s.table
  {
  }

  // ---------- every step keeps the invariant ----------

  lemma RegisterKeepsGroups(hal: Hal, s: State, g: int, c: Remote, env: Env)
    requires GroupsSound(s)
    ensures GroupsSound(Register(hal, s, g, c, env).0)
  {
  }

  lemma RegisteredGrows(hal: Hal, s: State, g: int, c: Remote, env: Env, x: Remote)
    requires s.Registered(x) || (x == c && TouchOf(hal, s, DoRegister(g, c, env), c) == Added)
    ensures Register(hal, s, g, c, env).0.Registered(x)
  {
    RegisterMembers(hal, s, g, c, env);
    RegisterResult(hal, s, g, c, env);
    hide Register;
    hide TouchOf;
  }

  lemma RegisterKeepsTable(hal: Hal, s: State, g: int, c: Remote, env: Env)
    requires TableSound(s)
    ensures TableSound(Register(hal, s, g, c, env).0)
  {
    var t := Register(hal, s, g, c, env).0;
    assert s.next !in s.Attached(c);
    RegisterAttached(hal, s, g, c, env);
    RegisterTable(hal, s, g, c, env);
    hide Register;
    hide TouchOf;
    hide Leaks;
    forall x | x in t.table ensures t.table[x] in t.Attached(x) && t.Registered(x) {
      RegisteredGrows(hal, s, g, c, env, x);
    }
    forall x, r | r in t.Attached(x) ensures r < t.next {
      assert r in s.Attached(x) || (x == c && r == s.next);
    }
  }

  lemma RegisterSurplus(hal: Hal, s: State, g: int, c: Remote, env: Env, x: Remote)
    requires TableSound(s)
    ensures Surplus(Register(hal, s, g, c, env).0, x) == Surplus(s, x) + Leaked(hal, s, DoRegister(g, c, env), x)
  {
    assert s.next !in s.Attached(c);
    RegisterAttached(hal, s, g, c, env);
    RegisterMembers(hal, s, g, c, env);
    RegisterResult(hal, s, g, c, env);
    hide Register;
    hide TableSound;
    hide TouchOf;
    if x == c { RegisterJoined(s, Register(hal, s, g, c, env).0, g, c); }
  }

  /** Appending `c` to one of the two lists, or not, counts as one membership more, or none. */
  lemma RegisterJoined(s: State, t: State, g: int, c: Remote)
    requires forall h :: h != g ==> t.Members(h) == s.Members(h)
    requires t.Members(g) == s.Members(g) || (InRange(g) && t.Members(g) == s.Members(g) + [c])
    ensures t.Joined(c) == s.Joined(c) + if InRange(g) && c in t.Members(g) && c !in s.Members(g) then 1 else 0
  {
  }

  lemma UnregisterKeepsGroups(hal: Hal, s: State, g: int, c: Remote, env: Env)
    requires GroupsSound(s)
    ensures GroupsSound(Unregister(hal, s, g, c, env).0)
  {
    if g in s.groups { WithoutFacts(s.groups[g], c); }
  }

  lemma UnregisterKeepsTable(hal: Hal, s: State, g: int, c: Remote, env: Env)
    requires GroupsSound(s) && TableSound(s)
    ensures TableSound(Unregister(hal, s, g, c, env).0)
  {
    var t := Unregister(hal, s, g, c, env).0;
    UnregisterMembers(hal, s, g, c, env);
    UnregisterAttached(hal, s, g, c, env);
    UnregisterTable(hal, s, g, c, env);
    hide Unregister;
    forall x | x in t.table ensures t.table[x] in t.Attached(x) && t.Registered(x) {
      assert x in s.table && t.table[x] == s.table[x];
    }
    assert forall x :: t.Attached(x) <= s.Attached(x);
  }

  lemma UnregisterSurplus(hal: Hal, s: State, g: int, c: Remote, env: Env, x: Remote)
    requires GroupsSound(s) && TableSound(s)
    ensures Surplus(Unregister(hal, s, g, c, env).0, x) == Surplus(s, x) + Leaked(hal, s, DoUnregister(g, c, env), x)
  {
    UnregisterAttached(hal, s, g, c, env);
    UnregisterMembers(hal, s, g, c, env);
    if c in s.table { assert s.table[c] in s.Attached(c); }
    hide Unregister;
    hide TableSound;
    hide GroupsSound;
  }

  lemma RegisterKeeps(hal: Hal, s: State, g: int, c: Remote, env: Env)
    requires Inv(s)
    ensures Inv(Register(hal, s, g, c, env).0)
  {
    RegisterKeepsGroups(hal, s, g, c, env);
    RegisterKeepsTable(hal, s, g, c, env);
    var t := Register(hal, s, g, c, env).0;
    hide Register;
    hide GroupsSound;
    hide TableSound;
    hide Leaked;
    forall x: Remote ensures t.Joined(x) <= |t.Attached(x)| { RegisterSurplus(hal, s, g, c, env, x); }
  }

  lemma UnregisterKeeps(hal: Hal, s: State, g: int, c: Remote, env: Env)
    requires Inv(s)
    ensures Inv(Unregister(hal, s, g, c, env).0)
  {
    UnregisterKeepsGroups(hal, s, g, c, env);
    UnregisterKeepsTable(hal, s, g, c, env);
    var t := Unregister(hal, s, g, c, env).0;
    hide Unregister;
    hide GroupsSound;
    hide TableSound;
    hide Leaked;
    forall x: Remote ensures t.Joined(x) <= |t.Attached(x)| { UnregisterSurplus(hal, s, g, c, env, x); }
  }

  lemma LeaveFacts(hal: Hal, s: State, g: int, c: Remote, env: Env)
    requires Inv(s) && InRange(g)
    ensures var (t, r) := Leave(hal, s, g, c, env);
      && Inv(t) && t.log == s.log
      && (Leaves(hal, s, g, c, env) <==> r == Some(SENSOR_SUCCESS))
      && t.Members(g) == (if Leaves(hal, s, g, c, env) then Others(s.Members(g), c) else s.Members(g))
      && t.Members(OtherGroup(g)) == s.Members(OtherGroup(g))
      && (!Leaves(hal, s, g, c, env) ==> t == s)
      && (c in t.Members(g) <==> c in s.Members(g) && !Leaves(hal, s, g, c, env))
  {
    hide Unregister;
    if c in s.Members(g) {
      UnregisterKeeps(hal, s, g, c, env);
      UnregisterMembers(hal, s, g, c, env);
      UnregisterAttached(hal, s, g, c, env);
      UnregisterLog(hal, s, g, c, env);
    }
    hide Inv;
  }

  lemma LeaveMembership(hal: Hal, s: State, h: int, d: Remote, env: Env, c: Remote, g: int)
    requires Inv(s) && InRange(h) && InRange(g)
    ensures var (t, r) := Leave(hal, s, h, d, env);
      && Inv(t)
      && (Leaves(hal, s, h, d, env) <==> r == Some(SENSOR_SUCCESS))
      && (c in t.Members(g) <==> c in s.Members(g) && !(h == g && c == d && r == Some(SENSOR_SUCCESS)))
      && Others(t.Members(g), d) == Others(s.Members(g), d)
      && (h != g ==> t.Members(g) == s.Members(g))
  {
    LeaveFacts(hal, s, h, d, env);
    if c != d { MemberOfOthers(s.Members(g), d, c); }
    OthersIdempotent(s.Members(g), d);
    assert g == h || g == OtherGroup(h);
  }

  lemma LeaveSurplus(hal: Hal, s: State, g: int, c: Remote, env: Env, x: Remote)
    requires Inv(s) && InRange(g)
    ensures Surplus(Leave(hal, s, g, c, env).0, x) == Surplus(s, x) + Leaked(hal, s, DoUnregister(g, c, env), x)
  {
    hide Surplus;
    if c in s.Members(g) { UnregisterSurplus(hal, s, g, c, env, x); }
  }

  lemma ObituarySurplus(hal: Hal, s: State, c: Remote, env0: Env, env1: Env, x: Remote)
    requires Inv(s)
    ensures Surplus(Apply(hal, s, Died(Some(c), env0, env1)).0, x) ==
            Surplus(s, x) + Leaked(hal, s, Died(Some(c), env0, env1), x)
  {
    var t0 := Leave(hal, s, TRADITIONAL_SENSOR_TYPE, c, env0).0;
    LeaveFacts(hal, s, TRADITIONAL_SENSOR_TYPE, c, env0);
    LeaveSurplus(hal, s, TRADITIONAL_SENSOR_TYPE, c, env0, x);
    LeaveSurplus(hal, t0, MEDICAL_SENSOR_TYPE, c, env1, x);
    assert t0.Members(OtherGroup(TRADITIONAL_SENSOR_TYPE)) == s.Members(MEDICAL_SENSOR_TYPE);
    UnregisterTable(hal, s, TRADITIONAL_SENSOR_TYPE, c, env0);
    hide Surplus;
    hide Unregister;
    hide Inv;
  }

  /** A step raises the surplus by exactly what it leaks, and so keeps it if and only if it does not leak. */
  lemma SurplusStep(hal: Hal, s: State, step: Step, x: Remote)
    requires Inv(s) && step.Valid()
    ensures Surplus(Apply(hal, s, step).0, x) == Surplus(s, x) + Leaked(hal, s, step, x)
    ensures Surplus(Apply(hal, s, step).0, x) == Surplus(s, x) <==> !Leaks(hal, s, step, x)
  {
    match step
    case DoRegister(g, c, env) => RegisterSurplus(hal, s, g, c, env, x);
    case DoUnregister(g, c, env) => UnregisterSurplus(hal, s, g, c, env, x);
    case Died(None, _, _) =>
    case Died(Some(c), env0, env1) => ObituarySurplus(hal, s, c, env0, env1, x);
    case Data(_, _) =>
  }

  /** Every step keeps the invariant, and raises the count of recipients over memberships by exactly
      what it leaks. */
  lemma StepKeeps(hal: Hal, s: State, step: Step)
    requires Inv(s) && step.Valid()
    ensures Inv(Apply(hal, s, step).0)
    ensures forall x: Remote :: Surplus(Apply(hal, s, step).0, x) == Surplus(s, x) + Leaked(hal, s, step, x)
  {
    StepKeepsInv(hal, s, step);
    hide Apply;
    hide Surplus;
    hide Leaked;
    forall x: Remote ensures Surplus(Apply(hal, s, step).0, x) == Surplus(s, x) + Leaked(hal, s, step, x) {
      SurplusStep(hal, s, step, x);
    }
  }

  lemma StepKeepsInv(hal: Hal, s: State, step: Step)
    requires Inv(s) && step.Valid()
    ensures Inv(Apply(hal, s, step).0)
  {
    hide Register;
    hide Unregister;
    match step
    case DoRegister(g, c, env) => RegisterKeeps(hal, s, g, c, env);
    case DoUnregister(g, c, env) => UnregisterKeeps(hal, s, g, c, env);
    case Died(None, _, _) =>
    case Died(Some(c), env0, env1) =>
      LeaveFacts(hal, s, TRADITIONAL_SENSOR_TYPE, c, env0);
      LeaveFacts(hal, Leave(hal, s, TRADITIONAL_SENSOR_TYPE, c, env0).0, MEDICAL_SENSOR_TYPE, c, env1);
    case Data(g, e) =>
      var t := DataEvent(s, g, e).0;
      assert forall x :: t.Attached(x) == s.Attached(x) && t.Joined(x) == s.Joined(x);
  }

  lemma {:induction false} ReachableInv(hal: Hal, run: Run)
    ensures Inv(Reach(hal, run))
  {
    if run == [] {
    } else {
      ReachableInv(hal, run[..|run| - 1]);
      StepKeeps(hal, Reach(hal, run[..|run| - 1]), run[|run| - 1]);
    }
  }

  // ---------- obituaries ----------

  /** An obituary takes the dead client out of exactly the groups whose removal goes through, and
      leaves everyone else in place and in order. */
  lemma ObituaryRemoves(hal: Hal, s: State, d: Remote, env0: Env, env1: Env, g: int)
    requires Inv(s) && InRange(g)
    ensures var t := Apply(hal, s, Died(Some(d), env0, env1)).0;
      var env := if g == TRADITIONAL_SENSOR_TYPE then env0 else env1;
      && (d in t.Members(g) <==> d in s.Members(g) && !Leaves(hal, s, g, d, env))
      && Others(t.Members(g), d) == Others(s.Members(g), d)
  {
    LeaveMembership(hal, s, TRADITIONAL_SENSOR_TYPE, d, env0, d, g);
    LeaveMembership(hal, Leave(hal, s, TRADITIONAL_SENSOR_TYPE, d, env0).0, MEDICAL_SENSOR_TYPE, d, env1, d, g);
  }

  /** When the hardware cooperates the dead client is in no group, and any further obituary is a no-op. */
  lemma ObituaryFinal(hal: Hal, s: State, d: Remote, env0: Env, env1: Env, env2: Env, env3: Env)
    requires Inv(s) && hal.canUnregister && env0.halRet == env1.halRet == SENSOR_SUCCESS
    ensures var t := Apply(hal, s, Died(Some(d), env0, env1)).0;
      !t.Registered(d) && Apply(hal, t, Died(Some(d), env2, env3)).0 == t
  {
    ObituaryRemoves(hal, s, d, env0, env1, TRADITIONAL_SENSOR_TYPE);
    ObituaryRemoves(hal, s, d, env0, env1, MEDICAL_SENSOR_TYPE);
  }

  // ---------- the recipient table ----------

  /** Every registered client has a table entry; with `TableSound` the keys are exactly those clients. */
  ghost predicate TableComplete(s: State) {
    forall c :: s.Registered(c) ==> c in s.table
  }

  /** The guards under which a step takes away the one entry of a client that stays in the other group. */
  ghost predicate Orphans(hal: Hal, s: State, step: Step) {
    match step
    case DoRegister(g, c, env) =>
      && hal.canRegister && InRange(g) && g !in s.groups && c in s.Members(OtherGroup(g))
      && env.addOk && env.halRet != SENSOR_SUCCESS
    case DoUnregister(g, c, env) =>
      InRange(g) && Leaves(hal, s, g, c, env) && c in s.Members(OtherGroup(g))
    case Died(Some(c), env0, env1) =>
      && c in s.Members(TRADITIONAL_SENSOR_TYPE) && c in s.Members(MEDICAL_SENSOR_TYPE)
      && Leaves(hal, s, TRADITIONAL_SENSOR_TYPE, c, env0) != Leaves(hal, s, MEDICAL_SENSOR_TYPE, c, env1)
    case _ => false
  }

  /** What a step does to one client's entry is exactly what `TouchOf` says. */
  lemma TouchStep(hal: Hal, s: State, step: Step, x: Remote)
    requires Inv(s) && step.Valid()
    ensures x in Apply(hal, s, step).0.table <==>
            TouchOf(hal, s, step, x) == Added || (x in s.table && TouchOf(hal, s, step, x) == Untouched)
  {
    match step
    case DoRegister(g, c, env) => RegisterTouch(hal, s, g, c, env, x);
    case DoUnregister(g, c, env) => UnregisterTable(hal, s, g, c, env);
    case Died(None, _, _) =>
    case Died(Some(c), env0, env1) => ObituaryTable(hal, s, c, env0, env1);
    case Data(_, _) =>
  }

  lemma RegisterTouch(hal: Hal, s: State, g: int, c: Remote, env: Env, x: Remote)
    requires Inv(s)
    ensures var touch := TouchOf(hal, s, DoRegister(g, c, env), x);
      x in Register(hal, s, g, c, env).0.table <==> touch == Added || (x in s.table && touch == Untouched)
  {
    assert s.next !in s.Attached(c);
    RegisterTable(hal, s, g, c, env);
    hide Register;
    hide Inv;
  }

  lemma LeaveTable(hal: Hal, s: State, g: int, c: Remote, env: Env)
    requires InRange(g)
    ensures Leave(hal, s, g, c, env).0.table == if Leaves(hal, s, g, c, env) then s.table - {c} else s.table
  {
    UnregisterTable(hal, s, g, c, env);
    hide Unregister;
  }

  lemma ObituaryTable(hal: Hal, s: State, c: Remote, env0: Env, env1: Env)
    requires Inv(s)
    ensures Apply(hal, s, Died(Some(c), env0, env1)).0.table ==
            if TouchOf(hal, s, Died(Some(c), env0, env1), c) == Removed then s.table - {c} else s.table
  {
    var t0 := Leave(hal, s, TRADITIONAL_SENSOR_TYPE, c, env0).0;
    LeaveFacts(hal, s, TRADITIONAL_SENSOR_TYPE, c, env0);
    assert t0.Members(OtherGroup(TRADITIONAL_SENSOR_TYPE)) == s.Members(MEDICAL_SENSOR_TYPE);
    LeaveTable(hal, s, TRADITIONAL_SENSOR_TYPE, c, env0);
    LeaveTable(hal, t0, MEDICAL_SENSOR_TYPE, c, env1);
    hide Leave;
    hide Inv;
    assert s.table - {c} - {c} == s.table - {c};
  }

  /** Registration of clients other than `c` carries over from `s` to `t`, and so do their entries. */
  ghost predicate OthersAlike(s: State, t: State, c: Remote) {
    forall x :: x != c ==> (t.Registered(x) <==> s.Registered(x)) && (x in t.table <==> x in s.table)
  }

  lemma CompleteAlike(s: State, t: State, c: Remote)
    requires TableComplete(s) && OthersAlike(s, t, c)
    ensures TableComplete(t) <==> (t.Registered(c) ==> c in t.table)
  {
  }

  lemma RegisterOrphans(hal: Hal, s: State, g: int, c: Remote, env: Env)
    requires Inv(s) && TableComplete(s)
    ensures TableComplete(Register(hal, s, g, c, env).0) <==> !Orphans(hal, s, DoRegister(g, c, env))
  {
    var t := Register(hal, s, g, c, env).0;
    RegisterMembers(hal, s, g, c, env);
    RegisterResult(hal, s, g, c, env);
    hide Register;
    hide Inv;
    forall x ensures x != c ==> (t.Registered(x) <==> s.Registered(x)) && (x in t.table <==> x in s.table) {
      RegisterTouch(hal, s, g, c, env, x);
    }
    RegisterTouch(hal, s, g, c, env, c);
    CompleteAlike(s, t, c);
    hide TableComplete;
  }

  lemma UnregisterOrphans(hal: Hal, s: State, g: int, c: Remote, env: Env)
    requires Inv(s) && TableComplete(s)
    ensures TableComplete(Unregister(hal, s, g, c, env).0) <==> !Orphans(hal, s, DoUnregister(g, c, env))
  {
    var t := Unregister(hal, s, g, c, env).0;
    UnregisterMembers(hal, s, g, c, env);
    UnregisterAttached(hal, s, g, c, env);
    UnregisterTable(hal, s, g, c, env);
    hide Unregister;
    hide Inv;
    assert OthersAlike(s, t, c);
    CompleteAlike(s, t, c);
  }

  lemma ObituaryOrphans(hal: Hal, s: State, c: Remote, env0: Env, env1: Env)
    requires Inv(s) && TableComplete(s)
    ensures TableComplete(Apply(hal, s, Died(Some(c), env0, env1)).0) <==> !Orphans(hal, s, Died(Some(c), env0, env1))
  {
    var t0 := Leave(hal, s, TRADITIONAL_SENSOR_TYPE, c, env0).0;
    var t := Leave(hal, t0, MEDICAL_SENSOR_TYPE, c, env1).0;
    LeaveFacts(hal, s, TRADITIONAL_SENSOR_TYPE, c, env0);
    LeaveFacts(hal, t0, MEDICAL_SENSOR_TYPE, c, env1);
    assert t0.Members(OtherGroup(TRADITIONAL_SENSOR_TYPE)) == s.Members(MEDICAL_SENSOR_TYPE);
    assert t.Members(OtherGroup(MEDICAL_SENSOR_TYPE)) == t0.Members(TRADITIONAL_SENSOR_TYPE);
    ObituaryTable(hal, s, c, env0, env1);
    hide Leave;
    hide Inv;
    forall x | x != c ensures (t.Registered(x) <==> s.Registered(x)) && (x in t.table <==> x in s.table) {
      MemberOfOthers(s.Members(TRADITIONAL_SENSOR_TYPE), c, x);
      MemberOfOthers(s.Members(MEDICAL_SENSOR_TYPE), c, x);
    }
    CompleteAlike(s, t, c);
    hide TableComplete;
  }

  lemma {:induction false} MemberOfOthers(l: seq<Remote>, c: Remote, x: Remote)
    requires x != c
    ensures x in Others(l, c) <==> x in l
  {
    if l == [] {
    } else {
      MemberOfOthers(l[1..], c, x);
      assert x in l <==> x == l[0] || x in l[1..];
    }
  }

  /** A complete table stays complete across a step if and only if the step is not an orphaning one. */
  lemma TableCompleteStep(hal: Hal, s: State, step: Step)
    requires Inv(s) && TableComplete(s) && step.Valid()
    ensures TableComplete(Apply(hal, s, step).0) <==> !Orphans(hal, s, step)
  {
    match step
    case DoRegister(g, c, env) => RegisterOrphans(hal, s, g, c, env);
    case DoUnregister(g, c, env) => UnregisterOrphans(hal, s, g, c, env);
    case Died(None, _, _) =>
    case Died(Some(c), env0, env1) => ObituaryOrphans(hal, s, c, env0, env1);
    case Data(g, e) =>
      var t := DataEvent(s, g, e).0;
      assert forall x :: t.Registered(x) <==> s.Registered(x);
  }

  function TouchAt(hal: Hal, run: Run, k: nat, x: Remote): Touch
    requires k < |run|
  {
    TouchOf(hal, Reach(hal, run[..k]), run[k], x)
  }

  /** The step at `k` added the entry of `x` and no later step touched it. */
  ghost predicate EntryFrom(hal: Hal, run: Run, k: int, x: Remote) {
    && 0 <= k < |run| && TouchAt(hal, run, k, x) == Added
    && forall j :: k < j < |run| ==> TouchAt(hal, run, j, x) == Untouched
  }

  lemma TouchPrefix(hal: Hal, run: Run, k: nat, x: Remote)
    requires k + 1 < |run|
    ensures TouchAt(hal, run[..|run| - 1], k, x) == TouchAt(hal, run, k, x)
  {
    hide TouchOf;
    hide Reach;
    assert run[..|run| - 1][..k] == run[..k];
  }

  lemma EntryFromStep(hal: Hal, run: Run, k: int, x: Remote)
    requires run != []
    ensures var n := |run| - 1; var touch := TouchAt(hal, run, n, x);
      EntryFrom(hal, run, k, x) <==>
        (k == n && touch == Added) || (k < n && EntryFrom(hal, run[..n], k, x) && touch == Untouched)
  {
    hide TouchAt;
    var n := |run| - 1;
    var p := run[..n];
    forall j | 0 <= j < n ensures TouchAt(hal, p, j, x) == TouchAt(hal, run, j, x) {
      TouchPrefix(hal, run, j, x);
    }
    if EntryFrom(hal, run, k, x) && k < n {
      forall j | k < j < n ensures TouchAt(hal, p, j, x) == Untouched { assert TouchAt(hal, run, j, x) == Untouched; }
    }
    if EntryFrom(hal, p, k, x) && TouchAt(hal, run, n, x) == Untouched {
      forall j | k < j < |run| ensures TouchAt(hal, run, j, x) == Untouched {
        if j < n { assert TouchAt(hal, p, j, x) == Untouched; }
      }
    }
  }

  /** In every run a client has a table entry if and only if the last step that touched it was an add. */
  lemma {:induction false} EntryIff(hal: Hal, run: Run, x: Remote)
    ensures x in Reach(hal, run).table <==> exists k :: EntryFrom(hal, run, k, x)
  {
    if run == [] {
    } else {
      var n := |run| - 1;
      EntryIff(hal, run[..n], x);
      ReachableInv(hal, run[..n]);
      TouchStep(hal, Reach(hal, run[..n]), run[n], x);
      hide Apply;
      hide TouchOf;
      EntryFromStep(hal, run, n, x);
      if k :| EntryFrom(hal, run, k, x) { EntryFromStep(hal, run, k, x); }
      if k :| EntryFrom(hal, run[..n], k, x) { EntryFromStep(hal, run, k, x); }
    }
  }

  /** No client asks to be registered in two different groups. */
  ghost predicate OneGroupEach(run: Run) {
    forall i, j :: 0 <= i < |run| && 0 <= j < |run| && run[i].DoRegister? && run[j].DoRegister? && run[i].c == run[j].c
      ==> run[i].g == run[j].g
  }

  ghost predicate Asked(run: Run, c: Remote, g: int) {
    exists i :: 0 <= i < |run| && run[i].DoRegister? && run[i].c == c && run[i].g == g
  }

  lemma {:induction false} MembersAsked(hal: Hal, run: Run, c: Remote, g: int)
    requires c in Reach(hal, run).Members(g) && InRange(g)
    ensures Asked(run, c, g)
  {
    var n := |run| - 1;
    assert run != [];
    var s := Reach(hal, run[..n]);
    ReachableInv(hal, run[..n]);
    if c in s.Members(g) {
      MembersAsked(hal, run[..n], c, g);
      var i :| 0 <= i < |run[..n]| && run[..n][i].DoRegister? && run[..n][i].c == c && run[..n][i].g == g;
      assert run[i] == run[..n][i];
    } else {
      match run[n]
      case DoRegister(g', c', env) => RegisterMembers(hal, s, g', c', env); assert run[n].c == c && run[n].g == g;
      case DoUnregister(g', c', env) => UnregisterMembers(hal, s, g', c', env);
      case Died(None, _, _) =>
      case Died(Some(c'), env0, env1) =>
        ObituaryRemoves(hal, s, c', env0, env1, g);
        MemberSplit(Reach(hal, run).Members(g), c', c);
        MemberSplit(s.Members(g), c', c);
      case Data(_, _) =>
    }
  }

  lemma MemberSplit(l: seq<Remote>, c: Remote, x: Remote)
    ensures x in l <==> x in Others(l, c) || (x == c && c in l)
  {
    if x != c { MemberOfOthers(l, c, x); } else { OthersIdempotent(l, c); }
  }

  /** In a run where no client uses both groups, the table's keys are exactly the registered clients. */
  lemma {:induction false} TableIsRegistered(hal: Hal, run: Run)
    requires OneGroupEach(run)
    ensures forall c: Remote :: c in Reach(hal, run).table <==> Reach(hal, run).Registered(c)
  {
    ReachableInv(hal, run);
    if run == [] {
    } else {
      var n := |run| - 1;
      TableIsRegistered(hal, run[..n]);
      ReachableInv(hal, run[..n]);
      OneGroupNeverOrphans(hal, run);
      hide Apply;
      hide Orphans;
      TableCompleteStep(hal, Reach(hal, run[..n]), run[n]);
    }
  }

  lemma OneGroupNeverOrphans(hal: Hal, run: Run)
    requires run != [] && OneGroupEach(run)
    ensures !Orphans(hal, Reach(hal, run[..|run| - 1]), run[|run| - 1])
  {
    var n := |run| - 1;
    if Orphans(hal, Reach(hal, run[..n]), run[n]) {
      var c: Remote := if run[n].Died? then run[n].promoted.value else run[n].c;
      var g := if run[n].Died? then TRADITIONAL_SENSOR_TYPE else run[n].g;
      BothAsked(hal, run, c, g);
      OneGroupOnly(run, c, g, OtherGroup(g));
    }
  }

  lemma BothAsked(hal: Hal, run: Run, c: Remote, g: int)
    requires run != [] && InRange(g)
    requires var s, step := Reach(hal, run[..|run| - 1]), run[|run| - 1];
      && c in s.Members(OtherGroup(g))
      && (c in s.Members(g) || (step.DoRegister? && step.c == c && step.g == g))
    ensures Asked(run, c, g) && Asked(run, c, OtherGroup(g))
  {
    var n := |run| - 1;
    MembersAsked(hal, run[..n], c, OtherGroup(g));
    AskedEarlier(run, c, OtherGroup(g));
    if c in Reach(hal, run[..n]).Members(g) {
      MembersAsked(hal, run[..n], c, g);
      AskedEarlier(run, c, g);
    }
  }

  lemma AskedEarlier(run: Run, c: Remote, g: int)
    requires run != [] && Asked(run[..|run| - 1], c, g)
    ensures Asked(run, c, g)
  {
    var p := run[..|run| - 1];
    var i :| 0 <= i < |p| && p[i].DoRegister? && p[i].c == c && p[i].g == g;
    assert run[i] == p[i];
  }

  lemma OneGroupOnly(run: Run, c: Remote, g: int, h: int)
    requires OneGroupEach(run) && Asked(run, c, g) && Asked(run, c, h)
    ensures g == h
  {
    var i :| 0 <= i < |run| && run[i].DoRegister? && run[i].c == c && run[i].g == g;
    var j :| 0 <= j < |run| && run[j].DoRegister? && run[j].c == c && run[j].g == h;
  }

  lemma ReachSnoc(hal: Hal, run: Run, step: Step)
    requires step.Valid()
    ensures Reach(hal, run + [step]) == Apply(hal, Reach(hal, run), step).0
  {
    assert (run + [step])[..|run|] == run;
  }

  /** An empty group gains its first client, with a fresh recipient. */
  lemma RegisterFirst(s: State, g: int, c: Remote)
    requires InRange(g) && g !in s.groups
    ensures var t := Register(Hal(true, true), s, g, c, Env(true, SENSOR_SUCCESS, true)).0;
      && t.groups == s.groups[g := [c]] && t.next == s.next + 1
      && c in t.table && t.table[c] == s.next && t.Attached(c) == s.Attached(c) + {s.next}
  {
  }

  /** A group loses its only client, and with it whatever recipient the table still names. */
  lemma UnregisterLast(s: State, g: int, c: Remote)
    requires InRange(g) && g in s.groups && s.groups[g] == [c]
    ensures var t := Unregister(Hal(true, true), s, g, c, Env(true, SENSOR_SUCCESS, true)).0;
      && t.groups == s.groups - {g} && c !in t.table
      && t.Attached(c) == if c in s.table then s.Attached(c) - {s.table[c]} else s.Attached(c)
  {
  }

  /** Register in both groups, then leave both, with every call answered favourably. */
  function JoinAndLeaveBoth(c: Remote): Run {
    var ok := Env(true, SENSOR_SUCCESS, true);
    [DoRegister(TRADITIONAL_SENSOR_TYPE, c, ok), DoRegister(MEDICAL_SENSOR_TYPE, c, ok),
     DoUnregister(TRADITIONAL_SENSOR_TYPE, c, ok), DoUnregister(MEDICAL_SENSOR_TYPE, c, ok)]
  }

  /** Both failures at a real input.  A client that joins both groups and leaves one is registered with
      no table entry; once it has left both, a recipient is still attached to it. */
  lemma LeftoverRecipient(c: Remote)
    ensures var s := Reach(Hal(true, true), JoinAndLeaveBoth(c)[..3]); s.Registered(c) && c !in s.table
    ensures var s := Reach(Hal(true, true), JoinAndLeaveBoth(c));
      !s.Registered(c) && c !in s.table && s.Attached(c) == {0}
  {
    hide Register, Unregister;
    var hal, run := Hal(true, true), JoinAndLeaveBoth(c);
    var s1 := Reach(hal, run[..1]);
    var s2 := Reach(hal, run[..2]);
    var s3 := Reach(hal, run[..3]);
    assert run[..0] == [] && run[..4] == run;
    forall k: nat | k < 4 ensures Reach(hal, run[..k + 1]) == Apply(hal, Reach(hal, run[..k]), run[k]).0 {
      assert run[..k + 1] == run[..k] + [run[k]];
      ReachSnoc(hal, run[..k], run[k]);
    }
    RegisterFirst(Init, TRADITIONAL_SENSOR_TYPE, c);
    RegisterFirst(s1, MEDICAL_SENSOR_TYPE, c);
    UnregisterLast(s2, TRADITIONAL_SENSOR_TYPE, c);
    UnregisterLast(s3, MEDICAL_SENSOR_TYPE, c);
  }

  // ---------- recipients that stay behind ----------

  /** What all steps of a run leak. */
  function TotalLeaked(hal: Hal, run: Run, x: Remote): nat {
    if run == [] then 0 else
      var n := |run| - 1;
      TotalLeaked(hal, run[..n], x) + Leaked(hal, Reach(hal, run[..n]), run[n], x)
  }

  lemma LastSurplus(hal: Hal, run: Run, x: Remote)
    requires run != []
    ensures var n := |run| - 1;
      Surplus(Reach(hal, run), x) == Surplus(Reach(hal, run[..n]), x) + Leaked(hal, Reach(hal, run[..n]), run[n], x)
  {
    hide Surplus;
    hide Leaked;
    hide Apply;
    ReachableInv(hal, run[..|run| - 1]);
    SurplusStep(hal, Reach(hal, run[..|run| - 1]), run[|run| - 1], x);
  }

  /** In every reachable state a client has one recipient per group it is in, plus exactly what the
      steps so far have leaked. */
  lemma {:induction false} AttachedIsJoinedAndLeaked(hal: Hal, run: Run, x: Remote)
    ensures |Reach(hal, run).Attached(x)| == Reach(hal, run).Joined(x) + TotalLeaked(hal, run, x)
  {
    if run == [] {
    } else {
      hide Reach;
      hide Leaked;
      AttachedIsJoinedAndLeaked(hal, run[..|run| - 1], x);
      LastSurplus(hal, run, x);
    }
  }

  ghost predicate LeaksAt(hal: Hal, run: Run, k: nat, x: Remote)
    requires k < |run|
  {
    Leaks(hal, Reach(hal, run[..k]), run[k], x)
  }

  lemma LeaksAtPrefix(hal: Hal, run: Run, x: Remote)
    requires run != []
    ensures var n := |run| - 1;
      forall k: nat :: k < n ==> (LeaksAt(hal, run, k, x) <==> LeaksAt(hal, run[..n], k, x))
  {
    hide Leaks;
    hide Reach;
    forall k: nat | k < |run| - 1 ensures LeaksAt(hal, run, k, x) <==> LeaksAt(hal, run[..|run| - 1], k, x) {
      assert run[..|run| - 1][..k] == run[..k];
    }
  }

  lemma {:induction false} NothingLeaked(hal: Hal, run: Run, x: Remote)
    ensures TotalLeaked(hal, run, x) == 0 <==> forall k: nat :: k < |run| ==> !LeaksAt(hal, run, k, x)
  {
    if run == [] {
    } else {
      var n := |run| - 1;
      NothingLeaked(hal, run[..n], x);
      LeaksAtPrefix(hal, run, x);
      hide Leaked;
      hide Reach;
      assert TotalLeaked(hal, run, x) == 0 <==> TotalLeaked(hal, run[..n], x) == 0 && !LeaksAt(hal, run, n, x);
    }
  }

  /** Main theorem: recipients and memberships balance if and only if no step of the run leaked. */
  lemma BalancedIff(hal: Hal, run: Run, x: Remote)
    ensures |Reach(hal, run).Attached(x)| == Reach(hal, run).Joined(x) <==>
            forall k: nat :: k < |run| ==> !LeaksAt(hal, run, k, x)
  {
    AttachedIsJoinedAndLeaked(hal, run, x);
    NothingLeaked(hal, run, x);
  }

  /** From any point of a run on, the surplus never shrinks, and stays as it is if and only if no
      later step leaks. */
  lemma {:induction false} SurplusMonotone(hal: Hal, run: Run, k: nat, x: Remote)
    requires k <= |run|
    ensures Surplus(Reach(hal, run[..k]), x) <= Surplus(Reach(hal, run), x)
    ensures Surplus(Reach(hal, run[..k]), x) == Surplus(Reach(hal, run), x) <==>
            forall j :: k <= j < |run| ==> !LeaksAt(hal, run, j, x)
  {
    if k == |run| {
      assert run[..k] == run;
    } else {
      var n := |run| - 1;
      hide Surplus;
      hide Leaked;
      hide Reach;
      SurplusMonotone(hal, run[..n], k, x);
      assert run[..n][..k] == run[..k];
      LastSurplus(hal, run, x);
      LeaksAtPrefix(hal, run, x);
      assert Surplus(Reach(hal, run[..n]), x) == Surplus(Reach(hal, run), x) <==> !LeaksAt(hal, run, n, x);
    }
  }

  /** A client that dies in both groups leaves a recipient behind whenever both removals go through. */
  lemma TwoGroupDeathLeaks(hal: Hal, s: State, c: Remote, env0: Env, env1: Env)
    requires Inv(s) && Leaves(hal, s, TRADITIONAL_SENSOR_TYPE, c, env0) && Leaves(hal, s, MEDICAL_SENSOR_TYPE, c, env1)
    ensures var t := Apply(hal, s, Died(Some(c), env0, env1)).0;
      !t.Registered(c) && t.Attached(c) != {}
  {
    var step := Died(Some(c), env0, env1);
    ObituaryRemoves(hal, s, c, env0, env1, TRADITIONAL_SENSOR_TYPE);
    ObituaryRemoves(hal, s, c, env0, env1, MEDICAL_SENSOR_TYPE);
    SurplusStep(hal, s, step, c);
    assert Leaks(hal, s, step, c);
    hide Apply;
    assert s.Joined(c) <= |s.Attached(c)|;
  }

  // ---------- what clients receive ----------

  predicate Joins(e: Entry, c: Remote, g: int) {
    e.step.DoRegister? && e.step.c == c && e.step.g == g && e.outcome == Code(SENSOR_SUCCESS)
  }

  predicate Quits(e: Entry, c: Remote, g: int) {
    || (e.step.DoUnregister? && e.step.c == c && e.step.g == g && e.outcome == Code(SENSOR_SUCCESS))
    || (e.step.Died? && e.step.promoted == Some(c) && e.outcome.Left? &&
        (if g == TRADITIONAL_SENSOR_TYPE then e.outcome.ret0 else e.outcome.ret1) == Some(SENSOR_SUCCESS))
  }

  /** `c` has joined `g` and not quit since, judged from reported outcomes alone. */
  ghost predicate Subscribed(t: seq<Entry>, c: Remote, g: int) {
    exists i :: StandsFrom(t, i, c, g)
  }

  /** The hardware records of `g` that arrived while `c` was subscribed. */
  ghost function Expected(t: seq<Entry>, c: Remote, g: int): seq<SensorEvents> {
    if t == [] then [] else
      var n := |t| - 1;
      var e := t[n].step;
      Expected(t[..n], c, g) +
      (if e.Data? && e.g == g && e.e.Sample? && Subscribed(t[..n], c, g) then [e.e.event] else [])
  }

  /** As many events as records, and each holds what its record held. */
  ghost predicate AllCopies(ds: seq<HdfSensorEvents>, es: seq<SensorEvents>) {
    |ds| == |es| && forall i :: 0 <= i < |ds| ==> Copies(ds[i], es[i])
  }

  /** What `c` was handed through `g`. */
  function Received(log: seq<Delivery>, c: Remote, g: int): seq<HdfSensorEvents> {
    if log == [] then [] else
      var n := |log| - 1;
      Received(log[..n], c, g) + (if log[n].to == c && log[n].group == g then [log[n].event] else [])
  }

  lemma {:induction false} ReceivedConcat(a: seq<Delivery>, b: seq<Delivery>, c: Remote, g: int)
    ensures Received(a + b, c, g) == Received(a, c, g) + Received(b, c, g)
  {
    if b == [] {
      assert a + b == a;
    } else {
      var n := |b| - 1;
      ReceivedConcat(a, b[..n], c, g);
      assert (a + b)[..|a + b| - 1] == a + b[..n];
    }
  }

  /** One round of deliveries reaches each distinct subscriber once. */
  lemma {:induction false} ReceivedRound(l: seq<Remote>, h: int, e: HdfSensorEvents, c: Remote, g: int)
    requires Distinct(l)
    ensures Received(Deliveries(l, h, e), c, g) == if h == g && c in l then [e] else []
  {
    if l == [] {
    } else {
      var n := |l| - 1;
      assert Deliveries(l, h, e)[..n] == Deliveries(l[..n], h, e);
      assert l[n] !in l[..n];
      assert c in l <==> c in l[..n] || c == l[n];
      ReceivedRound(l[..n], h, e, c, g);
    }
  }

  /** The join at `i` still stands at the end of `t`. */
  ghost predicate StandsFrom(t: seq<Entry>, i: int, c: Remote, g: int) {
    0 <= i < |t| && Joins(t[i], c, g) && forall j :: i < j < |t| ==> !Quits(t[j], c, g)
  }

  lemma StandsFromStep(t: seq<Entry>, e: Entry, i: int, c: Remote, g: int)
    ensures StandsFrom(t + [e], i, c, g) <==>
            (i == |t| && Joins(e, c, g)) || (StandsFrom(t, i, c, g) && !Quits(e, c, g))
  {
    hide Joins, Quits;
    var u := t + [e];
    assert u[|t|] == e;
    assert forall j :: 0 <= j < |t| ==> t[j] == u[j];
  }

  lemma SubscribedStep(t: seq<Entry>, e: Entry, c: Remote, g: int)
    ensures Subscribed(t + [e], c, g) <==> Joins(e, c, g) || (Subscribed(t, c, g) && !Quits(e, c, g))
  {
    hide Joins, Quits, StandsFrom;
    StandsFromStep(t, e, |t|, c, g);
    forall i ensures StandsFrom(t + [e], i, c, g) <==>
                     (i == |t| && Joins(e, c, g)) || (StandsFrom(t, i, c, g) && !Quits(e, c, g)) {
      StandsFromStep(t, e, i, c, g);
    }
  }

  lemma ObituaryMembership(hal: Hal, s: State, d: Remote, env0: Env, env1: Env, c: Remote, g: int)
    requires Inv(s) && InRange(g)
    ensures var (t, o) := Apply(hal, s, Died(Some(d), env0, env1));
      c in t.Members(g) <==> c in s.Members(g) && !Quits(Entry(Died(Some(d), env0, env1), o), c, g)
  {
    LeaveMembership(hal, s, TRADITIONAL_SENSOR_TYPE, d, env0, c, g);
    LeaveMembership(hal, Leave(hal, s, TRADITIONAL_SENSOR_TYPE, d, env0).0, MEDICAL_SENSOR_TYPE, d, env1, c, g);
  }

  /** Membership moves exactly as the reported outcomes say. */
  lemma StepMembership(hal: Hal, s: State, step: Step, c: Remote, g: int)
    requires Inv(s) && step.Valid() && InRange(g)
    ensures var (t, o) := Apply(hal, s, step);
      c in t.Members(g) <==> Joins(Entry(step, o), c, g) || (c in s.Members(g) && !Quits(Entry(step, o), c, g))
  {
    match step
    case DoRegister(g', c', env) => RegisterMembers(hal, s, g', c', env);
    case DoUnregister(g', c', env) => UnregisterMembers(hal, s, g', c', env);
    case Died(None, _, _) =>
    case Died(Some(c'), env0, env1) => ObituaryMembership(hal, s, c', env0, env1, c, g);
    case Data(_, _) =>
  }

  lemma TracePrefix(hal: Hal, run: Run)
    requires run != []
    ensures var n := |run| - 1; var t := Trace(hal, run);
      t[..n] == Trace(hal, run[..n]) && t == t[..n] + [t[n]] && t[n].step == run[n]
  {
  }

  /** A client is in a group's list exactly when the history says it is subscribed. */
  lemma {:induction false} MembershipIsSubscription(hal: Hal, run: Run, c: Remote, g: int)
    requires InRange(g)
    ensures c in Reach(hal, run).Members(g) <==> Subscribed(Trace(hal, run), c, g)
  {
    if run == [] {
    } else {
      var n := |run| - 1;
      MembershipIsSubscription(hal, run[..n], c, g);
      ReachableInv(hal, run[..n]);
      StepMembership(hal, Reach(hal, run[..n]), run[n], c, g);
      TracePrefix(hal, run);
      SubscribedStep(Trace(hal, run[..n]), Trace(hal, run)[n], c, g);
    }
  }

  /** Main theorem: through each group every client receives exactly the records that arrived while it
      was subscribed, each once, in order, field by field and byte by byte. */
  lemma {:induction false} DeliveryExact(hal: Hal, run: Run, c: Remote, g: int)
    requires InRange(g)
    ensures AllCopies(Received(Reach(hal, run).log, c, g), Expected(Trace(hal, run), c, g))
  {
    if run == [] {
    } else {
      var n := |run| - 1;
      var s := Reach(hal, run[..n]);
      DeliveryExact(hal, run[..n], c, g);
      TracePrefix(hal, run);
      MembershipIsSubscription(hal, run[..n], c, g);
      ReachableInv(hal, run[..n]);
      hide Apply;
      hide Copies;
      hide CopyEvent;
      LogStep(hal, s, run[n], c, g);
      if run[n].Data? && run[n].e.Sample? { CopyIsFaithful(run[n].e.event); }
    }
  }

  lemma CopyIsFaithful(e: SensorEvents)
    requires e.Valid()
    ensures Copies(CopyEvent(e), e)
  {
  }

  lemma LogStep(hal: Hal, s: State, step: Step, c: Remote, g: int)
    requires Inv(s) && step.Valid() && InRange(g)
    ensures Received(Apply(hal, s, step).0.log, c, g) == Received(s.log, c, g) +
            if step.Data? && step.g == g && step.e.Sample? && c in s.Members(g) then [CopyEvent(step.e.event)] else []
  {
    if step.Data? && step.e.Sample? {
      var e := CopyEvent(step.e.event);
      ReceivedConcat(s.log, Deliveries(s.Members(step.g), step.g, e), c, g);
      ReceivedRound(s.Members(step.g), step.g, e, c, g);
    } else {
      QuietStep(hal, s, step);
    }
  }

  lemma QuietStep(hal: Hal, s: State, step: Step)
    requires Inv(s) && step.Valid() && !(step.Data? && step.e.Sample?)
    ensures Apply(hal, s, step).0.log == s.log
  {
    match step
    case DoRegister(g, c, env) =>
    case DoUnregister(g, c, env) =>
    case Died(None, _, _) =>
    case Died(Some(c), env0, env1) =>
      LeaveFacts(hal, s, TRADITIONAL_SENSOR_TYPE, c, env0);
      LeaveFacts(hal, Leave(hal, s, TRADITIONAL_SENSOR_TYPE, c, env0).0, MEDICAL_SENSOR_TYPE, c, env1);
    case Data(_, _) =>
  }
}
