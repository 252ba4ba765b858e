/** Per-user connection counters and bandwidth accounting (src/limits/tracker.rs). */
module Tracker {
  import opened Text

  const U64_MAX: nat := 0xffff_ffff_ffff_ffff

  datatype Outcome = Allowed | BandwidthExceeded | ConnectionLimitExceeded

  /** A user's limits; None is unlimited. */
  datatype Limits = Limits(maxConnections: Option<nat>, bandwidth: Option<nat>, periodSecs: Option<nat>)

  datatype Bandwidth = Bandwidth(uploaded: nat, downloaded: nat, windowStart: int)

  function SatAdd(a: nat, b: nat): nat { if a + b <= U64_MAX then a + b else U64_MAX }

  function Get(m: map<string, nat>, user: string): nat { if user in m then m[user] else 0 }

  /** fetch_sub on an unsigned counter. */
  function WrapSub(c: nat): nat { if c == 0 then U64_MAX else c - 1 }

  function WrapAdd(c: nat): nat { if c >= U64_MAX then 0 else c + 1 }

  // ---- Effects of the tracker's steps ----

  predicate Accepts(connections: map<string, nat>, user: string, limit: Option<nat>) {
    limit.None? || Get(connections, user) < limit.value
  }

  function Connected(connections: map<string, nat>, user: string, limit: Option<nat>): map<string, nat> {
    connections[user := if Accepts(connections, user, limit) then WrapAdd(Get(connections, user)) else Get(connections, user)]
  }

  function Decremented(connections: map<string, nat>, user: string): map<string, nat> {
    if user in connections then connections[user := WrapSub(connections[user])] else connections
  }

  /** Remove, and put back unless zero, as one step. */
  function CleanedUp(connections: map<string, nat>, user: string): map<string, nat> {
    if user in connections && connections[user] == 0 then connections - {user} else connections
  }

  function Disconnected(connections: map<string, nat>, user: string): map<string, nat> {
    var after := Decremented(connections, user);
    if user in connections && connections[user] == 1 then CleanedUp(after, user) else after
  }

  function WindowReset(b: Bandwidth, now: int, period: Option<nat>): Bandwidth {
    if period.Some? && now - b.windowStart >= period.value then Bandwidth(0, 0, now) else b
  }

  /** A check: the window may be reset, and the transfer fits or not. */
  predicate Fits(b: Bandwidth, bytes: nat, limit: nat) {
    SatAdd(SatAdd(b.uploaded, b.downloaded), bytes) <= limit
  }

  function Recorded(b: Bandwidth, bytes: nat, isUpload: bool): Bandwidth {
    if isUpload then b.(uploaded := SatAdd(b.uploaded, bytes)) else b.(downloaded := SatAdd(b.downloaded, bytes))
  }

  class UsageTracker {
    var connections: map<string, nat>
    var bandwidth: map<string, Bandwidth>

    constructor ()
      ensures connections == map[] && bandwidth == map[]
    {
      connections, bandwidth := map[], map[];
    }

    /** Reads the counter and tries to exchange it, until it has not been changed in between;
        `rivals` are the values that others give it between reading and exchanging. The effect
        is that of one step on the counter as it was last read. */
    method TryConnect(user: string, limits: Limits, rivals: seq<nat>) returns (r: Outcome, retries: nat)
      modifies this`connections
      ensures retries <= |rivals|
      ensures var seen := old(connections)[user := if retries == 0 then Get(old(connections), user) else rivals[retries - 1]];
              r == (if Accepts(seen, user, limits.maxConnections) then Allowed else ConnectionLimitExceeded)
              && connections == Connected(seen, user, limits.maxConnections)
      ensures limits.maxConnections.None? ==> r == Allowed && retries == 0
      ensures retries == 0 ==>
                var count := if user in old(connections) then old(connections)[user] else 0;
                (r == Allowed <==> limits.maxConnections.None? || count < limits.maxConnections.value)
                && (r == ConnectionLimitExceeded <==> r != Allowed)
                && (count < U64_MAX ==> connections == old(connections)[user := if r == Allowed then count + 1 else count])
    {
      retries := 0;
      if user !in connections {
        connections := connections[user := 0];
      }
      if limits.maxConnections.None? {
        connections := connections[user := WrapAdd(connections[user])];
        return Allowed, 0;
      }
      ghost var seen := Get(connections, user);
      r := ConnectionLimitExceeded;
      while r != Allowed
        invariant retries <= |rivals| && seen == if retries == 0 then Get(old(connections), user) else rivals[retries - 1]
        invariant r != Allowed ==> connections == old(connections)[user := seen]
        invariant r == Allowed ==> Accepts(old(connections)[user := seen], user, limits.maxConnections)
        invariant r == Allowed ==> connections == Connected(old(connections)[user := seen], user, limits.maxConnections)
        decreases r != Allowed, |rivals| - retries
      {
        var current := connections[user];
        if current >= limits.maxConnections.value {
          return ConnectionLimitExceeded, retries;
        }
        if retries < |rivals| {
          connections := connections[user := rivals[retries]];
        }
        if connections[user] == current {
          connections := connections[user := WrapAdd(current)];
          r := Allowed;
        } else {
          seen := connections[user];
          retries := retries + 1;
        }
      }
    }

    method Decrement(user: string) returns (last: bool)
      modifies this`connections
      ensures connections == Decremented(old(connections), user)
      ensures last <==> Get(old(connections), user) == 1
    {
      if user !in connections {
        return false;
      }
      var prev := connections[user];
      connections := connections[user := WrapSub(prev)];
      return prev == 1;
    }

    /** Takes the entry out and puts it back if another session has connected meanwhile. */
    method RemoveUnused(user: string)
      modifies this`connections
      ensures connections == CleanedUp(old(connections), user)
    {
      if user in connections {
        var counter := connections[user];
        connections := connections - {user};
        if counter > 0 {
          connections := connections[user := counter];
        }
      }
    }

    method Disconnect(user: string)
      modifies this`connections
      ensures connections == Disconnected(old(connections), user)
      ensures forall u :: Get(connections, u) == if u == user && user in old(connections)
                                                 then WrapSub(old(connections)[u]) else Get(old(connections), u)
      ensures user in old(connections) && old(connections)[user] == 1 ==> connections == old(connections) - {user}
      ensures user in old(connections) && old(connections)[user] > 1 ==>
                connections == old(connections)[user := old(connections)[user] - 1]
    {
      var last := Decrement(user);
      if last {
        RemoveUnused(user);
      }
    }

    method CheckBandwidth(user: string, limits: Limits, bytes: nat, now: int) returns (r: Outcome)
      modifies this`bandwidth
      ensures limits.bandwidth.None? ==> r == Allowed && bandwidth == old(bandwidth)
      ensures limits.bandwidth.Some? ==>
                var b := if user in old(bandwidth) then old(bandwidth)[user] else Bandwidth(0, 0, now);
                var reset := WindowReset(b, now, limits.periodSecs);
                bandwidth == old(bandwidth)[user := reset]
                && r == if Fits(reset, bytes, limits.bandwidth.value) then Allowed else BandwidthExceeded
      // A window ends once it is as old as the period, and another starts from nothing.
      ensures limits.bandwidth.Some? ==>
                var known := user in old(bandwidth);
                var over := known && limits.periodSecs.Some?
                            && now >= old(bandwidth)[user].windowStart + limits.periodSecs.value;
                bandwidth == (if known && !over then old(bandwidth) else old(bandwidth)[user := Bandwidth(0, 0, now)])
                && (r == Allowed <==> limits.bandwidth.value >= U64_MAX
                                      || bandwidth[user].uploaded + bandwidth[user].downloaded + bytes <= limits.bandwidth.value)
                && (r == BandwidthExceeded <==> r != Allowed)
    {
      if limits.bandwidth.None? {
        return Allowed;
      }
      if user !in bandwidth {
        bandwidth := bandwidth[user := Bandwidth(0, 0, now)];
      }
      if limits.periodSecs.Some? && now - bandwidth[user].windowStart >= limits.periodSecs.value {
        bandwidth := bandwidth[user := Bandwidth(0, 0, now)];
      }
      var currentTotal := SatAdd(bandwidth[user].uploaded, bandwidth[user].downloaded);
      if SatAdd(currentTotal, bytes) > limits.bandwidth.value {
        return BandwidthExceeded;
      }
      return Allowed;
    }

    method RecordBandwidth(user: string, bytes: nat, isUpload: bool, now: int)
      modifies this`bandwidth
      ensures var b := if user in old(bandwidth) then old(bandwidth)[user] else Bandwidth(0, 0, now);
              bandwidth == old(bandwidth)[user := Recorded(b, bytes, isUpload)]
              && bandwidth[user].windowStart == b.windowStart
              && bandwidth[user].uploaded ==
                 (if !isUpload then b.uploaded else if b.uploaded + bytes > U64_MAX then U64_MAX else b.uploaded + bytes)
              && bandwidth[user].downloaded ==
                 (if isUpload then b.downloaded else if b.downloaded + bytes > U64_MAX then U64_MAX else b.downloaded + bytes)
    {
      if user !in bandwidth {
        bandwidth := bandwidth[user := Bandwidth(0, 0, now)];
      }
      var state := bandwidth[user];
      if isUpload {
        state := state.(uploaded := SatAdd(state.uploaded, bytes));
      } else {
        state := state.(downloaded := SatAdd(state.downloaded, bytes));
      }
      bandwidth := bandwidth[user := state];
    }

    method ResetUsage(user: string, now: int)
      modifies this`bandwidth
      ensures bandwidth == if user in old(bandwidth) then old(bandwidth)[user := Bandwidth(0, 0, now)] else old(bandwidth)
    {
      if user in bandwidth {
        bandwidth := bandwidth[user := Bandwidth(0, 0, now)];
      }
    }
  }

  // ---- Connections, shared by many sessions ----

  /** The counters, each user's accepted and not yet released connections, and the
      counters that a disconnecting session has taken out of the table. */
  datatype Shared = Shared(connections: map<string, nat>, live: map<string, nat>, held: seq<(string, nat)>)

  datatype Step =
    | Connect(user: string)
    | Decrement(user: string)
    | Cleanup(user: string)
    | Remove(user: string)
    | PutBack(i: nat)

  function Take(s: Shared, step: Step, limit: string -> Option<nat>): Shared {
    match step
    case Connect(u) =>
      var live := if Accepts(s.connections, u, limit(u)) then s.live[u := Get(s.live, u) + 1] else s.live;
      s.(connections := Connected(s.connections, u, limit(u)), live := live)
    case Decrement(u) =>
      s.(connections := Decremented(s.connections, u),
         live := s.live[u := if Get(s.live, u) > 0 then Get(s.live, u) - 1 else 0])
    case Cleanup(u) => s.(connections := CleanedUp(s.connections, u))
    case Remove(u) =>
      if u in s.connections
      then s.(connections := s.connections - {u}, held := s.held + [(u, s.connections[u])]) else s
    case PutBack(i) =>
      if i >= |s.held| then s
      else
        var (u, c) := s.held[i];
        var left := s.held[..i] + s.held[i + 1..];
        s.(held := left, connections := if c > 0 then s.connections[u := c] else s.connections)
  }

  function TakeAll(s: Shared, steps: seq<Step>, limit: string -> Option<nat>): Shared
    decreases |steps|
  {
    if steps == [] then s else TakeAll(Take(s, steps[0], limit), steps[1..], limit)
  }

  /** A step a session may take: it releases only a live connection, and a user never
      has 2^64 - 1 of them. */
  predicate Enabled(s: Shared, step: Step) {
    (step.Decrement? ==> Get(s.live, step.user) > 0) && (step.Connect? ==> Get(s.live, step.user) < U64_MAX)
  }

  predicate AllEnabled(s: Shared, steps: seq<Step>, limit: string -> Option<nat>)
    decreases |steps|
  {
    steps == [] || (Enabled(s, steps[0]) && AllEnabled(Take(s, steps[0], limit), steps[1..], limit))
  }

  /** The counter is the number of live connections, which is within the limit. */
  predicate Counted(s: Shared, limit: string -> Option<nat>, u: string) {
    Get(s.connections, u) == Get(s.live, u) && (limit(u).Some? ==> Get(s.live, u) <= limit(u).value)
  }

  lemma StepCounted(s: Shared, step: Step, limit: string -> Option<nat>, u: string)
    requires Counted(s, limit, u) && Enabled(s, step) && !step.Remove? && !step.PutBack?
    ensures Counted(Take(s, step, limit), limit, u)
    ensures step.Decrement? && step.user == u ==> u in s.connections && s.connections[u] > 0
  {
  }

  /** With removal and putting back as one step, every interleaving keeps the counter
      equal to the live connections, within the limit, and never takes it below zero. */
  lemma {:induction false} CountedAlways(s: Shared, steps: seq<Step>, limit: string -> Option<nat>, u: string)
    requires Counted(s, limit, u) && AllEnabled(s, steps, limit)
    requires forall step :: step in steps ==> !step.Remove? && !step.PutBack?
    ensures Counted(TakeAll(s, steps, limit), limit, u)
    decreases |steps|
  {
    if steps != [] {
      StepCounted(s, steps[0], limit, u);
      CountedAlways(Take(s, steps[0], limit), steps[1..], limit, u);
    }
  }

  // ---- The gap between removing and putting back ----

  function HeldFor(held: seq<(string, nat)>, u: string): nat {
    if held == [] then 0 else (if held[0].0 == u then held[0].1 else 0) + HeldFor(held[1..], u)
  }

  lemma {:induction false} HeldConcat(a: seq<(string, nat)>, b: seq<(string, nat)>, u: string)
    ensures HeldFor(a + b, u) == HeldFor(a, u) + HeldFor(b, u)
  {
    if a == [] {
      assert a + b == b;
    } else {
      assert (a + b)[1..] == a[1..] + b;
      HeldConcat(a[1..], b, u);
    }
  }

  lemma HeldOne(entry: (string, nat), u: string)
    ensures HeldFor([entry], u) == if entry.0 == u then entry.1 else 0
  {
    var one: seq<(string, nat)> := [entry];
    assert one[1..] == [];
  }

  /** The counters in the table and in sessions' hands add up to the live connections. */
  predicate Accounted(s: Shared, u: string) { Get(s.connections, u) + HeldFor(s.held, u) == Get(s.live, u) }

  lemma HeldWithout(held: seq<(string, nat)>, i: nat, u: string)
    requires i < |held|
    ensures HeldFor(held, u) == HeldFor(held[..i] + held[i + 1..], u) + if held[i].0 == u then held[i].1 else 0
  {
    assert held == held[..i] + ([held[i]] + held[i + 1..]);
    HeldConcat(held[..i], [held[i]] + held[i + 1..], u);
    HeldConcat([held[i]], held[i + 1..], u);
    HeldOne(held[i], u);
    HeldConcat(held[..i], held[i + 1..], u);
  }

  /** With the two split, a step loses connections exactly when a release finds the entry
      gone, or a counter is put back over a new entry that is not zero. */
  lemma StepAccountedExactly(s: Shared, step: Step, limit: string -> Option<nat>, u: string)
    requires Accounted(s, u) && Enabled(s, step)
    ensures Accounted(Take(s, step, limit), u) <==>
            !((step == Decrement(u) && Get(s.connections, u) == 0)
              || (step.PutBack? && step.i < |s.held| && s.held[step.i].0 == u && s.held[step.i].1 > 0
                  && Get(s.connections, u) > 0))
  {
    if step.Remove? && step.user in s.connections {
      var taken := (step.user, s.connections[step.user]);
      HeldConcat(s.held, [taken], u);
      HeldOne(taken, u);
    }
    if step.PutBack? && step.i < |s.held| { HeldWithout(s.held, step.i, u); }
  }

  predicate WithinLimit(s: Shared, limit: string -> Option<nat>, u: string) {
    limit(u).Some? ==> Get(s.live, u) <= limit(u).value
  }

  /** A connection is accepted although the live ones have reached the limit: the counter
      is behind them. */
  predicate Overruns(s: Shared, step: Step, limit: string -> Option<nat>, u: string) {
    step == Connect(u) && limit(u) == Some(Get(s.live, u)) && Get(s.connections, u) < Get(s.live, u)
  }

  /** From whatever state, a step exceeds the limit exactly when it is such a connection. While
      the account is kept, the counter is behind exactly when some of it is taken out. */
  lemma ConnectWithinLimitExactly(s: Shared, step: Step, limit: string -> Option<nat>, u: string)
    requires WithinLimit(s, limit, u)
    ensures WithinLimit(Take(s, step, limit), limit, u) <==> !Overruns(s, step, limit, u)
    ensures Accounted(s, u) ==> (Get(s.connections, u) < Get(s.live, u) <==> HeldFor(s.held, u) > 0)
  {
  }

  predicate WithinAlong(s: Shared, steps: seq<Step>, limit: string -> Option<nat>, u: string)
    decreases |steps|
  {
    WithinLimit(s, limit, u) && (steps == [] || WithinAlong(Take(s, steps[0], limit), steps[1..], limit, u))
  }

  predicate SomeOverrun(s: Shared, steps: seq<Step>, limit: string -> Option<nat>, u: string)
    decreases |steps|
  {
    steps != [] && (Overruns(s, steps[0], limit, u) || SomeOverrun(Take(s, steps[0], limit), steps[1..], limit, u))
  }

  /** Over every run of the split steps the limit holds throughout exactly when no connection
      overruns it, whatever has become of the account. */
  lemma {:induction false} LimitAlongExactly(s: Shared, steps: seq<Step>, limit: string -> Option<nat>, u: string)
    requires WithinLimit(s, limit, u)
    ensures WithinAlong(s, steps, limit, u) <==> !SomeOverrun(s, steps, limit, u)
    decreases |steps|
  {
    hide WithinLimit, Overruns, Take;
    if steps != [] {
      ConnectWithinLimitExactly(s, steps[0], limit, u);
      if !Overruns(s, steps[0], limit, u) {
        LimitAlongExactly(Take(s, steps[0], limit), steps[1..], limit, u);
      } else {
        NotWithin(Take(s, steps[0], limit), steps[1..], limit, u);
      }
    }
  }

  lemma NotWithin(s: Shared, steps: seq<Step>, limit: string -> Option<nat>, u: string)
    requires !WithinLimit(s, limit, u)
    ensures !WithinAlong(s, steps, limit, u)
  {
  }

  /** What can go wrong while removing and putting back are apart. */
  predicate Mishap(s: Shared, step: Step, limit: string -> Option<nat>, u: string) {
    (step == Decrement(u) && Get(s.connections, u) == 0)
    || (step.PutBack? && step.i < |s.held| && s.held[step.i].0 == u && s.held[step.i].1 > 0 && Get(s.connections, u) > 0)
    || Overruns(s, step, limit, u)
  }

  predicate Good(s: Shared, limit: string -> Option<nat>, u: string) { Accounted(s, u) && WithinLimit(s, limit, u) }

  lemma StepGoodExactly(s: Shared, step: Step, limit: string -> Option<nat>, u: string)
    requires Good(s, limit, u) && Enabled(s, step)
    ensures Good(Take(s, step, limit), limit, u) <==> !Mishap(s, step, limit, u)
  {
    StepAccountedExactly(s, step, limit, u);
    ConnectWithinLimitExactly(s, step, limit, u);
  }

  predicate GoodAlong(s: Shared, steps: seq<Step>, limit: string -> Option<nat>, u: string)
    decreases |steps|
  {
    Good(s, limit, u) && (steps == [] || GoodAlong(Take(s, steps[0], limit), steps[1..], limit, u))
  }

  predicate SomeMishap(s: Shared, steps: seq<Step>, limit: string -> Option<nat>, u: string)
    decreases |steps|
  {
    steps != [] && (Mishap(s, steps[0], limit, u) || SomeMishap(Take(s, steps[0], limit), steps[1..], limit, u))
  }

  /** Over every run with the two steps split, all connections stay accounted for and within
      the limit exactly when there is no such mishap. */
  lemma {:induction false} GoodAlongExactly(s: Shared, steps: seq<Step>, limit: string -> Option<nat>, u: string)
    requires Good(s, limit, u) && AllEnabled(s, steps, limit)
    ensures GoodAlong(s, steps, limit, u) <==> !SomeMishap(s, steps, limit, u)
    decreases |steps|
  {
    hide Good, Mishap, Take;
    if steps != [] {
      StepGoodExactly(s, steps[0], limit, u);
      if !Mishap(s, steps[0], limit, u) { GoodAlongExactly(Take(s, steps[0], limit), steps[1..], limit, u); }
    }
  }

  function NoSessions(): Shared { Shared(map[], map[], []) }

  /** From the empty tracker. */
  lemma GoodFromNothing(steps: seq<Step>, limit: string -> Option<nat>, u: string)
    requires AllEnabled(NoSessions(), steps, limit)
    ensures GoodAlong(NoSessions(), steps, limit, u) <==> !SomeMishap(NoSessions(), steps, limit, u)
  {
    GoodAlongExactly(NoSessions(), steps, limit, u);
  }

  lemma LimitFromNothing(steps: seq<Step>, limit: string -> Option<nat>, u: string)
    ensures WithinAlong(NoSessions(), steps, limit, u) <==> !SomeOverrun(NoSessions(), steps, limit, u)
  {
    LimitAlongExactly(NoSessions(), steps, limit, u);
  }

  predicate HoldsEntry(s: Shared, u: string) { exists i :: 0 <= i < |s.held| && s.held[i].0 == u }

  /** At most one of the user's counters is taken out, and the table has none meanwhile. */
  predicate Tidy(s: Shared, u: string) {
    (forall i, j :: 0 <= i < |s.held| && 0 <= j < |s.held| && s.held[i].0 == u == s.held[j].0 ==> i == j)
    && (HoldsEntry(s, u) ==> u !in s.connections)
  }

  /** The user neither connects nor releases while a counter of the user's is taken out. */
  predicate AllQuiet(s: Shared, steps: seq<Step>, limit: string -> Option<nat>, u: string)
    decreases |steps|
  {
    steps == [] || ((HoldsEntry(s, u) ==> steps[0] != Connect(u) && steps[0] != Decrement(u))
                    && AllQuiet(Take(s, steps[0], limit), steps[1..], limit, u))
  }

  lemma {:induction false} NothingHeld(held: seq<(string, nat)>, u: string)
    requires forall i :: 0 <= i < |held| ==> held[i].0 != u
    ensures HeldFor(held, u) == 0
  {
    if held != [] { NothingHeld(held[1..], u); }
  }

  lemma PutBackIsTidy(s: Shared, i: nat, limit: string -> Option<nat>, u: string)
    requires Tidy(s, u) && i < |s.held|
    ensures Tidy(Take(s, PutBack(i), limit), u)
  {
    var t := Take(s, PutBack(i), limit);
    assert forall j :: 0 <= j < |t.held| ==> t.held[j] == s.held[if j < i then j else j + 1];
    if s.held[i].0 == u { assert !HoldsEntry(t, u); }
  }

  lemma RemoveIsTidy(s: Shared, user: string, limit: string -> Option<nat>, u: string)
    requires Tidy(s, u) && user in s.connections
    ensures Tidy(Take(s, Remove(user), limit), u)
  {
    var t := Take(s, Remove(user), limit);
    assert forall j :: 0 <= j < |s.held| ==> t.held[j] == s.held[j];
    assert t.held[|s.held|] == (user, s.connections[user]);
    if user == u { assert !HoldsEntry(s, u); }
  }

  lemma QuietStepIsTidy(s: Shared, step: Step, limit: string -> Option<nat>, u: string)
    requires Tidy(s, u) && (HoldsEntry(s, u) ==> step != Connect(u) && step != Decrement(u))
    ensures Tidy(Take(s, step, limit), u)
  {
    if step.PutBack? && step.i < |s.held| {
      PutBackIsTidy(s, step.i, limit, u);
    } else if step.Remove? && step.user in s.connections {
      RemoveIsTidy(s, step.user, limit, u);
    } else {
      assert Take(s, step, limit).held == s.held;
    }
  }

  /** So over every run, split steps included, in which the user is quiet for that long, the
      account and the limit are kept throughout. */
  lemma {:induction false} QuietRunIsGood(s: Shared, steps: seq<Step>, limit: string -> Option<nat>, u: string)
    requires Good(s, limit, u) && Tidy(s, u) && AllEnabled(s, steps, limit) && AllQuiet(s, steps, limit, u)
    ensures GoodAlong(s, steps, limit, u)
    decreases |steps|
  {
    hide Take;
    if steps != [] {
      if !HoldsEntry(s, u) { NothingHeld(s.held, u); }
      StepGoodExactly(s, steps[0], limit, u);
      assert !Mishap(s, steps[0], limit, u);
      QuietStepIsTidy(s, steps[0], limit, u);
      QuietRunIsGood(Take(s, steps[0], limit), steps[1..], limit, u);
    }
  }

  function SixSteps(u: string): seq<Step> {
    [Connect(u), Decrement(u), Connect(u), Remove(u), Connect(u), PutBack(0)]
  }

  /** Three sessions of one user: the second connects between the first's last decrement and
      its removal, the third while the counter is taken out; the counter that is put back has
      lost one of them. */
  lemma AfterSixSteps(u: string, limit: string -> Option<nat>)
    requires limit(u).Some? ==> limit(u).value > 0
    ensures var s := TakeAll(NoSessions(), SixSteps(u), limit);
            AllEnabled(NoSessions(), SixSteps(u), limit)
            && Get(s.live, u) == 2 && Get(s.connections, u) == 1 && s.held == []
  {
    var s0 := NoSessions();
    var s1 := Take(s0, Connect(u), limit);
    var s2 := Take(s1, Decrement(u), limit);
    var s3 := Take(s2, Connect(u), limit);
    var s4 := Take(s3, Remove(u), limit);
    var s5 := Take(s4, Connect(u), limit);
    var s6 := Take(s5, PutBack(0), limit);
    assert s4.held == [(u, 1)];
    assert s5.held == [(u, 1)];
    assert Get(s6.live, u) == 2 && Get(s6.connections, u) == 1 && s6.held == [];
    TakeCons(s5, PutBack(0), [], limit);
    TakeCons(s4, Connect(u), [PutBack(0)], limit);
    TakeCons(s3, Remove(u), [Connect(u), PutBack(0)], limit);
    TakeCons(s2, Connect(u), [Remove(u), Connect(u), PutBack(0)], limit);
    TakeCons(s1, Decrement(u), [Connect(u), Remove(u), Connect(u), PutBack(0)], limit);
    TakeCons(s0, Connect(u), [Decrement(u), Connect(u), Remove(u), Connect(u), PutBack(0)], limit);
  }

  /** With a limit of one, those steps exceed it. */
  lemma GapDefeatsLimit(u: string, limit: string -> Option<nat>)
    requires limit(u) == Some(1)
    ensures AllEnabled(NoSessions(), SixSteps(u), limit)
    ensures !WithinLimit(TakeAll(NoSessions(), SixSteps(u), limit), limit, u)
  {
    AfterSixSteps(u, limit);
  }

  /** And the count that is lost does not come back: with a limit of two, one more connection
      exceeds it while nothing is taken out. */
  lemma LostCountDefeatsLimit(u: string, limit: string -> Option<nat>)
    requires limit(u) == Some(2)
    ensures AllEnabled(NoSessions(), SixSteps(u) + [Connect(u)], limit)
    ensures var s := TakeAll(NoSessions(), SixSteps(u), limit);
            s.held == [] && WithinLimit(s, limit, u) && Get(TakeAll(NoSessions(), SixSteps(u) + [Connect(u)], limit).live, u) == 3
  {
    AfterSixSteps(u, limit);
    hide SixSteps;
    TakeLast(NoSessions(), SixSteps(u), Connect(u), limit);
  }

  lemma {:induction false} TakeLast(s: Shared, steps: seq<Step>, step: Step, limit: string -> Option<nat>)
    ensures TakeAll(s, steps + [step], limit) == Take(TakeAll(s, steps, limit), step, limit)
    ensures AllEnabled(s, steps + [step], limit) <==>
            AllEnabled(s, steps, limit) && Enabled(TakeAll(s, steps, limit), step)
    decreases |steps|
  {
    hide Take, Enabled;
    if steps == [] {
      TakeCons(s, step, [], limit);
      assert [] + [step] == [step] + [];
    } else {
      assert (steps + [step])[1..] == steps[1..] + [step];
      TakeLast(Take(s, steps[0], limit), steps[1..], step, limit);
    }
  }

  lemma TakeCons(s: Shared, step: Step, rest: seq<Step>, limit: string -> Option<nat>)
    ensures TakeAll(s, [step] + rest, limit) == TakeAll(Take(s, step, limit), rest, limit)
    ensures AllEnabled(s, [step] + rest, limit) <==> Enabled(s, step) && AllEnabled(Take(s, step, limit), rest, limit)
  {
    assert ([step] + rest)[1..] == rest;
  }

  /** With nothing in between, removing and putting back is the one step. */
  lemma AdjacentIsCleanup(s: Shared, u: string, limit: string -> Option<nat>)
    requires u in s.connections
    ensures Take(Take(s, Remove(u), limit), PutBack(|s.held|), limit) == Take(s, Cleanup(u), limit)
  {
    var removed := Take(s, Remove(u), limit);
    assert removed.held[..|s.held|] + removed.held[|s.held| + 1..] == s.held;
    assert (s.connections - {u})[u := s.connections[u]] == s.connections;
  }

  // ---- Bandwidth, checked before and recorded after a transfer ----

  /** One user's recorded usage and the transfers that were allowed and not yet recorded. */
  datatype Account = Account(b: Bandwidth, flights: seq<nat>)

  datatype Use =
    | Check(bytes: nat, now: int)
    | Record(i: nat, isUpload: bool)
    | Abandon(i: nat)
    | Reset(at: int)

  function Without(s: seq<nat>, i: nat): seq<nat>
    requires i < |s|
  {
    s[..i] + s[i + 1..]
  }

  function Act(a: Account, u: Use, limit: nat, period: Option<nat>): Account {
    match u
    case Check(bytes, now) =>
      var b := WindowReset(a.b, now, period);
      if Fits(b, bytes, limit) then Account(b, a.flights + [bytes]) else Account(b, a.flights)
    case Record(i, isUpload) =>
      if i >= |a.flights| then a else Account(Recorded(a.b, a.flights[i], isUpload), Without(a.flights, i))
    case Abandon(i) => if i >= |a.flights| then a else a.(flights := Without(a.flights, i))
    case Reset(at) => a.(b := Bandwidth(0, 0, at))
  }

  function ActAll(a: Account, us: seq<Use>, limit: nat, period: Option<nat>): Account
    decreases |us|
  {
    if us == [] then a else ActAll(Act(a, us[0], limit, period), us[1..], limit, period)
  }

  function Fresh(start: int): Account { Account(Bandwidth(0, 0, start), []) }

  function Sum(s: seq<nat>): nat { if s == [] then 0 else s[0] + Sum(s[1..]) }

  function Used(a: Account): nat { a.b.uploaded + a.b.downloaded + Sum(a.flights) }

  /** At most `k` transfers in flight, each of at most `size` bytes. */
  predicate Bounded(a: Account, us: seq<Use>, k: nat, size: nat, limit: nat, period: Option<nat>)
    decreases |us|
  {
    us == []
    || ((us[0].Check? ==> |a.flights| < k && us[0].bytes <= size)
        && Bounded(Act(a, us[0], limit, period), us[1..], k, size, limit, period))
  }

  predicate WithinBound(a: Account, k: nat, size: nat, limit: nat)
    requires k > 0
  {
    |a.flights| <= k && (forall f :: f in a.flights ==> f <= size) && Used(a) <= limit + (k - 1) * size
  }

  lemma {:induction false} SumConcat(a: seq<nat>, b: seq<nat>)
    ensures Sum(a + b) == Sum(a) + Sum(b)
  {
    if a == [] {
      assert a + b == b;
    } else {
      assert (a + b)[1..] == a[1..] + b;
      SumConcat(a[1..], b);
    }
  }

  lemma {:induction false} SumBound(s: seq<nat>, n: nat, size: nat)
    requires |s| <= n && forall f :: f in s ==> f <= size
    ensures Sum(s) <= n * size
    decreases n
  {
    if s != [] {
      assert forall f :: f in s[1..] ==> f in s;
      SumBound(s[1..], n - 1, size);
      assert s[0] in s && n * size == (n - 1) * size + size;
    } else if n > 0 {
      SumBound(s, n - 1, size);
      assert n * size == (n - 1) * size + size;
    }
  }

  lemma SumWithout(s: seq<nat>, i: nat)
    requires i < |s|
    ensures Sum(s) == s[i] + Sum(Without(s, i))
    ensures forall f :: f in Without(s, i) ==> f in s
  {
    SumOne(s[i]);
    hide Sum;
    var before, after := s[..i], s[i + 1..];
    assert s == before + ([s[i]] + after);
    SumConcat(before, [s[i]] + after);
    SumConcat([s[i]], after);
    SumConcat(before, after);
  }

  lemma SumOne(n: nat)
    ensures Sum([n]) == n
  {
  }

  lemma ActWithinBound(a: Account, u: Use, k: nat, size: nat, limit: nat, period: Option<nat>)
    requires k > 0 && limit < U64_MAX
    requires WithinBound(a, k, size, limit) && (u.Check? ==> |a.flights| < k && u.bytes <= size)
    ensures WithinBound(Act(a, u, limit, period), k, size, limit)
    ensures u.Record? && limit + (k - 1) * size <= U64_MAX ==> Used(Act(a, u, limit, period)) == Used(a)
  {
    match u {
      case Check(bytes, now) =>
        SumConcat(a.flights, [bytes]);
        SumBound(a.flights, k - 1, size);
      case Record(i, isUpload) =>
        if i < |a.flights| { SumWithout(a.flights, i); }
      case Abandon(i) =>
        if i < |a.flights| { SumWithout(a.flights, i); }
      case Reset(at) =>
    }
  }

  /** Under every interleaving of checks, records and resets, what is recorded and in
      flight stays within the limit and one more transfer for each further one in flight.
      One transfer at a time never exceeds the limit. */
  lemma {:induction false} BandwidthBound(a: Account, us: seq<Use>, k: nat, size: nat, limit: nat, period: Option<nat>)
    requires k > 0 && limit < U64_MAX
    requires WithinBound(a, k, size, limit) && Bounded(a, us, k, size, limit, period)
    ensures Used(ActAll(a, us, limit, period)) <= limit + (k - 1) * size
    ensures k == 1 ==> Used(ActAll(a, us, limit, period)) <= limit
    decreases |us|
  {
    if us != [] {
      ActWithinBound(a, us[0], k, size, limit, period);
      BandwidthBound(Act(a, us[0], limit, period), us[1..], k, size, limit, period);
    }
  }

  function Checks(k: nat, size: nat, now: int): seq<Use> {
    if k == 0 then [] else [Check(size, now)] + Checks(k - 1, size, now)
  }

  /** The bound is reached: `k` transfers that each fit alone are all allowed. */
  lemma {:induction false} BoundIsReached(start: Account, k: nat, size: nat, limit: nat, now: int)
    requires size <= limit < U64_MAX && start.b.uploaded + start.b.downloaded == limit - size
    ensures var a := ActAll(start, Checks(k, size, now), limit, None);
            a.b == start.b && Used(a) == Used(start) + k * size
    decreases k
  {
    if k > 0 {
      var next := CheckPasses(start, size, limit, now);
      hide Act, Used;
      assert Checks(k, size, now)[1..] == Checks(k - 1, size, now);
      BoundIsReached(next, k - 1, size, limit, now);
      assert k * size == (k - 1) * size + size;
    }
  }

  lemma CheckPasses(start: Account, size: nat, limit: nat, now: int) returns (next: Account)
    requires size <= limit < U64_MAX && start.b.uploaded + start.b.downloaded == limit - size
    ensures next == Act(start, Check(size, now), limit, None)
    ensures next.b == start.b && Used(next) == Used(start) + size
  {
    next := Act(start, Check(size, now), limit, None);
    SumConcat(start.flights, [size]);
  }

  function TimeOf(u: Use): Option<int> {
    match u
    case Check(_, now) => Some(now)
    case Reset(at) => Some(at)
    case _ => None
  }

  /** The clock never goes back. */
  predicate Timed(clock: int, us: seq<Use>)
    decreases |us|
  {
    us == [] || match TimeOf(us[0])
                case None => Timed(clock, us[1..])
                case Some(now) => now >= clock && Timed(now, us[1..])
  }

  /** With a period of zero every check starts from nothing. */
  lemma {:induction false} ZeroPeriodBound(a: Account, us: seq<Use>, clock: int, size: nat)
    requires a.b.windowStart <= clock && |a.flights| <= 1 && Used(a) <= U64_MAX && size <= U64_MAX
    requires Timed(clock, us) && Bounded(a, us, 1, size, U64_MAX, Some(0))
    ensures Used(ActAll(a, us, U64_MAX, Some(0))) <= U64_MAX
    decreases |us|
  {
    if us != [] {
      var next := Act(a, us[0], U64_MAX, Some(0));
      ZeroPeriodStep(a, us[0], clock, size);
      var after := if TimeOf(us[0]).Some? then TimeOf(us[0]).value else clock;
      hide Act, Used;
      ZeroPeriodBound(next, us[1..], after, size);
    }
  }

  lemma ZeroPeriodStep(a: Account, u: Use, clock: int, size: nat)
    requires a.b.windowStart <= clock && |a.flights| <= 1 && Used(a) <= U64_MAX && size <= U64_MAX
    requires TimeOf(u).Some? ==> TimeOf(u).value >= clock
    requires u.Check? ==> |a.flights| < 1 && u.bytes <= size
    ensures var next := Act(a, u, U64_MAX, Some(0));
            |next.flights| <= 1 && Used(next) <= U64_MAX
            && next.b.windowStart <= if TimeOf(u).Some? then TimeOf(u).value else clock
  {
    match u {
      case Check(bytes, now) =>
        SumConcat(a.flights, [bytes]);
        SumOne(bytes);
      case Record(i, isUpload) =>
        if i < |a.flights| { SumWithout(a.flights, i); }
      case Abandon(i) =>
        if i < |a.flights| { SumWithout(a.flights, i); }
      case Reset(at) =>
    }
  }

  /** A run of one transfer of 64-bit size at a time does not exceed the limit. */
  predicate Holds(us: seq<Use>, size: nat, limit: nat, period: Option<nat>, start: int) {
    size <= U64_MAX && Timed(start, us) && Bounded(Fresh(start), us, 1, size, limit, period) ==>
      Used(ActAll(Fresh(start), us, limit, period)) <= limit
  }

  /** Whatever the period: the largest limit is the only one that the saturating check does not
      enforce, and that one too unless the period is zero. */
  lemma LimitHoldsExactly(limit: nat, period: Option<nat>, start: int)
    requires limit <= U64_MAX
    ensures (forall us: seq<Use>, size: nat :: Holds(us, size, limit, period, start))
            <==> limit < U64_MAX || period == Some(0)
  {
    if limit < U64_MAX || period == Some(0) {
      forall us: seq<Use>, size: nat
        ensures Holds(us, size, limit, period, start)
      {
        if size <= U64_MAX && Timed(start, us) && Bounded(Fresh(start), us, 1, size, limit, period) {
          if limit < U64_MAX {
            BandwidthBound(Fresh(start), us, 1, size, limit, period);
          } else {
            ZeroPeriodBound(Fresh(start), us, start, size);
          }
        }
      }
    } else {
      LargestLimitExceeded(period, start);
      assert !Holds([Check(U64_MAX, start), Record(0, false), Check(1, start)], U64_MAX, limit, period, start);
    }
  }

  lemma LargestLimitExceeded(period: Option<nat>, start: int)
    requires period != Some(0)
    ensures var us := [Check(U64_MAX, start), Record(0, false), Check(1, start)];
            Timed(start, us) && Bounded(Fresh(start), us, 1, U64_MAX, U64_MAX, period)
            && Used(ActAll(Fresh(start), us, U64_MAX, period)) == U64_MAX + 1
  {
    var a1 := Account(Bandwidth(0, 0, start), [U64_MAX]);
    var a2 := Account(Bandwidth(0, U64_MAX, start), []);
    var a3 := Account(Bandwidth(0, U64_MAX, start), [1]);
    var u1, u2, u3 := Check(U64_MAX, start), Record(0, false), Check(1, start);
    assert Act(Fresh(start), u1, U64_MAX, period) == a1;
    assert Act(a1, u2, U64_MAX, period) == a2;
    assert Act(a2, u3, U64_MAX, period) == a3;
    ActCons(a2, u3, [], 1, U64_MAX, U64_MAX, period);
    ActCons(a1, u2, [u3], 1, U64_MAX, U64_MAX, period);
    ActCons(Fresh(start), u1, [u2, u3], 1, U64_MAX, U64_MAX, period);
    assert [u1] + [u2, u3] == [u1, u2, u3] && [u2] + [u3] == [u2, u3] && [u3] + [] == [u3];
    assert [u1, u2, u3][1..] == [u2, u3] && [u2, u3][1..] == [u3];
    assert Timed(start, [u3]);
    assert Timed(start, [u2, u3]);
    SumOne(1);
  }

  lemma ActCons(a: Account, u: Use, rest: seq<Use>, k: nat, size: nat, limit: nat, period: Option<nat>)
    ensures ActAll(a, [u] + rest, limit, period) == ActAll(Act(a, u, limit, period), rest, limit, period)
    ensures Bounded(a, [u] + rest, k, size, limit, period)
            <==> (u.Check? ==> |a.flights| < k && u.bytes <= size)
                 && Bounded(Act(a, u, limit, period), rest, k, size, limit, period)
  {
    assert ([u] + rest)[1..] == rest;
  }
}
