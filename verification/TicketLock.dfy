/**
 The ticket spin lock shared by worker processes. Any number of processes run concurrently; every
 atomic access to the shared record is one step, and a run is any interleaving of steps.

 A ticket is taken from a 64-bit counter but kept in an `int`, and widened with its sign when it is
 compared with the counter that is being served.
 */
module TicketLock {

  const INT_RANGE: nat := 0x1_0000_0000
  const INT_LIMIT: nat := 0x8000_0000
  const COUNTER_RANGE: nat := 0x1_0000_0000_0000_0000

  /** The conversion of a counter to `int`. */
  function ToInt(counter: nat): int {
    var low := counter % INT_RANGE;
    if low < INT_LIMIT then low else low - INT_RANGE
  }

  /** The conversion of an `int` to the counter's type. */
  function ToCounter(ticket: int): int {
    if ticket < 0 then ticket + COUNTER_RANGE else ticket
  }

  /** A counter that fits 64 bits is kept in 32 bits with a sign, and widened to 64 bits again; both
      conversions keep what they can, up to multiples of the range. */
  lemma Conversions(counter: nat, ticket: int)
    ensures -0x8000_0000 <= ToInt(counter) < 0x8000_0000 && (counter - ToInt(counter)) % 0x1_0000_0000 == 0
    ensures -0x8000_0000 <= ticket < 0x8000_0000 ==>
              && 0 <= ToCounter(ticket) < 0x1_0000_0000_0000_0000
              && (ToCounter(ticket) == ticket || ToCounter(ticket) == ticket + 0x1_0000_0000_0000_0000)
  {
    assert counter == counter / INT_RANGE * INT_RANGE + counter % INT_RANGE;
    assert counter - ToInt(counter)
        == (counter / INT_RANGE + if counter % INT_RANGE < INT_LIMIT then 0 else 1) * INT_RANGE;
  }

  /** A step counts on by one, and from the end of the 64 bits to zero. */
  lemma Counts(s: State, p: Pid, t: State)
    requires s.next < 0x1_0000_0000_0000_0000 && s.serving < 0x1_0000_0000_0000_0000
    ensures Take(s, p, t) ==> t.next == if s.next == 0xFFFF_FFFF_FFFF_FFFF then 0 else s.next + 1
    ensures Unlock(s, p, t) ==> t.serving == if s.serving == 0xFFFF_FFFF_FFFF_FFFF then 0 else s.serving + 1
  {
  }

  type Pid = nat

  /**
   Where a process is: outside, about to read `On`, about to compare, or past the loop. `turn` is
   history: how many tickets had been issued before this one.
   */
  datatype Pc =
    | Idle
    | Testing(ticket: int, turn: nat)
    | Trying(ticket: int, turn: nat)
    | Inside(ticket: int, turn: nat)

  /** The shared record, the processes, and the history of who took and who entered. */
  datatype State = State(serving: nat, next: nat, on: nat, pc: seq<Pc>, issued: seq<Pid>, entered: seq<nat>)

  /** After `reset`, with `n` processes outside. */
  function Start(n: nat): State {
    State(0, 0, 0x0A, seq(n, _ => Idle), [], [])
  }

  // ----- The steps -----

  predicate Take(s: State, p: Pid, t: State) {
    && p < |s.pc| && s.pc[p].Idle?
    && t == s.(next := (s.next + 1) % COUNTER_RANGE,
               pc := s.pc[p := Testing(ToInt(s.next), |s.issued|)],
               issued := s.issued + [p])
  }

  function Enter(s: State, p: Pid): State
    requires p < |s.pc| && !s.pc[p].Idle?
  {
    s.(pc := s.pc[p := Inside(s.pc[p].ticket, s.pc[p].turn)], entered := s.entered + [s.pc[p].turn])
  }

  predicate Test(s: State, p: Pid, t: State) {
    && p < |s.pc| && s.pc[p].Testing?
    && t == if s.on == 0 then Enter(s, p) else s.(pc := s.pc[p := Trying(s.pc[p].ticket, s.pc[p].turn)])
  }

  predicate Try(s: State, p: Pid, t: State) {
    && p < |s.pc| && s.pc[p].Trying?
    && t == if s.serving == ToCounter(s.pc[p].ticket) then Enter(s, p)
            else s.(pc := s.pc[p := Testing(s.pc[p].ticket, s.pc[p].turn)])
  }

  predicate Unlock(s: State, p: Pid, t: State) {
    && p < |s.pc| && s.pc[p].Inside?
    && t == s.(serving := (s.serving + 1) % COUNTER_RANGE, pc := s.pc[p := Idle])
  }

  predicate Cancel(s: State, t: State) {
    t == s.(on := 0)
  }

  predicate Moves(s: State, p: Pid, t: State) {
    Take(s, p, t) || Test(s, p, t) || Try(s, p, t) || Unlock(s, p, t)
  }

  ghost predicate Step(s: State, t: State) {
    Cancel(s, t) || exists p: Pid :: Moves(s, p, t)
  }

  ghost predicate Run(r: seq<State>, n: nat) {
    && r != [] && r[0] == Start(n)
    && forall i :: 0 <= i < |r| - 1 ==> Step(r[i], r[i + 1])
  }

  // ----- Correctness -----

  predicate MutualExclusion(s: State) {
    forall p, q :: 0 <= p < |s.pc| && 0 <= q < |s.pc| && s.pc[p].Inside? && s.pc[q].Inside? ==> p == q
  }

  /** The live tickets are exactly those from the one being served on, each with one process. */
  predicate LiveTickets(s: State) {
    && s.serving <= |s.issued|
    && (forall p :: 0 <= p < |s.pc| && !s.pc[p].Idle? ==>
          s.serving <= s.pc[p].turn < |s.issued| && s.issued[s.pc[p].turn] == p)
    && (forall k :: s.serving <= k < |s.issued| ==>
          s.issued[k] < |s.pc| && !s.pc[s.issued[k]].Idle? && s.pc[s.issued[k]].turn == k)
  }

  /** Whoever is inside has the ticket being served; tickets are the truncated turns. */
  predicate Served(s: State) {
    && s.serving <= INT_LIMIT
    && s.next == |s.issued| % COUNTER_RANGE
    && (forall p :: 0 <= p < |s.pc| && !s.pc[p].Idle? ==> s.pc[p].ticket == ToInt(s.pc[p].turn))
    && (forall p :: 0 <= p < |s.pc| && s.pc[p].Inside? ==> s.pc[p].turn == s.serving < INT_LIMIT)
  }

  predicate Held(s: State) {
    exists p :: 0 <= p < |s.pc| && s.pc[p].Inside?
  }

  /** Processes enter in the order in which they took their tickets, and leave in that order. */
  predicate InOrder(s: State) {
    && |s.entered| == s.serving + (if Held(s) then 1 else 0)
    && forall i :: 0 <= i < |s.entered| ==> s.entered[i] == i
  }

  predicate Inv(s: State) {
    LiveTickets(s) && Served(s) && InOrder(s)
  }

  lemma ExclusionFromInv(s: State)
    requires Inv(s)
    ensures MutualExclusion(s)
  {
  }

  /** No more than an `int` can tell apart are waiting or inside. */
  predicate Bounded(s: State) {
    |s.pc| <= INT_RANGE || |s.issued| <= INT_RANGE
  }

  lemma {:induction false} FewDistinct(s: seq<nat>, n: nat)
    requires forall i :: 0 <= i < |s| ==> s[i] < n
    requires forall i, j :: 0 <= i < j < |s| ==> s[i] != s[j]
    ensures |s| <= n
    decreases n
  {
    if s != [] {
      assert s[0] < n;
      if i :| 0 <= i < |s| && s[i] == n - 1 {
        FewDistinct(s[..i] + s[i + 1..], n - 1);
      } else {
        FewDistinct(s, n - 1);
      }
    }
  }

  /** No more tickets are live than processes. */
  lemma LiveBound(s: State)
    requires LiveTickets(s)
    ensures |s.issued| - s.serving <= |s.pc|
  {
    FewDistinct(s.issued[s.serving..], |s.pc|);
  }

  /** A ticket compares equal to the counter exactly in its turn, if it was not cut off. */
  lemma TicketMatches(serving: nat, turn: nat)
    requires serving <= INT_LIMIT && serving <= turn < serving + INT_RANGE
    ensures serving == ToCounter(ToInt(turn)) <==> turn == serving < INT_LIMIT
  {
  }

  lemma TakeKeepsLive(s: State, p: Pid, t: State)
    requires LiveTickets(s) && Take(s, p, t)
    ensures LiveTickets(t)
  {
    assert t.pc[p].Testing?;
  }

  lemma TakeKeepsServed(s: State, p: Pid, t: State)
    requires LiveTickets(s) && Served(s) && Take(s, p, t) && Bounded(t)
    ensures Served(t)
  {
    LiveBound(s);
    hide ToInt;
    assert |s.issued| < COUNTER_RANGE;
  }

  lemma TakeKeepsOrder(s: State, p: Pid, t: State)
    requires InOrder(s) && Take(s, p, t)
    ensures InOrder(t)
  {
    SameHolders(s, t);
  }

  lemma SameHolders(s: State, t: State)
    requires |s.pc| == |t.pc| && forall q :: 0 <= q < |s.pc| ==> s.pc[q].Inside? == t.pc[q].Inside?
    ensures Held(s) == Held(t)
  {
    if Held(s) { var q :| 0 <= q < |s.pc| && s.pc[q].Inside?; assert t.pc[q].Inside?; }
  }

  lemma TakeKeepsInv(s: State, p: Pid, t: State)
    requires Inv(s) && Take(s, p, t) && Bounded(t)
    ensures Inv(t)
  {
    hide LiveTickets, Served, InOrder;
    TakeKeepsLive(s, p, t);
    TakeKeepsServed(s, p, t);
    TakeKeepsOrder(s, p, t);
  }

  lemma EnterKeepsInv(s: State, p: Pid, t: State)
    requires Inv(s) && p < |s.pc| && s.pc[p].Trying? && s.pc[p].turn == s.serving < INT_LIMIT && t == Enter(s, p)
    ensures Inv(t)
  {
    assert t.pc[p].Inside?;
    assert Held(t);
    assert forall q :: 0 <= q < |s.pc| && s.pc[q].Inside? ==> q == p;
  }

  lemma MoveOnKeepsInv(s: State, p: Pid, pc: Pc, t: State)
    requires Inv(s) && p < |s.pc| && (s.pc[p].Trying? || s.pc[p].Testing?) && t == s.(pc := s.pc[p := pc])
    requires pc == Trying(s.pc[p].ticket, s.pc[p].turn) || pc == Testing(s.pc[p].ticket, s.pc[p].turn)
    ensures Inv(t)
  {
    SameHolders(s, t);
  }

  lemma TryKeepsInv(s: State, p: Pid, t: State)
    requires Inv(s) && Try(s, p, t) && Bounded(s)
    ensures Inv(t)
  {
    LiveBound(s);
    TicketMatches(s.serving, s.pc[p].turn);
    if s.pc[p].turn == s.serving < INT_LIMIT {
      EnterKeepsInv(s, p, t);
    } else {
      MoveOnKeepsInv(s, p, Testing(s.pc[p].ticket, s.pc[p].turn), t);
    }
  }

  lemma UnlockKeepsInv(s: State, p: Pid, t: State)
    requires Inv(s) && Unlock(s, p, t)
    ensures Inv(t)
  {
    assert Held(s);
    assert forall q :: 0 <= q < |s.pc| && s.pc[q].Inside? ==> q == p;
  }

  /** No step of any process breaks the invariant, unless the lock has been cancelled. */
  lemma StepKeepsInv(s: State, t: State)
    requires Inv(s) && Step(s, t) && t.on != 0 && Bounded(s) && Bounded(t)
    ensures Inv(t) && s.on != 0
  {
    hide LiveTickets, Served, InOrder;
    var p: Pid :| Moves(s, p, t);
    if Take(s, p, t) {
      TakeKeepsInv(s, p, t);
    } else if Test(s, p, t) {
      MoveOnKeepsInv(s, p, Trying(s.pc[p].ticket, s.pc[p].turn), t);
    } else if Try(s, p, t) {
      TryKeepsInv(s, p, t);
    } else {
      UnlockKeepsInv(s, p, t);
    }
  }

  lemma StartInv(n: nat)
    ensures Inv(Start(n)) && !Held(Start(n))
  {
  }

  lemma StepGrows(s: State, t: State)
    requires Step(s, t)
    ensures |s.pc| == |t.pc| && |s.issued| <= |t.issued| && (t.on != 0 ==> s.on != 0)
  {
  }

  /**
   Every run, with any number of processes, as long as the lock is not cancelled, and there are at
   most 2^32 processes or at most 2^32 tickets have been issued.
   */
  lemma {:induction false} RunsAreSafe(r: seq<State>, n: nat)
    requires Run(r, n) && r[|r| - 1].on != 0 && Bounded(r[|r| - 1])
    ensures Inv(r[|r| - 1]) && MutualExclusion(r[|r| - 1])
    decreases |r|
  {
    hide Inv, Step, Start;
    if |r| == 1 {
      StartInv(n);
    } else {
      var s, t := r[|r| - 2], r[|r| - 1];
      assert Step(s, t);
      StepGrows(s, t);
      RunsAreSafe(r[..|r| - 1], n);
      StepKeepsInv(s, t);
    }
    ExclusionFromInv(r[|r| - 1]);
  }

  // ----- The lock as a queue -----

  /** A lock that serves processes first come, first served; when held, the first one holds it. */
  datatype Queue = Queue(waiting: seq<Pid>, held: bool)

  ghost function Abs(s: State): Queue
    requires s.serving <= |s.issued|
  {
    Queue(s.issued[s.serving..], Held(s))
  }

  predicate Joins(a: Queue, p: Pid, b: Queue) { b == a.(waiting := a.waiting + [p]) }

  predicate Acquires(a: Queue, p: Pid, b: Queue) {
    !a.held && a.waiting != [] && a.waiting[0] == p && b == a.(held := true)
  }

  predicate Leaves(a: Queue, p: Pid, b: Queue) {
    a.held && a.waiting != [] && a.waiting[0] == p && b == Queue(a.waiting[1..], false)
  }

  /** The comparison succeeds exactly for the first in the queue, while an `int` can hold its ticket. */
  lemma TrySucceeds(s: State, p: Pid, t: State)
    requires Inv(s) && Try(s, p, t) && Bounded(s)
    ensures t.pc[p].Inside? <==> Abs(s).waiting[0] == p && s.serving < INT_LIMIT
    ensures t.pc[p].Inside? ==> Acquires(Abs(s), p, Abs(t))
    ensures !t.pc[p].Inside? ==> Abs(t) == Abs(s)
  {
    LiveBound(s);
    TicketMatches(s.serving, s.pc[p].turn);
    hide ToInt, ToCounter;
    if t.pc[p].Inside? {
      assert Held(t);
      assert forall q :: 0 <= q < |s.pc| && s.pc[q].Inside? ==> q == p;
    } else {
      SameHolders(s, t);
    }
  }

  /** Every step of the lock is a step of the queue, or changes nothing in it. */
  lemma QueueRefined(s: State, p: Pid, t: State)
    requires Inv(s) && Moves(s, p, t) && t.on != 0 && Bounded(s) && Bounded(t)
    ensures Inv(t)
    ensures Take(s, p, t) ==> Joins(Abs(s), p, Abs(t))
    ensures Test(s, p, t) ==> Abs(t) == Abs(s)
    ensures Try(s, p, t) ==> if t.pc[p].Inside? then Acquires(Abs(s), p, Abs(t)) else Abs(t) == Abs(s)
    ensures Unlock(s, p, t) ==> Leaves(Abs(s), p, Abs(t))
  {
    StepKeepsInv(s, t);
    if Try(s, p, t) {
      TrySucceeds(s, p, t);
    } else if Unlock(s, p, t) {
      assert forall q :: 0 <= q < |s.pc| && s.pc[q].Inside? ==> q == p;
      hide ToInt;
      assert Held(s) && !Held(t);
    } else {
      SameHolders(s, t);
    }
  }

  /** The first in the queue gets in by at most two steps of its own, whatever the others do not do. */
  lemma FirstGetsIn(s: State) returns (u: State, t: State)
    requires Inv(s) && s.on != 0 && Bounded(s) && Abs(s).waiting != [] && s.serving < INT_LIMIT
    ensures var p := Abs(s).waiting[0];
            && p < |t.pc| && t.pc[p].Inside?
            && (t == s || Moves(s, p, t) || (Moves(s, p, u) && Moves(u, p, t)))
  {
    var p := Abs(s).waiting[0];
    u, t := s, s;
    TicketMatches(s.serving, s.serving);
    hide ToInt, ToCounter, InOrder;
    if s.pc[p].Testing? {
      u := s.(pc := s.pc[p := Trying(s.pc[p].ticket, s.pc[p].turn)]);
      assert Test(s, p, u);
    }
    if u.pc[p].Trying? {
      t := Enter(u, p);
      assert Try(u, p, t);
    }
  }

  /** At most 2^31 times the lock is acquired; from then on nobody gets in any more. */
  lemma {:induction false} Exhausted(r: seq<State>)
    requires r != [] && Inv(r[0]) && r[0].serving == INT_LIMIT
    requires forall i :: 0 <= i < |r| - 1 ==> Step(r[i], r[i + 1])
    requires r[|r| - 1].on != 0 && Bounded(r[|r| - 1])
    ensures var t := r[|r| - 1]; Inv(t) && t.serving == |t.entered| == INT_LIMIT && !Held(t)
    decreases |r|
  {
    if |r| > 1 {
      hide Inv, Step, Held;
      var s, t := r[|r| - 2], r[|r| - 1];
      assert Step(s, t);
      StepGrows(s, t);
      Exhausted(r[..|r| - 1]);
      ExhaustedStep(s, t);
    }
  }

  lemma ExhaustedStep(s: State, t: State)
    requires Inv(s) && s.serving == INT_LIMIT && Step(s, t) && t.on != 0 && Bounded(s) && Bounded(t)
    ensures Inv(t) && t.serving == |t.entered| == INT_LIMIT && !Held(t)
  {
    StepKeepsInv(s, t);
    var p: Pid :| Moves(s, p, t);
    if Try(s, p, t) { TrySucceeds(s, p, t); }
  }

  /** After the process 0 has taken the lock and released it `k` times. */
  function Rounds(n: nat, k: nat): State {
    State(k, k, 0x0A, seq(n, _ => Idle), seq(k, _ => 0), seq(k, i => i))
  }

  /** One more round: take, test, try, unlock. */
  lemma Round(n: nat, k: nat) returns (a: State, b: State, d: State)
    requires n > 0 && k < INT_LIMIT
    ensures Step(Rounds(n, k), a) && Step(a, b) && Step(b, d) && Step(d, Rounds(n, k + 1))
  {
    var s, t := Rounds(n, k), Rounds(n, k + 1);
    TicketMatches(k, k);
    hide ToInt, ToCounter;
    var ticket := ToInt(k);
    a := s.(next := k + 1, pc := s.pc[0 := Testing(ticket, k)], issued := s.issued + [0]);
    b := a.(pc := a.pc[0 := Trying(ticket, k)]);
    d := Enter(b, 0);
    assert Take(s, 0, a) && Test(a, 0, b) && Try(b, 0, d);
    assert t.issued == s.issued + [0] && t.entered == s.entered + [k];
    assert t.pc == d.pc[0 := Idle];
    assert Unlock(d, 0, t);
    assert Moves(s, 0, a) && Moves(a, 0, b) && Moves(b, 0, d) && Moves(d, 0, t);
  }

  lemma RunOn(r: seq<State>, n: nat, t: State)
    requires Run(r, n) && Step(r[|r| - 1], t)
    ensures Run(r + [t], n)
  {
    hide Step, Start;
    var w := r + [t];
    forall i | 0 <= i < |w| - 1 ensures Step(w[i], w[i + 1]) {
      if i < |r| - 1 { assert Step(r[i], r[i + 1]); }
    }
  }

  /** One process alone can bring the lock to any count up to 2^31. */
  lemma {:induction false} Reaches(n: nat, k: nat) returns (r: seq<State>)
    requires n > 0 && k <= INT_LIMIT
    ensures Run(r, n) && r[|r| - 1] == Rounds(n, k)
  {
    if k == 0 {
      r := [Start(n)];
      assert Rounds(n, 0) == Start(n);
    } else {
      r := Reaches(n, k - 1);
      hide Run, Step, Start, Rounds;
      var a, b, d := Round(n, k - 1);
      RunOn(r, n, a);
      RunOn(r + [a], n, b);
      RunOn(r + [a] + [b], n, d);
      RunOn(r + [a] + [b] + [d], n, Rounds(n, k));
      r := r + [a] + [b] + [d] + [Rounds(n, k)];
    }
  }

  /** There is a run after which the lock has been acquired 2^31 times, and is free. */
  lemma ExhaustionIsReal(n: nat) returns (r: seq<State>)
    requires n > 0
    ensures Run(r, n) && var t := r[|r| - 1]; t.on != 0 && t.serving == |t.entered| == 0x8000_0000 && !Held(t)
  {
    r := Reaches(n, INT_LIMIT);
  }

  /** A run from the start: when 2^31 have been served, nobody is inside or ever gets in again. */
  lemma RunsExhaust(r: seq<State>, n: nat, i: nat)
    requires Run(r, n) && i < |r| && r[i].serving == 0x8000_0000
    requires r[|r| - 1].on != 0 && Bounded(r[|r| - 1])
    ensures var t := r[|r| - 1]; t.serving == |t.entered| == 0x8000_0000 && !Held(t)
  {
    hide Inv, Step, Start, Held;
    StillBounded(r, i);
    RunsAreSafe(r[..i + 1], n);
    var rest := r[i..];
    forall j | 0 <= j < |rest| - 1 ensures Step(rest[j], rest[j + 1]) { assert Step(r[i + j], r[i + j + 1]); }
    Exhausted(rest);
  }

  lemma {:induction false} StillBounded(r: seq<State>, i: nat)
    requires i < |r| && forall j :: 0 <= j < |r| - 1 ==> Step(r[j], r[j + 1])
    requires r[|r| - 1].on != 0 && Bounded(r[|r| - 1])
    ensures r[i].on != 0 && Bounded(r[i])
    decreases |r| - i
  {
    hide Step;
    if i + 1 < |r| {
      StillBounded(r, i + 1);
      assert Step(r[i], r[i + 1]);
      StepGrows(r[i], r[i + 1]);
    }
  }

  /** In any run the lock is acquired at most 2^31 times. */
  lemma AcquiredAtMost(r: seq<State>, n: nat)
    requires Run(r, n) && r[|r| - 1].on != 0 && Bounded(r[|r| - 1])
    ensures |r[|r| - 1].entered| <= 0x8000_0000
  {
    RunsAreSafe(r, n);
    hide LiveTickets;
  }

  // ----- What goes wrong -----

  /** After each of the processes 0..k has taken a ticket, and no other step. */
  function Crowd(n: nat, k: nat): State {
    State(0, k, 0x0A, seq(n, i requires 0 <= i < n => if i < k then Testing(ToInt(i), i) else Idle), seq(k, i => i), [])
  }

  lemma CrowdGrows(n: nat, k: nat)
    requires k < n && k < COUNTER_RANGE - 1
    ensures Take(Crowd(n, k), k, Crowd(n, k + 1))
  {
    hide ToInt;
    var s, t := Crowd(n, k), Crowd(n, k + 1);
    assert t.pc == s.pc[k := Testing(ToInt(k), k)];
    assert t.issued == s.issued + [k];
  }

  /** Two steps by which a process gets in, if its ticket compares equal. */
  lemma GetsIn(s: State, p: Pid) returns (u: State, t: State)
    requires p < |s.pc| && s.pc[p].Testing? && s.on != 0 && s.serving == ToCounter(s.pc[p].ticket)
    ensures Step(s, u) && Step(u, t) && t == Enter(s, p)
  {
    u := s.(pc := s.pc[p := Trying(s.pc[p].ticket, s.pc[p].turn)]);
    t := Enter(u, p);
    assert Test(s, p, u) && Try(u, p, t);
    assert Moves(s, p, u) && Moves(u, p, t);
    assert t.pc == Enter(s, p).pc;
  }

  lemma {:induction false} CrowdGathers(n: nat, k: nat) returns (r: seq<State>)
    requires k <= n && k < COUNTER_RANGE
    ensures Run(r, n) && r[|r| - 1] == Crowd(n, k)
  {
    if k == 0 {
      r := [Start(n)];
      assert Crowd(n, 0) == Start(n);
    } else {
      r := CrowdGathers(n, k - 1);
      hide Run, Start, Crowd;
      CrowdGrows(n, k - 1);
      assert Moves(Crowd(n, k - 1), k - 1, Crowd(n, k));
      RunOn(r, n, Crowd(n, k));
      r := r + [Crowd(n, k)];
    }
  }

  /** With one process more than an `int` can tell apart, two of them can be inside at once. */
  lemma CrowdBreaksExclusion(n: nat) returns (r: seq<State>)
    requires n > INT_RANGE
    ensures Run(r, n) && r[|r| - 1].on != 0 && !MutualExclusion(r[|r| - 1])
  {
    hide Run, Step, Start, ToInt, ToCounter;
    var s := Crowd(n, INT_RANGE + 1);
    r := CrowdGathers(n, INT_RANGE + 1);
    WrappedTicket();
    var u, t := GetsIn(s, 0);
    var v, w := GetsIn(t, INT_RANGE);
    RunOn(r, n, u);
    RunOn(r + [u], n, t);
    RunOn(r + [u] + [t], n, v);
    RunOn(r + [u] + [t] + [v], n, w);
    r := r + [u] + [t] + [v] + [w];
    assert w.pc[0].Inside? && w.pc[INT_RANGE].Inside?;
  }

  lemma WrappedTicket()
    ensures ToCounter(ToInt(0)) == 0 && ToCounter(ToInt(INT_RANGE)) == 0
  {
  }

  lemma {:induction false} RunSize(r: seq<State>, n: nat, i: nat)
    requires Run(r, n) && i < |r|
    ensures |r[i].pc| == n
  {
    if i > 0 {
      RunSize(r, n, i - 1);
      StepGrows(r[i - 1], r[i]);
    }
  }

  ghost predicate AlwaysExclusive(n: nat) {
    forall r: seq<State> :: Run(r, n) && r[|r| - 1].on != 0 ==> MutualExclusion(r[|r| - 1])
  }

  /** An uncancelled lock excludes in every run exactly when there are at most 2^32 processes. */
  lemma ExclusiveIffFew(n: nat)
    ensures AlwaysExclusive(n) <==> n <= 0x1_0000_0000
  {
    hide Step, MutualExclusion, Inv;
    if n <= INT_RANGE {
      forall r: seq<State> | Run(r, n) && r[|r| - 1].on != 0 ensures MutualExclusion(r[|r| - 1]) {
        RunSize(r, n, |r| - 1);
        RunsAreSafe(r, n);
      }
    } else {
      var r := CrowdBreaksExclusion(n);
    }
  }

  /** After cancelling, everybody who waits can get in by at most two steps of its own. */
  lemma CancelledGetsIn(s: State, p: Pid) returns (u: State, t: State)
    requires s.on == 0 && p < |s.pc| && (s.pc[p].Testing? || s.pc[p].Trying?)
    ensures t.pc == s.pc[p := Inside(s.pc[p].ticket, s.pc[p].turn)]
    ensures Moves(s, p, t) || (Moves(s, p, u) && Moves(u, p, t))
  {
    hide ToCounter;
    t := Enter(s, p);
    u := s;
    if s.pc[p].Testing? {
      assert Test(s, p, t);
    } else if s.serving == ToCounter(s.pc[p].ticket) {
      assert Try(s, p, t);
    } else {
      u := s.(pc := s.pc[p := Testing(s.pc[p].ticket, s.pc[p].turn)]);
      assert Try(s, p, u);
      t := Enter(u, p);
      assert Test(u, p, t);
    }
  }

  /** Cancelling lets everybody in who is waiting: with two processes exclusion is lost. */
  lemma CancelBreaksExclusion(n: nat) returns (r: seq<State>)
    requires n >= 2
    ensures Run(r, n) && !MutualExclusion(r[|r| - 1])
  {
    hide ToInt, ToCounter;
    var a, b, c := Crowd(n, 0), Crowd(n, 1), Crowd(n, 2);
    CrowdGrows(n, 0);
    CrowdGrows(n, 1);
    var d := c.(on := 0);
    var e := Enter(d, 0);
    var f := Enter(e, 1);
    r := [a, b, c, d, e, f];
    assert a == Start(n);
    assert Moves(a, 0, b) && Moves(b, 1, c) && Cancel(c, d);
    assert Test(d, 0, e) && Test(e, 1, f);
    assert Moves(d, 0, e) && Moves(e, 1, f);
    assert f.pc[0].Inside? && f.pc[1].Inside?;
  }
}
