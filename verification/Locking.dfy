/**
  The lock of one volume group as etcd keeps it, and the release closure that
  `Acquire` hands out.

  Every session owns at most one key under the lock's prefix; the session with
  the oldest key holds the lock, and unlocking deletes the session's key.  All
  acquisitions of one node share the node's session.
 */
module Locking {
  import opened Records

  /** The sessions that have a key, oldest first. */
  type Queue = seq<string>

  predicate Distinct(q: Queue) {
    forall i, j | 0 <= i < j < |q| :: q[i] != q[j]
  }

  /** Creating the session's key; a key that exists is kept. */
  function Join(q: Queue, session: string): Queue {
    if session in q then q else q + [session]
  }

  /** Deleting the session's key. */
  function Leave(q: Queue, session: string): Queue {
    if q == [] then []
    else if q[0] == session then Leave(q[1..], session)
    else [q[0]] + Leave(q[1..], session)
  }

  lemma LeaveKeeps(q: Queue, session: string)
    requires Distinct(q)
    ensures Distinct(Leave(q, session))
    ensures forall s :: s in Leave(q, session) <==> s in q && s != session
    ensures session !in q ==> Leave(q, session) == q
    ensures q != [] && q[0] != session ==> Leave(q, session) != [] && Leave(q, session)[0] == q[0]
  {
    if q != [] {
      assert q == [q[0]] + q[1..];
      LeaveKeeps(q[1..], session);
      var rest := Leave(q[1..], session);
      assert forall i | 0 <= i < |rest| :: rest[i] in q[1..];
    }
  }

  /** The others keep their order. */
  lemma {:induction false} LeaveIs(a: Queue, session: string, b: Queue)
    requires session !in a && session !in b
    ensures Leave(a + [session] + b, session) == a + b && Leave(a, session) == a
  {
    if a == [] {
      assert a + [session] + b == [session] + b;
      LeaveAbsent(b, session);
    } else {
      LeaveIs(a[1..], session, b);
      assert (a + [session] + b)[1..] == a[1..] + [session] + b;
      assert a == [a[0]] + a[1..];
    }
  }

  lemma {:induction false} LeaveAbsent(q: Queue, session: string)
    requires session !in q
    ensures Leave(q, session) == q
  {
    if q != [] {
      LeaveAbsent(q[1..], session);
      assert q == [q[0]] + q[1..];
    }
  }

  predicate Holds(q: Queue, session: string) {
    q != [] && q[0] == session
  }

  // ----- what acquisitions and closures do, in any order

  /** `open` are the granted acquisitions whose closure has not fired, with their
      session; `granted` counts all acquisitions. */
  datatype State = State(queue: Queue, open: map<nat, string>, granted: nat)

  datatype Action =
    | Ask(session: string)    // an acquisition creates its key
    | GiveUp(session: string) // a waiting acquisition is cancelled and deletes its key
    | Grant(session: string)  // an acquisition returns its closure
    | Fire(ticket: nat)       // somebody calls a closure, perhaps again

  /** A node has no other acquisition of this lock in flight. */
  predicate SingleFlight(s: State, a: Action) {
    a.Grant? || a.GiveUp? ==> a.session !in s.open.Values
  }

  function Step(s: State, a: Action): State {
    match a
    case Ask(session) => s.(queue := Join(s.queue, session))
    case GiveUp(session) => s.(queue := Leave(s.queue, session))
    case Grant(session) =>
      if Holds(s.queue, session)
      then s.(open := s.open[s.granted := session], granted := s.granted + 1)
      else s
    case Fire(t) =>
      if t in s.open
      then s.(queue := Leave(s.queue, s.open[t]), open := s.open - {t})
      else s
  }

  function Run(actions: seq<Action>): State {
    if actions == [] then State([], map[], 0)
    else Step(Run(actions[..|actions| - 1]), actions[|actions| - 1])
  }

  ghost predicate SingleFlightRun(actions: seq<Action>) {
    forall k | 0 <= k < |actions| :: SingleFlight(Run(actions[..k]), actions[k])
  }

  /** One key per session, and tickets that were handed out. */
  ghost predicate Sane(s: State) {
    Distinct(s.queue) && forall t | t in s.open :: t < s.granted
  }

  lemma StepKeepsSane(s: State, a: Action)
    requires Sane(s)
    ensures Sane(Step(s, a))
  {
    match a
    case Ask(session) =>
    case GiveUp(session) => LeaveKeeps(s.queue, session);
    case Grant(session) =>
    case Fire(t) => if t in s.open { LeaveKeeps(s.queue, s.open[t]); }
  }

  lemma {:induction false} RunIsSane(actions: seq<Action>)
    ensures Sane(Run(actions))
    decreases |actions|
  {
    if actions != [] {
      RunIsSane(actions[..|actions| - 1]);
      StepKeepsSane(Run(actions[..|actions| - 1]), actions[|actions| - 1]);
    }
  }

  /** The lock excludes: open acquisitions hold it, and there is at most one. */
  ghost predicate Exclusive(s: State) {
    && (forall t | t in s.open :: Holds(s.queue, s.open[t]))
    && (forall t, u | t in s.open && u in s.open :: t == u)
  }

  lemma SingleFlightExcludes(s: State, a: Action)
    requires Sane(s) && Exclusive(s) && SingleFlight(s, a)
    ensures Exclusive(Step(s, a))
  {
    var s' := Step(s, a);
    match a
    case Ask(session) =>
    case GiveUp(session) =>
      LeaveKeeps(s.queue, session);
      forall t | t in s.open ensures Holds(s'.queue, s.open[t]) {
        assert s.open[t] in s.open.Values;
      }
    case Grant(session) =>
      forall t | t in s.open ensures !Holds(s.queue, session) {
        assert s.open[t] in s.open.Values;
      }
    case Fire(t) =>
      if t in s.open { LeaveKeeps(s.queue, s.open[t]); }
  }

  /** A second grant opens a second acquisition; giving up drops the holder's key. */
  lemma SecondFlightBreaks(s: State, a: Action)
    requires Sane(s) && Exclusive(s) && !SingleFlight(s, a)
    ensures !Exclusive(Step(s, a))
  {
    var s' := Step(s, a);
    var t :| t in s.open && s.open[t] == a.session;
    if a.Grant? {
      assert t in s'.open && s.granted in s'.open && t != s.granted;
    } else {
      LeaveKeeps(s.queue, a.session);
      assert t in s'.open && !Holds(s'.queue, a.session);
    }
  }

  /**
    The lock excludes throughout a run if and only if no session grants or gives
    up an acquisition of the lock while another one of its own is open.
   */
  lemma ExclusionIff(actions: seq<Action>)
    ensures (forall k | 0 <= k <= |actions| :: Exclusive(Run(actions[..k]))) <==> SingleFlightRun(actions)
  {
    if forall k | 0 <= k <= |actions| :: Exclusive(Run(actions[..k])) {
      forall k | 0 <= k < |actions| ensures SingleFlight(Run(actions[..k]), actions[k]) {
        RunNext(actions, k);
        RunIsSane(actions[..k]);
        assert Exclusive(Run(actions[..k])) && Exclusive(Run(actions[..k + 1]));
        if !SingleFlight(Run(actions[..k]), actions[k]) { SecondFlightBreaks(Run(actions[..k]), actions[k]); }
      }
    }
    if SingleFlightRun(actions) {
      forall k | 0 <= k <= |actions| ensures Exclusive(Run(actions[..k])) { ExclusiveAt(actions, k); }
    }
  }

  lemma RunNext(actions: seq<Action>, k: nat)
    requires k < |actions|
    ensures Run(actions[..k + 1]) == Step(Run(actions[..k]), actions[k])
  {
    assert actions[..k + 1][..k] == actions[..k];
  }

  lemma {:induction false} ExclusiveAt(actions: seq<Action>, k: nat)
    requires SingleFlightRun(actions) && k <= |actions|
    ensures Exclusive(Run(actions[..k]))
  {
    if k > 0 {
      ExclusiveAt(actions, k - 1);
      RunNext(actions, k - 1);
      RunIsSane(actions[..k - 1]);
      SingleFlightExcludes(Run(actions[..k - 1]), actions[k - 1]);
    }
  }

  /**
    In every run with one acquisition in flight per node: at most one closure is
    open; it belongs to the lock's holder; and whatever closure fires, fired
    before or not, the lock of any other open acquisition stays held.
   */
  lemma ReleaseNeverFreesAnother(actions: seq<Action>, fired: nat, t: nat)
    requires SingleFlightRun(actions)
    requires t in Run(actions).open && t != fired
    ensures var s := Run(actions);
            && s.open == map[t := s.open[t]]
            && Holds(s.queue, s.open[t])
            && Step(s, Fire(fired)) == s
  {
    assert actions[..|actions|] == actions;
    ExclusiveAt(actions, |actions|);
    var s := Run(actions);
    assert s.open.Keys == {t};
  }

  /**
    Exclusion is between nodes only.  Two acquisitions of one node share the
    node's key: the first closure gives the lock away while the second
    acquisition still runs, and another node gets in beside it.
   */
  lemma SharedSessionBreaksExclusion()
    ensures var s := Run([Ask("a"), Grant("a"), Grant("a"), Fire(0), Ask("b"), Grant("b")]);
            s.open == map[1 := "a", 2 := "b"]
  {
    var a0 := [Ask("a")];
    assert a0[..0] == [];
    assert Run(a0) == State(["a"], map[], 0);
    var a1 := a0 + [Grant("a")];
    assert a1[..1] == a0;
    assert Run(a1) == State(["a"], map[0 := "a"], 1);
    var a2 := a1 + [Grant("a")];
    assert a2[..2] == a1;
    assert Run(a2) == State(["a"], map[0 := "a", 1 := "a"], 2);
    var a3 := a2 + [Fire(0)];
    assert a3[..3] == a2;
    assert Leave(["a"], "a") == [];
    assert Run(a3).queue == [] && Run(a3).open == map[1 := "a"] && Run(a3).granted == 2;
    var a4 := a3 + [Ask("b")];
    assert a4[..4] == a3;
    assert Run(a4) == State(["b"], map[1 := "a"], 2);
    var a5 := a4 + [Grant("b")];
    assert a5[..5] == a4;
    assert a5 == [Ask("a"), Grant("a"), Grant("a"), Fire(0), Ask("b"), Grant("b")];
  }

  // ----- the lock and the closures as objects

  class Mutex {
    var queue: Queue
    ghost var open: map<nat, string>
    ghost var granted: nat

    ghost function Abs(): State
      reads this
    {
      State(queue, open, granted)
    }

    constructor ()
      ensures Abs() == Run([])
    {
      queue := [];
      open, granted := map[], 0;
    }

    /** One attempt to lock: a session gets at most one key, behind all others, and
        has the lock once its key is the oldest. */
    method TryLock(session: string) returns (held: bool)
      requires Distinct(queue)
      modifies this`queue
      ensures Abs() == Step(old(Abs()), Ask(session))
      ensures Distinct(queue) && session in queue && old(queue) <= queue && |queue| <= |old(queue)| + 1
      ensures held <==> forall i | 0 <= i < |queue| && queue[i] == session :: i == 0
    {
      if session !in queue {
        queue := queue + [session];
      }
      held := queue[0] == session;
      assert session in queue;
    }

    method Unlock(session: string)
      modifies this`queue
      ensures queue == Leave(old(queue), session)
    {
      queue := Leave(queue, session);
    }

    /** A waiting acquisition is cancelled. */
    method Cancel(session: string)
      modifies this`queue
      ensures Abs() == Step(old(Abs()), GiveUp(session))
    {
      Unlock(session);
    }

    /** The end of `Acquire`: the holder gets a closure that has not fired. */
    method Acquire(session: string) returns (r: Option<Release>)
      modifies this
      ensures Abs() == Step(old(Abs()), Grant(session))
      ensures r.Some? <==> Holds(old(queue), session)
      ensures r.Some? ==>
                && fresh(r.value) && r.value.mutex == this && r.value.session == session
                && r.value.ticket == old(granted) && !r.value.released
    {
      if queue == [] || queue[0] != session {
        return None;
      }
      var closure := new Release(this, session, granted);
      open, granted := open[granted := session], granted + 1;
      r := Some(closure);
    }
  }

  /** The function `Acquire` returns. */
  class Release {
    const mutex: Mutex
    const session: string
    ghost const ticket: nat
    var released: bool

    constructor (mutex: Mutex, session: string, ghost ticket: nat)
      ensures this.mutex == mutex && this.session == session && this.ticket == ticket && !released
    {
      this.mutex, this.session, this.ticket := mutex, session, ticket;
      released := false;
    }

    /** The flag tells whether the acquisition is over. */
    ghost predicate Linked()
      reads this, mutex
    {
      && ticket < mutex.granted
      && (released <==> ticket !in mutex.open)
      && (!released ==> mutex.open[ticket] == session)
    }

    /** Unlocks on the first call and does nothing on every later one. */
    method Call()
      requires Linked()
      modifies this`released, mutex
      ensures Linked() && released && mutex.granted == old(mutex.granted)
      ensures mutex.Abs() == Step(old(mutex.Abs()), Fire(ticket))
      ensures old(released) ==> mutex.Abs() == old(mutex.Abs())
    {
      if released {
        return;
      }
      released := true;
      mutex.Unlock(session);
      mutex.open := mutex.open - {ticket};
    }

    /** Any number of calls in a row has the effect of one. */
    method CallMany(times: nat)
      requires Linked() && times > 0
      modifies this`released, mutex
      ensures Linked() && released
      ensures mutex.Abs() == Step(old(mutex.Abs()), Fire(ticket))
    {
      Call();
      for i := 1 to times
        invariant Linked() && released
        invariant mutex.Abs() == Step(old(mutex.Abs()), Fire(ticket))
      {
        Call();
      }
    }
  }

  /** Whatever is done with a lock and its closures, in any order and any number of
      times, the objects do what the runs above do. */
  method Replay(actions: seq<Action>) returns (m: Mutex, closures: seq<Release>)
    ensures m.Abs() == Run(actions)
    ensures |closures| == m.granted
    ensures forall t | 0 <= t < |closures| ::
              closures[t].mutex == m && closures[t].ticket == t && closures[t].Linked()
  {
    m := new Mutex();
    closures := [];
    for i := 0 to |actions|
      invariant fresh(m) && m.Abs() == Run(actions[..i]) && |closures| == m.granted
      invariant forall t | 0 <= t < |closures| ::
                  && fresh(closures[t]) && closures[t].mutex == m && closures[t].ticket == t
                  && closures[t].Linked()
    {
      assert actions[..i + 1][..i] == actions[..i];
      RunIsSane(actions[..i]);
      match actions[i]
      case Ask(session) => var held := m.TryLock(session);
      case GiveUp(session) => m.Cancel(session);
      case Grant(session) =>
        var r := m.Acquire(session);
        if r.Some? { closures := closures + [r.value]; }
      case Fire(t) =>
        if t < |closures| { closures[t].Call(); }
    }
    assert actions[..|actions|] == actions;
  }
}
