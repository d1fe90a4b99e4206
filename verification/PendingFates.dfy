/** What becomes of each DACK: handed over if the callback took it from the slot; freed if the
    generator met a busy lock with it, or replaced it in the slot; and in no other case. */
module PendingFates {
  import opened VmacTypes
  import opened PendingDack
  import opened DackSlot

  /** The DACKs that left the slot empty, in order; those that another one took the slot
      from; and those the generator found the lock busy with. */
  datatype Fates = Fates(taken: seq<nat>, replaced: set<nat>, dropped: set<nat>)

  /** One step from s to s', seen from the slot and the lock. */
  ghost function Add(f: Fates, s: State, e: Event, s': State): Fates {
    if s.dack.Some? && s'.dack.None? then f.(taken := f.taken + [s.dack.value])
    else if s.dack.Some? && s'.dack != s.dack then f.(replaced := f.replaced + {s.dack.value})
    else if e.GenStep? && s.gen.GenBuilt? && !s.lock.Free? then f.(dropped := f.dropped + {s.gen.skb})
    else f
  }

  ghost function FatesOf(events: seq<Event>): Fates
    requires After(events).Some?
  {
    if events == [] then Fates([], {}, {})
    else
      var front, e := events[..|events| - 1], events[|events| - 1];
      Add(FatesOf(front), After(front).value, e, After(events).value)
  }

  function Queue(taken: seq<nat>): seq<Option<nat>> {
    seq(|taken|, k requires 0 <= k < |taken| => Some(taken[k]))
  }

  /** Replaced, and about to be freed. */
  function BeingFreed(s: State): Option<nat> {
    if s.gen.GenUnlocking? || s.gen.GenFreeing? then s.gen.ptr else None
  }

  /** The callback hands over what it took; the generator frees what it replaced or met a busy
      lock with; and every DACK built is in hand, pending, or has met one of these fates. */
  ghost predicate Fated(s: State, f: Fates) {
    && s.handed + (if OnItsWay(s).Some? then [OnItsWay(s)] else []) == Queue(f.taken)
    && (forall id: nat :: id in s.freed || BeingFreed(s) == Some(id) <==> id in f.replaced || id in f.dropped)
    && (forall id: nat :: id < |s.rounds| ==>
          InHand(s) == Some(id) || s.dack == Some(id) || id in f.taken || id in f.replaced || id in f.dropped)
  }

  lemma QueueSnoc(taken: seq<nat>, id: nat)
    ensures Queue(taken + [id]) == Queue(taken) + [Some(id)]
  {
  }

  lemma GeneratorFates(s: State, f: Fates)
    requires Inv(s) && Fated(s, f) && !s.gen.GenIdle?
    ensures Fated(GeneratorStep(s), Add(f, s, GenStep, GeneratorStep(s)))
  {
  }

  lemma CallbackFates(s: State, f: Fates)
    requires Inv(s) && Fated(s, f) && !s.cb.CbIdle?
    ensures Fated(CallbackStep(s), Add(f, s, CbStep, CallbackStep(s)))
  {
    if s.cb.CbTook? { QueueSnoc(f.taken, s.dack.value); }
  }

  /** No callback step frees anything. */
  lemma CallbackFreesNothing(s: State)
    ensures CallbackStep(s).freed == s.freed
    ensures s.handed <= CallbackStep(s).handed
  {
  }

  /** In every interleaving: the management queue holds what was taken from the slot, in that
      order, but for the one on its way; freed, or about to be, is exactly what was replaced or
      met a busy lock; and nothing else becomes of a DACK. */
  lemma {:induction false} EveryFate(events: seq<Event>)
    requires After(events).Some?
    ensures Fated(After(events).value, FatesOf(events))
  {
    if events != [] {
      var front, e := events[..|events| - 1], events[|events| - 1];
      EveryFate(front);
      EveryRunKeepsInv(front);
      var s, f := After(front).value, FatesOf(front);
      match e
      case Build(round, luck) =>
      case GenStep => GeneratorFates(s, f);
      case Fire =>
      case CbStep => CallbackFates(s, f);
    }
  }

  /** With both threads at rest, each DACK built was handed over exactly if it was taken, and
      freed exactly if it was replaced or met a busy lock; otherwise it is pending. */
  lemma AtRest(events: seq<Event>)
    requires After(events).Some? && After(events).value.gen.GenIdle? && After(events).value.cb.CbIdle?
    ensures var s, f := After(events).value, FatesOf(events);
            && s.handed == Queue(f.taken)
            && (forall id: nat :: id in s.freed <==> id in f.replaced || id in f.dropped)
            && (forall id: nat :: id < |s.rounds| ==> s.dack == Some(id) || id in f.taken || id in s.freed)
  {
    EveryFate(events);
  }

  /** The most steps a thread has still to take. */
  function GeneratorLeft(g: Generator): nat {
    match g
    case GenIdle => 0
    case GenBuilt(_, _) => 6
    case GenLocked(_, _) => 5
    case GenStored => 4
    case GenReplacing(_, _, _) => 3
    case GenRaised => 3
    case GenUnlocking(_, _) => 2
    case GenFreeing(_, _) => 1
  }

  function CallbackLeft(c: Callback): nat {
    match c
    case CbIdle => 0
    case CbFired => 6
    case CbLocked => 5
    case CbCleared => 4
    case CbTook(_) => 3
    case CbEmptied(_) => 2
    case CbUnlocked(_) => 1
  }

  /** Neither thread ever waits for the other: each of its own steps brings it nearer to its
      end, whatever the other did in between. A callback that meets a busy lock ends with its
      timer armed again, and changes nothing else. */
  lemma NobodyWaits(s: State, e: Event)
    requires Enabled(s, e)
    ensures var s' := Step(s, e);
            && (e.GenStep? ==> GeneratorLeft(s'.gen) < GeneratorLeft(s.gen) && s'.cb == s.cb)
            && (e.CbStep? ==> CallbackLeft(s'.cb) < CallbackLeft(s.cb) && s'.gen == s.gen)
            && (e.CbStep? && s.cb.CbFired? && !s.lock.Free? ==> s' == s.(armed := true, cb := CbIdle))
  {
  }

  // ---- left alone, a DACK goes out ----

  function Many(e: Event, n: nat): seq<Event> {
    if n == 0 then [] else Many(e, n - 1) + [e]
  }

  lemma AfterSnoc(events: seq<Event>, e: Event)
    requires After(events).Some? && Enabled(After(events).value, e)
    ensures After(events + [e]) == Some(Step(After(events).value, e))
  {
    assert (events + [e])[..|events|] == events;
  }

  lemma {:induction false} AfterGenerated(events: seq<Event>, n: nat)
    requires After(events).Some? && forall j: nat :: j < n ==> !Generated(After(events).value, j).gen.GenIdle?
    ensures After(events + Many(GenStep, n)) == Some(Generated(After(events).value, n))
  {
    if n == 0 {
      assert events + [] == events;
    } else {
      AfterGenerated(events, n - 1);
      AfterSnoc(events + Many(GenStep, n - 1), GenStep);
      assert events + Many(GenStep, n) == events + Many(GenStep, n - 1) + [GenStep];
    }
  }

  lemma {:induction false} AfterCalled(events: seq<Event>, n: nat)
    requires After(events).Some? && forall j: nat :: j < n ==> !Called(After(events).value, j).cb.CbIdle?
    ensures After(events + Many(CbStep, n)) == Some(Called(After(events).value, n))
  {
    if n == 0 {
      assert events + [] == events;
    } else {
      AfterCalled(events, n - 1);
      AfterSnoc(events + Many(CbStep, n - 1), CbStep);
      assert events + Many(CbStep, n) == events + Many(CbStep, n - 1) + [CbStep];
    }
  }

  lemma CalledThrough(s: State)
    requires s.cb.CbFired? && s.lock.Free? && s.send && s.dack.Some?
    ensures forall j: nat :: j < 6 ==> !Called(s, j).cb.CbIdle?
    ensures Called(s, 6) == s.(send := false, dack := None, cb := CbIdle, handed := s.handed + [s.dack])
  {
    var locked := CallbackStep(s);
    assert Called(s, 1) == locked;
    assert Called(s, 2) == CallbackStep(locked);
    assert Called(s, 3) == CallbackStep(Called(s, 2));
    assert Called(s, 4) == CallbackStep(Called(s, 3));
    assert Called(s, 5) == CallbackStep(Called(s, 4));
    forall j: nat | j < 6 ensures !Called(s, j).cb.CbIdle? {
      assert j == 0 || j == 1 || j == 2 || j == 3 || j == 4 || j == 5;
    }
  }

  /** In every run: a DACK that is pending, with the lock free and the callback at rest, is
      handed over by the timer's next firing, if that is left alone. */
  lemma PendingIsSent(events: seq<Event>) returns (more: seq<Event>)
    requires After(events).Some?
    requires var s := After(events).value; s.lock.Free? && s.dack.Some? && s.cb.CbIdle?
    ensures more == [Fire] + Many(CbStep, 6)
    ensures var s := After(events).value;
            After(events + more) ==
            Some(s.(send := false, dack := None, armed := false, handed := s.handed + [s.dack]))
  {
    EveryRunKeepsInv(events);
    var s := After(events).value;
    AfterSnoc(events, Fire);
    CalledThrough(Step(s, Fire));
    AfterCalled(events + [Fire], 6);
    more := [Fire] + Many(CbStep, 6);
    assert events + more == events + [Fire] + Many(CbStep, 6);
  }

  lemma GeneratedThrough(s: State)
    requires s.gen.GenBuilt? && s.lock.Free? && !s.send
    ensures forall j: nat :: j < 6 ==> !Generated(s, j).gen.GenIdle?
    ensures Generated(s, 6) == s.(send := true, dack := Some(s.gen.skb), armed := true, gen := GenIdle)
  {
    var locked := GeneratorStep(s);
    assert Generated(s, 1) == locked;
    assert Generated(s, 2) == GeneratorStep(locked);
    assert Generated(s, 3) == GeneratorStep(Generated(s, 2));
    assert Generated(s, 4) == GeneratorStep(Generated(s, 3));
    assert Generated(s, 5) == GeneratorStep(Generated(s, 4));
    forall j: nat | j < 6 ensures !Generated(s, j).gen.GenIdle? {
      assert j == 0 || j == 1 || j == 2 || j == 3 || j == 4 || j == 5;
    }
  }

  /** Both threads at rest and nothing pending. */
  predicate Quiet(s: State) {
    s.lock.Free? && !s.send && s.dack.None? && s.gen.GenIdle? && s.cb.CbIdle?
  }

  /** From there, one more DACK goes through alone. */
  lemma OneMore(events: seq<Event>, round: u16, luck: bool) returns (all: seq<Event>)
    requires After(events).Some? && Quiet(After(events).value)
    ensures var s := After(events).value;
            After(all) ==
            Some(s.(armed := false, rounds := s.rounds + [round], handed := s.handed + [Some(|s.rounds|)]))
  {
    var built := events + [Build(round, luck)];
    AfterSnoc(events, Build(round, luck));
    GeneratedThrough(After(built).value);
    AfterGenerated(built, 6);
    all := built + Many(GenStep, 6);
    var more := PendingIsSent(all);
    all := all + more;
  }

  /** Runs in which nobody interferes: any rounds are built, and all their DACKs are handed
      over. */
  lemma {:induction false} AllHanded(rounds: seq<u16>) returns (events: seq<Event>)
    ensures After(events).Some?
    ensures var s := After(events).value;
            && Quiet(s) && s.rounds == rounds && s.freed == []
            && |s.handed| == |rounds| && forall k :: 0 <= k < |rounds| ==> s.handed[k] == Some(k)
  {
    events := [];
    if rounds != [] {
      var front := rounds[..|rounds| - 1];
      events := AllHanded(front);
      assert rounds == front + [rounds[|rounds| - 1]];
      events := OneMore(events, rounds[|rounds| - 1], false);
    }
  }
}
