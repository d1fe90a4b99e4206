/** The pending-DACK slot of one receiver entry (vmac/dack.c): the generator thread and the
    timer callback share it under a lock that both only try to take. Every assignment to the
    shared fields is a step of its own, and the two may interleave anywhere. */
module PendingDack {
  import opened VmacTypes

  datatype Lock = Free | ByGenerator | ByTimer

  /** Where the generator stands in `prepDACK`. DACKs are named by the order they were built
      in; `frees` is whether its last test, on the reused random variable, will pass. */
  datatype Generator =
    | GenIdle
    | GenBuilt(skb: nat, frees: bool)                        // before the try-lock
    | GenLocked(skb: nat, frees: bool)                       // about to test send
    | GenReplacing(skb: nat, ptr: Option<nat>, frees: bool)  // old frame remembered
    | GenStored                                              // dack set, send not yet
    | GenRaised                                              // send set, timer not yet armed
    | GenUnlocking(ptr: Option<nat>, frees: bool)
    | GenFreeing(ptr: Option<nat>, frees: bool)              // lock given back

  /** Where the timer callback stands in `__sendDACK`. */
  datatype Callback =
    | CbIdle
    | CbFired                  // before the try-lock
    | CbLocked                 // about to test send
    | CbCleared                // send cleared
    | CbTook(ptr: Option<nat>) // frame read, slot not yet emptied
    | CbEmptied(ptr: Option<nat>)
    | CbUnlocked(ptr: Option<nat>)

  datatype State = State(
    lock: Lock,
    send: bool,
    dack: Option<nat>,
    armed: bool,
    gen: Generator,
    cb: Callback,
    rounds: seq<u16>,         // the round of each DACK built so far
    handed: seq<Option<nat>>, // what add_DACK put on the management queue
    freed: seq<nat>)

  datatype Event =
    | Build(round: u16, luck: bool) // the next request; luck is the random word being one
    | GenStep
    | Fire
    | CbStep

  function Initial(): State {
    State(Free, false, None, true, GenIdle, CbIdle, [], [], [])
  }

  predicate Enabled(s: State, e: Event) {
    match e
    case Build(round, luck) => s.gen.GenIdle?
    case GenStep => !s.gen.GenIdle?
    case Fire => s.armed && s.cb.CbIdle? // a timer's callback never runs beside itself
    case CbStep => !s.cb.CbIdle?
  }

  function FreeIfAny(freed: seq<nat>, ptr: Option<nat>): seq<nat> {
    if ptr.Some? then freed + [ptr.value] else freed
  }

  function GeneratorStep(s: State): State {
    match s.gen
    case GenIdle => s
    case GenBuilt(skb, frees) =>
      if s.lock.Free? then s.(lock := ByGenerator, gen := GenLocked(skb, frees))
      else s.(gen := GenIdle, freed := s.freed + [skb])
    case GenLocked(skb, frees) =>
      if s.send then s.(gen := GenReplacing(skb, s.dack, frees || s.dack.Some?))
      else s.(dack := Some(skb), gen := GenStored)
    case GenReplacing(skb, ptr, frees) => s.(send := true, dack := Some(skb), gen := GenUnlocking(ptr, frees))
    case GenStored => s.(send := true, gen := GenRaised)
    case GenRaised => s.(armed := true, gen := GenUnlocking(None, false))
    case GenUnlocking(ptr, frees) => s.(lock := Free, gen := GenFreeing(ptr, frees))
    case GenFreeing(ptr, frees) => s.(gen := GenIdle, freed := if frees then FreeIfAny(s.freed, ptr) else s.freed)
  }

  function CallbackStep(s: State): State {
    match s.cb
    case CbIdle => s
    case CbFired =>
      if s.lock.Free? then s.(lock := ByTimer, cb := CbLocked)
      else s.(armed := true, cb := CbIdle)
    case CbLocked => if s.send then s.(send := false, cb := CbCleared) else s.(lock := Free, cb := CbIdle)
    case CbCleared => s.(cb := CbTook(s.dack))
    case CbTook(ptr) => s.(dack := None, cb := CbEmptied(ptr))
    case CbEmptied(ptr) => s.(lock := Free, cb := CbUnlocked(ptr))
    case CbUnlocked(ptr) => s.(cb := CbIdle, handed := s.handed + [ptr])
  }

  function Step(s: State, e: Event): State {
    match e
    case Build(round, luck) => s.(gen := GenBuilt(|s.rounds|, luck), rounds := s.rounds + [round])
    case GenStep => GeneratorStep(s)
    case Fire => s.(armed := false, cb := CbFired)
    case CbStep => CallbackStep(s)
  }

  function After(events: seq<Event>): Option<State> {
    if events == [] then Some(Initial())
    else
      match After(events[..|events| - 1])
      case None => None
      case Some(mid) =>
        var e := events[|events| - 1];
        if Enabled(mid, e) then Some(Step(mid, e)) else None
  }

  // ---- who owns each DACK ----

  function One(ptr: Option<nat>, id: nat): nat {
    if ptr == Some(id) then 1 else 0
  }

  /** In the generator's hands: built and not yet in the slot, or taken out of it to free. */
  function GeneratorHolds(g: Generator, id: nat): nat {
    match g
    case GenBuilt(skb, _) => One(Some(skb), id)
    case GenLocked(skb, _) => One(Some(skb), id)
    case GenReplacing(skb, _, _) => One(Some(skb), id)
    case GenUnlocking(ptr, _) => One(ptr, id)
    case GenFreeing(ptr, _) => One(ptr, id)
    case _ => 0
  }

  /** In the callback's hands: out of the slot, not yet on the management queue. */
  function CallbackHolds(c: Callback, id: nat): nat {
    match c
    case CbEmptied(ptr) => One(ptr, id)
    case CbUnlocked(ptr) => One(ptr, id)
    case _ => 0
  }

  function TimesHanded(handed: seq<Option<nat>>, id: nat): nat {
    if handed == [] then 0
    else TimesHanded(handed[..|handed| - 1], id) + One(handed[|handed| - 1], id)
  }

  function TimesFreed(freed: seq<nat>, id: nat): nat {
    if freed == [] then 0
    else TimesFreed(freed[..|freed| - 1], id) + if freed[|freed| - 1] == id then 1 else 0
  }

  /** How often one DACK is owned: by the generator, the pending slot, the callback, the
      management queue and the free list together. */
  function Owners(s: State, id: nat): nat {
    GeneratorHolds(s.gen, id) + One(s.dack, id) + CallbackHolds(s.cb, id)
    + TimesHanded(s.handed, id) + TimesFreed(s.freed, id)
  }

  ghost predicate OwnedOnce(s: State) {
    forall id: nat :: Owners(s, id) == if id < |s.rounds| then 1 else 0
  }

  ghost predicate LockDiscipline(s: State) {
    && (s.lock.ByGenerator? <==>
          s.gen.GenLocked? || s.gen.GenReplacing? || s.gen.GenStored? || s.gen.GenRaised? || s.gen.GenUnlocking?)
    && (s.lock.ByTimer? <==> s.cb.CbLocked? || s.cb.CbCleared? || s.cb.CbTook? || s.cb.CbEmptied?)
  }

  /** The flag and the pointer agree, except inside the critical sections. */
  ghost predicate FlagAgrees(s: State) {
    && (s.gen.GenStored? ==> !s.send && s.dack.Some?)
    && (s.gen.GenReplacing? ==> s.send && s.dack.Some? && s.gen.ptr == s.dack && s.gen.frees)
    && (s.cb.CbCleared? ==> !s.send && s.dack.Some?)
    && (s.cb.CbTook? ==> !s.send && s.dack.Some? && s.cb.ptr == s.dack)
    && (s.cb.CbEmptied? || s.cb.CbUnlocked? ==> s.cb.ptr.Some?)
    && (s.gen.GenUnlocking? || s.gen.GenFreeing? ==> s.gen.ptr.Some? ==> s.gen.frees)
    && (!s.gen.GenStored? && !s.cb.CbCleared? && !s.cb.CbTook? ==> (s.send <==> s.dack.Some?))
    && (forall k :: 0 <= k < |s.handed| ==> s.handed[k].Some?)
  }

  /** A pending DACK has its timer armed or its callback on the way. */
  ghost predicate WillBeSent(s: State) {
    s.send && !s.gen.GenRaised? ==> s.armed || s.cb.CbFired? || s.cb.CbLocked?
  }

  function InHand(s: State): Option<nat> {
    if s.gen.GenBuilt? || s.gen.GenLocked? || s.gen.GenReplacing? then Some(s.gen.skb) else None
  }

  function OnItsWay(s: State): Option<nat> {
    if s.cb.CbEmptied? || s.cb.CbUnlocked? then s.cb.ptr else None
  }

  ghost predicate Below(a: Option<nat>, b: Option<nat>) {
    a.Some? && b.Some? ==> a.value < b.value
  }

  /** Handed over before on its way, before pending, before in the generator's hand. */
  ghost predicate InBuildOrder(s: State) {
    && (forall i, j :: 0 <= i < j < |s.handed| ==> Below(s.handed[i], s.handed[j]))
    && (forall k :: 0 <= k < |s.handed| ==>
          Below(s.handed[k], OnItsWay(s)) && Below(s.handed[k], s.dack) && Below(s.handed[k], InHand(s))
          && (s.handed[k].Some? ==> s.handed[k].value < |s.rounds|))
    && Below(OnItsWay(s), s.dack) && Below(OnItsWay(s), InHand(s)) && Below(s.dack, InHand(s))
    && (s.dack.Some? ==> s.dack.value < |s.rounds|)
    && (OnItsWay(s).Some? ==> OnItsWay(s).value < |s.rounds|)
    && (InHand(s).Some? ==> InHand(s).value < |s.rounds|)
  }

  ghost predicate Inv(s: State) {
    LockDiscipline(s) && FlagAgrees(s) && WillBeSent(s) && InBuildOrder(s) && OwnedOnce(s)
  }

  lemma HandedSnoc(handed: seq<Option<nat>>, ptr: Option<nat>, id: nat)
    ensures TimesHanded(handed + [ptr], id) == TimesHanded(handed, id) + One(ptr, id)
  {
    assert (handed + [ptr])[..|handed|] == handed;
  }

  lemma FreedSnoc(freed: seq<nat>, skb: nat, id: nat)
    ensures TimesFreed(freed + [skb], id) == TimesFreed(freed, id) + One(Some(skb), id)
  {
    assert (freed + [skb])[..|freed|] == freed;
  }

  lemma GeneratorMovesOwner(s: State, id: nat)
    requires LockDiscipline(s) && FlagAgrees(s)
    ensures Owners(GeneratorStep(s), id) == Owners(s, id)
  {
    if s.gen.GenBuilt? { FreedSnoc(s.freed, s.gen.skb, id); }
    if s.gen.GenFreeing? && s.gen.ptr.Some? { FreedSnoc(s.freed, s.gen.ptr.value, id); }
  }

  lemma CallbackMovesOwner(s: State, id: nat)
    requires LockDiscipline(s) && FlagAgrees(s)
    ensures Owners(CallbackStep(s), id) == Owners(s, id)
  {
    if s.cb.CbUnlocked? { HandedSnoc(s.handed, s.cb.ptr, id); }
  }

  /** No step loses or doubles an owner; building adds one. */
  lemma StepKeepsOwners(s: State, e: Event)
    requires LockDiscipline(s) && FlagAgrees(s) && OwnedOnce(s) && Enabled(s, e)
    ensures OwnedOnce(Step(s, e))
  {
    forall id: nat
      ensures Owners(Step(s, e), id) == if id < |Step(s, e).rounds| then 1 else 0
    {
      assert Owners(s, id) == if id < |s.rounds| then 1 else 0;
      match e
      case Build(round, luck) =>
      case GenStep => GeneratorMovesOwner(s, id);
      case Fire =>
      case CbStep => CallbackMovesOwner(s, id);
    }
  }

  lemma StepKeepsFlags(s: State, e: Event)
    requires LockDiscipline(s) && FlagAgrees(s) && WillBeSent(s) && Enabled(s, e)
    ensures LockDiscipline(Step(s, e)) && FlagAgrees(Step(s, e)) && WillBeSent(Step(s, e))
  {
  }

  lemma GeneratorKeepsOrder(s: State)
    requires LockDiscipline(s) && FlagAgrees(s) && InBuildOrder(s)
    ensures InBuildOrder(GeneratorStep(s))
  {
  }

  lemma CallbackKeepsOrder(s: State)
    requires LockDiscipline(s) && FlagAgrees(s) && InBuildOrder(s)
    ensures InBuildOrder(CallbackStep(s))
  {
  }

  lemma BuildKeepsOrder(s: State, round: u16, luck: bool)
    requires LockDiscipline(s) && FlagAgrees(s) && InBuildOrder(s) && Enabled(s, Build(round, luck))
    ensures InBuildOrder(Step(s, Build(round, luck)))
  {
  }

  lemma StepKeepsOrder(s: State, e: Event)
    requires LockDiscipline(s) && FlagAgrees(s) && InBuildOrder(s) && Enabled(s, e)
    ensures InBuildOrder(Step(s, e))
  {
    match e
    case Build(round, luck) => BuildKeepsOrder(s, round, luck);
    case GenStep => GeneratorKeepsOrder(s);
    case Fire =>
    case CbStep => CallbackKeepsOrder(s);
  }

  lemma StepKeepsInv(s: State, e: Event)
    requires Inv(s) && Enabled(s, e)
    ensures Inv(Step(s, e))
  {
    StepKeepsFlags(s, e);
    StepKeepsOrder(s, e);
    StepKeepsOwners(s, e);
  }

  lemma {:induction false} EveryRunKeepsInv(events: seq<Event>)
    requires After(events).Some?
    ensures Inv(After(events).value)
  {
    if events != [] {
      var front := events[..|events| - 1];
      EveryRunKeepsInv(front);
      StepKeepsInv(After(front).value, events[|events| - 1]);
    }
  }

  /** In every interleaving: each DACK built has exactly one owner; with the lock free, the
      flag is up exactly when a frame is pending, and then its timer is armed or its
      callback in flight. */
  lemma PendingIsOwned(events: seq<Event>)
    requires After(events).Some?
    ensures var s := After(events).value;
            && (forall id: nat :: Owners(s, id) == if id < |s.rounds| then 1 else 0)
            && (s.lock.Free? ==> (s.send <==> s.dack.Some?))
            && (s.lock.Free? && s.dack.Some? ==> s.armed || s.cb.CbFired?)
  {
    EveryRunKeepsInv(events);
  }

  /** In every interleaving the management queue receives real frames, in the order they
      were built, though built DACKs are dropped on a busy lock or replaced. */
  lemma HandedInBuildOrder(events: seq<Event>, i: nat, j: nat)
    requires After(events).Some? && i < j < |After(events).value.handed|
    ensures var s := After(events).value;
            && s.handed[i].Some? && s.handed[j].Some?
            && s.handed[i].value < s.handed[j].value < |s.rounds|
  {
    EveryRunKeepsInv(events);
    var s := After(events).value;
    assert Below(s.handed[i], s.handed[j]);
  }
}
