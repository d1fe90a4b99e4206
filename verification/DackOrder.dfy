/** From the receiver's trigger to the management queue: a run of the protocol builds DACKs,
    and the generator and the timer callback pass them on. */
module DackOrder {
  import opened VmacTypes
  import opened ReceiverWindow
  import opened SenderRing
  import opened Protocol
  import opened ProtocolSafety
  import P = PendingDack
  import PendingFates

  /** Whatever the protocol's run, its scans and its channel, and however generator and
      callback interleave: if the generator built what the receiver asked for, in that order
      and perhaps not yet all of it, the rounds on the management queue strictly increase. */
  lemma HandedRoundsIncrease(
    d: Discipline, tx: Tx, garbage: Window, before: u16, events: seq<Event>, steps: seq<P.Event>, i: nat, j: nat)
    requires Protocol.After(d, Initial(tx, garbage, before), events).Some? && P.After(steps).Some?
    requires var sys := Protocol.After(d, Initial(tx, garbage, before), events).value;
             P.After(steps).value.rounds <= sys.built + sys.requests
    requires i < j < |P.After(steps).value.handed|
    ensures var s := P.After(steps).value;
            && s.handed[i].Some? && s.handed[j].Some?
            && s.handed[i].value < s.handed[j].value < |s.rounds|
            && s.rounds[s.handed[i].value] < s.rounds[s.handed[j].value]
  {
    var sys, s := Protocol.After(d, Initial(tx, garbage, before), events).value, P.After(steps).value;
    EveryRunIsSafe(d, tx, garbage, before, events);
    P.HandedInBuildOrder(steps, i, j);
    var all := sys.built + sys.requests;
    assert forall k :: 0 <= k < |s.rounds| ==> s.rounds[k] == all[k];
  }

  /** And there are such runs for every run of the protocol: where nobody interferes, all that
      was asked for is built and handed over. */
  lemma AllRoundsHanded(d: Discipline, tx: Tx, garbage: Window, before: u16, events: seq<Event>)
    returns (steps: seq<P.Event>)
    requires Protocol.After(d, Initial(tx, garbage, before), events).Some?
    ensures P.After(steps).Some?
    ensures var sys := Protocol.After(d, Initial(tx, garbage, before), events).value;
            var s := P.After(steps).value;
            && s.rounds == sys.built + sys.requests && s.freed == []
            && |s.handed| == |s.rounds| && forall k :: 0 <= k < |s.handed| ==> s.handed[k] == Some(k)
  {
    var sys := Protocol.After(d, Initial(tx, garbage, before), events).value;
    steps := PendingFates.AllHanded(sys.built + sys.requests);
  }
}
