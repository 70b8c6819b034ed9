/**
 * services/displaysrv/main.rs: whose request is served next. Each service brings the cyclic scan nearer
 * to every client that was passed over, which bounds how many can go before it.
 */
module RoundRobin {
  import opened Common
  import opened Affinity

  ghost predicate Pending(pending: seq<bool>, i: nat)
  {
    i < |pending| && pending[i]
  }

  /** The client with something queued that the scan meets first, and no one if nothing is queued. */
  ghost predicate ServesNearest(pending: seq<bool>, turn: nat, client: Option<nat>)
    requires 0 < |pending|
  {
    match client
    case Some(s) => Pending(pending, s) && forall i: nat :: Pending(pending, i) ==>
      Distance(|pending|, turn, s) <= Distance(|pending|, turn, i)
    case None => forall i: nat :: !Pending(pending, i)
  }

  /** The scan of `next_client`: `turn` moves past whoever is served. */
  method Scan(pending: seq<bool>, turn: nat) returns (client: Option<nat>, turn': nat)
    requires 0 < |pending| && turn < |pending|
    ensures ServesNearest(pending, turn, client)
    ensures turn' == if client.Some? then (client.value + 1) % |pending| else turn
    ensures turn' < |pending|
  {
    var clients := |pending|;
    var step := 0;
    while step < clients
      invariant step <= clients
      invariant forall k: nat :: k < step ==> !pending[Order(clients, turn, k)]
    {
      var candidate := Order(clients, turn, step);
      if pending[candidate] {
        DistanceOfOrder(clients, turn, step);
        forall i: nat | Pending(pending, i) ensures step <= Distance(clients, turn, i) {
          assert Order(clients, turn, Distance(clients, turn, i)) == i;
        }
        return Some(candidate), (candidate + 1) % clients;
      }
      step := step + 1;
    }
    forall i: nat | i < clients ensures !pending[i] {
      assert Order(clients, turn, Distance(clients, turn, i)) == i;
    }
    return None, turn;
  }

  /** One request served: what was queued when the scan ran, where it started, and who was chosen. */
  datatype Serve = Serve(pending: seq<bool>, turn: nat, chosen: nat)

  ghost predicate IsService(serves: seq<Serve>, clients: nat)
  {
    && (forall k :: 0 <= k < |serves| ==>
          && |serves[k].pending| == clients && serves[k].turn < clients && serves[k].chosen < clients
          && ServesNearest(serves[k].pending, serves[k].turn, Some(serves[k].chosen)))
    && (forall k :: 0 <= k < |serves| - 1 ==> serves[k + 1].turn == (serves[k].chosen + 1) % clients)
  }

  /** Serving anyone else brings the scan strictly nearer to a client that is waiting. */
  lemma DistanceShrinks(clients: nat, turn: nat, chosen: nat, c: nat)
    requires turn < clients && chosen < clients && c < clients && chosen != c
    requires Distance(clients, turn, chosen) <= Distance(clients, turn, c)
    ensures Distance(clients, (chosen + 1) % clients, c) < Distance(clients, turn, c)
  {
    ModOnce(chosen + 1, clients);
    ModUnique(turn, clients, 0, turn);
    var next := (chosen + 1) % clients;
    ModUnique(next, clients, 0, next);
  }

  lemma {:induction false} WaitShrinks(serves: seq<Serve>, clients: nat, c: nat, k: nat)
    requires IsService(serves, clients) && c < clients && k < |serves|
    requires forall j :: 0 <= j <= k ==> Pending(serves[j].pending, c)
    requires forall j :: 0 <= j < k ==> serves[j].chosen != c
    ensures Distance(clients, serves[k].turn, c) + k <= Distance(clients, serves[0].turn, c)
  {
    if k > 0 {
      WaitShrinks(serves, clients, c, k - 1);
      DistanceShrinks(clients, serves[k - 1].turn, serves[k - 1].chosen, c);
    }
  }

  /** While a client keeps a request queued, at most `clients - 1` others are served before it. */
  lemma BoundedWaiting(serves: seq<Serve>, clients: nat, c: nat)
    requires IsService(serves, clients) && c < clients
    requires forall j :: 0 <= j < |serves| ==> Pending(serves[j].pending, c) && serves[j].chosen != c
    ensures |serves| <= clients - 1
  {
    if serves != [] {
      var last := |serves| - 1;
      WaitShrinks(serves, clients, c, last);
      DistanceShrinks(clients, serves[last].turn, serves[last].chosen, c);
    }
  }
}
