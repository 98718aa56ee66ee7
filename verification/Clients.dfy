/** The list of clients that serve one metric (pkg/registry/clients.go). */
module Clients {
  import opened Wrappers

  /** A metric client as the registry sees it. GetConfiguration never changes during a client's life, so
      its name and priority are part of the value; `id` tells two client objects apart. */
  datatype Client = Client(id: nat, name: string, priority: int)

  ghost predicate SortedByPriority(clients: seq<Client>) {
    forall i, j :: 0 <= i < j < |clients| ==> clients[i].priority >= clients[j].priority
  }

  /** What sort.Sort may produce: it is not stable, so any sorted permutation. */
  ghost predicate SortedVersion(sorted: seq<Client>, clients: seq<Client>) {
    multiset(sorted) == multiset(clients) && SortedByPriority(sorted)
  }

  ghost predicate Serves(clients: seq<Client>, name: string) {
    exists i :: 0 <= i < |clients| && clients[i].name == name
  }

  /** The first position that holds a client of that name, or the length when there is none. */
  function FirstNamed(clients: seq<Client>, name: string): (k: nat)
    ensures k <= |clients|
    ensures k < |clients| ==> clients[k].name == name
    ensures forall i :: 0 <= i < k ==> clients[i].name != name
  {
    if clients == [] || clients[0].name == name then 0 else 1 + FirstNamed(clients[1..], name)
  }

  /** The clients once `client` has taken the place of its namesake, or joined at the end. */
  function WithClient(clients: seq<Client>, client: Client): seq<Client> {
    var k := FirstNamed(clients, client.name);
    if k < |clients| then clients[k := client] else clients + [client]
  }

  /** The clients once the first one of that name is gone. */
  function WithoutName(clients: seq<Client>, name: string): seq<Client> {
    var k := FirstNamed(clients, name);
    if k < |clients| then clients[..k] + clients[k + 1..] else clients
  }

  /** The first namesake, and only it, gives its place to the client; without one the client comes last. */
  lemma ClientTakesFirstPlace(clients: seq<Client>, client: Client)
    ensures !Serves(clients, client.name) ==> WithClient(clients, client) == clients + [client]
    ensures forall k :: 0 <= k < |clients| && clients[k].name == client.name && !Serves(clients[..k], client.name) ==>
              WithClient(clients, client) == clients[k := client]
  {
    var first := FirstNamed(clients, client.name);
    assert forall k :: first < k <= |clients| ==> clients[..k][first] == clients[first];
  }

  /** The first client of that name, and only it, is left out. */
  lemma FirstPlaceIsLeft(clients: seq<Client>, name: string)
    ensures !Serves(clients, name) ==> WithoutName(clients, name) == clients
    ensures forall k :: 0 <= k < |clients| && clients[k].name == name && !Serves(clients[..k], name) ==>
              WithoutName(clients, name) == clients[..k] + clients[k + 1..]
  {
    var first := FirstNamed(clients, name);
    assert forall k :: first < k <= |clients| ==> clients[..k][first] == clients[first];
  }

  class MetricClients {
    var list: seq<Client>

    constructor ()
      ensures list == []
    {
      list := [];
    }

    predicate Less(i: nat, j: nat)
      requires i < |list| && j < |list|
      reads this
    {
      list[i].priority > list[j].priority
    }

    method Swap(i: nat, j: nat)
      requires i < |list| && j < |list|
      modifies this
      ensures list == old(list)[i := old(list)[j]][j := old(list)[i]]
      ensures multiset(list) == multiset(old(list))
    {
      list := list[i := list[j]][j := list[i]];
    }

    /** sort.Sort sees the list only through its length, Less and Swap, and so does this insertion sort.
        Callers may use the contract alone: it admits every order of clients of equal priority. */
    method Sort()
      modifies this
      ensures SortedVersion(list, old(list))
    {
      var i := 1;
      while i < |list|
        invariant 1 <= i
        invariant |list| == |old(list)|
        invariant multiset(list) == multiset(old(list))
        invariant forall a, b :: 0 <= a < b < i && b < |list| ==> list[a].priority >= list[b].priority
        decreases |list| - i
      {
        var j := i;
        while j > 0 && Less(j, j - 1)
          invariant 0 <= j <= i < |list|
          invariant multiset(list) == multiset(old(list))
          invariant |list| == |old(list)|
          invariant forall a, b :: 0 <= a < b <= i && b != j ==> list[a].priority >= list[b].priority
          decreases j
        {
          Swap(j, j - 1);
          j := j - 1;
        }
        i := i + 1;
      }
    }

    method AddOrUpdateClient(client: Client)
      modifies this
      ensures SortedVersion(list, WithClient(old(list), client))
    {
      var found := FindName(client.name);
      if found < |list| {
        list := list[found := client];
      } else {
        list := list + [client];
      }
      Sort();
    }

    /** Removing a name that is not in the list leaves the list alone, order included. */
    method RemoveClient(name: string) returns (empty: bool)
      modifies this
      ensures Serves(old(list), name) ==> SortedVersion(list, WithoutName(old(list), name))
      ensures !Serves(old(list), name) ==> list == old(list)
      ensures empty == (list == [])
    {
      var found := FindName(name);
      if found < |list| {
        list := list[..found] + list[found + 1..];
        Sort();
      }
      empty := |list| == 0;
    }

    /** The head of the list, and an error when there is none. */
    method GetBestMetricClient() returns (best: Option<Client>)
      ensures best == if list == [] then None else Some(list[0])
    {
      if |list| == 0 {
        return None;
      }
      return Some(list[0]);
    }

    /** Whether some client of the list has that name. */
    method Holds(name: string) returns (held: bool)
      ensures held == Serves(list, name)
    {
      held := false;
      for i := 0 to |list|
        invariant held == exists k :: 0 <= k < i && list[k].name == name
      {
        if list[i].name == name {
          held := true;
        }
      }
    }

    method FindName(name: string) returns (found: nat)
      ensures found == FirstNamed(list, name)
    {
      found := 0;
      while found < |list| && list[found].name != name
        invariant found <= |list|
        invariant forall i :: 0 <= i < found ==> list[i].name != name
      {
        found := found + 1;
      }
    }
  }
}
