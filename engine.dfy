/** The circulation engine: the four tables (containers, user balances, orders,
    replenishment requests) and the operations the operator, the restaurants
    and the customers perform on them. Each operation reads the tables,
    checks, and writes them back; the model keeps the tables in one object and
    gives each operation as a method that updates its fields. */
module Engine {
  import opened Records
  import opened Tables
  import opened Points
  import opened Rewards

  /** The balances after the operator moves container `c` to `next`: a
      customer who returns it cleaned (and who is a known user) earns the
      points for the hours it was held; nothing else changes a balance. */
  function ReturnCredit(users: map<Phone, int>, c: Container, next: Status, returnedClean: bool): map<Phone, int>
  {
    if next == Returned && c.owner != "" && returnedClean && c.owner in users then
      users[c.owner := users[c.owner] + CalcPoints(c.hoursInUse, true)]
    else users
  }

  /** The credit on a return goes to the container's owner alone, only for a
      cleaned return, and is at most 1000 points; no user is added or
      removed, and balances stay non-negative. */
  lemma ReturnCreditEffect(users: map<Phone, int>, c: Container, next: Status, returnedClean: bool)
    requires BalancesNonNegative(users)
    ensures var r := ReturnCredit(users, c, next, returnedClean);
            r.Keys == users.Keys && BalancesNonNegative(r)
            && (forall p :: p in users && p != c.owner ==> r[p] == users[p])
            && (c.owner in users ==> users[c.owner] <= r[c.owner] <= users[c.owner] + MaxPoints)
            && (r != users ==> next == Returned && returnedClean && c.owner != "")
  {
    PointsBounded(c.hoursInUse, true);
  }

  class Store {
    var containers: seq<Container>
    var users: map<Phone, int>
    var orders: seq<Order>
    var requests: seq<Request>

    /** The ledger invariant: no balance is negative. */
    ghost predicate Valid()
      reads this
    {
      BalancesNonNegative(users)
    }

    /** The tables as they were loaded. */
    constructor (containers: seq<Container>, users: map<Phone, int>, orders: seq<Order>, requests: seq<Request>)
      requires BalancesNonNegative(users)
      ensures Valid()
      ensures this.containers == containers && this.users == users
      ensures this.orders == orders && this.requests == requests
    {
      this.containers := containers;
      this.users := users;
      this.orders := orders;
      this.requests := requests;
    }

    /** The operator's "Update Status" on the container with the given id
        (its first row), to a status the operator is offered. A cleaned
        return credits the owner; a move to CLEAN resets the container. */
    method UpdateStatus(id: string, next: Status, returnedClean: bool)
      requires Valid()
      requires id in Ids(containers)
      requires next in NextStatusOptions(containers[IndexOf(containers, id).value].status)
      modifies this
      ensures Valid()
      ensures var i := IndexOf(old(containers), id).value;
              containers == old(containers)[i := MoveTo(old(containers)[i], next)]
              && users == ReturnCredit(old(users), old(containers)[i], next, returnedClean)
      ensures Grows(old(containers), containers)
      ensures orders == old(orders) && requests == old(requests)
    {
      var i := IndexOf(containers, id).value;
      var c := containers[i];
      if next == Returned && c.owner != "" {
        if returnedClean {
          var pts := CalcPoints(c.hoursInUse, true);
          if c.owner in users {
            users := users[c.owner := users[c.owner] + pts];
          }
        }
      }
      if next == Clean {
        c := c.(owner := "", deposit := 0, hoursInUse := 0, timesUsed := c.timesUsed + 1);
      }
      c := c.(status := next);
      containers := containers[i := c];
      ReturnCreditEffect(old(users), old(containers)[i], next, returnedClean);
    }

    /** The distribution loop: the rows at `picked` are handed to the
        restaurant one after the other. */
    method HandToRestaurant(picked: seq<nat>, restaurant: Phone)
      requires forall k :: 0 <= k < |picked| ==> picked[k] < |containers|
      modifies this
      ensures containers == DistributeAll(old(containers), picked, restaurant)
      ensures users == old(users) && orders == old(orders) && requests == old(requests)
    {
      ghost var before := containers;
      var k := 0;
      while k < |picked|
        invariant 0 <= k <= |picked|
        invariant containers == DistributeAll(before, picked[..k], restaurant)
        invariant users == old(users) && orders == old(orders) && requests == old(requests)
      {
        DistributeAllStep(before, picked, k, restaurant);
        var cidx := picked[k];
        containers := containers[cidx := ToRestaurant(containers[cidx], restaurant)];
        k := k + 1;
      }
      assert picked[..k] == picked;
    }

    /** The operator distributes containers for open request r: the first
        `numRequested` CLEAN containers become the restaurant's stock and the
        request is fulfilled; with too few CLEAN containers nothing
        changes. */
    method Distribute(r: nat) returns (ok: bool)
      requires Valid()
      requires r < |requests| && requests[r].status == Open
      modifies this
      ensures Valid()
      ensures var n := old(requests[r]).numRequested;
              ok <==> |CleanIndices(old(containers))| >= n
      ensures !ok ==> containers == old(containers) && requests == old(requests)
      ensures ok ==> FirstCleanHandedTo(old(containers), containers, old(requests[r]).numRequested, old(requests[r]).restaurant)
      ensures ok ==> requests == old(requests)[r := old(requests[r]).(status := Fulfilled)]
      ensures Grows(old(containers), containers)
      ensures users == old(users) && orders == old(orders)
    {
      var restaurant := requests[r].restaurant;
      var n := requests[r].numRequested;
      var available := FirstClean(containers, n);
      FirstCleanShape(containers, n);
      if |available| < n {
        return false;
      }
      ghost var before := containers;
      HandToRestaurant(available, restaurant);
      DistributionEffect(before, n, restaurant);
      requests := requests[r := requests[r].(status := Fulfilled)];
      ok := true;
    }

    /** The delivery loop: each chosen id is looked up in the table as it
        stands and its first row is handed to the customer. */
    method HandToCustomer(chosen: seq<string>, customer: Phone)
      requires forall k :: 0 <= k < |chosen| ==> chosen[k] in Ids(containers)
      modifies this
      ensures containers == DeliverAll(old(containers), chosen, customer)
      ensures users == old(users) && orders == old(orders) && requests == old(requests)
    {
      ghost var before := containers;
      var k := 0;
      while k < |chosen|
        invariant 0 <= k <= |chosen|
        invariant containers == DeliverAll(before, chosen[..k], customer)
        invariant users == old(users) && orders == old(orders) && requests == old(requests)
      {
        DeliverAllStep(before, chosen, k, customer);
        var cidx := IndexOf(containers, chosen[k]).value;
        containers := containers[cidx := ToCustomer(containers[cidx], customer)];
        k := k + 1;
      }
      assert chosen[..k] == chosen;
    }

    /** The restaurant delivers pending order o with the containers it chose
        from its stock: each becomes the customer's, in use, with a deposit,
        and the order records how many were used. With nothing chosen
        nothing changes. */
    method DeliverOrder(o: nat, chosen: seq<string>) returns (ok: bool)
      requires Valid()
      requires o < |orders| && orders[o].status == Pending
      requires NoDuplicates(chosen)
      requires forall k :: 0 <= k < |chosen| ==> chosen[k] in StockIds(containers, orders[o].restaurant)
      modifies this
      ensures Valid()
      ensures ok <==> |chosen| > 0
      ensures !ok ==> containers == old(containers) && orders == old(orders)
      ensures ok ==> FirstRowsHandedTo(old(containers), containers, chosen, old(orders[o]).customer)
      ensures ok && UniqueIds(old(containers)) ==>
                StockHandedTo(old(containers), containers, chosen, old(orders[o]).customer, old(orders[o]).restaurant)
      ensures ok ==> orders == old(orders)[o := old(orders[o]).(status := Delivered, containers := Some(|chosen|))]
      ensures Grows(old(containers), containers)
      ensures UniqueIds(old(containers)) ==> UniqueIds(containers)
      ensures users == old(users) && requests == old(requests)
    {
      if |chosen| == 0 {
        return false;
      }
      var customer := orders[o].customer;
      ghost var before := containers;
      forall k | 0 <= k < |chosen| ensures chosen[k] in Ids(before) {
        StockIdsAreIds(before, orders[o].restaurant, chosen[k]);
      }
      HandToCustomer(chosen, customer);
      DeliveryEffect(before, chosen, customer, orders[o].restaurant);
      orders := orders[o := orders[o].(status := Delivered, containers := Some(|chosen|))];
      ok := true;
    }

    /** The operator adds containers with the given ids (generated by the
        caller, one per container, and not checked against the table). */
    method AddContainers(newIds: seq<string>)
      requires 1 <= |newIds| <= 100
      modifies this
      ensures |containers| == |old(containers)| + |newIds|
      ensures containers[..|old(containers)|] == old(containers)
      ensures forall k :: 0 <= k < |newIds| ==> containers[|old(containers)| + k] == NewContainer(newIds[k])
      ensures Grows(old(containers), containers)
      ensures users == old(users) && orders == old(orders) && requests == old(requests)
    {
      var k := 0;
      while k < |newIds|
        invariant 0 <= k <= |newIds|
        invariant |containers| == |old(containers)| + k
        invariant containers[..|old(containers)|] == old(containers)
        invariant forall j :: 0 <= j < k ==> containers[|old(containers)| + j] == NewContainer(newIds[j])
        invariant users == old(users) && orders == old(orders) && requests == old(requests)
      {
        containers := containers + [NewContainer(newIds[k])];
        k := k + 1;
      }
    }

    /** Adding containers with a duplicate check: the ids must be distinct
        and new to the table, otherwise nothing is added. This keeps the ids
        of the table unique. */
    method AddContainersUnique(newIds: seq<string>) returns (ok: bool)
      requires 1 <= |newIds| <= 100
      modifies this
      ensures ok <==> NoDuplicates(newIds) && forall k :: 0 <= k < |newIds| ==> newIds[k] !in Ids(old(containers))
      ensures !ok ==> containers == old(containers)
      ensures ok ==> |containers| == |old(containers)| + |newIds|
                     && containers[..|old(containers)|] == old(containers)
                     && forall k :: 0 <= k < |newIds| ==> containers[|old(containers)| + k] == NewContainer(newIds[k])
      ensures UniqueIds(old(containers)) ==> UniqueIds(containers)
      ensures Grows(old(containers), containers)
      ensures users == old(users) && orders == old(orders) && requests == old(requests)
    {
      ok := NoDuplicates(newIds) && forall k :: 0 <= k < |newIds| ==> newIds[k] !in Ids(containers);
      if ok {
        ghost var before := containers;
        AddContainers(newIds);
        var m := |before|;
        forall i, j | 0 <= i < j < |containers| && UniqueIds(before) ensures containers[i].id != containers[j].id {
          if j < m {
            assert containers[i] == containers[..m][i] == before[i];
            assert containers[j] == containers[..m][j] == before[j];
          } else if i < m {
            assert containers[i] == containers[..m][i] == before[i];
            assert Ids(before)[i] == before[i].id;
            assert containers[j].id == newIds[j - m];
          } else {
            assert containers[i].id == newIds[i - m];
            assert containers[j].id == newIds[j - m];
          }
        }
      }
    }

    /** The customer places an order with a restaurant: it is appended as
        pending, with no containers yet. */
    method PlaceOrder(customer: Phone, restaurant: Phone, text: string)
      modifies this
      ensures orders == old(orders) + [Order(customer, restaurant, text, Pending, None)]
      ensures containers == old(containers) && users == old(users) && requests == old(requests)
    {
      orders := orders + [Order(customer, restaurant, text, Pending, None)];
    }

    /** The restaurant asks for n more containers: an open request is
        appended. */
    method SubmitRequest(restaurant: Phone, name: string, n: nat, createdAt: string)
      requires n >= 1
      modifies this
      ensures requests == old(requests) + [Request(restaurant, name, n, Open, createdAt)]
      ensures containers == old(containers) && users == old(users) && orders == old(orders)
    {
      requests := requests + [Request(restaurant, name, n, Open, createdAt)];
    }

    /** The customer redeems a fixed-price reward: the cost is debited only
        when the balance covers it. */
    method Redeem(phone: Phone, reward: string) returns (ok: bool)
      requires Valid()
      requires phone in users && reward in Catalog
      modifies this
      ensures Valid()
      ensures ok <==> old(users[phone]) >= Catalog[reward]
      ensures users == if ok then old(users)[phone := old(users[phone]) - Catalog[reward]] else old(users)
      ensures containers == old(containers) && orders == old(orders) && requests == old(requests)
    {
      var cost := Catalog[reward];
      var current := users[phone];
      ok := current >= cost;
      if ok {
        users := users[phone := users[phone] - cost];
      }
    }

    /** The customer spins the wheel, which lands on `segment`: when the
        balance covers the cost it is debited, and a points prize is
        credited; a voucher credits nothing. */
    method Spin(phone: Phone, segment: string) returns (ok: bool)
      requires Valid()
      requires phone in users && segment in WheelSegments
      modifies this
      ensures Valid()
      ensures ok <==> old(users[phone]) >= SpinCost
      ensures users == if ok then old(users)[phone := old(users[phone]) - SpinCost + PrizePoints(segment)] else old(users)
      ensures containers == old(containers) && orders == old(orders) && requests == old(requests)
    {
      var current := users[phone];
      ok := current >= SpinCost;
      if ok {
        users := users[phone := users[phone] - SpinCost];
        var amount := PrizePoints(segment);
        users := users[phone := users[phone] + amount];
      }
    }
  }
}
