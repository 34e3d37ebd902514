/** Queries over the containers table, and the effect of the two multi-row
    workflows (distribution to a restaurant, delivery to a customer) stated as
    functions of the table before the workflow. */
module Tables {
  import opened Records

  /** The id column, in table order. */
  function Ids(cs: seq<Container>): seq<string>
  {
    seq(|cs|, i requires 0 <= i < |cs| => cs[i].id)
  }

  predicate NoDuplicates<T(==)>(s: seq<T>)
  {
    forall k, l :: 0 <= k < l < |s| ==> s[k] != s[l]
  }

  /** No two rows of the table share an id. */
  predicate UniqueIds(cs: seq<Container>)
  {
    forall i, j :: 0 <= i < j < |cs| ==> cs[i].id != cs[j].id
  }

  /** The row that a lookup by id selects: the first row carrying that id, or
      nothing when no row does. */
  function IndexOf(cs: seq<Container>, id: string): (r: Option<nat>)
    ensures r.Some? ==> r.value < |cs| && cs[r.value].id == id
    ensures r.Some? ==> forall j :: 0 <= j < r.value ==> cs[j].id != id
    ensures r.None? <==> id !in Ids(cs)
  {
    if |cs| == 0 then None
    else if cs[0].id == id then assert Ids(cs)[0] == id; Some(0)
    else
      assert Ids(cs) == [cs[0].id] + Ids(cs[1..]);
      match IndexOf(cs[1..], id)
      case None => None
      case Some(k) => Some(k + 1)
  }

  /** A lookup by id only depends on the id column. */
  lemma IndexOfSameIds(a: seq<Container>, b: seq<Container>, id: string)
    requires Ids(a) == Ids(b)
    ensures IndexOf(a, id) == IndexOf(b, id)
  {
    assert |a| == |Ids(a)| == |Ids(b)| == |b|;
    forall j | 0 <= j < |a| ensures a[j].id == b[j].id {
      assert Ids(a)[j] == a[j].id && Ids(b)[j] == b[j].id;
    }
  }

  /** When ids are unique, the lookup of a row's own id finds that row. */
  lemma IndexOfUnique(cs: seq<Container>, i: nat)
    requires UniqueIds(cs) && i < |cs|
    ensures IndexOf(cs, cs[i].id) == Some(i)
  {
    assert Ids(cs)[i] == cs[i].id;
  }

  /** The positions of the CLEAN rows, in ascending table order. */
  function CleanIndices(cs: seq<Container>): (r: seq<nat>)
    ensures forall k :: 0 <= k < |r| ==> r[k] < |cs| && cs[r[k]].status == Clean
    ensures forall i :: 0 <= i < |cs| && cs[i].status == Clean ==> i in r
    ensures forall k, l :: 0 <= k < l < |r| ==> r[k] < r[l]
  {
    if |cs| == 0 then []
    else
      var prev := CleanIndices(cs[..|cs| - 1]);
      if cs[|cs| - 1].status == Clean then prev + [|cs| - 1] else prev
  }

  /** There are never more CLEAN positions than rows. */
  lemma {:induction false} CleanIndicesBound(cs: seq<Container>)
    ensures |CleanIndices(cs)| <= |cs|
  {
    if |cs| > 0 {
      CleanIndicesBound(cs[..|cs| - 1]);
    }
  }

  /** The CLEAN positions of a prefix of the table come first among the CLEAN
      positions of the whole table. */
  lemma {:induction false} CleanIndicesPrefix(cs: seq<Container>, j: nat)
    requires j <= |cs|
    ensures CleanIndices(cs[..j]) <= CleanIndices(cs)
    decreases |cs| - j
  {
    if j < |cs| {
      var front := cs[..|cs| - 1];
      assert cs[..j] == front[..j];
      CleanIndicesPrefix(front, j);
      assert CleanIndices(front) <= CleanIndices(cs);
    } else {
      assert cs[..j] == cs;
    }
  }

  /** The containers the operator's distribution picks: the first n CLEAN
      rows (fewer when the table has fewer). */
  function FirstClean(cs: seq<Container>, n: nat): seq<nat>
  {
    var all := CleanIndices(cs);
    if |all| <= n then all else all[..n]
  }

  /** A row is picked exactly when it is CLEAN and fewer than n CLEAN rows
      precede it: the picked rows are the first n CLEAN rows in table
      order. */
  lemma FirstCleanIsFirstN(cs: seq<Container>, n: nat, i: nat)
    requires i < |cs|
    ensures i in FirstClean(cs, n) <==> cs[i].status == Clean && |CleanIndices(cs[..i])| < n
  {
    var all := CleanIndices(cs);
    var before := CleanIndices(cs[..i]);
    if cs[i].status == Clean {
      CleanIndicesPrefix(cs, i + 1);
      var upTo := CleanIndices(cs[..i + 1]);
      assert cs[..i + 1][..i] == cs[..i];
      assert upTo == before + [i];
      assert all[|before|] == i;
    } else {
      assert i !in all;
    }
  }

  /** The first n CLEAN rows are n distinct positions when there are at least
      n CLEAN rows. */
  lemma FirstCleanShape(cs: seq<Container>, n: nat)
    ensures |FirstClean(cs, n)| == if |CleanIndices(cs)| <= n then |CleanIndices(cs)| else n
    ensures NoDuplicates(FirstClean(cs, n))
    ensures forall k :: 0 <= k < |FirstClean(cs, n)| ==> FirstClean(cs, n)[k] < |cs|
  {
    var all := CleanIndices(cs);
    forall k, l | 0 <= k < l < |FirstClean(cs, n)| ensures FirstClean(cs, n)[k] != FirstClean(cs, n)[l] {
      assert all[k] < all[l];
    }
  }

  /** A restaurant's stock: containers distributed to it and not yet
      delivered. */
  predicate InStock(c: Container, restaurant: Phone)
  {
    c.status == Distributed && c.owner == restaurant
  }

  /** The ids the restaurant can choose from when delivering an order, in
      table order. */
  function StockIds(cs: seq<Container>, restaurant: Phone): (r: seq<string>)
    ensures forall id :: id in r ==> exists i :: 0 <= i < |cs| && cs[i].id == id && InStock(cs[i], restaurant)
    ensures forall i :: 0 <= i < |cs| && InStock(cs[i], restaurant) ==> cs[i].id in r
  {
    if |cs| == 0 then []
    else
      var prev := StockIds(cs[..|cs| - 1], restaurant);
      if InStock(cs[|cs| - 1], restaurant) then prev + [cs[|cs| - 1].id] else prev
  }

  /** A stock id is an id of the table. */
  lemma StockIdsAreIds(cs: seq<Container>, restaurant: Phone, id: string)
    requires id in StockIds(cs, restaurant)
    ensures id in Ids(cs)
  {
    var i :| 0 <= i < |cs| && cs[i].id == id && InStock(cs[i], restaurant);
    assert Ids(cs)[i] == id;
  }

  /** The table after handing the rows at `picked`, one after the other, to
      the restaurant. */
  function DistributeAll(cs: seq<Container>, picked: seq<nat>, restaurant: Phone): (r: seq<Container>)
    requires forall k :: 0 <= k < |picked| ==> picked[k] < |cs|
    ensures |r| == |cs|
  {
    if |picked| == 0 then cs
    else
      var prev := DistributeAll(cs, picked[..|picked| - 1], restaurant);
      var i := picked[|picked| - 1];
      prev[i := ToRestaurant(prev[i], restaurant)]
  }

  /** One more step of the distribution loop. */
  lemma DistributeAllStep(cs: seq<Container>, picked: seq<nat>, k: nat, restaurant: Phone)
    requires forall j :: 0 <= j < |picked| ==> picked[j] < |cs|
    requires k < |picked|
    ensures var prev := DistributeAll(cs, picked[..k], restaurant);
            DistributeAll(cs, picked[..k + 1], restaurant) == prev[picked[k] := ToRestaurant(prev[picked[k]], restaurant)]
  {
    assert picked[..k + 1][..k] == picked[..k];
  }

  /** Handing distinct rows to the restaurant changes each picked row once,
      into restaurant stock, and leaves every other row as it was. */
  lemma {:induction false} DistributeAllAt(cs: seq<Container>, picked: seq<nat>, restaurant: Phone, i: nat)
    requires forall k :: 0 <= k < |picked| ==> picked[k] < |cs|
    requires NoDuplicates(picked)
    requires i < |cs|
    ensures DistributeAll(cs, picked, restaurant)[i] ==
            if i in picked then ToRestaurant(cs[i], restaurant) else cs[i]
  {
    if |picked| > 0 {
      var front := picked[..|picked| - 1];
      var last := picked[|picked| - 1];
      assert picked == front + [last];
      DistributeAllAt(cs, front, restaurant, i);
      assert last !in front by {
        forall k | 0 <= k < |front| ensures front[k] != last {
          assert picked[k] == front[k];
        }
      }
    }
  }

  /** The table after delivering the containers with the chosen ids, one
      after the other, to the customer; each id is looked up afresh in the
      table as it stands, taking its first row. */
  function DeliverAll(cs: seq<Container>, chosen: seq<string>, customer: Phone): (r: seq<Container>)
    requires forall k :: 0 <= k < |chosen| ==> chosen[k] in Ids(cs)
    ensures |r| == |cs| && Ids(r) == Ids(cs)
  {
    if |chosen| == 0 then cs
    else
      var prev := DeliverAll(cs, chosen[..|chosen| - 1], customer);
      var i := IndexOf(prev, chosen[|chosen| - 1]).value;
      var r := prev[i := ToCustomer(prev[i], customer)];
      assert Ids(r) == Ids(prev) by {
        forall j | 0 <= j < |r| ensures Ids(r)[j] == Ids(prev)[j] { }
      }
      r
  }

  /** One more step of the delivery loop. */
  lemma DeliverAllStep(cs: seq<Container>, chosen: seq<string>, k: nat, customer: Phone)
    requires forall j :: 0 <= j < |chosen| ==> chosen[j] in Ids(cs)
    requires k < |chosen|
    ensures var prev := DeliverAll(cs, chosen[..k], customer);
            chosen[k] in Ids(prev) &&
            var i := IndexOf(prev, chosen[k]).value;
            DeliverAll(cs, chosen[..k + 1], customer) == prev[i := ToCustomer(prev[i], customer)]
  {
    assert chosen[..k + 1][..k] == chosen[..k];
  }

  /** Delivering distinct ids changes exactly the first row of each chosen
      id, once, into a customer's container, and leaves every other row as
      it was. */
  lemma {:induction false} DeliverAllAt(cs: seq<Container>, chosen: seq<string>, customer: Phone, i: nat)
    requires forall k :: 0 <= k < |chosen| ==> chosen[k] in Ids(cs)
    requires NoDuplicates(chosen)
    requires i < |cs|
    ensures DeliverAll(cs, chosen, customer)[i] ==
            if cs[i].id in chosen && IndexOf(cs, cs[i].id) == Some(i) then ToCustomer(cs[i], customer) else cs[i]
  {
    if |chosen| > 0 {
      var front := chosen[..|chosen| - 1];
      var last := chosen[|chosen| - 1];
      assert chosen == front + [last];
      var prev := DeliverAll(cs, front, customer);
      DeliverAllAt(cs, front, customer, i);
      IndexOfSameIds(prev, cs, last);
      assert last !in front by {
        forall k | 0 <= k < |front| ensures front[k] != last {
          assert chosen[k] == front[k];
        }
      }
    }
  }

  /** With unique ids, delivery changes exactly the rows whose id was chosen,
      and when the chosen ids come from a restaurant's stock, every changed
      row was in that stock. */
  lemma DeliverAllUnique(cs: seq<Container>, chosen: seq<string>, customer: Phone, restaurant: Phone, i: nat)
    requires UniqueIds(cs)
    requires forall k :: 0 <= k < |chosen| ==> chosen[k] in StockIds(cs, restaurant)
    requires NoDuplicates(chosen)
    requires i < |cs|
    ensures forall k :: 0 <= k < |chosen| ==> chosen[k] in Ids(cs)
    ensures DeliverAll(cs, chosen, customer)[i] ==
            if cs[i].id in chosen then ToCustomer(cs[i], customer) else cs[i]
    ensures cs[i].id in chosen ==> InStock(cs[i], restaurant)
  {
    forall k | 0 <= k < |chosen| ensures chosen[k] in Ids(cs) {
      StockIdsAreIds(cs, restaurant, chosen[k]);
    }
    DeliverAllAt(cs, chosen, customer, i);
    IndexOfUnique(cs, i);
    if cs[i].id in chosen {
      var j :| 0 <= j < |cs| && cs[j].id == cs[i].id && InStock(cs[j], restaurant);
      assert j == i;
    }
  }

  /** `after` is `before` with exactly its first n CLEAN rows, in table
      order, handed to the restaurant as stock; every other row is as it
      was. */
  ghost predicate FirstCleanHandedTo(before: seq<Container>, after: seq<Container>, n: nat, restaurant: Phone)
  {
    |after| == |before| &&
    forall i :: 0 <= i < |before| ==>
      after[i] == if before[i].status == Clean && |CleanIndices(before[..i])| < n
                  then ToRestaurant(before[i], restaurant) else before[i]
  }

  /** Distribution of n containers, given at least n CLEAN rows, hands
      exactly the first n CLEAN rows to the restaurant, and the table only
      grows. */
  lemma DistributionEffect(cs: seq<Container>, n: nat, restaurant: Phone)
    requires n <= |CleanIndices(cs)|
    ensures |FirstClean(cs, n)| == n
    ensures FirstCleanHandedTo(cs, DistributeAll(cs, FirstClean(cs, n), restaurant), n, restaurant)
    ensures Grows(cs, DistributeAll(cs, FirstClean(cs, n), restaurant))
  {
    FirstCleanShape(cs, n);
    var r := DistributeAll(cs, FirstClean(cs, n), restaurant);
    forall i | 0 <= i < |cs|
      ensures r[i] == if cs[i].status == Clean && |CleanIndices(cs[..i])| < n
                      then ToRestaurant(cs[i], restaurant) else cs[i]
    {
      DistributeAllAt(cs, FirstClean(cs, n), restaurant, i);
      FirstCleanIsFirstN(cs, n, i);
    }
    FirstCleanHandedToGrows(cs, r, n, restaurant);
  }

  /** Handing rows to a restaurant only grows the table. */
  lemma FirstCleanHandedToGrows(before: seq<Container>, after: seq<Container>, n: nat, restaurant: Phone)
    requires FirstCleanHandedTo(before, after, n, restaurant)
    ensures Grows(before, after)
  {
    forall i | 0 <= i < |before|
      ensures after[i].id == before[i].id && before[i].history <= after[i].history
              && before[i].timesUsed <= after[i].timesUsed
    {
      ChangesOnlyGrow(before[i], restaurant, Clean);
    }
  }

  /** `after` is `before` with the first row of each chosen id handed to the
      customer, once; every other row is as it was. */
  ghost predicate FirstRowsHandedTo(before: seq<Container>, after: seq<Container>, chosen: seq<string>, customer: Phone)
  {
    |after| == |before| &&
    forall i :: 0 <= i < |before| ==>
      after[i] == if before[i].id in chosen && IndexOf(before, before[i].id) == Some(i)
                  then ToCustomer(before[i], customer) else before[i]
  }

  /** `after` is `before` with every row whose id was chosen, each of them in
      the restaurant's stock, handed to the customer; every other row is as
      it was. */
  ghost predicate StockHandedTo(before: seq<Container>, after: seq<Container>, chosen: seq<string>, customer: Phone, restaurant: Phone)
  {
    |after| == |before| &&
    forall i :: 0 <= i < |before| ==>
      after[i] == (if before[i].id in chosen then ToCustomer(before[i], customer) else before[i])
      && (before[i].id in chosen ==> InStock(before[i], restaurant))
  }

  /** Delivery of distinct ids from a restaurant's stock changes the first
      row of each chosen id and nothing else, and the table only grows. With
      unique ids the changed rows are exactly those whose id was chosen, all
      of them the restaurant's stock, and the ids stay unique. */
  lemma DeliveryEffect(cs: seq<Container>, chosen: seq<string>, customer: Phone, restaurant: Phone)
    requires NoDuplicates(chosen)
    requires forall k :: 0 <= k < |chosen| ==> chosen[k] in StockIds(cs, restaurant)
    ensures forall k :: 0 <= k < |chosen| ==> chosen[k] in Ids(cs)
    ensures FirstRowsHandedTo(cs, DeliverAll(cs, chosen, customer), chosen, customer)
    ensures Grows(cs, DeliverAll(cs, chosen, customer))
    ensures UniqueIds(cs) ==> UniqueIds(DeliverAll(cs, chosen, customer))
    ensures UniqueIds(cs) ==> StockHandedTo(cs, DeliverAll(cs, chosen, customer), chosen, customer, restaurant)
  {
    forall k | 0 <= k < |chosen| ensures chosen[k] in Ids(cs) {
      StockIdsAreIds(cs, restaurant, chosen[k]);
    }
    DeliveryFirstRows(cs, chosen, customer);
    if UniqueIds(cs) {
      DeliveryOfStockUnique(cs, chosen, customer, restaurant);
    }
  }

  /** Delivery of distinct ids hands over the first row of each and the
      table only grows. */
  lemma DeliveryFirstRows(cs: seq<Container>, chosen: seq<string>, customer: Phone)
    requires NoDuplicates(chosen)
    requires forall k :: 0 <= k < |chosen| ==> chosen[k] in Ids(cs)
    ensures FirstRowsHandedTo(cs, DeliverAll(cs, chosen, customer), chosen, customer)
    ensures Grows(cs, DeliverAll(cs, chosen, customer))
  {
    var r := DeliverAll(cs, chosen, customer);
    forall i | 0 <= i < |cs|
      ensures r[i] == if cs[i].id in chosen && IndexOf(cs, cs[i].id) == Some(i)
                      then ToCustomer(cs[i], customer) else cs[i]
    {
      DeliverAllAt(cs, chosen, customer, i);
    }
    FirstRowsHandedToGrows(cs, r, chosen, customer);
  }

  /** Handing rows to a customer only grows the table. */
  lemma FirstRowsHandedToGrows(before: seq<Container>, after: seq<Container>, chosen: seq<string>, customer: Phone)
    requires FirstRowsHandedTo(before, after, chosen, customer)
    ensures Grows(before, after)
  {
    forall i | 0 <= i < |before|
      ensures after[i].id == before[i].id && before[i].history <= after[i].history
              && before[i].timesUsed <= after[i].timesUsed
    {
      ChangesOnlyGrow(before[i], customer, Clean);
    }
  }

  /** With unique ids, delivery of distinct stock ids hands over exactly the
      chosen stock rows and keeps the ids unique. */
  lemma DeliveryOfStockUnique(cs: seq<Container>, chosen: seq<string>, customer: Phone, restaurant: Phone)
    requires UniqueIds(cs)
    requires NoDuplicates(chosen)
    requires forall k :: 0 <= k < |chosen| ==> chosen[k] in StockIds(cs, restaurant)
    requires forall k :: 0 <= k < |chosen| ==> chosen[k] in Ids(cs)
    ensures UniqueIds(DeliverAll(cs, chosen, customer))
    ensures StockHandedTo(cs, DeliverAll(cs, chosen, customer), chosen, customer, restaurant)
  {
    var r := DeliverAll(cs, chosen, customer);
    forall i | 0 <= i < |cs|
      ensures r[i] == (if cs[i].id in chosen then ToCustomer(cs[i], customer) else cs[i])
              && (cs[i].id in chosen ==> InStock(cs[i], restaurant))
    {
      DeliverAllUnique(cs, chosen, customer, restaurant, i);
    }
    forall i, j | 0 <= i < j < |r| ensures r[i].id != r[j].id {
      assert Ids(r)[i] == Ids(cs)[i] && Ids(r)[j] == Ids(cs)[j];
    }
  }

  /** The containers table only ever grows: rows keep their position and id,
      histories are only extended and use counters never go down. */
  ghost predicate Grows(before: seq<Container>, after: seq<Container>)
  {
    |before| <= |after| &&
    forall i :: 0 <= i < |before| ==>
      after[i].id == before[i].id && before[i].history <= after[i].history
      && before[i].timesUsed <= after[i].timesUsed
  }

  /** Adding a container under an id the table already holds breaks the
      uniqueness of ids; nothing in the add workflow prevents it. */
  lemma RepeatedIdBreaksUniqueness(cs: seq<Container>, id: string)
    requires id in Ids(cs)
    ensures !UniqueIds(cs + [NewContainer(id)])
  {
    var i :| 0 <= i < |cs| && Ids(cs)[i] == id;
    var t := cs + [NewContainer(id)];
    assert t[i].id == id && t[|cs|].id == id;
  }

  /** With a repeated id, delivery goes astray. Row 0 is a container some
      customer already holds; row 1, added later under the same id, is the
      restaurant's stock. Delivering that stocked id re-hands the held
      container to the new customer and leaves the stocked one in stock. */
  lemma DuplicateIdMisdirectsDelivery()
    ensures Ids([ToCustomer(ToRestaurant(NewContainer("C123"), "R"), "U0"), ToRestaurant(NewContainer("C123"), "R")])
            == ["C123", "C123"]
    ensures var held := ToCustomer(ToRestaurant(NewContainer("C123"), "R"), "U0");
            var stocked := ToRestaurant(NewContainer("C123"), "R");
            var r := DeliverAll([held, stocked], ["C123"], "U1");
            "C123" in StockIds([held, stocked], "R")
            && r[0] == ToCustomer(held, "U1") && r[0].history == ["R", "U0", "U1"]
            && r[1] == stocked && InStock(r[1], "R")
  {
    var held := ToCustomer(ToRestaurant(NewContainer("C123"), "R"), "U0");
    var stocked := ToRestaurant(NewContainer("C123"), "R");
    var cs := [held, stocked];
    assert Ids(cs) == ["C123", "C123"];
    assert InStock(cs[1], "R");
    assert Ids(cs)[0] == "C123";
    assert IndexOf(cs, "C123") == Some(0);
    assert ["C123"][..0] == [];
    assert DeliverAll(cs, [], "U1") == cs;
  }
}
