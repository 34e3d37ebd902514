/** Worked runs of the engine: one container's whole circulation, and a
    distribution that cannot be served. */
module Scenarios {
  import opened Records
  import opened Tables
  import opened Points
  import opened Engine

  /** A CLEAN container goes to restaurant R1 on its request, then to
      customer U1 with their order. */
  method DistributeAndDeliver() returns (s: Store)
    ensures fresh(s) && s.Valid()
    ensures s.containers == [ToCustomer(ToRestaurant(NewContainer("C001"), "R1"), "U1")]
    ensures s.users == map["U1" := 0]
    ensures s.orders == [Order("U1", "R1", "lunch", Delivered, Some(1))]
    ensures s.requests == [Request("R1", "Cafe", 1, Fulfilled, "2024-05-01 12:00:00")]
  {
    var c := NewContainer("C001");
    s := new Store([c], map["U1" := 0],
                   [Order("U1", "R1", "lunch", Pending, None)],
                   [Request("R1", "Cafe", 1, Open, "2024-05-01 12:00:00")]);
    assert CleanIndices([c]) == [0];
    var distributed := s.Distribute(0);
    assert [c][..0] == [];
    var stocked := ToRestaurant(c, "R1");
    assert s.containers == [stocked];
    assert InStock(s.containers[0], "R1");
    var delivered := s.DeliverOrder(0, ["C001"]);
    assert Ids([stocked]) == ["C001"];
  }

  /** The delivered container comes back cleaned after zero hours, which
      earns U1 1000 points, and is cleaned for the next cycle: unowned, no
      deposit, used once, its history naming R1 then U1. */
  method ContainerCycle() returns (s: Store)
    ensures s.users == map["U1" := 1000]
    ensures s.containers == [Container("C001", Clean, 0, 1, "", 0, ["R1", "U1"])]
    ensures s.orders == [Order("U1", "R1", "lunch", Delivered, Some(1))]
  {
    s := DistributeAndDeliver();
    var held := ToCustomer(ToRestaurant(NewContainer("C001"), "R1"), "U1");
    assert Ids(s.containers) == ["C001"];
    assert CalcPoints(0, true) == 1000;
    s.UpdateStatus("C001", Returned, true);
    assert s.containers == [MoveTo(held, Returned)];
    assert Ids(s.containers) == ["C001"];
    s.UpdateStatus("C001", Clean, false);
    assert s.containers == [MoveTo(MoveTo(held, Returned), Clean)];
    assert held.history == [] + ["R1"] + ["U1"] == ["R1", "U1"];
  }

  /** A request for five containers when only three are CLEAN is refused
      and leaves every table as it was. */
  method ShortDistribution() returns (s: Store, ok: bool)
    ensures !ok
    ensures s.containers == [NewContainer("C001"), NewContainer("C002"), NewContainer("C003")]
    ensures s.requests == [Request("R1", "Cafe", 5, Open, "2024-05-01 12:00:00")]
  {
    var cs := [NewContainer("C001"), NewContainer("C002"), NewContainer("C003")];
    s := new Store(cs, map[], [], [Request("R1", "Cafe", 5, Open, "2024-05-01 12:00:00")]);
    CleanIndicesBound(cs);
    ok := s.Distribute(0);
  }
}
