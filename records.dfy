/** The records of the circulation program: containers, orders and
    replenishment requests, the operator's status table, and the changes a
    single container record undergoes in each workflow. */
module Records {

  /** Customers, restaurants and operators are all identified by a phone
      number; the empty phone is the "no owner" value of a container. */
  type Phone = string

  datatype Option<T> = None | Some(value: T)

  datatype Status = Clean | Distributed | InUse | Returned

  /** The deposit a customer pays per delivered container, $5.00, in cents. */
  const DepositCents: nat := 500

  /** One row of the containers table. `deposit` is in cents; `history` lists
      every holder the container was handed to, oldest first. */
  datatype Container = Container(
    id: string,
    status: Status,
    hoursInUse: nat,
    timesUsed: nat,
    owner: Phone,
    deposit: nat,
    history: seq<Phone>)

  datatype OrderStatus = Pending | Delivered

  /** One row of the orders table; `containers` is empty until delivery
      records how many containers were used. */
  datatype Order = Order(
    customer: Phone,
    restaurant: Phone,
    text: string,
    status: OrderStatus,
    containers: Option<nat>)

  datatype RequestStatus = Open | Fulfilled

  /** One row of the requests table: a restaurant asking for more stock.
      `createdAt` is the formatted timestamp, opaque to the model. */
  datatype Request = Request(
    restaurant: Phone,
    restaurantName: string,
    numRequested: nat,
    status: RequestStatus,
    createdAt: string)

  /** The next statuses the operator may pick for a container, in the order
      the selection box lists them (the first is preselected). */
  function NextStatusOptions(s: Status): (r: seq<Status>)
    ensures 1 <= |r| <= 2
  {
    match s
    case Clean => [Distributed, InUse]
    case Distributed => [InUse, Clean]
    case InUse => [Returned]
    case Returned => [Clean]
  }

  /** No option keeps a container where it is, and a container can only be
      marked RETURNED while a customer is using it. */
  lemma NextStatusShape(s: Status, t: Status)
    ensures t in NextStatusOptions(s) ==> t != s
    ensures Returned in NextStatusOptions(s) <==> s == InUse
    ensures Clean in NextStatusOptions(s) <==> s == Distributed || s == Returned
    ensures InUse in NextStatusOptions(s) <==> s == Clean || s == Distributed
    ensures Distributed in NextStatusOptions(s) <==> s == Clean
  {
  }

  /** The cycle never ends: from every status the operator can bring a
      container back to CLEAN in at most three steps, passing through the
      customer loop CLEAN -> IN_USE -> RETURNED -> CLEAN. */
  lemma CleanAlwaysReachable(s: Status)
    ensures Clean in NextStatusOptions(s)
         || (exists t :: t in NextStatusOptions(s) && Clean in NextStatusOptions(t))
         || (exists t, u :: t in NextStatusOptions(s) && u in NextStatusOptions(t) && Clean in NextStatusOptions(u))
  {
    match s
    case Clean =>
      assert InUse in NextStatusOptions(s) && Returned in NextStatusOptions(InUse);
    case Distributed =>
    case InUse =>
      assert Returned in NextStatusOptions(s);
    case Returned =>
  }

  /** A freshly added container: CLEAN, unowned, no deposit, no hours, never
      used, no history. */
  function NewContainer(id: string): (c: Container)
    ensures c.id == id && c.status == Clean && c.owner == "" && c.history == []
    ensures c.deposit == 0 && c.hoursInUse == 0 && c.timesUsed == 0
  {
    Container(id, Clean, 0, 0, "", 0, [])
  }

  /** A container handed to a restaurant as stock by distribution. */
  function ToRestaurant(c: Container, restaurant: Phone): Container
  {
    c.(status := Distributed, owner := restaurant, history := c.history + [restaurant])
  }

  /** A container handed to a customer by order delivery. */
  function ToCustomer(c: Container, customer: Phone): Container
  {
    c.(status := InUse, owner := customer, deposit := DepositCents, history := c.history + [customer])
  }

  /** The operator's "Update Status": a move to CLEAN clears the owner, the
      deposit and the hours and counts one more use; any other move only
      changes the status. */
  function MoveTo(c: Container, next: Status): Container
  {
    if next == Clean then
      c.(status := Clean, owner := "", deposit := 0, hoursInUse := 0, timesUsed := c.timesUsed + 1)
    else
      c.(status := next)
  }

  /** Each of the three changes keeps the id, extends the history by at most
      the new holder and never lowers the use counter; only MoveTo touches
      the counter, by exactly one on a move to CLEAN. */
  lemma ChangesOnlyGrow(c: Container, who: Phone, next: Status)
    ensures var d := ToRestaurant(c, who);
            d.id == c.id && d.history == c.history + [who] && d.timesUsed == c.timesUsed
    ensures var d := ToCustomer(c, who);
            d.id == c.id && d.history == c.history + [who] && d.timesUsed == c.timesUsed && d.deposit > 0
    ensures var d := MoveTo(c, next);
            d.id == c.id && d.history == c.history && d.status == next
            && d.timesUsed == c.timesUsed + (if next == Clean then 1 else 0)
  {
  }

  /** A move to CLEAN is the only move that resets a container, and it resets
      the owner, deposit and hours whatever state the container was in. */
  lemma MoveToCleanResets(c: Container, next: Status)
    ensures var d := MoveTo(c, next);
            (d.owner == "" && d.deposit == 0 && d.hoursInUse == 0) <==>
            (next == Clean || (c.owner == "" && c.deposit == 0 && c.hoursInUse == 0))
  {
  }

  /** The customer round trip: a CLEAN container delivered to a customer,
      returned and cleaned again is unowned, carries no deposit and no hours,
      has been used once more, and its history has gained exactly the
      customer. */
  lemma CustomerCycleRestores(c: Container, customer: Phone)
    requires c.status == Clean
    ensures var d := MoveTo(MoveTo(ToCustomer(c, customer), Returned), Clean);
            d.status == Clean && d.owner == "" && d.deposit == 0 && d.hoursInUse == 0
            && d.timesUsed == c.timesUsed + 1 && d.history == c.history + [customer] && d.id == c.id
  {
  }

  /** Ownership during the cycle: a returned container keeps its customer as
      owner (so the credit can find them); only the next move to CLEAN
      clears it. */
  lemma ReturnKeepsOwner(c: Container, customer: Phone)
    ensures MoveTo(ToCustomer(c, customer), Returned).owner == customer
    ensures MoveTo(ToCustomer(c, customer), Returned).deposit == DepositCents
  {
  }
}
