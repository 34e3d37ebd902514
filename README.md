# Reusable containers: the circulation engine

A Dafny model of the engine inside the reusable-containers demo app
(`reusable_containers_demo.py`). The app tracks a pool of reusable food
containers that circulate between an operator, restaurants and customers:

- the operator hands CLEAN containers to a restaurant that asked for more (a
  replenishment request);
- the restaurant delivers an order in some of those containers, and the
  customer pays a $5.00 deposit on each;
- the operator marks a container RETURNED and then CLEAN again. A customer
  who returns a container cleaned earns loyalty points. The points decay
  from 1000 to 0 over a week of use.
- customers spend points on fixed-price rewards or on a spin of a prize
  wheel.

Modules:

- `Points` (`points.dfy`): `calc_points`, on integers, with its bounds,
  monotonicity, landmark values and the clean/unclean relation.
- `Records` (`records.dfy`): the container, order and request records; the
  operator's table of next statuses; and the change each workflow makes to
  one container (`ToRestaurant`, `ToCustomer`, `MoveTo`).
- `Tables` (`tables.dfy`): queries over the containers table (ids, the
  lookup of a row by id, the CLEAN rows, a restaurant's stock). It also
  gives the effect of distribution and delivery as functions of the table
  before the workflow (`DistributeAll`, `DeliverAll`), with pointwise lemmas.
- `Rewards` (`rewards.dfy`): the reward catalog, the wheel, and the reading
  of a wheel label such as `"+50 Points"` as a number of points.
- `Engine` (`engine.dfy`): class `Store` holds the four tables (containers,
  user balances, orders, requests). Each operation of the app is a method
  that updates the fields in place. The delivery and distribution loops
  run row by row and are proved against `DeliverAll` and `DistributeAll`.
  `Store.Valid()` (no negative balance) is kept by every operation that
  changes a balance; the other operations leave the balances unchanged.
- `Scenarios` (`scenarios.dfy`): two worked runs through the `Store`
  methods. In the first, one container goes restaurant → customer →
  returned → clean, and the customer ends with 1000 points. In the second,
  a request for five containers is refused when only three are CLEAN.

Representation choices:

- Deposits are integer cents (`DepositCents = 500`).
- Balances are `int`; that none is negative is the invariant `Valid()`.
- The app reads a float quotient and truncates it with `int`. The model
  uses the floor of the exact rational quotient instead. For a
  non-negative base the two agree, and the app clamps the base at 0.
- The app looks a container up by id and takes the first matching row
  (`index[0]`, `iloc[0]`). The model's `Tables.IndexOf` does the same.
- The app offers only OPEN requests, PENDING orders and the restaurant's
  own DISTRIBUTED stock. It also offers only the statuses of the
  next-status table, and a multiselect cannot pick an id twice. The model
  states these as preconditions.
- Random choices are parameters: new container ids and the wheel segment.
  The request timestamp is an opaque string parameter.

## Model

| member | source | states |
|---|---|---|
| Points.CalcPoints | reusable_containers_demo.py:100-102 | the credit is never negative and is 0 once the hours reach a week (168) |
| Points.PointsIsFloorOfBase | reusable_containers_demo.py:100-102 | below a week the result is the floor of the exact quotient (168 - h) * 1000 / 168, or of its half for an unclean return |
| Points.PointsBounded | reusable_containers_demo.py:100-102 | for every non-negative number of hours the credit lies in [0, 1000] |
| Points.PointsAntitone | reusable_containers_demo.py:100-102 | a longer hold never earns more points |
| Points.UncleanIsHalfOfClean | reusable_containers_demo.py:100-102 | the unclean credit is the floor of half the clean credit |
| Points.PointsLandmarks | reusable_containers_demo.py:100-102 | 1000 at 0 h, 500 at 84 h, 0 at 168 h and 200 h, 250 for an unclean return at 84 h |
| Records.NextStatusOptions | reusable_containers_demo.py:502-511 | one or two options are offered for every status |
| Records.NextStatusShape | reusable_containers_demo.py:502-511 | no option keeps the status; RETURNED is offered exactly from IN_USE, CLEAN exactly from DISTRIBUTED and RETURNED, IN_USE exactly from CLEAN and DISTRIBUTED, DISTRIBUTED exactly from CLEAN |
| Records.CleanAlwaysReachable | reusable_containers_demo.py:502-511 | from every status CLEAN is reachable in at most three offered moves |
| Records.NewContainer | reusable_containers_demo.py:461-463 | a new container has the given id, is CLEAN, unowned, with no deposit, no hours, no uses and no history |
| Records.ChangesOnlyGrow | reusable_containers_demo.py:437-442 | the restaurant and customer hand-overs keep the id and append exactly the new holder to the history. The status change keeps the history and sets the new status; only a move to CLEAN adds one use. |
| Records.MoveToCleanResets | reusable_containers_demo.py:528-533 | after a status change the owner, deposit and hours are all cleared exactly when the move is to CLEAN or they were already clear |
| Records.CustomerCycleRestores | reusable_containers_demo.py:528-533 | a CLEAN container delivered, returned and cleaned is unowned, with no deposit and no hours, has one more use, and its history has gained exactly the customer |
| Records.ReturnKeepsOwner | reusable_containers_demo.py:533 | marking a delivered container RETURNED keeps the customer as owner and keeps the deposit |
| Engine.ReturnCreditEffect | reusable_containers_demo.py:520-527 | a status change adds or removes no user and keeps every balance non-negative. Only the owner's balance can change, by at most 1000, and only on a move to RETURNED with a non-empty owner and "Returned Cleaned" chosen. |
| Engine.Store.UpdateStatus | reusable_containers_demo.py:518-537 | the first row with the id becomes `MoveTo(row, next)` and nothing else in the table changes. Balances become `ReturnCredit` of the old ones, the ledger invariant holds, and orders and requests are unchanged. |
| Tables.IndexOf | reusable_containers_demo.py:519 | the lookup finds the first row carrying the id, and finds nothing exactly when no row carries it |
| Tables.IndexOfUnique | reusable_containers_demo.py:519 | with unique ids, looking up a row's own id finds that row |
| Tables.CleanIndices | reusable_containers_demo.py:433 | the positions of the CLEAN rows: each one is CLEAN, every CLEAN row is listed, and they are in ascending order |
| Tables.CleanIndicesBound | reusable_containers_demo.py:433-434 | there are never more CLEAN positions than rows, so a request for more containers than the table holds is refused |
| Tables.CleanIndicesPrefix | reusable_containers_demo.py:433 | the CLEAN rows of a prefix of the table come first among the CLEAN rows of the whole table |
| Tables.FirstCleanIsFirstN | reusable_containers_demo.py:433 | a row is picked exactly when it is CLEAN and fewer than n CLEAN rows precede it |
| Tables.FirstCleanShape | reusable_containers_demo.py:433-434 | the pick has min(n, number of CLEAN rows) entries, all distinct and in range |
| Engine.Store.HandToRestaurant | reusable_containers_demo.py:437-442 | the distribution loop leaves the table as `DistributeAll` of the old table and the picked rows; the other tables are unchanged |
| Tables.DistributeAllStep | reusable_containers_demo.py:437-442 | one more pass of the distribution loop hands the next picked row to the restaurant |
| Tables.DistributeAllAt | reusable_containers_demo.py:437-442 | after the distribution loop, each picked row is handed to the restaurant once and every other row is as it was |
| Tables.DistributionEffect | reusable_containers_demo.py:432-445 | given enough CLEAN rows, exactly the first n of them are handed to the restaurant, everything else is unchanged, and the table only grows |
| Tables.FirstCleanHandedToGrows | reusable_containers_demo.py:437-442 | handing rows to a restaurant keeps every id, only extends histories and never lowers a use counter |
| Engine.Store.Distribute | reusable_containers_demo.py:432-445 | succeeds exactly when there are at least n CLEAN containers; on failure nothing changes. On success the first n CLEAN rows become the restaurant's stock and the request is FULFILLED; balances and orders are unchanged. |
| Tables.StockIds | reusable_containers_demo.py:612-615 | the ids offered for delivery are exactly the ids of rows that are DISTRIBUTED and owned by the restaurant |
| Tables.StockIdsAreIds | reusable_containers_demo.py:612-615 | every offered id is an id of the table |
| Engine.Store.HandToCustomer | reusable_containers_demo.py:633-640 | the delivery loop leaves the table as `DeliverAll` of the old table and the chosen ids; the other tables are unchanged |
| Tables.DeliverAllStep | reusable_containers_demo.py:633-640 | one more pass of the delivery loop looks the next id up in the current table and hands its first row to the customer |
| Tables.DeliverAllAt | reusable_containers_demo.py:633-640 | after the delivery loop, the first row of each chosen id is handed to the customer once; every other row is as it was |
| Tables.DeliverAllUnique | reusable_containers_demo.py:633-640 | with unique ids, a row is handed to the customer exactly when its id was chosen, and then it was in the restaurant's stock |
| Tables.DeliveryFirstRows | reusable_containers_demo.py:633-640 | delivering distinct ids hands over the first row of each id and the table only grows |
| Tables.FirstRowsHandedToGrows | reusable_containers_demo.py:633-640 | handing rows to a customer keeps every id, only extends histories and never lowers a use counter |
| Tables.DeliveryOfStockUnique | reusable_containers_demo.py:612-640 | with unique ids, delivering distinct stock ids hands over exactly the chosen stock rows and keeps ids unique |
| Tables.DeliveryEffect | reusable_containers_demo.py:612-646 | delivery changes only the first row of each chosen id and the table only grows. With unique ids the changed rows are exactly the chosen stock rows, and ids stay unique. |
| Engine.Store.DeliverOrder | reusable_containers_demo.py:612-646 | succeeds exactly when something was chosen; otherwise nothing changes. On success each chosen container becomes IN_USE, owned by the customer, with a 500-cent deposit and the customer appended to its history. The order becomes DELIVERED with the number chosen; balances and requests are unchanged. |
| Engine.Store.AddContainers | reusable_containers_demo.py:457-465 | appends exactly one new CLEAN container per given id, after the existing rows, which are untouched; nothing else changes |
| Engine.Store.AddContainersUnique | reusable_containers_demo.py:457-465 | adds the containers exactly when the ids are distinct and new to the table, otherwise changes nothing; unique ids stay unique |
| Engine.Store.PlaceOrder | reusable_containers_demo.py:285-292 | appends one PENDING order with no container count; nothing else changes |
| Engine.Store.SubmitRequest | reusable_containers_demo.py:576-583 | appends one OPEN request for the given number; nothing else changes |
| Engine.Store.Redeem | reusable_containers_demo.py:227-238 | succeeds exactly when the balance covers the reward's cost. Then only that cost is debited; otherwise no balance changes. No balance goes negative. |
| Engine.Store.Spin | reusable_containers_demo.py:243-265 | succeeds exactly when the balance covers the 100-point cost. Then the balance changes by -100 plus the segment's points prize; otherwise nothing changes. No balance goes negative. |
| Rewards.DigitsValueOfDecimal | reusable_containers_demo.py:258 | reading a numeral back gives the number |
| Rewards.RemoveAbsent | reusable_containers_demo.py:258 | removing a pattern whose first character never occurs leaves the string unchanged |
| Rewards.RemoveSuffix | reusable_containers_demo.py:258 | removing a suffix pattern from a string of digits that precede it leaves exactly the digits |
| Rewards.PrizeOfPointsLabel | reusable_containers_demo.py:257-259 | every label "+N Points" reads back as N points |
| Rewards.WheelNumerals | reusable_containers_demo.py:244-247 | the numerals of 10, 20, 50, 100 and 200 are the digits printed on the wheel |
| Rewards.WheelPointsLabels | reusable_containers_demo.py:244-247 | the wheel's five points segments are exactly the labels of 10, 20, 50, 100 and 200 points |
| Rewards.VoucherIsNotPoints | reusable_containers_demo.py:257-263 | the voucher label awards no points |
| Rewards.PointsSegmentsParse | reusable_containers_demo.py:244-259 | the five points labels of the wheel read as 10, 20, 50, 100 and 200 |
| Rewards.WheelPrizes | reusable_containers_demo.py:244-263 | every segment of the wheel awards 10, 20, 50, 100 or 200 points or a voucher; none is malformed |
| Rewards.SpinChange | reusable_containers_demo.py:243-263 | a paid spin credits one of 0, 10, 20, 50, 100, 200 points, so the net change is between -100 and +100 |
| Tables.RepeatedIdBreaksUniqueness | reusable_containers_demo.py:460-464 | adding a container under an id already in the table makes the ids non-unique |
| Tables.DuplicateIdMisdirectsDelivery | reusable_containers_demo.py:634-640 | with a repeated id, delivering the restaurant's stocked container re-hands a container a customer already holds and leaves the stocked one in stock |

## Left out

- Streamlit pages, login and password matching, navigation and session state are not modelled. They are UI glue.
- Loading and saving the CSV tables, parsing the history column, seeding the files and encoding images are not modelled. They are file I/O.
- `random.randint` id generation and `random.choice` over the wheel are parameters (`newIds`, `segment`); the model states what holds for every value they can take.
- `pd.Timestamp.now()` is a clock read; the formatted time is the opaque parameter `createdAt`.
- Float deposits and float points are integer cents and integer points; the display formatting is not modelled.
- Concurrent sessions writing the same CSV files are not modelled; the app has no locking.
- Display-only filters and counts (the customer's order list, the stock and in-use counts) are not modelled; they change no table.
- The fallback branch of the next-status table (reusable_containers_demo.py:510-511) is unreachable with the four statuses of the closed `Status` type, so it has no counterpart.
- `hoursInUse` is never increased anywhere in the app; the model keeps the field and only ever resets it.
- `int(float(...))` on the requested count tolerates a float-valued CSV cell; the model stores the count as a `nat`.
- Engine.Store.DeliverOrder: the app lists only the first five pending orders of a restaurant (`head(5)`); the model lets the restaurant deliver any pending order of its own.
- Engine.Store.DeliverOrder: duplicate ids in the selection are excluded by a precondition, because a multiselect cannot return them.
- Engine.Store.UpdateStatus: requires the selected id to be in the table, because the operator selects it from the table's own id list.
- Engine.Store.Redeem and Engine.Store.Spin: require the phone to be a known user, because a session only exists for a logged-in user. A phone held by several user rows (all debited by the app's `loc` update) is not modelled.

## Findings

| source | as written | input that shows it | evidently intended | confidence | as-written member | corrected member |
|---|---|---|---|---|---|---|
| reusable_containers_demo.py:461 | new ids `C100`..`C999` are drawn at random and never checked against the table, and delivery (:634) updates the first row with the chosen id | a table holding `C123` IN_USE by customer U0, then a new container also drawn as `C123` and distributed to restaurant R; R delivers `C123` to U1: U0's container is re-handed to U1 and R's container stays in stock | container ids are unique, so the delivered row is the restaurant's stock | not executed | Tables.DuplicateIdMisdirectsDelivery | Engine.Store.AddContainersUnique |

`Engine.Store.AddContainers` models the add loop as written. With it,
`Tables.RepeatedIdBreaksUniqueness` shows that the ids can repeat.
`Engine.Store.AddContainersUnique` adds the duplicate check and keeps ids
unique. Under unique ids, `Tables.DeliveryEffect` and
`Engine.Store.DeliverOrder` show that delivery changes exactly the chosen
rows of the restaurant's stock.
