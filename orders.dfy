/** The order ledger of routes/orders.js: create-order (check every item,
 *  then append a pending order and take the stock), the two one-shot
 *  transitions out of `pending`, and the per-album listing. */
module Orders {
  import opened Schema
  import opened Inventory

  /** The body of `POST /create-order`; an absent field is `None`, an
   *  absent customer the empty string. Request items `{figuraId, quantity}`
   *  are stored unchanged as `{figura, quantity}`, so they share a type. */
  datatype OrderRequest = OrderRequest(albumId: Option<Id>, customer: string,
                                       items: Option<seq<OrderItem>>, total: int)

  // ---------------------------------------------------------------------
  // The stock check: every item, in list order, before anything changes

  /** The user's first entry for the item's figure holds at least its quantity. */
  predicate Covers(inv: seq<Entry>, it: OrderItem) {
    match FindEntry(inv, it.figura)
    case None => false
    case Some(k) => inv[k].count >= it.quantity
  }

  /** The check of one item: `None` when it passes. */
  function ItemVerdict(figures: map<Id, Figure>, inv: seq<Entry>, it: OrderItem): (r: Option<Error>) {
    if it.figura !in figures then Some(UnknownFigure(it.figura))
    else if !Covers(inv, it) then Some(InsufficientStock(it.figura))
    else None
  }

  /** The verdict of the whole check: that of the first failing item. */
  function CheckItems(figures: map<Id, Figure>, inv: seq<Entry>, items: seq<OrderItem>): (r: Option<Error>)
    decreases |items|
  {
    if items == [] then None
    else if ItemVerdict(figures, inv, items[0]).Some? then ItemVerdict(figures, inv, items[0])
    else CheckItems(figures, inv, items[1..])
  }

  /** The check passes exactly when every item passes, and otherwise reports
   *  the verdict of an item all of whose predecessors passed. */
  lemma {:induction false} CheckItemsFirstFailure(figures: map<Id, Figure>, inv: seq<Entry>, items: seq<OrderItem>)
    ensures CheckItems(figures, inv, items).None? <==>
            forall i :: 0 <= i < |items| ==> ItemVerdict(figures, inv, items[i]).None?
    ensures CheckItems(figures, inv, items).Some? ==>
            exists i :: 0 <= i < |items| && CheckItems(figures, inv, items) == ItemVerdict(figures, inv, items[i])
                        && forall j :: 0 <= j < i ==> ItemVerdict(figures, inv, items[j]).None?
    decreases |items|
  {
    if items != [] {
      var rest := items[1..];
      CheckItemsFirstFailure(figures, inv, rest);
      if ItemVerdict(figures, inv, items[0]).None? {
        assert forall i :: 1 <= i < |items| ==> items[i] == rest[i - 1];
        if CheckItems(figures, inv, rest).Some? {
          var i :| 0 <= i < |rest| && CheckItems(figures, inv, rest) == ItemVerdict(figures, inv, rest[i])
                   && forall j :: 0 <= j < i ==> ItemVerdict(figures, inv, rest[j]).None?;
          assert rest[i] == items[i + 1];
          assert forall j :: 0 <= j < i + 1 ==> ItemVerdict(figures, inv, items[j]).None? by {
            forall j | 0 <= j < i + 1 ensures ItemVerdict(figures, inv, items[j]).None? {
              if j > 0 { assert items[j] == rest[j - 1]; }
            }
          }
        }
      }
    }
  }

  /** The `for (let it of items)` loop of create-order. */
  method FirstFailure(figures: map<Id, Figure>, inv: seq<Entry>, items: seq<OrderItem>) returns (r: Option<Error>)
    ensures r == CheckItems(figures, inv, items)
  {
    var i := 0;
    assert items[0..] == items;
    while i < |items|
      invariant 0 <= i <= |items|
      invariant CheckItems(figures, inv, items[i..]) == CheckItems(figures, inv, items)
    {
      var it := items[i];
      assert items[i..][0] == it && items[i..][1..] == items[i + 1..];
      if it.figura !in figures {
        return Some(UnknownFigure(it.figura));
      }
      var entry := FindEntry(inv, it.figura);
      if entry.None? || inv[entry.value].count < it.quantity {
        return Some(InsufficientStock(it.figura));
      }
      i := i + 1;
    }
    return None;
  }

  // ---------------------------------------------------------------------
  // Taking and giving back stock

  /** One round of `items.forEach` in create-order: the first entry for the
   *  item's figure loses the item's quantity. (After a passing check the
   *  entry is always there; the `None` case is never reached.) */
  function Withdraw(inv: seq<Entry>, it: OrderItem): (r: seq<Entry>)
    ensures SameFiguras(inv, r)
  {
    match FindEntry(inv, it.figura)
    case None => inv
    case Some(k) => SetCount(inv, k, inv[k].count - it.quantity)
  }

  function Deduct(inv: seq<Entry>, items: seq<OrderItem>): (r: seq<Entry>)
    ensures SameFiguras(inv, r)
    decreases |items|
  {
    if items == [] then inv else Deduct(Withdraw(inv, items[0]), items[1..])
  }

  /** One round of `ord.items.forEach` in cancel: the first entry for the
   *  item's figure gets the quantity back; with no entry the item is skipped. */
  function Replenish(inv: seq<Entry>, it: OrderItem): (r: seq<Entry>)
    ensures SameFiguras(inv, r)
  {
    match FindEntry(inv, it.figura)
    case None => inv
    case Some(k) => SetCount(inv, k, inv[k].count + it.quantity)
  }

  function Restore(inv: seq<Entry>, items: seq<OrderItem>): (r: seq<Entry>)
    ensures SameFiguras(inv, r)
    decreases |items|
  {
    if items == [] then inv else Restore(Replenish(inv, items[0]), items[1..])
  }

  /** How much the items draw from position `j`: the quantities of the items
   *  whose first matching entry is `j`. */
  function Demand(inv: seq<Entry>, items: seq<OrderItem>, j: nat): (r: int)
    decreases |items|
  {
    if items == [] then 0
    else (if FindEntry(inv, items[0].figura) == Some(j) then items[0].quantity else 0)
         + Demand(inv, items[1..], j)
  }

  lemma {:induction false} DemandSameFiguras(a: seq<Entry>, b: seq<Entry>, items: seq<OrderItem>, j: nat)
    requires SameFiguras(a, b)
    ensures Demand(a, items, j) == Demand(b, items, j)
    decreases |items|
  {
    if items != [] {
      FindEntrySameFiguras(a, b, items[0].figura);
      DemandSameFiguras(a, b, items[1..], j);
    }
  }

  /** create-order's decrement: every position loses exactly its demand and
   *  nothing else about the entries changes. */
  lemma {:induction false} DeductCounts(inv: seq<Entry>, items: seq<OrderItem>)
    ensures SameFiguras(inv, Deduct(inv, items))
    ensures forall j :: 0 <= j < |inv| ==>
              Deduct(inv, items)[j] == inv[j].(count := inv[j].count - Demand(inv, items, j))
    decreases |items|
  {
    if items != [] {
      var inv1 := Withdraw(inv, items[0]);
      DeductCounts(inv1, items[1..]);
      forall j | 0 <= j < |inv| {
        DemandSameFiguras(inv1, inv, items[1..], j);
      }
    }
  }

  /** cancel's give-back: every position regains exactly its demand. */
  lemma {:induction false} RestoreCounts(inv: seq<Entry>, items: seq<OrderItem>)
    ensures SameFiguras(inv, Restore(inv, items))
    ensures forall j :: 0 <= j < |inv| ==>
              Restore(inv, items)[j] == inv[j].(count := inv[j].count + Demand(inv, items, j))
    decreases |items|
  {
    if items != [] {
      var inv1 := Replenish(inv, items[0]);
      RestoreCounts(inv1, items[1..]);
      forall j | 0 <= j < |inv| {
        DemandSameFiguras(inv1, inv, items[1..], j);
      }
    }
  }

  /** `mid` lists `inv`'s figures at `inv`'s positions, possibly followed
   *  by more entries (adopting an album and creating a figure only append
   *  entries; counts may change). */
  predicate ExtendsFiguras(inv: seq<Entry>, mid: seq<Entry>) {
    |inv| <= |mid| && forall j :: 0 <= j < |inv| ==> mid[j].figura == inv[j].figura
  }

  /** Appended entries do not move a first match that was already there. */
  lemma FindEntryExtends(inv: seq<Entry>, mid: seq<Entry>, f: Id)
    requires ExtendsFiguras(inv, mid)
    requires FindEntry(inv, f).Some? || |mid| == |inv|
    ensures FindEntry(mid, f) == FindEntry(inv, f)
  {
    if FindEntry(inv, f).Some? {
      var k := FindEntry(inv, f).value;
      assert mid[k].figura == f;
    } else {
      FindEntrySameFiguras(inv, mid, f);
    }
  }

  /** Hence appended entries do not change the demand on the old positions,
   *  and no demand falls on the appended ones. */
  lemma {:induction false} DemandExtends(inv: seq<Entry>, mid: seq<Entry>, items: seq<OrderItem>, j: nat)
    requires ExtendsFiguras(inv, mid)
    requires |mid| == |inv| || forall it :: it in items ==> FindEntry(inv, it.figura).Some?
    ensures Demand(mid, items, j) == Demand(inv, items, j)
    ensures j >= |inv| ==> Demand(inv, items, j) == 0
    decreases |items|
  {
    if items != [] {
      assert items[0] in items;
      assert forall it :: it in items[1..] ==> it in items;
      FindEntryExtends(inv, mid, items[0].figura);
      DemandExtends(inv, mid, items[1..], j);
    }
  }

  /** Giving back after taking restores every count, even when entries
   *  were appended in between (as long as each item's figure had an entry
   *  when the stock was taken) and counts were adjusted in between: each
   *  old position regains exactly what it lost, and appended entries are
   *  left alone. */
  lemma GiveBackAfterTake(inv: seq<Entry>, mid: seq<Entry>, items: seq<OrderItem>)
    requires ExtendsFiguras(inv, mid)
    requires |mid| == |inv| || forall it :: it in items ==> FindEntry(inv, it.figura).Some?
    ensures SameFiguras(mid, Restore(mid, items))
    ensures forall j :: 0 <= j < |inv| ==>
              Restore(mid, items)[j].count - mid[j].count == inv[j].count - Deduct(inv, items)[j].count
    ensures forall j :: |inv| <= j < |mid| ==> Restore(mid, items)[j] == mid[j]
  {
    RestoreCounts(mid, items);
    DeductCounts(inv, items);
    forall j | 0 <= j < |mid| {
      DemandExtends(inv, mid, items, j);
    }
  }

  /** Cancel right after create gives back exactly what was taken. */
  lemma RestoreAfterDeduct(inv: seq<Entry>, items: seq<OrderItem>)
    ensures Restore(Deduct(inv, items), items) == inv
  {
    var d := Deduct(inv, items);
    DeductCounts(inv, items);
    RestoreCounts(d, items);
    forall j | 0 <= j < |inv| ensures Restore(d, items)[j] == inv[j] {
      DemandSameFiguras(d, inv, items, j);
    }
  }

  /** The `items.forEach` decrement loop of create-order. */
  method TakeStock(inv: seq<Entry>, items: seq<OrderItem>) returns (out: seq<Entry>)
    ensures out == Deduct(inv, items)
  {
    out := inv;
    assert items[0..] == items;
    for i := 0 to |items|
      invariant Deduct(out, items[i..]) == Deduct(inv, items)
    {
      assert items[i..][0] == items[i] && items[i..][1..] == items[i + 1..];
      ghost var before := out;
      var entry := FindEntry(out, items[i].figura);
      if entry.Some? {
        var k := entry.value;
        out := out[k := out[k].(count := out[k].count - items[i].quantity)];
      }
      assert out == Withdraw(before, items[i]);
    }
  }

  /** The `ord.items.forEach` give-back loop of cancel. */
  method PutBack(inv: seq<Entry>, items: seq<OrderItem>) returns (out: seq<Entry>)
    ensures out == Restore(inv, items)
  {
    out := inv;
    assert items[0..] == items;
    for i := 0 to |items|
      invariant Restore(out, items[i..]) == Restore(inv, items)
    {
      assert items[i..][0] == items[i] && items[i..][1..] == items[i + 1..];
      ghost var before := out;
      var entry := FindEntry(out, items[i].figura);
      if entry.Some? {
        var k := entry.value;
        out := out[k := out[k].(count := out[k].count + items[i].quantity)];
      }
      assert out == Replenish(before, items[i]);
    }
  }

  // ---------------------------------------------------------------------
  // Distinct figures never overdraw; a repeated figure can

  predicate DistinctFiguras(items: seq<OrderItem>) {
    forall i, j :: 0 <= i < j < |items| ==> items[i].figura != items[j].figura
  }

  lemma {:induction false} DemandUntouched(inv: seq<Entry>, items: seq<OrderItem>, j: nat)
    requires j < |inv|
    requires forall it :: it in items ==> it.figura != inv[j].figura
    ensures Demand(inv, items, j) == 0
    decreases |items|
  {
    if items != [] {
      assert items[0] in items;
      assert forall it :: it in items[1..] ==> it in items;
      DemandUntouched(inv, items[1..], j);
    }
  }

  /** With distinct figures, a passing check leaves each position's demand
   *  within what the user holds there. */
  lemma {:induction false} DistinctDemandCovered(figures: map<Id, Figure>, inv: seq<Entry>, items: seq<OrderItem>, j: nat)
    requires DistinctFiguras(items)
    requires CheckItems(figures, inv, items).None?
    requires j < |inv| && inv[j].count >= 0
    ensures 0 <= inv[j].count - Demand(inv, items, j)
    decreases |items|
  {
    if items != [] {
      var rest := items[1..];
      assert DistinctFiguras(rest) by {
        forall a, b | 0 <= a < b < |rest| ensures rest[a].figura != rest[b].figura {
          assert rest[a] == items[a + 1] && rest[b] == items[b + 1];
        }
      }
      if FindEntry(inv, items[0].figura) == Some(j) {
        forall it | it in rest ensures it.figura != inv[j].figura {
          var b :| 0 <= b < |rest| && rest[b] == it;
          assert items[b + 1] == it;
        }
        DemandUntouched(inv, rest, j);
      } else {
        DistinctDemandCovered(figures, inv, rest, j);
      }
    }
  }

  /** If the item figures are distinct and the check passes, every count
   *  create-order decrements stays non-negative. */
  lemma DistinctKeepsCountsNonNegative(figures: map<Id, Figure>, inv: seq<Entry>, items: seq<OrderItem>)
    requires DistinctFiguras(items)
    requires CheckItems(figures, inv, items).None?
    requires forall e :: e in inv ==> EntryValid(e)
    ensures forall e :: e in Deduct(inv, items) ==> EntryValid(e)
  {
    DeductCounts(inv, items);
    var d := Deduct(inv, items);
    forall e | e in d ensures EntryValid(e) {
      var j :| 0 <= j < |d| && d[j] == e;
      assert inv[j] in inv;
      DistinctDemandCovered(figures, inv, items, j);
    }
  }

  /** The per-item check compares against the count before the order, so
   *  two items for one figure can each pass and together overdraw it. */
  lemma RepeatedFigureOverdraws()
    ensures var figures := map[7 := Figure("Mundial", "A1", "normal")];
            var inv := [Entry(7, None, 1)];
            var items := [OrderItem(7, 1), OrderItem(7, 1)];
            CheckItems(figures, inv, items).None? && Deduct(inv, items)[0].count == -1
  {
    var inv := [Entry(7, None, 1)];
    var items := [OrderItem(7, 1), OrderItem(7, 1)];
    assert FindEntry(inv, 7) == Some(0);
    assert items[1..] == [OrderItem(7, 1)];
    var once := Withdraw(inv, items[0]);
    assert FindEntry(once, 7) == Some(0);
  }

  // ---------------------------------------------------------------------
  // create-order

  function NewOrder(id: Id, album: Id, req: OrderRequest, now: nat): (o: Order)
    requires req.items.Some?
  {
    Order(id, album, Trim(req.customer), req.items.value, req.total, Pending, now)
  }

  /** A new order starts pending at the creation time, and passes the
   *  order schema exactly when its trimmed customer is not empty, its total
   *  is not negative and every quantity is at least one. */
  lemma NewOrderValid(id: Id, album: Id, req: OrderRequest, now: nat)
    requires req.items.Some?
    ensures NewOrder(id, album, req, now).status == Pending && NewOrder(id, album, req, now).createdAt == now
    ensures OrderValid(NewOrder(id, album, req, now)) <==>
              && Trim(req.customer) != "" && req.total >= 0
              && forall i :: 0 <= i < |req.items.value| ==> req.items.value[i].quantity >= 1
  {
    var items := req.items.value;
    if forall i :: 0 <= i < |items| ==> items[i].quantity >= 1 {
      forall it | it in items ensures ItemValid(it) {
        var i :| 0 <= i < |items| && items[i] == it;
      }
    } else {
      var i :| 0 <= i < |items| && items[i].quantity < 1;
      assert items[i] in items;
    }
  }

  /** `POST /create-order` by user `uid` at time `now`. The new order takes
   *  the next ObjectId; the push and the decrements become visible only if
   *  the user then passes the schema check of `usuario.save()`. */
  function CreateOrder(db: Db, uid: Id, req: OrderRequest, now: nat): (r: Result<(Db, ())>)
  {
    if req.albumId.None? || req.customer == "" || req.items.None? || req.items.value == [] then Err(Validation)
    else if req.albumId.value !in db.albums then Err(NotFound)
    else if uid !in db.users then Err(NotFound)
    else
      var u := db.users[uid];
      var items := req.items.value;
      match CheckItems(db.figures, u.figurasUsuario, items)
      case Some(e) => Err(e)
      case None =>
        var order := NewOrder(db.nextId, req.albumId.value, req, now);
        var updated := u.(orders := u.orders + [order], figurasUsuario := Deduct(u.figurasUsuario, items));
        SaveUser(db.(nextId := db.nextId + 1), uid, updated, ())
  }

  /** The request is checked before anything is looked up, and the album
   *  and the user must exist; each failure leaves the store as it was. */
  lemma CreateOrderRejects(db: Db, uid: Id, req: OrderRequest, now: nat)
    ensures req.albumId.None? || req.customer == "" || req.items.None? || req.items.value == []
            ==> CreateOrder(db, uid, req, now) == Err(Validation)
    ensures req.albumId.Some? && req.albumId.value !in db.albums && req.customer != "" && req.items.Some? && req.items.value != []
            ==> CreateOrder(db, uid, req, now) == Err(NotFound)
    ensures req.albumId.Some? && req.customer != "" && req.items.Some? && req.items.value != [] && uid !in db.users
            ==> CreateOrder(db, uid, req, now) == Err(NotFound)
  {
  }

  /** An item that fails the check makes create-order report the first
   *  failing item, with nothing changed. */
  lemma CreateOrderReportsFirstFailure(db: Db, uid: Id, req: OrderRequest, now: nat)
    requires req.albumId.Some? && req.albumId.value in db.albums && req.customer != ""
    requires req.items.Some? && req.items.value != [] && uid in db.users
    requires exists i :: 0 <= i < |req.items.value| && ItemVerdict(db.figures, db.users[uid].figurasUsuario, req.items.value[i]).Some?
    ensures CreateOrder(db, uid, req, now).Err?
    ensures exists i :: 0 <= i < |req.items.value|
              && ItemVerdict(db.figures, db.users[uid].figurasUsuario, req.items.value[i]).Some?
              && CreateOrder(db, uid, req, now) == Err(ItemVerdict(db.figures, db.users[uid].figurasUsuario, req.items.value[i]).value)
              && forall j :: 0 <= j < i ==> ItemVerdict(db.figures, db.users[uid].figurasUsuario, req.items.value[j]).None?
  {
    CheckItemsFirstFailure(db.figures, db.users[uid].figurasUsuario, req.items.value);
  }

  /** On success create-order passed every item, appended exactly one
   *  pending order, took each item's quantity from its first matching
   *  entry, and changed nothing else. */
  lemma CreateOrderSuccess(db: Db, uid: Id, req: OrderRequest, now: nat)
    requires CreateOrder(db, uid, req, now).Ok?
    ensures req.albumId.Some? && req.items.Some? && req.items.value != [] && req.customer != ""
    ensures req.albumId.value in db.albums && uid in db.users
    ensures var inv := db.users[uid].figurasUsuario;
            forall i :: 0 <= i < |req.items.value| ==> ItemVerdict(db.figures, inv, req.items.value[i]).None?
    ensures var d := CreateOrder(db, uid, req, now).value.0;
            var u, u' := db.users[uid], d.users[uid];
            && d.albums == db.albums && d.figures == db.figures && d.nextId == db.nextId + 1
            && d.users.Keys == db.users.Keys
            && (forall v :: v in db.users && v != uid ==> d.users[v] == db.users[v])
            && u'.orders == u.orders + [Order(db.nextId, req.albumId.value, Trim(req.customer), req.items.value, req.total, Pending, now)]
            && u' == u.(orders := u'.orders, figurasUsuario := u'.figurasUsuario)
            && SameFiguras(u.figurasUsuario, u'.figurasUsuario)
            && forall j :: 0 <= j < |u.figurasUsuario| ==>
                 u'.figurasUsuario[j] == u.figurasUsuario[j].(count := u.figurasUsuario[j].count - Demand(u.figurasUsuario, req.items.value, j))
  {
    CheckItemsFirstFailure(db.figures, db.users[uid].figurasUsuario, req.items.value);
    DeductCounts(db.users[uid].figurasUsuario, req.items.value);
  }

  /** A well-formed request that passes the check is never rejected by the
   *  save: distinct figures, quantities of at least one, a non-negative
   *  total and a customer that is not blank. */
  lemma CreateOrderWellFormedSucceeds(db: Db, uid: Id, req: OrderRequest, now: nat)
    requires DbValid(db)
    requires req.albumId.Some? && req.albumId.value in db.albums && uid in db.users
    requires Trim(req.customer) != "" && req.total >= 0
    requires req.items.Some? && req.items.value != [] && DistinctFiguras(req.items.value)
    requires forall it :: it in req.items.value ==> it.quantity >= 1
    requires CheckItems(db.figures, db.users[uid].figurasUsuario, req.items.value).None?
    ensures CreateOrder(db, uid, req, now).Ok?
  {
    var u := db.users[uid];
    var items := req.items.value;
    TrimSpec(req.customer);
    assert req.customer != "";
    DistinctKeepsCountsNonNegative(db.figures, u.figurasUsuario, items);
    var order := NewOrder(db.nextId, req.albumId.value, req, now);
    var updated := u.(orders := u.orders + [order], figurasUsuario := Deduct(u.figurasUsuario, items));
    assert OrderValid(order);
    assert forall o :: o in updated.orders ==> o in u.orders || o == order;
    assert UserValid(updated);
  }

  /** A repeated figure that overdraws passes the stock check and is then
   *  rejected by the save with a server error, not with insufficient stock;
   *  the store keeps its state. */
  lemma RepeatedFigureRejectedAtSave()
    ensures var figures := map[7 := Figure("Mundial", "A1", "normal")];
            var albums := map[3 := Album("Mundial", "Panini", "mundial.png", {"normal"}, [7])];
            var u := User("ana", "secreto", [3], [Entry(7, None, 1)], [], [], Usuario);
            var db := Db(albums, figures, map[1 := u], 8);
            var req := OrderRequest(Some(3), "Luis", Some([OrderItem(7, 1), OrderItem(7, 1)]), 10);
            CheckItems(figures, u.figurasUsuario, req.items.value).None?
            && CreateOrder(db, 1, req, 0) == Err(Internal)
  {
    RepeatedFigureOverdraws();
    var items := [OrderItem(7, 1), OrderItem(7, 1)];
    var d := Deduct([Entry(7, None, 1)], items);
    assert d[0] in d;
  }

  lemma CreateOrderKeepsValid(db: Db, uid: Id, req: OrderRequest, now: nat)
    requires DbValid(db)
    requires CreateOrder(db, uid, req, now).Ok?
    ensures DbValid(CreateOrder(db, uid, req, now).value.0)
  {
    var u := db.users[uid];
    var order := NewOrder(db.nextId, req.albumId.value, req, now);
    var u' := u.(orders := u.orders + [order], figurasUsuario := Deduct(u.figurasUsuario, req.items.value));
    assert CreateOrder(db, uid, req, now) == SaveUser(db.(nextId := db.nextId + 1), uid, u', ());
    forall o | o in u'.orders ensures o.id < db.nextId + 1 {
      assert o in u.orders || o == order;
    }
    ReplaceUserKeepsValid(db, uid, u', db.nextId + 1);
  }

  // ---------------------------------------------------------------------
  // The transitions out of pending

  /** Index of the first order with id `id` (`u.orders.id(id)`). */
  function FindOrder(orders: seq<Order>, id: Id): (r: Option<nat>)
    ensures r.Some? ==> r.value < |orders| && orders[r.value].id == id
    ensures r.Some? ==> forall j :: 0 <= j < r.value ==> orders[j].id != id
    ensures r.None? <==> forall j :: 0 <= j < |orders| ==> orders[j].id != id
  {
    if orders == [] then None
    else if orders[0].id == id then Some(0)
    else match FindOrder(orders[1..], id)
      case None => None
      case Some(k) => Some(k + 1)
  }

  lemma FindOrderSameIds(a: seq<Order>, b: seq<Order>, id: Id)
    requires |a| == |b| && forall j :: 0 <= j < |a| ==> a[j].id == b[j].id
    ensures FindOrder(a, id) == FindOrder(b, id)
  {
  }

  function SetStatus(orders: seq<Order>, k: nat, s: Status): (r: seq<Order>)
    requires k < |orders|
  {
    orders[k := orders[k].(status := s)]
  }

  /** `POST /:id/delivered`. The handler dereferences the user without a
   *  check, so a missing user throws. */
  function MarkDelivered(db: Db, uid: Id, id: Id): (r: Result<(Db, ())>)
  {
    if uid !in db.users then Err(Internal)
    else
      var u := db.users[uid];
      match FindOrder(u.orders, id)
      case None => Err(NotFound)
      case Some(k) =>
        if u.orders[k].status != Pending then Err(InvalidState)
        else SaveUser(db, uid, u.(orders := SetStatus(u.orders, k, Delivered)), ())
  }

  /** `POST /:id/cancelled`: also gives back each item's quantity to its
   *  first matching entry, skipping items whose entry is gone. */
  function CancelOrder(db: Db, uid: Id, id: Id): (r: Result<(Db, ())>)
  {
    if uid !in db.users then Err(Internal)
    else
      var u := db.users[uid];
      match FindOrder(u.orders, id)
      case None => Err(NotFound)
      case Some(k) =>
        if u.orders[k].status != Pending then Err(InvalidState)
        else SaveUser(db, uid, u.(orders := SetStatus(u.orders, k, Cancelled),
                                  figurasUsuario := Restore(u.figurasUsuario, u.orders[k].items)), ())
  }

  lemma SetStatusKeepsValid(u: User, k: nat, s: Status)
    requires UserValid(u) && k < |u.orders|
    ensures UserValid(u.(orders := SetStatus(u.orders, k, s)))
  {
    var o := u.orders[k];
    assert o in u.orders;
    assert forall x :: x in SetStatus(u.orders, k, s) ==> x in u.orders || x == o.(status := s);
  }

  /** delivered on a valid store: an unknown user is a server error, an
   *  unknown order is not found, a non-pending one is refused, a pending one becomes delivered and
   *  nothing else changes (in particular the inventory). */
  lemma MarkDeliveredOutcome(db: Db, uid: Id, id: Id)
    requires DbValid(db)
    ensures uid !in db.users ==> MarkDelivered(db, uid, id) == Err(Internal)
    ensures uid in db.users ==>
            var u := db.users[uid];
            match FindOrder(u.orders, id)
            case None => MarkDelivered(db, uid, id) == Err(NotFound)
            case Some(k) =>
              if u.orders[k].status != Pending then MarkDelivered(db, uid, id) == Err(InvalidState)
              else MarkDelivered(db, uid, id).Ok?
                   && var d := MarkDelivered(db, uid, id).value.0;
                      && d.albums == db.albums && d.figures == db.figures && d.nextId == db.nextId
                      && d.users == db.users[uid := d.users[uid]]
                      && d.users[uid].figurasUsuario == u.figurasUsuario
                      && d.users[uid] == u.(orders := d.users[uid].orders)
                      && |d.users[uid].orders| == |u.orders|
                      && d.users[uid].orders[k] == u.orders[k].(status := Delivered)
                      && forall j :: 0 <= j < |u.orders| && j != k ==> d.users[uid].orders[j] == u.orders[j]
  {
    if uid in db.users {
      var u := db.users[uid];
      var r := FindOrder(u.orders, id);
      if r.Some? {
        SetStatusKeepsValid(u, r.value, Delivered);
      }
    }
  }

  /** cancelled on a valid store: an unknown user is a server error, an unknown order is not found, a
   *  non-pending one is refused, a pending one becomes cancelled and every
   *  inventory position regains what the order's items demand of it. */
  lemma CancelOrderOutcome(db: Db, uid: Id, id: Id)
    requires DbValid(db)
    ensures uid !in db.users ==> CancelOrder(db, uid, id) == Err(Internal)
    ensures uid in db.users ==>
            var u := db.users[uid];
            match FindOrder(u.orders, id)
            case None => CancelOrder(db, uid, id) == Err(NotFound)
            case Some(k) =>
              if u.orders[k].status != Pending then CancelOrder(db, uid, id) == Err(InvalidState)
              else CancelOrder(db, uid, id).Ok?
                   && var d := CancelOrder(db, uid, id).value.0;
                      var inv, inv' := u.figurasUsuario, d.users[uid].figurasUsuario;
                      && d.albums == db.albums && d.figures == db.figures && d.nextId == db.nextId
                      && d.users == db.users[uid := d.users[uid]]
                      && d.users[uid] == u.(orders := d.users[uid].orders, figurasUsuario := inv')
                      && |d.users[uid].orders| == |u.orders|
                      && d.users[uid].orders[k] == u.orders[k].(status := Cancelled)
                      && (forall j :: 0 <= j < |u.orders| && j != k ==> d.users[uid].orders[j] == u.orders[j])
                      && SameFiguras(inv, inv')
                      && forall j :: 0 <= j < |inv| ==>
                           inv'[j] == inv[j].(count := inv[j].count + Demand(inv, u.orders[k].items, j))
  {
    if uid in db.users {
      var u := db.users[uid];
      var r := FindOrder(u.orders, id);
      if r.Some? && u.orders[r.value].status == Pending {
        RestoreCounts(u.figurasUsuario, u.orders[r.value].items);
        CancelledUserValid(u, r.value);
      }
    }
  }

  /** A valid user stays valid when one of its orders is cancelled and the
   *  order's quantities go back to the inventory. */
  lemma CancelledUserValid(u: User, k: nat)
    requires UserValid(u) && k < |u.orders|
    ensures UserValid(u.(orders := SetStatus(u.orders, k, Cancelled),
                         figurasUsuario := Restore(u.figurasUsuario, u.orders[k].items)))
  {
    var o := u.orders[k];
    assert o in u.orders;
    RestoreCounts(u.figurasUsuario, o.items);
    var inv' := Restore(u.figurasUsuario, o.items);
    forall e | e in inv' ensures EntryValid(e) {
      var j :| 0 <= j < |inv'| && inv'[j] == e;
      assert u.figurasUsuario[j] in u.figurasUsuario;
      DemandNonNegative(u.figurasUsuario, o.items, j);
    }
    SetStatusKeepsValid(u, k, Cancelled);
  }

  lemma {:induction false} DemandNonNegative(inv: seq<Entry>, items: seq<OrderItem>, j: nat)
    requires forall it :: it in items ==> ItemValid(it)
    ensures Demand(inv, items, j) >= 0
    decreases |items|
  {
    if items != [] {
      assert items[0] in items;
      assert forall it :: it in items[1..] ==> it in items;
      DemandNonNegative(inv, items[1..], j);
    }
  }

  /** delivered and cancelled are terminal: once an order has left pending,
   *  both transitions are refused. */
  lemma TerminalStatesRefused(db: Db, uid: Id, id: Id)
    requires uid in db.users
    requires var k := FindOrder(db.users[uid].orders, id);
             k.Some? && db.users[uid].orders[k.value].status != Pending
    ensures MarkDelivered(db, uid, id) == Err(InvalidState)
    ensures CancelOrder(db, uid, id) == Err(InvalidState)
  {
  }

  lemma DeliveredIsFinal(db: Db, uid: Id, id: Id)
    requires MarkDelivered(db, uid, id).Ok?
    ensures var d := MarkDelivered(db, uid, id).value.0;
            MarkDelivered(d, uid, id) == Err(InvalidState) && CancelOrder(d, uid, id) == Err(InvalidState)
  {
    var u := db.users[uid];
    var k := FindOrder(u.orders, id).value;
    FindOrderSameIds(u.orders, SetStatus(u.orders, k, Delivered), id);
  }

  lemma CancelledIsFinal(db: Db, uid: Id, id: Id)
    requires CancelOrder(db, uid, id).Ok?
    ensures var d := CancelOrder(db, uid, id).value.0;
            MarkDelivered(d, uid, id) == Err(InvalidState) && CancelOrder(d, uid, id) == Err(InvalidState)
  {
    var u := db.users[uid];
    var k := FindOrder(u.orders, id).value;
    FindOrderSameIds(u.orders, SetStatus(u.orders, k, Cancelled), id);
  }

  lemma FindAppendedOrder(orders: seq<Order>, o: Order)
    requires forall x :: x in orders ==> x.id < o.id
    ensures FindOrder(orders + [o], o.id) == Some(|orders|)
  {
    var all := orders + [o];
    assert all[|orders|] == o;
  }

  /** Creating an order and then cancelling it restores the user's
   *  inventory exactly and leaves the order on record as cancelled. */
  lemma CreateThenCancel(db: Db, uid: Id, req: OrderRequest, now: nat)
    requires DbValid(db)
    requires CreateOrder(db, uid, req, now).Ok?
    ensures var d1 := CreateOrder(db, uid, req, now).value.0;
            CancelOrder(d1, uid, db.nextId).Ok?
            && var d2 := CancelOrder(d1, uid, db.nextId).value.0;
               && d2.users[uid].figurasUsuario == db.users[uid].figurasUsuario
               && d2.users[uid].orders == db.users[uid].orders + [NewOrder(db.nextId, req.albumId.value, req, now).(status := Cancelled)]
               && d2 == d1.(users := d1.users[uid := d2.users[uid]])
  {
    var u := db.users[uid];
    var items := req.items.value;
    var order := NewOrder(db.nextId, req.albumId.value, req, now);
    var u1 := u.(orders := u.orders + [order], figurasUsuario := Deduct(u.figurasUsuario, items));
    var d1 := db.(nextId := db.nextId + 1).(users := db.users[uid := u1]);
    assert CreateOrder(db, uid, req, now).value.0 == d1;
    assert UserValid(u1);
    var k := |u.orders|;
    FindAppendedOrder(u.orders, order);
    assert FindOrder(u1.orders, db.nextId) == Some(k);
    RestoreAfterDeduct(u.figurasUsuario, items);
    SetStatusKeepsValid(u1, k, Cancelled);
    var cancelled := SetStatus(u1.orders, k, Cancelled);
    assert cancelled == u.orders + [order.(status := Cancelled)];
    var u2 := u1.(orders := cancelled, figurasUsuario := Restore(u1.figurasUsuario, u1.orders[k].items));
    assert u2.figurasUsuario == u.figurasUsuario;
    assert UserValid(u2);
    assert CancelOrder(d1, uid, db.nextId) == Ok((d1.(users := d1.users[uid := u2]), ()));
  }

  lemma MarkDeliveredKeepsValid(db: Db, uid: Id, id: Id)
    requires DbValid(db) && MarkDelivered(db, uid, id).Ok?
    ensures DbValid(MarkDelivered(db, uid, id).value.0)
  {
    var u := db.users[uid];
    var k := FindOrder(u.orders, id).value;
    assert forall o :: o in SetStatus(u.orders, k, Delivered) ==> o in u.orders || o == u.orders[k].(status := Delivered);
  }

  lemma CancelOrderKeepsValid(db: Db, uid: Id, id: Id)
    requires DbValid(db) && CancelOrder(db, uid, id).Ok?
    ensures DbValid(CancelOrder(db, uid, id).value.0)
  {
    var u := db.users[uid];
    var k := FindOrder(u.orders, id).value;
    assert forall o :: o in SetStatus(u.orders, k, Cancelled) ==> o in u.orders || o == u.orders[k].(status := Cancelled);
  }

  // ---------------------------------------------------------------------
  // GET /?albumId=: filter, newest first, project

  /** The projection the list handler answers with. The stored status is
   *  always one of the enum's values, so `o.status || "pending"` is the
   *  stored status. */
  datatype OrderView = OrderView(id: Id, customer: string, items: seq<OrderItem>,
                                 total: int, status: Status, createdAt: nat)

  function View(o: Order): (r: OrderView) {
    OrderView(o.id, o.customer, o.items, o.total, o.status, o.createdAt)
  }

  /** `orders.filter(o => o.album == albumId)`: each order of the album
   *  occurs as often as in the stored list, every other order not at all. */
  function ForAlbum(orders: seq<Order>, a: Id): (r: seq<Order>)
    ensures forall o :: o in r <==> o in orders && o.album == a
    ensures forall o :: multiset(r)[o] == if o.album == a then multiset(orders)[o] else 0
  {
    if orders == [] then []
    else
      assert orders == [orders[0]] + orders[1..];
      if orders[0].album == a then [orders[0]] + ForAlbum(orders[1..], a)
      else ForAlbum(orders[1..], a)
  }

  /** The filter works order by order, so the album's orders keep their
   *  stored order and their multiplicity. */
  lemma {:induction false} ForAlbumAppend(s: seq<Order>, s': seq<Order>, a: Id)
    ensures ForAlbum(s + s', a) == ForAlbum(s, a) + ForAlbum(s', a)
  {
    if s == [] {
      assert s + s' == s';
    } else {
      assert (s + s')[1..] == s[1..] + s';
      ForAlbumAppend(s[1..], s', a);
    }
  }

  /** A single order is kept exactly when it is for the album. */
  lemma ForAlbumSingle(o: Order, a: Id)
    ensures ForAlbum([o], a) == if o.album == a then [o] else []
  {
    assert [o][1..] == [];
  }

  predicate NewestFirst(s: seq<Order>) {
    forall i, j :: 0 <= i < j < |s| ==> s[i].createdAt >= s[j].createdAt
  }

  /** Inserts `o` before the first element that is not newer, so orders
   *  with equal times keep their relative order (a stable sort). */
  function Insert(o: Order, s: seq<Order>): (r: seq<Order>)
    ensures multiset(r) == multiset(s) + multiset{o}
  {
    if s == [] || s[0].createdAt <= o.createdAt then [o] + s
    else
      assert s == [s[0]] + s[1..];
      [s[0]] + Insert(o, s[1..])
  }

  /** The tail of a newest-first list is newest first, and no later order
   *  is newer than its head. */
  lemma NewestFirstTail(s: seq<Order>)
    requires NewestFirst(s) && s != []
    ensures NewestFirst(s[1..])
    ensures forall x :: x in s[1..] ==> s[0].createdAt >= x.createdAt
  {
    var t := s[1..];
    forall i, j | 0 <= i < j < |t| ensures t[i].createdAt >= t[j].createdAt {
      assert t[i] == s[i + 1] && t[j] == s[j + 1];
    }
    forall x | x in t ensures s[0].createdAt >= x.createdAt {
      var j :| 0 <= j < |t| && t[j] == x;
      assert s[j + 1] == x;
    }
  }

  /** An order no older than any in a newest-first list can head it. */
  lemma NewestFirstCons(h: Order, r: seq<Order>)
    requires NewestFirst(r)
    requires forall x :: x in r ==> h.createdAt >= x.createdAt
    ensures NewestFirst([h] + r)
  {
    var c := [h] + r;
    forall i, j | 0 <= i < j < |c| ensures c[i].createdAt >= c[j].createdAt {
      assert c[j] == r[j - 1];
      if i == 0 {
        assert r[j - 1] in r;
      } else {
        assert c[i] == r[i - 1];
      }
    }
  }

  lemma {:induction false} InsertNewestFirst(o: Order, s: seq<Order>)
    requires NewestFirst(s)
    ensures NewestFirst(Insert(o, s))
  {
    if s == [] || s[0].createdAt <= o.createdAt {
      forall x | x in s ensures o.createdAt >= x.createdAt {
        if s != [] && x != s[0] {
          NewestFirstTail(s);
          assert x in s[1..] by {
            var j :| 0 <= j < |s| && s[j] == x;
            assert s[1..][j - 1] == x;
          }
        }
      }
      NewestFirstCons(o, s);
    } else {
      var t := s[1..];
      NewestFirstTail(s);
      InsertNewestFirst(o, t);
      var r := Insert(o, t);
      forall x | x in r ensures s[0].createdAt >= x.createdAt {
        assert x in multiset(r);
        assert x == o || x in multiset(t);
      }
      NewestFirstCons(s[0], r);
    }
  }

  /** `.sort((a, b) => b.createdAt - a.createdAt)`. */
  function SortNewestFirst(s: seq<Order>): (r: seq<Order>)
    ensures multiset(r) == multiset(s)
  {
    if s == [] then []
    else
      assert s == [s[0]] + s[1..];
      Insert(s[0], SortNewestFirst(s[1..]))
  }

  lemma {:induction false} SortIsNewestFirst(s: seq<Order>)
    ensures NewestFirst(SortNewestFirst(s))
  {
    if s != [] {
      SortIsNewestFirst(s[1..]);
      InsertNewestFirst(s[0], SortNewestFirst(s[1..]));
    }
  }

  /** The orders created at time `t`, in list order. */
  function AtTime(s: seq<Order>, t: nat): (r: seq<Order>) {
    if s == [] then [] else (if s[0].createdAt == t then [s[0]] else []) + AtTime(s[1..], t)
  }

  /** Keeping one album's orders and keeping one time's orders commute:
   *  the album's orders of a given time are listed in stored order. */
  lemma {:induction false} ForAlbumAtTime(s: seq<Order>, a: Id, t: nat)
    ensures AtTime(ForAlbum(s, a), t) == ForAlbum(AtTime(s, t), a)
  {
    if s != [] {
      var o, rest := s[0], s[1..];
      ForAlbumAtTime(rest, a, t);
      var h := if o.createdAt == t then [o] else [];
      ForAlbumAppend(h, AtTime(rest, t), a);
      if h != [] { ForAlbumSingle(o, a); }
      if o.album == a {
        var f := [o] + ForAlbum(rest, a);
        assert f[0] == o && f[1..] == ForAlbum(rest, a);
      }
    }
  }

  /** Inserting puts the new order ahead of every order created at the same
   *  time and leaves their order alone. */
  lemma {:induction false} InsertAtTime(o: Order, s: seq<Order>, t: nat)
    ensures AtTime(Insert(o, s), t) == if o.createdAt == t then [o] + AtTime(s, t) else AtTime(s, t)
  {
    if s == [] || s[0].createdAt <= o.createdAt {
      assert ([o] + s)[1..] == s;
    } else {
      InsertAtTime(o, s[1..], t);
      assert ([s[0]] + Insert(o, s[1..]))[1..] == Insert(o, s[1..]);
    }
  }

  /** The sort is stable (as `Array.prototype.sort` is): orders created at
   *  the same time keep their stored order. */
  lemma {:induction false} SortIsStable(s: seq<Order>, t: nat)
    ensures AtTime(SortNewestFirst(s), t) == AtTime(s, t)
  {
    if s != [] {
      SortIsStable(s[1..], t);
      InsertAtTime(s[0], SortNewestFirst(s[1..]), t);
    }
  }

  /** Sorting keeps the length and exactly the same orders. */
  lemma SortKeepsMembers(s: seq<Order>)
    ensures |SortNewestFirst(s)| == |s|
    ensures forall x :: x in SortNewestFirst(s) <==> x in s
  {
    var r := SortNewestFirst(s);
    assert |r| == |multiset(r)| == |multiset(s)| == |s|;
    forall x ensures x in r <==> x in s {
      assert x in r <==> x in multiset(r);
      assert x in s <==> x in multiset(s);
    }
  }

  function Views(s: seq<Order>): (r: seq<OrderView>)
    ensures |r| == |s| && forall i :: 0 <= i < |s| ==> r[i] == View(s[i])
  {
    seq(|s|, i requires 0 <= i < |s| => View(s[i]))
  }

  /** The views of orders created at time `t`, in listing order. */
  function ViewsAt(vs: seq<OrderView>, t: nat): (r: seq<OrderView>) {
    if vs == [] then [] else (if vs[0].createdAt == t then [vs[0]] else []) + ViewsAt(vs[1..], t)
  }

  /** Projecting and then keeping one time is keeping that time and then
   *  projecting. */
  lemma {:induction false} ViewsAtTime(s: seq<Order>, t: nat)
    ensures ViewsAt(Views(s), t) == Views(AtTime(s, t))
  {
    if s != [] {
      ViewsAtTime(s[1..], t);
      assert Views(s)[1..] == Views(s[1..]);
      var h := if s[0].createdAt == t then [s[0]] else [];
      assert Views(h + AtTime(s[1..], t)) == Views(h) + Views(AtTime(s[1..], t));
    }
  }

  /** `GET /?albumId=` for user `uid`. */
  function ListOrders(db: Db, uid: Id, albumId: Option<Id>): (r: Result<seq<OrderView>>)
  {
    if albumId.None? then Err(Validation)
    else if uid !in db.users then Err(NotFound)
    else Ok(Views(SortNewestFirst(ForAlbum(db.users[uid].orders, albumId.value))))
  }

  /** Sorting and projecting a list of orders: newest first, one view per
   *  order, and nothing else. */
  lemma SortedViews(f: seq<Order>)
    ensures var r := Views(SortNewestFirst(f));
            && |r| == |f|
            && (forall i, j :: 0 <= i < j < |r| ==> r[i].createdAt >= r[j].createdAt)
            && (forall v :: v in r ==> exists o :: o in f && View(o) == v)
            && (forall o :: o in f ==> View(o) in r)
  {
    var s := SortNewestFirst(f);
    SortIsNewestFirst(f);
    SortKeepsMembers(f);
    var r := Views(s);
    forall v | v in r ensures exists o :: o in f && View(o) == v {
      var i :| 0 <= i < |r| && r[i] == v;
      assert s[i] in s;
    }
    forall o | o in f ensures View(o) in r {
      assert o in s;
      var i :| 0 <= i < |s| && s[i] == o;
      assert r[i] == View(o);
    }
  }

  /** The listing needs an album id and an existing user; it answers with
   *  exactly the user's orders for that album, each once per occurrence,
   *  newest first, and orders created at the same time in their stored
   *  order. */
  lemma ListOrdersSpec(db: Db, uid: Id, albumId: Option<Id>)
    ensures albumId.None? ==> ListOrders(db, uid, albumId) == Err(Validation)
    ensures albumId.Some? && uid !in db.users ==> ListOrders(db, uid, albumId) == Err(NotFound)
    ensures albumId.Some? && uid in db.users ==> ListOrders(db, uid, albumId).Ok?
    ensures ListOrders(db, uid, albumId).Ok? ==>
              var r := ListOrders(db, uid, albumId).value;
              var orders := db.users[uid].orders;
              && |r| == |ForAlbum(orders, albumId.value)|
              && (forall i, j :: 0 <= i < j < |r| ==> r[i].createdAt >= r[j].createdAt)
              && (forall v :: v in r ==> exists o :: o in orders && o.album == albumId.value && View(o) == v)
              && (forall o :: o in orders && o.album == albumId.value ==> View(o) in r)
              && forall t: nat :: ViewsAt(r, t) == Views(ForAlbum(AtTime(orders, t), albumId.value))
  {
    if albumId.Some? && uid in db.users {
      var orders, a := db.users[uid].orders, albumId.value;
      var f := ForAlbum(orders, a);
      SortedViews(f);
      var r := Views(SortNewestFirst(f));
      forall v | v in r ensures exists o :: o in orders && o.album == a && View(o) == v {
        var o :| o in f && View(o) == v;
      }
      forall t: nat ensures ViewsAt(r, t) == Views(ForAlbum(AtTime(orders, t), a)) {
        ViewsAtTime(SortNewestFirst(f), t);
        SortIsStable(f, t);
        ForAlbumAtTime(orders, a, t);
      }
    }
  }
}
