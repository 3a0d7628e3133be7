# FigurAndo collection store, modelled in Dafny

This project models the back end of FigurAndo, a service where collectors track
stickers ("figuras") across albums. The store has three collections:

- albums, each with a name, a publisher, an image, a set of type keys and a list of figure ids;
- figures, each carrying its album's *name*, a code and a type;
- users, each embedding inventory entries (figure id, count), set entries and orders.

The model covers the route handlers that read, check and change that store:

- the order ledger: create an order, mark it delivered, cancel it, list an album's orders;
- the inventory routes: adjust a count, adopt an album, list holdings by album name, create a user;
- the figure catalog and its cascades: add, delete, update;
- album CRUD.

The model has three layers:

- `schema.dfy` holds the documents and the constraints their schemas declare (`min`, `minlength`, `enum`, `required`, `trim`, `unique`), collected in `DbValid`. It also holds `SaveUser`, the validation `usuario.save()` applies.
- `inventory.dfy`, `orders.dfy`, `usuarios.dfy`, `figuras.dfy` and `albumes.dfy` give one specification function per route, from the store before to `Result<(store after, reply)>`, and the lemmas about them. An `Err` carries no store, so every failed call leaves the store unchanged by construction. The loops of `create-order` and `cancelled` are methods proved equal to the recursive functions that specify them.
- `backend.dfy` is the class `Store`. Its fields are the three collections and the ObjectId generator. Each state-changing handler is a method that runs the checks in the source's order and then assigns the fields. The read routes (`Orders.ListOrders`, `Usuarios.ListAlbumes`, `Usuarios.ListAlbumesIds`, `Usuarios.FigurasOfAlbum`, `Albumes.Get`) change nothing and are pure functions of the state, with no `Store` method. Each method is proved to answer and update exactly as its route's specification function says, and to keep `DbValid`.

Inventories are sequences, not maps, because the source treats them as arrays:

- adopting an album can append duplicate entries;
- a lookup takes the first match;
- deleting a figure removes every match.

The album schema in `models/album.model.js` declares no type catalog, yet `routes/figuras.js` reads `album.tipos[].key`. The `Album` datatype therefore has a field `tipos` holding those keys. With the schema exactly as written, `tipos` would be absent and that handler would throw; the model assumes the catalog is there. `POST /albumes/add` creates it empty, since nothing in `routes/` writes it.

Adopting an album is meant to add only the figures the user does not hold yet: the comment at `routes/usuarios.js:163-164` says so. The filter below it keeps every figure (`figId => true`, line 166), so the route appends one zero-count entry per album figure every time (`routes/usuarios.js:165-174`). The model follows the code; `Usuarios.AdoptAlbumTwice` shows the duplication.

Strings are sequences of Unicode scalar values. Trimming strips the ECMAScript white-space and line-terminator characters, as `String.prototype.trim` does. `minlength` compares JavaScript's `length`, which counts UTF-16 code units; `Schema.Utf16Length` computes it.

Missing string fields are the empty string (JavaScript falsy); a missing id or list is `None`. A handler that dereferences a missing document without a check throws, and the model answers `Internal` there. Examples are `delivered`, `cancelled` and `update-figura` on an unknown user, and `GET /figuras` on an inventory entry whose figure is gone.

## Model

| member | source | states |
|---|---|---|
| Schema.NewEntry | models/usuario.model.js:5-20 | a new inventory entry names the figure, has count 0 and satisfies the schema |
| Schema.NegativeCountInvalid | models/usuario.model.js:15-19 | a user holding any negative count fails the user schema |
| Schema.NewSetEntry | models/usuario.model.js:22-45 | a new set entry has count 0 and is valid exactly when its type is one of the six enum values |
| Schema.TrimSpec | models/usuario.model.js:88-94 | trimming yields the empty string exactly when the input is all ECMAScript white space or line terminators; otherwise the result starts and ends with another character; it is never longer; it is the contiguous slice of the input that starts after the leading white space, and every character outside that slice is white space |
| Schema.TrimStartSpec | models/usuario.model.js:93 | dropping leading white space keeps a suffix that is empty or starts with a non-space, and only white space was dropped |
| Schema.TrimEndSpec | models/usuario.model.js:93 | dropping trailing white space keeps a prefix that is empty or ends with a non-space, and only white space was dropped |
| Schema.Trim | models/usuario.model.js:66-69 | the `trim: true` setter of nombre and customer; its meaning is stated by `Schema.TrimSpec`, `Schema.TrimStartSpec` and `Schema.TrimEndSpec` |
| Schema.Utf16Length | models/usuario.model.js:94-99 | the length `minlength` compares; its meaning is stated by `Schema.Utf16LengthBounds` and `Schema.Utf16LengthBmp` |
| Schema.Utf16LengthBounds | models/usuario.model.js:94-99 | the JavaScript length of a string lies between its number of characters and twice that |
| Schema.Utf16LengthBmp | models/usuario.model.js:94-99 | the JavaScript length equals the number of characters exactly when none lies outside the Basic Multilingual Plane |
| Schema.EntryValid | models/usuario.model.js:5-20 | an inventory entry passes the schema exactly when its count is at least 0 (`min: 0`) |
| Schema.SetEntryValid | models/usuario.model.js:22-45 | a set entry passes exactly when its type is one of the six enum values and its count is at least 0 |
| Schema.ItemValid | models/usuario.model.js:47-58 | an order item passes exactly when its quantity is at least 1 |
| Schema.OrderValid | models/usuario.model.js:60-86 | an order passes exactly when its customer is not empty, its total is at least 0 and every item passes |
| Schema.UserValid | models/usuario.model.js:88-113 | a user passes exactly when nombre has at least 3 and contra at least 6 UTF-16 code units and every entry, set entry and order passes |
| Schema.AlbumValid | models/album.model.js:4-23 | an album passes exactly when nombre, editorial and imagen are all non-empty (`required` refuses the empty string) |
| Schema.FigureValid | models/figura.model.js:4-25 | a figure passes exactly when its album name and code are non-empty and its type is one of the six |
| Schema.NombresUnique | models/usuario.model.js:92 | the unique index: no two users share a nombre |
| Schema.DbValid | models/usuario.model.js:88-113 | the store invariant: every stored album, figure and user passes its schema, user names are unique, and every id in use was issued before the generator's next value |
| Schema.SaveUser | models/usuario.model.js:88-113 | `usuario.save()`: stores the user exactly when it passes the user schema, else a server error with the store unchanged; stated per route by the KeepsValid and Outcome lemmas |
| Schema.ReplaceUserKeepsValid | models/usuario.model.js:88-113 | saving one valid user over another with the same name, whose orders carry issued ids, keeps every store invariant, the unique index on nombre included |
| Inventory.FindEntry | routes/orders.js:71-73 | the lookup returns the first entry for the figure, or none exactly when no entry names it |
| Inventory.FindEntrySameFiguras | routes/usuarios.js:144-146 | changing counts never moves the first match |
| Inventory.SetCount | routes/usuarios.js:148 | one entry gets the new count; every other entry, and every figure id, stays |
| Inventory.RemoveFigure | routes/figuras.js:88-91 | `$pull` keeps exactly the entries for other figures and is the identity when none names the figure |
| Inventory.RemoveFigureAppend | routes/figuras.js:88-91 | `$pull` distributes over concatenation, so the kept entries keep their order and multiplicity |
| Inventory.RemoveFigureSingle | routes/figuras.js:88-91 | a single entry is kept exactly when it is for another figure |
| Inventory.RemoveFigureNotFound | routes/figuras.js:88-91 | after the `$pull` the lookup does not find the pulled figure |
| Inventory.RemoveFigureKeepsLookups | routes/figuras.js:88-91 | after the `$pull` the first-match lookup of any other figure succeeds exactly when it did before and finds the same entry |
| Inventory.RemoveId | routes/figuras.js:82-85 | `$pull` keeps exactly the other ids and is the identity when the id is absent |
| Inventory.RemoveIdAppend | routes/figuras.js:82-85 | `$pull` of an id distributes over concatenation, so the kept ids keep their order and multiplicity |
| Inventory.RemoveIdSingle | routes/figuras.js:82-85 | a single id is kept exactly when it is another id |
| Inventory.AddToSet | routes/usuarios.js:173 | `$addToSet`: the old ids stay as a prefix, the id is in the result, and the list grows, by exactly one, exactly when the id was absent |
| Inventory.ZeroEntries | routes/usuarios.js:165-167 | one entry per album figure id, in the album's order, each untagged with count 0 and valid |
| Orders.CheckItems | routes/orders.js:65-79 | the item check; its meaning is stated by `Orders.CheckItemsFirstFailure` |
| Orders.ItemVerdict | routes/orders.js:66-78 | one item's check: an unknown figure fails first, then a missing or too small first matching entry; otherwise it passes; stated with the whole loop by `Orders.CheckItemsFirstFailure` |
| Orders.CheckItemsFirstFailure | routes/orders.js:65-79 | the item check passes iff every item passes; otherwise it reports the first failing item, all earlier items having passed |
| Orders.FirstFailure | routes/orders.js:65-79 | the `for` loop over the items returns the verdict of the item check |
| Orders.Demand | routes/orders.js:93-98 | the quantities drawn from one inventory position: those of the items whose first match it is; used by `Orders.DeductCounts` and `Orders.RestoreCounts` |
| Orders.Deduct | routes/orders.js:93-98 | the decrement keeps every figure id in place; its effect on counts is stated by `Orders.DeductCounts` |
| Orders.Restore | routes/orders.js:133-136 | the give-back keeps every figure id in place; its effect on counts is stated by `Orders.RestoreCounts` |
| Orders.DeductCounts | routes/orders.js:93-98 | the decrement lowers each entry by exactly the quantities of the items whose first match it is; figure ids and tags stay |
| Orders.RestoreCounts | routes/orders.js:133-136 | the give-back raises each entry by exactly the quantities of the items whose first match it is; items with no entry are skipped |
| Orders.TakeStock | routes/orders.js:93-98 | the `forEach` decrement loop computes the specified decrement |
| Orders.PutBack | routes/orders.js:133-136 | the `forEach` give-back loop computes the specified give-back |
| Orders.FindEntryExtends | routes/orders.js:71-73 | entries appended after an inventory do not move a first match that was already in it |
| Orders.DemandExtends | routes/orders.js:93-136 | appended entries do not change the demand on the old positions, and none falls on them |
| Orders.GiveBackAfterTake | routes/orders.js:93-136 | even if entries were appended (adopting an album, creating a figure) and counts adjusted in between, cancel gives each old entry back exactly what create took and leaves the appended entries alone |
| Orders.RestoreAfterDeduct | routes/orders.js:93-136 | giving back right after taking restores the inventory exactly |
| Orders.DistinctKeepsCountsNonNegative | routes/orders.js:71-98 | with distinct item figures and a passing check, no decremented count goes negative |
| Orders.RepeatedFigureOverdraws | routes/orders.js:71-98 | with a repeated figure, both items pass the check against the count before the order, and the decrement takes the count below zero |
| Orders.NewOrder | routes/orders.js:82-90 | the order pushed by create-order: fresh id, album, trimmed customer, items, total, pending, created now; stated by `Orders.NewOrderValid` and `Orders.CreateOrderSuccess` |
| Orders.NewOrderValid | models/usuario.model.js:60-86 | a new order is pending with createdAt the creation time; it passes the order schema iff the trimmed customer is non-empty, the total is non-negative and every quantity is at least 1 |
| Orders.CreateOrder | routes/orders.js:46-108 | the create-order route as a function of the store; stated by `Orders.CreateOrderRejects`, `Orders.CreateOrderReportsFirstFailure`, `Orders.CreateOrderSuccess` and `Orders.CreateOrderKeepsValid` |
| Orders.CreateOrderRejects | routes/orders.js:52-62 | a missing albumId or customer, or a missing or empty item list, is a validation error; then an unknown album or user is not found |
| Orders.CreateOrderReportsFirstFailure | routes/orders.js:65-79 | if some item fails, create-order fails with the verdict of the first failing item (unknown figure or insufficient stock) |
| Orders.CreateOrderSuccess | routes/orders.js:82-101 | on success every item passed; exactly one pending order with the album, trimmed customer, items, total and time is appended; each inventory entry is unchanged except that its count drops by exactly its demand (figure and tag kept); nothing else changes |
| Orders.CreateOrderWellFormedSucceeds | routes/orders.js:82-101 | a request with distinct figures, quantities of at least 1, a non-negative total and a non-blank customer that passes the check is not rejected by the save |
| Orders.RepeatedFigureRejectedAtSave | routes/orders.js:93-106 | an overdrawing repeated figure passes the check and is then rejected by the save with a server error, not insufficient stock |
| Orders.CreateOrderKeepsValid | routes/orders.js:82-101 | a successful create-order keeps every schema constraint and id invariant of the store |
| Orders.FindOrder | routes/orders.js:113 | `orders.id(id)` finds the first order with that id, or none exactly when no order has it |
| Orders.FindOrderSameIds | routes/orders.js:125 | changing statuses does not move the order lookup |
| Orders.SetStatus | routes/orders.js:117-131 | `ord.status = …` on the found order; stated through `Orders.MarkDeliveredOutcome` and `Orders.CancelOrderOutcome` (that order alone changes, and only its status) |
| Orders.MarkDelivered | routes/orders.js:111-120 | the delivered route; stated by `Orders.MarkDeliveredOutcome` and `Orders.DeliveredIsFinal` |
| Orders.CancelOrder | routes/orders.js:123-139 | the cancelled route; stated by `Orders.CancelOrderOutcome`, `Orders.CancelledIsFinal` and `Orders.CreateThenCancel` |
| Orders.MarkDeliveredOutcome | routes/orders.js:111-120 | unknown user: server error; unknown order: not found; non-pending: invalid state; otherwise that order alone becomes delivered and the inventory is untouched |
| Orders.CancelOrderOutcome | routes/orders.js:123-139 | unknown user: server error; unknown order: not found; non-pending: invalid state; otherwise that order alone becomes cancelled and each inventory entry is unchanged except that its count rises by exactly the quantities the order's items demand of it (figure and tag kept) |
| Orders.CancelledUserValid | routes/orders.js:123-137 | cancelling a pending order and giving its quantities back keeps a valid user valid |
| Orders.DemandNonNegative | routes/orders.js:133-136 | with quantities of at least 1, the give-back never lowers a count |
| Orders.TerminalStatesRefused | routes/orders.js:112-130 | an order that has left pending is refused by both transitions |
| Orders.DeliveredIsFinal | routes/orders.js:115-117 | after delivered, neither transition applies to that order again |
| Orders.CancelledIsFinal | routes/orders.js:129-131 | after cancelled, neither transition applies to that order again |
| Orders.FindAppendedOrder | routes/orders.js:82-90 | the freshly pushed order is the one the lookup finds under its new id |
| Orders.CreateThenCancel | routes/orders.js:82-137 | create-order then cancel of the new order succeeds, restores the inventory exactly and keeps the order on record as cancelled |
| Orders.MarkDeliveredKeepsValid | routes/orders.js:111-120 | a successful delivered keeps every store invariant |
| Orders.CancelOrderKeepsValid | routes/orders.js:123-139 | a successful cancel keeps every store invariant |
| Orders.ForAlbum | routes/orders.js:23-24 | the filter keeps exactly the orders of that album, each as often as it is stored; its order is stated by `Orders.ForAlbumAppend` and `Orders.ForAlbumSingle` |
| Orders.ForAlbumAppend | routes/orders.js:23-24 | filtering distributes over concatenation, so the album's orders keep their stored order and multiplicity |
| Orders.ForAlbumSingle | routes/orders.js:23-24 | a single order is kept exactly when it is for the album |
| Orders.Insert | routes/orders.js:26 | insertion adds exactly the one order to the multiset |
| Orders.InsertNewestFirst | routes/orders.js:26 | insertion keeps a newest-first list newest first |
| Orders.SortNewestFirst | routes/orders.js:26 | sorting is a permutation |
| Orders.SortIsNewestFirst | routes/orders.js:26 | sorting orders by createdAt descending |
| Orders.InsertAtTime | routes/orders.js:26 | insertion puts the new order ahead of the orders created at the same time and keeps their order |
| Orders.SortIsStable | routes/orders.js:26 | the sort is stable: orders created at the same time keep their stored order |
| Orders.ForAlbumAtTime | routes/orders.js:23-26 | keeping one album's orders and keeping one creation time's orders commute, so the album's orders of one time stay in stored order |
| Orders.SortKeepsMembers | routes/orders.js:26 | sorting keeps the length and exactly the same orders |
| Orders.SortedViews | routes/orders.js:26-35 | sorting then projecting a list gives one view per order, newest first, and nothing else |
| Orders.View | routes/orders.js:28-35 | the per-order projection; stated through `Orders.Views` and `Orders.ListOrdersSpec` |
| Orders.Views | routes/orders.js:28-35 | the projection maps each order to its id, customer, items, total, status and createdAt |
| Orders.ViewsAtTime | routes/orders.js:28-35 | the projection keeps creation times, so the views of one time are the projection of that time's orders, in order |
| Orders.ListOrders | routes/orders.js:11-42 | the listing route; stated by `Orders.ListOrdersSpec` |
| Orders.ListOrdersSpec | routes/orders.js:11-37 | a missing albumId is a validation error and an unknown user not found; otherwise the reply lists exactly the user's orders of that album, newest first, and orders created at the same time appear in their stored order |
| Usuarios.Clamp | routes/usuarios.js:148 | `Math.max(0, …)`; stated by `Usuarios.UpdateFiguraOutcome` (never negative, and the sum itself when that is not negative) |
| Usuarios.UpdateFigura | routes/usuarios.js:141-150 | the update-figura route; stated by `Usuarios.UpdateFiguraOutcome` |
| Usuarios.UpdateFiguraOutcome | routes/usuarios.js:141-150 | unknown user: server error; no entry gives not found; otherwise only the first matching entry changes, to max(0, count + delta), which is never negative and equals count + delta when that is not negative; the reply is the new count |
| Usuarios.UpdateFiguraKeepsValid | routes/usuarios.js:141-150 | a successful adjustment keeps every store invariant |
| Usuarios.AdoptAlbum | routes/usuarios.js:154-177 | the add-album route; stated by `Usuarios.AdoptAlbumOutcome` and `Usuarios.AdoptAlbumTwice` |
| Usuarios.AdoptAlbumOutcome | routes/usuarios.js:154-177 | an unknown album is not found; a known album with an unknown user succeeds and changes nothing; otherwise the album id joins the user's albums as a set and one count-0 entry per album figure is appended in order, nothing else changing |
| Usuarios.AdoptAlbumTwice | routes/usuarios.js:165-174 | adopting twice leaves the album list as after once but appends the entries a second time |
| Usuarios.AdoptAlbumKeepsValid | routes/usuarios.js:154-177 | adopting an album keeps every store invariant |
| Usuarios.Populate | routes/usuarios.js:82-86 | `populate` of the user's album ids is never longer than the id list; its members are stated by `Usuarios.PopulateMembers` |
| Usuarios.PopulateMembers | routes/usuarios.js:82-86 | each listed summary is that of an album the user's ids name, every such album is listed, and with no dangling id nothing is dropped |
| Usuarios.PopulateAppend | routes/usuarios.js:82-86 | populating two id lists joined gives the two listings joined: the user's order is kept |
| Usuarios.ListAlbumes | routes/usuarios.js:75-99 | `POST /albumes`; stated by `Usuarios.ListAlbumesSpec` |
| Usuarios.ListAlbumesIds | routes/usuarios.js:101-121 | `POST /albumesIds`; stated by `Usuarios.ListAlbumesSpec` |
| Usuarios.ListAlbumesSpec | routes/usuarios.js:75-121 | both routes answer 400 without a user id and 404 for an unknown user; otherwise the populated listing is, in order, the albums of the id listing that still exist |
| Usuarios.AdoptThenListed | routes/usuarios.js:75-177 | after adopting an album both listings show it: the id once, at the end if new, and its summary |
| Usuarios.Holdings | routes/usuarios.js:132-134 | the filter and map over the held figures; never more rows than entries, and stated exactly by `Usuarios.HoldingsAppend`, `Usuarios.HoldingsSingle` and `Usuarios.HoldingsMembers` |
| Usuarios.HoldingsAppend | routes/usuarios.js:132-134 | the listing of a concatenation is the concatenation of the listings: inventory order is kept |
| Usuarios.HoldingsSingle | routes/usuarios.js:132-134 | one entry whose figure carries the album's name gives exactly one row with that figure and count, any other entry none; with `Usuarios.HoldingsAppend` the listing has one row per matching entry, in inventory order |
| Usuarios.HoldingsMembers | routes/usuarios.js:132-134 | a row is listed exactly for the entries whose figure's album name is the album's name, with that figure and count |
| Usuarios.FigurasOfAlbum | routes/usuarios.js:123-137 | `GET /figuras`; stated by `Usuarios.FigurasOfAlbumSpec` |
| Usuarios.FigurasOfAlbumSpec | routes/usuarios.js:123-137 | an unknown album is not found; a known album with an unknown user, or an inventory entry naming a missing figure, is a server error and nothing else is; otherwise the answer is exactly `Holdings` of the inventory: one (figure, count) row per entry whose figure carries the album's name, in inventory order |
| Usuarios.NombreTaken | models/usuario.model.js:92 | the unique index's test: some stored user already has that nombre; stated by `Usuarios.AddOutcome` |
| Usuarios.Add | routes/usuarios.js:16-25 | `POST /add`; stated by `Usuarios.AddOutcome` |
| Usuarios.AddOutcome | routes/usuarios.js:16-25 | the user is created iff the trimmed name is at least 3 UTF-16 code units long and is free and the credential at least 6; the new user is an admin holding nothing; no other user changes |
| Usuarios.AddMeasuresCodeUnits | models/usuario.model.js:93-94 | an emoji and one letter make a valid name, and a name with a leading vertical tab is trimmed to two letters and refused |
| Usuarios.AddKeepsValid | routes/usuarios.js:16-25 | creating a user keeps every store invariant, name uniqueness included |
| Figuras.FanOut | routes/figuras.js:56-60 | the fan-out keeps the set of users; its effect is stated by `Figuras.AddSuccess` |
| Figuras.FanOutKeepsUsers | routes/figuras.js:56-60 | the fan-out keeps every user valid and changes no user's name or orders |
| Figuras.Add | routes/figuras.js:24-67 | `POST /figuras/add`; stated by `Figuras.AddRejects`, `Figuras.AddSucceedsIff` and `Figuras.AddSuccess` |
| Figuras.AddRejects | routes/figuras.js:26-42 | a missing field or a type the album does not list is a validation error, and an unknown album is not found |
| Figuras.AddSucceedsIff | routes/figuras.js:26-50 | on a valid store the figure is created iff all fields are given, the album exists and lists the type, and the type is one of the six |
| Figuras.AddSuccess | routes/figuras.js:45-60 | a fresh id names a figure carrying the album's name; its id is appended to that album only; each user holding the album gets exactly one count-0 entry for it at the end; other users are unchanged |
| Figuras.AddKeepsValid | routes/figuras.js:45-60 | adding a figure keeps every store invariant |
| Figuras.Delete | routes/figuras.js:72-98 | `DELETE /figuras/:id`; stated by `Figuras.DeleteOutcome` |
| Figuras.DeleteOutcome | routes/figuras.js:76-91 | an unknown figure is not found; otherwise every album id list and every inventory is exactly its `$pull` of the figure, no figure, id or entry names it afterwards, everything else is kept, and orders naming it are untouched |
| Figuras.DeleteTwice | routes/figuras.js:76-79 | a second delete of the same figure is not found |
| Figuras.DeleteKeepsValid | routes/figuras.js:76-91 | deleting a figure keeps every store invariant |
| Figuras.Update | routes/figuras.js:103-122 | `POST /figuras/update/:id`; stated by `Figuras.UpdateOutcome` |
| Figuras.UpdateOutcome | routes/figuras.js:105-117 | an unknown figure is not found; the update succeeds iff the new type, if given, is in the enum; only code and type change, each only when given; albums and inventories keep pointing at the same id |
| Figuras.UpdateKeepsValid | routes/figuras.js:105-117 | updating a figure keeps every store invariant |
| Albumes.Add | routes/albumes.js:16-35 | `POST /albumes/add`; stated by `Albumes.AddOutcome` and `Albumes.GetAfterAdd` |
| Albumes.AddOutcome | routes/albumes.js:16-30 | the album is stored iff nombre, editorial and imagen are given; it holds exactly those fields and figuras under a fresh id; nothing else changes |
| Albumes.AddKeepsValid | routes/albumes.js:16-30 | adding an album keeps every store invariant |
| Albumes.Get | routes/albumes.js:38-46 | the lookup fails with not found exactly when the id is absent, and otherwise returns that album |
| Albumes.GetAfterAdd | routes/albumes.js:16-46 | an album just created is found under its id with the given fields |
| Albumes.Update | routes/albumes.js:59-74 | `POST /albumes/update/:id`; stated by `Albumes.UpdateOutcome` and `Albumes.UpdateNothing` |
| Albumes.UpdateOutcome | routes/albumes.js:59-73 | an unknown album is not found; a known one is refused with a validation error exactly when the updated album lacks a required field, which never happens on a valid store; otherwise nombre and editorial change only when given, figuras only when given a list; imagen, type keys, other albums, figures and users never change |
| Albumes.UpdateNothing | routes/albumes.js:64-73 | an update with no field given leaves the store as it was, unless the stored album already lacks a required field, which the save refuses |
| Albumes.UpdateKeepsValid | routes/albumes.js:59-73 | updating an album keeps every store invariant |
| Albumes.Delete | routes/albumes.js:49-56 | `DELETE /albumes/del/:id`; stated by `Albumes.DeleteOutcome` |
| Albumes.DeleteOutcome | routes/albumes.js:49-52 | delete always succeeds, removes only that album, leaves figures and users as they were, and is idempotent |
| Albumes.DeleteAfterAdd | routes/albumes.js:16-52 | deleting an album right after creating it restores the albums as they were |
| Albumes.DeleteKeepsValid | routes/albumes.js:49-52 | deleting an album keeps every store invariant |
| Backend.Store.CreateOrder | routes/orders.js:46-108 | validates, looks up, runs the item loop, then pushes the order and runs the decrement loop; answers and updates as `Orders.CreateOrder`; keeps the invariants |
| Backend.Store.MarkDelivered | routes/orders.js:111-120 | assigns the status in place; answers and updates as `Orders.MarkDelivered` |
| Backend.Store.CancelOrder | routes/orders.js:123-139 | assigns the status and runs the give-back loop; answers and updates as `Orders.CancelOrder` |
| Backend.Store.UpdateFiguraCount | routes/usuarios.js:141-150 | assigns the clamped count in place; answers and updates as `Usuarios.UpdateFigura` |
| Backend.Store.AdoptAlbum | routes/usuarios.js:154-177 | applies `$addToSet` and `$push` to the user; answers and updates as `Usuarios.AdoptAlbum` |
| Backend.Store.AddUser | routes/usuarios.js:16-25 | inserts the new user; answers and updates as `Usuarios.Add` |
| Backend.Store.AddFigura | routes/figuras.js:24-67 | stores the figure, pushes onto the album, fans out to holders; answers and updates as `Figuras.Add` |
| Backend.Store.DeleteFigura | routes/figuras.js:72-98 | deletes and pulls from albums and users; answers and updates as `Figuras.Delete` |
| Backend.Store.UpdateFigura | routes/figuras.js:103-122 | assigns code and tipo when given; answers and updates as `Figuras.Update` |
| Backend.Store.AddAlbum | routes/albumes.js:16-35 | inserts the album; answers and updates as `Albumes.Add` |
| Backend.Store.UpdateAlbum | routes/albumes.js:59-74 | assigns the given fields, runs the album schema check, then stores the album; answers and updates as `Albumes.Update` |
| Backend.Store.DeleteAlbum | routes/albumes.js:49-56 | removes the album; answers and updates as `Albumes.Delete` |

## Left out

- Authentication: the auth middleware (`middleware/auth.js`), JWT signing and login are outside the model. The caller's user id is a parameter of each handler.
- Password hashing: the bcrypt pre-save hook is not modelled. `contra` is stored as given, after its length check.
- Transport and setup: the Express server, CORS, logging and the database connection (`index.js`) are not modelled. HTTP codes become the `Error` kinds. Reply payloads are not modelled beyond what the state determines: add-album answers the populated user and figure add answers `{ figure }`, while the model answers `()` or the new id.
- Plain reads with no checks: `GET /` of albums, figures and users. They are left out as unconditional projections of the store.
- `GET /usuarios/:userId/figuras` is left out. It is unauthenticated and compares a figure's album name with an album id; `GET /usuarios/figuras` is the name-based listing that is modelled.
- Set assembly and the type-key rename cascade: no route in `routes/` implements them. `setsUsuario` is declared and validated, but never written.
- Concurrency: each handler is one atomic step. Interleavings of the unlocked read-check-save sequences are not modelled.
- Partial failures between the separate writes of `/figuras/add` and `DELETE /figuras/:id` are not modelled. Examples are the figure saved but the album save failing, or the album updated but the users' update failing.
- Malformed ObjectIds (cast errors) and loosely typed bodies are not modelled: ids are naturals and `delta`, `quantity` and `total` are integers. `total` is a JavaScript number in the source and an integer here; no arithmetic is done on it.
- Unpaired UTF-16 surrogates: a JavaScript string can hold one, a Dafny string cannot; names and credentials are sequences of Unicode scalar values.
- Timestamps: `createdAt` is the input `now`. The `createdAt`/`updatedAt` that `timestamps: true` maintains are not modelled.
- `populate` and `select` projections: the orders listing keeps the items' figure ids rather than the populated code and type.
- The listing's `o.status || "pending"` fallback: every stored order has a status here, so the stored status is reported.
- The user schema's default role `usuario` is declared, but no modelled route uses it: `POST /usuarios/add` always sets `admin`.
