/** The store the route handlers share, as an object whose collections the
 *  handlers update in place. Each handler performs its checks, in the
 *  source's order, before it assigns anything, and is proved to answer and
 *  to leave the store exactly as the specification function of its route
 *  prescribes (an error leaves every collection as it was). */
module Backend {
  import opened Schema
  import opened Inventory
  import Orders
  import Usuarios
  import Figuras
  import Albumes

  /** The handler answered `r` and moved the store from `before` to `after`
   *  as `spec` prescribes: on success its state and its reply, on error the
   *  same error and the unchanged store. */
  ghost predicate Follows<T>(r: Result<T>, spec: Result<(Db, T)>, before: Db, after: Db) {
    match spec
    case Ok((d, out)) => r == Ok(out) && after == d
    case Err(e) => r == Err(e) && after == before
  }

  class Store {
    var albums: map<Id, Album>
    var figures: map<Id, Figure>
    var users: map<Id, User>
    var nextId: nat

    /** The three collections and the ObjectId generator as one value. */
    function State(): (r: Db)
      reads this
    {
      Db(albums, figures, users, nextId)
    }

    ghost predicate Valid()
      reads this
    {
      DbValid(State())
    }

    /** An empty store. */
    constructor ()
      ensures Valid()
      ensures albums == map[] && figures == map[] && users == map[] && nextId == 0
    {
      albums, figures, users, nextId := map[], map[], map[], 0;
    }

    // -------------------------------------------------------------------
    // routes/orders.js

    /** `POST /create-order` by user `uid` at time `now`: validate, look up,
     *  check every item, then push the order, take the stock and save. */
    method CreateOrder(uid: Id, req: Orders.OrderRequest, now: nat) returns (r: Result<()>)
      modifies this
      ensures Follows(r, Orders.CreateOrder(old(State()), uid, req, now), old(State()), State())
      ensures old(Valid()) ==> Valid()
    {
      if req.albumId.None? || req.customer == "" || req.items.None? || req.items.value == [] {
        return Err(Validation);
      }
      var albumId := req.albumId.value;
      if albumId !in albums {
        return Err(NotFound);
      }
      if uid !in users {
        return Err(NotFound);
      }
      var usuario := users[uid];
      var items := req.items.value;
      var failure := Orders.FirstFailure(figures, usuario.figurasUsuario, items);
      if failure.Some? {
        return Err(failure.value);
      }
      usuario := usuario.(orders := usuario.orders + [Orders.NewOrder(nextId, albumId, req, now)]);
      var stock := Orders.TakeStock(usuario.figurasUsuario, items);
      usuario := usuario.(figurasUsuario := stock);
      if !UserValid(usuario) {
        return Err(Internal);
      }
      users := users[uid := usuario];
      nextId := nextId + 1;
      r := Ok(());
      if old(Valid()) {
        Orders.CreateOrderKeepsValid(old(State()), uid, req, now);
      }
    }

    /** `POST /orders/:id/delivered`. */
    method MarkDelivered(uid: Id, id: Id) returns (r: Result<()>)
      modifies this
      ensures Follows(r, Orders.MarkDelivered(old(State()), uid, id), old(State()), State())
      ensures old(Valid()) ==> Valid()
    {
      if uid !in users {
        return Err(Internal);
      }
      var u := users[uid];
      var k := Orders.FindOrder(u.orders, id);
      if k.None? {
        return Err(NotFound);
      }
      var ord := u.orders[k.value];
      if ord.status != Pending {
        return Err(InvalidState);
      }
      u := u.(orders := u.orders[k.value := ord.(status := Delivered)]);
      if !UserValid(u) {
        return Err(Internal);
      }
      users := users[uid := u];
      r := Ok(());
      if old(Valid()) {
        Orders.MarkDeliveredKeepsValid(old(State()), uid, id);
      }
    }

    /** `POST /orders/:id/cancelled`: the status changes, then each item's
     *  quantity goes back to its first matching entry. */
    method CancelOrder(uid: Id, id: Id) returns (r: Result<()>)
      modifies this
      ensures Follows(r, Orders.CancelOrder(old(State()), uid, id), old(State()), State())
      ensures old(Valid()) ==> Valid()
    {
      if uid !in users {
        return Err(Internal);
      }
      var u := users[uid];
      var k := Orders.FindOrder(u.orders, id);
      if k.None? {
        return Err(NotFound);
      }
      var ord := u.orders[k.value];
      if ord.status != Pending {
        return Err(InvalidState);
      }
      var stock := Orders.PutBack(u.figurasUsuario, ord.items);
      u := u.(orders := u.orders[k.value := ord.(status := Cancelled)], figurasUsuario := stock);
      if !UserValid(u) {
        return Err(Internal);
      }
      users := users[uid := u];
      r := Ok(());
      if old(Valid()) {
        Orders.CancelOrderKeepsValid(old(State()), uid, id);
      }
    }

    // -------------------------------------------------------------------
    // routes/usuarios.js

    /** `POST /usuarios/update-figura`: `entry.count = Math.max(0, entry.count + delta)`. */
    method UpdateFiguraCount(uid: Id, figuraId: Id, delta: int) returns (r: Result<int>)
      modifies this
      ensures Follows(r, Usuarios.UpdateFigura(old(State()), uid, figuraId, delta), old(State()), State())
      ensures old(Valid()) ==> Valid()
    {
      if uid !in users {
        return Err(Internal);
      }
      var user := users[uid];
      var entry := FindEntry(user.figurasUsuario, figuraId);
      if entry.None? {
        return Err(NotFound);
      }
      var k := entry.value;
      var count := Usuarios.Clamp(user.figurasUsuario[k].count + delta);
      user := user.(figurasUsuario := user.figurasUsuario[k := user.figurasUsuario[k].(count := count)]);
      if !UserValid(user) {
        return Err(Internal);
      }
      users := users[uid := user];
      r := Ok(count);
      if old(Valid()) {
        Usuarios.UpdateFiguraKeepsValid(old(State()), uid, figuraId, delta);
      }
    }

    /** `POST /usuarios/add-album`: `$addToSet` the album id and `$push`
     *  the zero-count entries built from the album's figure ids. */
    method AdoptAlbum(uid: Id, albumId: Id) returns (r: Result<()>)
      modifies this
      ensures Follows(r, Usuarios.AdoptAlbum(old(State()), uid, albumId), old(State()), State())
      ensures old(Valid()) ==> Valid()
    {
      if albumId !in albums {
        return Err(NotFound);
      }
      var newFigureDocs := ZeroEntries(albums[albumId].figuras);
      if uid in users {
        var u := users[uid];
        users := users[uid := u.(albumesUsuario := AddToSet(u.albumesUsuario, albumId),
                                 figurasUsuario := u.figurasUsuario + newFigureDocs)];
      }
      r := Ok(());
      if old(Valid()) {
        Usuarios.AdoptAlbumKeepsValid(old(State()), uid, albumId);
      }
    }

    /** `POST /usuarios/add`: a new admin with nothing held. */
    method AddUser(nombre: string, contra: string) returns (r: Result<Id>)
      modifies this
      ensures Follows(r, Usuarios.Add(old(State()), nombre, contra), old(State()), State())
      ensures old(Valid()) ==> Valid()
    {
      var n := Trim(nombre);
      if Utf16Length(n) < 3 || Utf16Length(contra) < 6 || Usuarios.NombreTaken(users, n) {
        r := Err(Validation);
      } else {
        var id := nextId;
        users := users[id := User(n, contra, [], [], [], [], Admin)];
        nextId := id + 1;
        r := Ok(id);
        assert Usuarios.Add(old(State()), nombre, contra) == Ok((State(), id));
        if old(Valid()) {
          Usuarios.AddKeepsValid(old(State()), nombre, contra);
        }
      }
    }

    // -------------------------------------------------------------------
    // routes/figuras.js

    /** `POST /figuras/add`: store the figure, push its id onto the album,
     *  then push a zero-count entry to every user holding the album. */
    method AddFigura(req: Figuras.FiguraRequest) returns (r: Result<Id>)
      modifies this
      ensures Follows(r, Figuras.Add(old(State()), req), old(State()), State())
      ensures old(Valid()) ==> Valid()
    {
      if req.albumId.None? || req.code == "" || req.tipo == "" {
        return Err(Validation);
      }
      var albumId := req.albumId.value;
      if albumId !in albums {
        return Err(NotFound);
      }
      var album := albums[albumId];
      if req.tipo !in album.tipos {
        return Err(Validation);
      }
      var nueva := Figure(album.nombre, req.code, req.tipo);
      if !FigureValid(nueva) {
        return Err(Internal);
      }
      var id := nextId;
      nextId := id + 1;
      figures := figures[id := nueva];
      albums := albums[albumId := album.(figuras := album.figuras + [id])];
      users := Figuras.FanOut(users, albumId, id);
      r := Ok(id);
      if old(Valid()) {
        Figuras.AddKeepsValid(old(State()), req);
      }
    }

    /** `DELETE /figuras/:id`: delete the figure, then `$pull` it from every
     *  album and from every user's inventory. */
    method DeleteFigura(id: Id) returns (r: Result<()>)
      modifies this
      ensures Follows(r, Figuras.Delete(old(State()), id), old(State()), State())
      ensures old(Valid()) ==> Valid()
    {
      if id !in figures {
        return Err(NotFound);
      }
      figures := figures - {id};
      albums := map a | a in albums :: albums[a].(figuras := RemoveId(albums[a].figuras, id));
      users := map v | v in users :: users[v].(figurasUsuario := RemoveFigure(users[v].figurasUsuario, id));
      r := Ok(());
      if old(Valid()) {
        Figuras.DeleteKeepsValid(old(State()), id);
      }
    }

    /** `POST /figuras/update/:id`: assign code and tipo when given, then save. */
    method UpdateFigura(id: Id, code: string, tipo: string) returns (r: Result<Figure>)
      modifies this
      ensures Follows(r, Figuras.Update(old(State()), id, code, tipo), old(State()), State())
      ensures old(Valid()) ==> Valid()
    {
      if id !in figures {
        return Err(NotFound);
      }
      var figura := figures[id];
      if code != "" {
        figura := figura.(code := code);
      }
      if tipo != "" {
        figura := figura.(tipo := tipo);
      }
      if !FigureValid(figura) {
        return Err(Validation);
      }
      figures := figures[id := figura];
      r := Ok(figura);
      if old(Valid()) {
        Figuras.UpdateKeepsValid(old(State()), id, code, tipo);
      }
    }

    // -------------------------------------------------------------------
    // routes/albumes.js

    /** `POST /albumes/add`. */
    method AddAlbum(nombre: string, editorial: string, imagen: string, figuras: seq<Id>) returns (r: Result<Id>)
      modifies this
      ensures Follows(r, Albumes.Add(old(State()), nombre, editorial, imagen, figuras), old(State()), State())
      ensures old(Valid()) ==> Valid()
    {
      if nombre == "" || editorial == "" || imagen == "" {
        return Err(Validation);
      }
      var id := nextId;
      albums := albums[id := Album(nombre, editorial, imagen, {}, figuras)];
      nextId := id + 1;
      r := Ok(id);
    }

    /** `POST /albumes/update/:id`: assign the given fields, then save. */
    method UpdateAlbum(id: Id, nombre: string, editorial: string, figuras: Option<seq<Id>>) returns (r: Result<()>)
      modifies this
      ensures Follows(r, Albumes.Update(old(State()), id, nombre, editorial, figuras), old(State()), State())
      ensures old(Valid()) ==> Valid()
    {
      if id !in albums {
        return Err(NotFound);
      }
      var album := albums[id];
      if nombre != "" {
        album := album.(nombre := nombre);
      }
      if editorial != "" {
        album := album.(editorial := editorial);
      }
      if figuras.Some? {
        album := album.(figuras := figuras.value);
      }
      if !AlbumValid(album) {
        return Err(Validation);
      }
      albums := albums[id := album];
      r := Ok(());
    }

    /** `DELETE /albumes/del/:id`. */
    method DeleteAlbum(id: Id) returns (r: Result<()>)
      modifies this
      ensures Follows(r, Albumes.Delete(old(State()), id), old(State()), State())
      ensures old(Valid()) ==> Valid()
    {
      albums := albums - {id};
      r := Ok(());
    }
  }
}
