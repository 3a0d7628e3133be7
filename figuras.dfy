/** The figure catalog routes of routes/figuras.js: creating a figure and
 *  fanning it out to the album and to every user who holds the album,
 *  deleting a figure from the three collections, and editing its code and
 *  type. */
module Figuras {
  import opened Schema
  import opened Inventory

  /** The body of `POST /figuras/add`; an absent album id is `None`, an
   *  absent code or type the empty string. */
  datatype FiguraRequest = FiguraRequest(albumId: Option<Id>, code: string, tipo: string)

  /** The filter `{ albumesUsuario: albumId }`: the user holds the album. */
  predicate Holds(u: User, albumId: Id) {
    albumId in u.albumesUsuario
  }

  /** `Usuario.updateMany({ albumesUsuario: albumId },
   *  { $push: { figurasUsuario: { figura: f, count: 0 } } })`. */
  function FanOut(users: map<Id, User>, albumId: Id, f: Id): (r: map<Id, User>)
    ensures r.Keys == users.Keys
  {
    map v | v in users ::
      if Holds(users[v], albumId) then users[v].(figurasUsuario := users[v].figurasUsuario + [NewEntry(f)])
      else users[v]
  }

  // ---------------------------------------------------------------------
  // POST /figuras/add

  /** `POST /figuras/add`: the required fields, then the album, then the
   *  album's type keys are checked; the new figure takes the next ObjectId
   *  and carries the album's NAME. `nueva.save()` still applies the schema,
   *  whose `tipo` enum may reject a key the album lists (a server error). */
  function Add(db: Db, req: FiguraRequest): (r: Result<(Db, Id)>)
  {
    if req.albumId.None? || req.code == "" || req.tipo == "" then Err(Validation)
    else if req.albumId.value !in db.albums then Err(NotFound)
    else
      var albumId := req.albumId.value;
      var album := db.albums[albumId];
      if req.tipo !in album.tipos then Err(Validation)
      else
        var fig := Figure(album.nombre, req.code, req.tipo);
        if !FigureValid(fig) then Err(Internal)
        else
          var id := db.nextId;
          Ok((Db(db.albums[albumId := album.(figuras := album.figuras + [id])],
                 db.figures[id := fig],
                 FanOut(db.users, albumId, id),
                 id + 1), id))
  }

  /** A missing field is a validation error, an unknown album is not found,
   *  and a type the album does not list is a validation error; the store
   *  keeps its state in each case. */
  lemma AddRejects(db: Db, req: FiguraRequest)
    ensures req.albumId.None? || req.code == "" || req.tipo == "" ==> Add(db, req) == Err(Validation)
    ensures req.albumId.Some? && req.code != "" && req.tipo != "" && req.albumId.value !in db.albums
            ==> Add(db, req) == Err(NotFound)
    ensures req.albumId.Some? && req.code != "" && req.tipo != "" && req.albumId.value in db.albums
            && req.tipo !in db.albums[req.albumId.value].tipos
            ==> Add(db, req) == Err(Validation)
  {
  }

  /** On a valid store the figure is created exactly when every field is
   *  there, the album exists and lists the type, and the type is one of the
   *  six the figure schema admits. */
  lemma AddSucceedsIff(db: Db, req: FiguraRequest)
    requires DbValid(db)
    ensures Add(db, req).Ok? <==>
              && req.albumId.Some? && req.code != "" && req.tipo != ""
              && req.albumId.value in db.albums
              && req.tipo in db.albums[req.albumId.value].tipos
              && req.tipo in Tipos
  {
  }

  /** On success: a fresh id names a figure whose album field is the album's
   *  name; the id is appended to that album's figuras and nothing else
   *  about the albums changes; every user who holds the album gets exactly
   *  one more inventory entry, for the new figure with count 0, at the end;
   *  every other user is unchanged. */
  lemma AddSuccess(db: Db, req: FiguraRequest)
    requires DbValid(db) && Add(db, req).Ok?
    ensures var (d, id) := Add(db, req).value;
            var a := req.albumId.value;
            && a in db.albums
            && id !in db.figures && id !in db.albums && id !in db.users
            && d.figures.Keys == db.figures.Keys + {id}
            && (forall f :: f in db.figures ==> d.figures[f] == db.figures[f])
            && d.figures[id].album == db.albums[a].nombre
            && d.figures[id].code == req.code && d.figures[id].tipo == req.tipo
            && d.albums.Keys == db.albums.Keys
            && (forall b :: b in db.albums && b != a ==> d.albums[b] == db.albums[b])
            && d.albums[a] == db.albums[a].(figuras := db.albums[a].figuras + [id])
            && d.users.Keys == db.users.Keys
            && (forall v :: v in db.users && Holds(db.users[v], a) ==>
                  && |d.users[v].figurasUsuario| == |db.users[v].figurasUsuario| + 1
                  && d.users[v].figurasUsuario[..|db.users[v].figurasUsuario|] == db.users[v].figurasUsuario
                  && d.users[v].figurasUsuario[|db.users[v].figurasUsuario|] == Entry(id, None, 0)
                  && d.users[v] == db.users[v].(figurasUsuario := d.users[v].figurasUsuario))
            && (forall v :: v in db.users && !Holds(db.users[v], a) ==> d.users[v] == db.users[v])
  {
    var (d, id) := Add(db, req).value;
    forall v | v in db.users && Holds(db.users[v], req.albumId.value)
      ensures d.users[v].figurasUsuario[..|db.users[v].figurasUsuario|] == db.users[v].figurasUsuario
    {
      var inv := db.users[v].figurasUsuario;
      assert d.users[v].figurasUsuario == inv + [NewEntry(id)];
    }
  }

  /** The fan-out keeps every user valid, and changes no user's name or
   *  orders. */
  lemma FanOutKeepsUsers(users: map<Id, User>, albumId: Id, f: Id)
    requires forall v :: v in users ==> UserValid(users[v])
    ensures forall v :: v in users ==>
              && UserValid(FanOut(users, albumId, f)[v])
              && FanOut(users, albumId, f)[v].nombre == users[v].nombre
              && FanOut(users, albumId, f)[v].orders == users[v].orders
  {
    forall v | v in users
      ensures UserValid(FanOut(users, albumId, f)[v])
    {
      var u := users[v];
      if Holds(u, albumId) {
        var u' := u.(figurasUsuario := u.figurasUsuario + [NewEntry(f)]);
        assert FanOut(users, albumId, f)[v] == u';
        assert forall e :: e in u'.figurasUsuario ==> e in u.figurasUsuario || e == NewEntry(f);
        assert u'.nombre == u.nombre && u'.contra == u.contra;
      }
    }
  }

  lemma AddKeepsValid(db: Db, req: FiguraRequest)
    requires DbValid(db) && Add(db, req).Ok?
    ensures DbValid(Add(db, req).value.0)
  {
    var (d, id) := Add(db, req).value;
    FanOutKeepsUsers(db.users, req.albumId.value, id);
    assert d.users == FanOut(db.users, req.albumId.value, id);
    assert NombresUnique(d.users) by {
      forall a, b | a in d.users && b in d.users && a != b ensures d.users[a].nombre != d.users[b].nombre {
        assert db.users[a].nombre != db.users[b].nombre;
      }
    }
  }

  // ---------------------------------------------------------------------
  // DELETE /figuras/:id

  /** `DELETE /figuras/:id`: the figure leaves the figure store, every
   *  album's figuras (`$pull` over all albums) and every user's inventory
   *  (`$pull` over all users). Order items are not touched. */
  function Delete(db: Db, id: Id): (r: Result<(Db, ())>)
  {
    if id !in db.figures then Err(NotFound)
    else
      Ok((db.(figures := db.figures - {id},
              albums := map a | a in db.albums :: db.albums[a].(figuras := RemoveId(db.albums[a].figuras, id)),
              users := map v | v in db.users ::
                         db.users[v].(figurasUsuario := RemoveFigure(db.users[v].figurasUsuario, id))), ()))
  }

  /** An unknown figure is not found. Otherwise afterwards no figure, album
   *  id list or inventory entry names the figure; each album's id list and
   *  each inventory is the `$pull` of the old one (the rest in order, see
   *  `RemoveIdAppend` and `RemoveFigureAppend`); album and user documents
   *  keep every other field, their orders included, even items naming the
   *  deleted figure. */
  lemma DeleteOutcome(db: Db, id: Id)
    ensures id !in db.figures ==> Delete(db, id) == Err(NotFound)
    ensures id in db.figures ==>
              Delete(db, id).Ok?
              && var d := Delete(db, id).value.0;
                 && d.figures.Keys == db.figures.Keys - {id}
                 && (forall f :: f in d.figures ==> d.figures[f] == db.figures[f])
                 && d.albums.Keys == db.albums.Keys && d.users.Keys == db.users.Keys
                 && d.nextId == db.nextId
                 && (forall a :: a in d.albums ==>
                       && d.albums[a].figuras == RemoveId(db.albums[a].figuras, id)
                       && id !in d.albums[a].figuras
                       && (forall x :: x in db.albums[a].figuras && x != id ==> x in d.albums[a].figuras)
                       && d.albums[a] == db.albums[a].(figuras := d.albums[a].figuras))
                 && (forall v :: v in d.users ==>
                       && d.users[v].figurasUsuario == RemoveFigure(db.users[v].figurasUsuario, id)
                       && (forall e :: e in d.users[v].figurasUsuario ==> e.figura != id)
                       && (forall e :: e in db.users[v].figurasUsuario && e.figura != id ==> e in d.users[v].figurasUsuario)
                       && d.users[v].orders == db.users[v].orders
                       && d.users[v] == db.users[v].(figurasUsuario := d.users[v].figurasUsuario))
  {
  }

  /** Deleting the same figure a second time finds nothing. */
  lemma DeleteTwice(db: Db, id: Id)
    requires Delete(db, id).Ok?
    ensures Delete(Delete(db, id).value.0, id) == Err(NotFound)
  {
  }

  lemma DeleteKeepsValid(db: Db, id: Id)
    requires DbValid(db) && Delete(db, id).Ok?
    ensures DbValid(Delete(db, id).value.0)
  {
    var d := Delete(db, id).value.0;
    forall v | v in d.users ensures UserValid(d.users[v]) {
      assert UserValid(db.users[v]);
    }
    forall a, b | a in d.users && b in d.users && a != b ensures d.users[a].nombre != d.users[b].nombre {
      assert db.users[a].nombre != db.users[b].nombre;
    }
  }

  // ---------------------------------------------------------------------
  // POST /figuras/update/:id

  /** `POST /figuras/update/:id`: code and tipo are overwritten, each only
   *  when given; the album field and the id stay. The save applies the
   *  schema's `tipo` enum (but not the album's type keys); a rejection is
   *  answered with 400. */
  function Update(db: Db, id: Id, code: string, tipo: string): (r: Result<(Db, Figure)>)
  {
    if id !in db.figures then Err(NotFound)
    else
      var f := db.figures[id];
      var f' := f.(code := if code != "" then code else f.code,
                   tipo := if tipo != "" then tipo else f.tipo);
      if !FigureValid(f') then Err(Validation)
      else Ok((db.(figures := db.figures[id := f']), f'))
  }

  /** An unknown figure is not found. On a valid store the update succeeds
   *  exactly when the new type (if any) is one of the six; then only that
   *  figure's code and type change, each to the given value or its old one,
   *  and albums and users, hence every inventory entry pointing at the id,
   *  are as they were. */
  lemma UpdateOutcome(db: Db, id: Id, code: string, tipo: string)
    ensures id !in db.figures ==> Update(db, id, code, tipo) == Err(NotFound)
    ensures DbValid(db) && id in db.figures ==>
              (Update(db, id, code, tipo).Ok? <==> tipo == "" || tipo in Tipos)
    ensures Update(db, id, code, tipo).Ok? ==>
              var (d, f') := Update(db, id, code, tipo).value;
              var f := db.figures[id];
              && id in db.figures
              && d.figures.Keys == db.figures.Keys && d.figures[id] == f'
              && (forall g :: g in db.figures && g != id ==> d.figures[g] == db.figures[g])
              && f'.album == f.album
              && (code != "" ==> f'.code == code) && (code == "" ==> f'.code == f.code)
              && (tipo != "" ==> f'.tipo == tipo) && (tipo == "" ==> f'.tipo == f.tipo)
              && d.albums == db.albums && d.users == db.users && d.nextId == db.nextId
  {
  }

  lemma UpdateKeepsValid(db: Db, id: Id, code: string, tipo: string)
    requires DbValid(db) && Update(db, id, code, tipo).Ok?
    ensures DbValid(Update(db, id, code, tipo).value.0)
  {
  }
}
