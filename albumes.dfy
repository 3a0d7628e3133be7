/** The album routes of routes/albumes.js: create with required fields,
 *  look up by id, overwrite the fields that are given, and a delete that
 *  does not cascade. */
module Albumes {
  import opened Schema

  // ---------------------------------------------------------------------
  // POST /albumes/add

  /** `POST /albumes/add`: nombre, editorial and imagen are required; the
   *  new album takes the next ObjectId, the given figure ids (an absent list
   *  is empty) and no type keys. */
  function Add(db: Db, nombre: string, editorial: string, imagen: string, figuras: seq<Id>): (r: Result<(Db, Id)>)
  {
    if nombre == "" || editorial == "" || imagen == "" then Err(Validation)
    else
      var id := db.nextId;
      Ok((db.(albums := db.albums[id := Album(nombre, editorial, imagen, {}, figuras)], nextId := id + 1), id))
  }

  /** A missing field stores nothing; otherwise exactly one album, under a
   *  fresh id, holds the given fields, and no other document changes. */
  lemma AddOutcome(db: Db, nombre: string, editorial: string, imagen: string, figuras: seq<Id>)
    requires DbValid(db)
    ensures Add(db, nombre, editorial, imagen, figuras).Ok? <==> nombre != "" && editorial != "" && imagen != ""
    ensures Add(db, nombre, editorial, imagen, figuras).Err? ==> Add(db, nombre, editorial, imagen, figuras).error == Validation
    ensures Add(db, nombre, editorial, imagen, figuras).Ok? ==>
              var (d, id) := Add(db, nombre, editorial, imagen, figuras).value;
              && id !in db.albums && d.albums.Keys == db.albums.Keys + {id}
              && (forall a :: a in db.albums ==> d.albums[a] == db.albums[a])
              && d.albums[id].nombre == nombre && d.albums[id].editorial == editorial
              && d.albums[id].imagen == imagen && d.albums[id].figuras == figuras
              && d.albums[id].tipos == {}
              && d.figures == db.figures && d.users == db.users
  {
  }

  lemma AddKeepsValid(db: Db, nombre: string, editorial: string, imagen: string, figuras: seq<Id>)
    requires DbValid(db) && Add(db, nombre, editorial, imagen, figuras).Ok?
    ensures DbValid(Add(db, nombre, editorial, imagen, figuras).value.0)
  {
  }

  // ---------------------------------------------------------------------
  // GET /albumes/:id

  /** `GET /albumes/:id`. */
  function Get(db: Db, id: Id): (r: Result<Album>)
    ensures r.Err? <==> id !in db.albums
    ensures r.Err? ==> r.error == NotFound
    ensures r.Ok? ==> r.value == db.albums[id]
  {
    if id in db.albums then Ok(db.albums[id]) else Err(NotFound)
  }

  /** An album just created is found under its id with the given fields. */
  lemma GetAfterAdd(db: Db, nombre: string, editorial: string, imagen: string, figuras: seq<Id>)
    requires Add(db, nombre, editorial, imagen, figuras).Ok?
    ensures var (d, id) := Add(db, nombre, editorial, imagen, figuras).value;
            Get(d, id) == Ok(Album(nombre, editorial, imagen, {}, figuras))
  {
  }

  // ---------------------------------------------------------------------
  // POST /albumes/update/:id

  /** `POST /albumes/update/:id`: nombre and editorial are overwritten when
   *  given, figuras when given a list; imagen is never read from the body.
   *  The save validates the whole loaded album, so an album stored without
   *  one of its required fields is refused (400) even though the update
   *  itself never empties a field. */
  function Update(db: Db, id: Id, nombre: string, editorial: string, figuras: Option<seq<Id>>): (r: Result<(Db, ())>)
  {
    if id !in db.albums then Err(NotFound)
    else
      var a := db.albums[id];
      var a' := a.(nombre := if nombre != "" then nombre else a.nombre,
                   editorial := if editorial != "" then editorial else a.editorial,
                   figuras := if figuras.Some? then figuras.value else a.figuras);
      if !AlbumValid(a') then Err(Validation)
      else Ok((db.(albums := db.albums[id := a']), ()))
  }

  /** An unknown album is not found. A known album is refused exactly when
   *  the updated album fails the schema, which never happens on a valid
   *  store. Otherwise each of nombre, editorial and figuras takes the given
   *  value or keeps its old one; imagen and the type keys never change; no
   *  other album, no figure and no user changes (figures keep the album's
   *  OLD name). */
  lemma UpdateOutcome(db: Db, id: Id, nombre: string, editorial: string, figuras: Option<seq<Id>>)
    ensures id !in db.albums ==> Update(db, id, nombre, editorial, figuras) == Err(NotFound)
    ensures id in db.albums ==>
              var a := db.albums[id];
              (Update(db, id, nombre, editorial, figuras).Ok? <==>
                 (nombre != "" || a.nombre != "") && (editorial != "" || a.editorial != "") && a.imagen != "")
    ensures id in db.albums && Update(db, id, nombre, editorial, figuras).Err? ==>
              Update(db, id, nombre, editorial, figuras).error == Validation
    ensures DbValid(db) && id in db.albums ==> Update(db, id, nombre, editorial, figuras).Ok?
    ensures Update(db, id, nombre, editorial, figuras).Ok? ==>
              var d := Update(db, id, nombre, editorial, figuras).value.0;
              var a, a' := db.albums[id], d.albums[id];
              && d.albums.Keys == db.albums.Keys
              && (forall b :: b in db.albums && b != id ==> d.albums[b] == db.albums[b])
              && a'.nombre == (if nombre != "" then nombre else a.nombre)
              && a'.editorial == (if editorial != "" then editorial else a.editorial)
              && a'.figuras == (if figuras.Some? then figuras.value else a.figuras)
              && a'.imagen == a.imagen && a'.tipos == a.tipos
              && d.figures == db.figures && d.users == db.users && d.nextId == db.nextId
  {
  }

  /** Updating with nothing given leaves the store as it was, or is refused
   *  when the stored album already fails the schema. */
  lemma UpdateNothing(db: Db, id: Id)
    requires id in db.albums
    ensures Update(db, id, "", "", None) == if AlbumValid(db.albums[id]) then Ok((db, ())) else Err(Validation)
  {
    assert db.albums[id := db.albums[id]] == db.albums;
  }

  lemma UpdateKeepsValid(db: Db, id: Id, nombre: string, editorial: string, figuras: Option<seq<Id>>)
    requires DbValid(db) && Update(db, id, nombre, editorial, figuras).Ok?
    ensures DbValid(Update(db, id, nombre, editorial, figuras).value.0)
  {
  }

  // ---------------------------------------------------------------------
  // DELETE /albumes/del/:id

  /** `DELETE /albumes/del/:id`: `findByIdAndDelete`, whose result is not
   *  looked at, so an absent id also succeeds. */
  function Delete(db: Db, id: Id): (r: Result<(Db, ())>)
  {
    Ok((db.(albums := db.albums - {id}), ()))
  }

  /** Only that album goes: figures (whose album names may now name no
   *  album) and users' album lists and inventories stay as they were;
   *  deleting twice is deleting once. */
  lemma DeleteOutcome(db: Db, id: Id)
    ensures Delete(db, id).Ok?
    ensures var d := Delete(db, id).value.0;
            && id !in d.albums && d.albums.Keys == db.albums.Keys - {id}
            && (forall a :: a in d.albums ==> d.albums[a] == db.albums[a])
            && d.figures == db.figures && d.users == db.users && d.nextId == db.nextId
            && Delete(d, id) == Ok((d, ()))
  {
    var d := Delete(db, id).value.0;
    assert d.albums - {id} == d.albums;
  }

  /** Deleting an album right after creating it gives back the store's
   *  albums as they were. */
  lemma DeleteAfterAdd(db: Db, nombre: string, editorial: string, imagen: string, figuras: seq<Id>)
    requires DbValid(db) && Add(db, nombre, editorial, imagen, figuras).Ok?
    ensures var (d, id) := Add(db, nombre, editorial, imagen, figuras).value;
            Delete(d, id).value.0 == db.(nextId := d.nextId)
  {
    var (d, id) := Add(db, nombre, editorial, imagen, figuras).value;
    assert id !in db.albums;
    assert d.albums - {id} == db.albums;
  }

  lemma DeleteKeepsValid(db: Db, id: Id)
    requires DbValid(db)
    ensures DbValid(Delete(db, id).value.0)
  {
  }
}
