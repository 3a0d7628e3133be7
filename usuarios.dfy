/** The inventory routes of routes/usuarios.js: the clamped adjustment of
 *  one count, the adoption of an album, the listing of a user's figures by
 *  album name, and the creation of a user. */
module Usuarios {
  import opened Schema
  import opened Inventory

  /** `Math.max(0, x)`. */
  function Clamp(x: int): (r: nat) {
    if x < 0 then 0 else x
  }

  // ---------------------------------------------------------------------
  // POST /update-figura

  /** `POST /update-figura`: the first entry for the figure gets count
   *  `max(0, count + delta)`; the reply carries that new count. The handler
   *  dereferences the user without a check, so a missing user throws. */
  function UpdateFigura(db: Db, uid: Id, figuraId: Id, delta: int): (r: Result<(Db, int)>)
  {
    if uid !in db.users then Err(Internal)
    else
      var u := db.users[uid];
      match FindEntry(u.figurasUsuario, figuraId)
      case None => Err(NotFound)
      case Some(k) =>
        var c := Clamp(u.figurasUsuario[k].count + delta);
        SaveUser(db, uid, u.(figurasUsuario := SetCount(u.figurasUsuario, k, c)), c)
  }

  /** On a valid store: an unknown user is a server error; no entry for the figure gives not-found; otherwise
   *  only the first matching entry changes, to a count that is never
   *  negative and equals count + delta whenever that is not negative, and
   *  the reply is the new count. */
  lemma UpdateFiguraOutcome(db: Db, uid: Id, figuraId: Id, delta: int)
    requires DbValid(db)
    ensures uid !in db.users ==> UpdateFigura(db, uid, figuraId, delta) == Err(Internal)
    ensures uid in db.users ==>
            var u := db.users[uid];
            var inv := u.figurasUsuario;
            match FindEntry(inv, figuraId)
            case None => UpdateFigura(db, uid, figuraId, delta) == Err(NotFound)
            case Some(k) =>
              UpdateFigura(db, uid, figuraId, delta).Ok?
              && var (d, c) := UpdateFigura(db, uid, figuraId, delta).value;
                 var inv' := d.users[uid].figurasUsuario;
                 && c >= 0
                 && (inv[k].count + delta >= 0 ==> c == inv[k].count + delta)
                 && (inv[k].count + delta < 0 ==> c == 0)
                 && |inv'| == |inv| && inv'[k] == inv[k].(count := c)
                 && (forall j :: 0 <= j < |inv| && j != k ==> inv'[j] == inv[j])
                 && d.users[uid] == u.(figurasUsuario := inv')
                 && d == db.(users := db.users[uid := d.users[uid]])
  {
    if uid in db.users {
      var u := db.users[uid];
      var r := FindEntry(u.figurasUsuario, figuraId);
      if r.Some? {
        var k := r.value;
        var c := Clamp(u.figurasUsuario[k].count + delta);
        var inv' := SetCount(u.figurasUsuario, k, c);
        forall e | e in inv' ensures EntryValid(e) {
          var j :| 0 <= j < |inv'| && inv'[j] == e;
          if j != k { assert u.figurasUsuario[j] in u.figurasUsuario; }
        }
      }
    }
  }

  lemma UpdateFiguraKeepsValid(db: Db, uid: Id, figuraId: Id, delta: int)
    requires DbValid(db) && UpdateFigura(db, uid, figuraId, delta).Ok?
    ensures DbValid(UpdateFigura(db, uid, figuraId, delta).value.0)
  {
  }

  // ---------------------------------------------------------------------
  // POST /add-album

  /** `POST /add-album`: `$addToSet` of the album id and `$push` of one
   *  zero-count entry per id in `album.figuras`, without looking at the
   *  entries the user already has. `findByIdAndUpdate` on a missing user
   *  matches nothing and the reply is still a success. */
  function AdoptAlbum(db: Db, uid: Id, albumId: Id): (r: Result<(Db, ())>)
  {
    if albumId !in db.albums then Err(NotFound)
    else if uid !in db.users then Ok((db, ()))
    else
      var u := db.users[uid];
      var album := db.albums[albumId];
      var u' := u.(albumesUsuario := AddToSet(u.albumesUsuario, albumId),
                   figurasUsuario := u.figurasUsuario + ZeroEntries(album.figuras));
      Ok((db.(users := db.users[uid := u']), ()))
  }

  /** An unknown album changes nothing; otherwise the album id joins the
   *  user's albums as a set, one count-0 entry per album figure is appended
   *  in the album's order, and nothing else changes. */
  lemma AdoptAlbumOutcome(db: Db, uid: Id, albumId: Id)
    ensures albumId !in db.albums ==> AdoptAlbum(db, uid, albumId) == Err(NotFound)
    ensures albumId in db.albums && uid !in db.users ==> AdoptAlbum(db, uid, albumId) == Ok((db, ()))
    ensures albumId in db.albums && uid in db.users ==>
              AdoptAlbum(db, uid, albumId).Ok?
              && var d := AdoptAlbum(db, uid, albumId).value.0;
                 var u, u' := db.users[uid], d.users[uid];
                 var ids := db.albums[albumId].figuras;
                 && (forall a :: a in u'.albumesUsuario <==> a in u.albumesUsuario || a == albumId)
                 && (albumId in u.albumesUsuario ==> u'.albumesUsuario == u.albumesUsuario)
                 && |u'.figurasUsuario| == |u.figurasUsuario| + |ids|
                 && u'.figurasUsuario[..|u.figurasUsuario|] == u.figurasUsuario
                 && (forall i :: 0 <= i < |ids| ==>
                       u'.figurasUsuario[|u.figurasUsuario| + i] == Entry(ids[i], None, 0))
                 && u' == u.(albumesUsuario := u'.albumesUsuario, figurasUsuario := u'.figurasUsuario)
                 && d == db.(users := db.users[uid := u'])
  {
  }

  /** Adopting the same album twice leaves the album list as after the
   *  first time but appends the album's entries a second time: the route
   *  does not deduplicate inventory entries. */
  lemma AdoptAlbumTwice(db: Db, uid: Id, albumId: Id)
    requires albumId in db.albums && uid in db.users
    ensures var d1 := AdoptAlbum(db, uid, albumId).value.0;
            AdoptAlbum(d1, uid, albumId).Ok?
            && var d2 := AdoptAlbum(d1, uid, albumId).value.0;
               && d2.users[uid].albumesUsuario == d1.users[uid].albumesUsuario
               && d2.users[uid].figurasUsuario
                  == d1.users[uid].figurasUsuario + ZeroEntries(db.albums[albumId].figuras)
               && (db.albums[albumId].figuras != [] ==> d2 != d1)
  {
    var d1 := AdoptAlbum(db, uid, albumId).value.0;
    var d2 := AdoptAlbum(d1, uid, albumId).value.0;
    assert albumId in d1.users[uid].albumesUsuario;
    if db.albums[albumId].figuras != [] {
      assert |d2.users[uid].figurasUsuario| > |d1.users[uid].figurasUsuario|;
    }
  }

  lemma AdoptAlbumKeepsValid(db: Db, uid: Id, albumId: Id)
    requires DbValid(db) && AdoptAlbum(db, uid, albumId).Ok?
    ensures DbValid(AdoptAlbum(db, uid, albumId).value.0)
  {
    if uid in db.users {
      var u := db.users[uid];
      var z := ZeroEntries(db.albums[albumId].figuras);
      var u' := u.(albumesUsuario := AddToSet(u.albumesUsuario, albumId), figurasUsuario := u.figurasUsuario + z);
      forall e | e in u.figurasUsuario + z ensures EntryValid(e) {
        if e !in u.figurasUsuario {
          var i :| 0 <= i < |z| && z[i] == e;
        }
      }
      ReplaceUserKeepsValid(db, uid, u', db.nextId);
      assert db.(users := db.users[uid := u'], nextId := db.nextId) == AdoptAlbum(db, uid, albumId).value.0;
    }
  }

  // ---------------------------------------------------------------------
  // POST /albumes and POST /albumesIds

  /** An album as `populate` with `select: "id nombre editorial imagen"`
   *  returns it. */
  datatype AlbumSummary = AlbumSummary(id: Id, nombre: string, editorial: string, imagen: string)

  function Summary(id: Id, a: Album): (r: AlbumSummary) {
    AlbumSummary(id, a.nombre, a.editorial, a.imagen)
  }

  /** `populate("albumesUsuario")`: each id replaced by its album, in the
   *  user's order; an id naming no album is dropped. */
  function Populate(albums: map<Id, Album>, ids: seq<Id>): (r: seq<AlbumSummary>)
    ensures |r| <= |ids|
  {
    if ids == [] then []
    else if ids[0] in albums then [Summary(ids[0], albums[ids[0]])] + Populate(albums, ids[1..])
    else Populate(albums, ids[1..])
  }

  /** Each listed summary is that of an album the user's ids name; every
   *  such album is listed; and with no dangling id nothing is dropped. */
  lemma {:induction false} PopulateMembers(albums: map<Id, Album>, ids: seq<Id>)
    ensures forall s :: s in Populate(albums, ids) ==> s.id in ids && s.id in albums && s == Summary(s.id, albums[s.id])
    ensures forall id :: id in ids && id in albums ==> Summary(id, albums[id]) in Populate(albums, ids)
    ensures (forall id :: id in ids ==> id in albums) ==> |Populate(albums, ids)| == |ids|
  {
    if ids != [] {
      PopulateMembers(albums, ids[1..]);
      assert forall id :: id in ids ==> id == ids[0] || id in ids[1..];
      assert forall id :: id in ids[1..] ==> id in ids;
    }
  }

  /** The listing of two id lists joined is the two listings joined: the
   *  user's order is kept. */
  lemma {:induction false} PopulateAppend(albums: map<Id, Album>, a: seq<Id>, b: seq<Id>)
    ensures Populate(albums, a + b) == Populate(albums, a) + Populate(albums, b)
  {
    if a != [] {
      assert (a + b)[1..] == a[1..] + b;
      PopulateAppend(albums, a[1..], b);
    } else {
      assert a + b == b;
    }
  }

  /** `POST /albumesIds`: the user's album ids as stored. */
  function ListAlbumesIds(db: Db, userId: Option<Id>): (r: Result<seq<Id>>)
  {
    if userId.None? then Err(Validation)
    else if userId.value !in db.users then Err(NotFound)
    else Ok(db.users[userId.value].albumesUsuario)
  }

  /** `POST /albumes`: the user's albums, populated. */
  function ListAlbumes(db: Db, userId: Option<Id>): (r: Result<seq<AlbumSummary>>)
  {
    if userId.None? then Err(Validation)
    else if userId.value !in db.users then Err(NotFound)
    else Ok(Populate(db.albums, db.users[userId.value].albumesUsuario))
  }

  /** A missing user id is a validation error and an unknown user not
   *  found, for both routes alike; otherwise the populated listing holds,
   *  in order, the albums of the id listing that still exist. */
  lemma ListAlbumesSpec(db: Db, userId: Option<Id>)
    ensures userId.None? ==> ListAlbumes(db, userId) == Err(Validation) && ListAlbumesIds(db, userId) == Err(Validation)
    ensures userId.Some? && userId.value !in db.users ==>
              ListAlbumes(db, userId) == Err(NotFound) && ListAlbumesIds(db, userId) == Err(NotFound)
    ensures ListAlbumes(db, userId).Ok? <==> ListAlbumesIds(db, userId).Ok?
    ensures ListAlbumes(db, userId).Ok? ==>
              ListAlbumes(db, userId).value == Populate(db.albums, ListAlbumesIds(db, userId).value)
  {
  }

  /** After a user adopts an album, both listings show it: its id is listed
   *  once, at the end if it is new, and its summary is listed. */
  lemma {:induction false} AdoptThenListed(db: Db, uid: Id, albumId: Id)
    requires albumId in db.albums && uid in db.users
    ensures var d := AdoptAlbum(db, uid, albumId).value.0;
            var before := db.users[uid].albumesUsuario;
            && ListAlbumesIds(d, Some(uid)) == Ok(AddToSet(before, albumId))
            && ListAlbumes(d, Some(uid)) == Ok(if albumId in before then Populate(db.albums, before)
                                               else Populate(db.albums, before) + [Summary(albumId, db.albums[albumId])])
            && Summary(albumId, db.albums[albumId]) in ListAlbumes(d, Some(uid)).value
  {
    var before := db.users[uid].albumesUsuario;
    PopulateMembers(db.albums, AddToSet(before, albumId));
    if albumId !in before {
      PopulateAppend(db.albums, before, [albumId]);
      assert [albumId][1..] == [];
      assert Populate(db.albums, [albumId]) == [Summary(albumId, db.albums[albumId])];
    }
  }

  // ---------------------------------------------------------------------
  // GET /figuras?albumId=

  /** One answer row: the populated figure and the count held. */
  datatype Holding = Holding(figuraId: Id, figura: Figure, count: int)

  /** The answer rows, in inventory order, for the entries whose figure
   *  carries album name `nombre`. */
  function Holdings(inv: seq<Entry>, figures: map<Id, Figure>, nombre: string): (r: seq<Holding>)
    requires forall e :: e in inv ==> e.figura in figures
    ensures |r| <= |inv|
    decreases |inv|
  {
    if inv == [] then []
    else
      assert inv[0] in inv && forall e :: e in inv[1..] ==> e in inv;
      var f := inv[0].figura;
      (if figures[f].album == nombre then [Holding(f, figures[f], inv[0].count)] else [])
      + Holdings(inv[1..], figures, nombre)
  }

  /** The rows of a concatenation are the rows of its parts, in order:
   *  the listing keeps inventory order. */
  lemma {:induction false} HoldingsAppend(a: seq<Entry>, b: seq<Entry>, figures: map<Id, Figure>, nombre: string)
    requires forall e :: e in a + b ==> e.figura in figures
    ensures forall e :: e in a ==> e.figura in figures
    ensures forall e :: e in b ==> e.figura in figures
    ensures Holdings(a + b, figures, nombre) == Holdings(a, figures, nombre) + Holdings(b, figures, nombre)
    decreases |a|
  {
    assert forall e :: e in a ==> e in a + b;
    assert forall e :: e in b ==> e in a + b;
    if a != [] {
      assert (a + b)[0] == a[0] && (a + b)[1..] == a[1..] + b;
      HoldingsAppend(a[1..], b, figures, nombre);
    } else {
      assert a + b == b;
    }
  }

  /** A single entry gives exactly one row when its figure carries the
   *  album's name and none otherwise; with `HoldingsAppend` this fixes the
   *  listing as one row per matching entry, in inventory order. */
  lemma HoldingsSingle(e: Entry, figures: map<Id, Figure>, nombre: string)
    requires e.figura in figures
    ensures Holdings([e], figures, nombre) ==
              if figures[e.figura].album == nombre then [Holding(e.figura, figures[e.figura], e.count)] else []
  {
    assert [e][0] == e && [e][1..] == [];
  }

  /** A row is listed exactly for the entries whose figure's album name is
   *  `nombre`, with that entry's figure and count. */
  lemma {:induction false} HoldingsMembers(inv: seq<Entry>, figures: map<Id, Figure>, nombre: string)
    requires forall e :: e in inv ==> e.figura in figures
    ensures forall h :: h in Holdings(inv, figures, nombre) <==>
              exists e :: e in inv && figures[e.figura].album == nombre
                          && h == Holding(e.figura, figures[e.figura], e.count)
    decreases |inv|
  {
    if inv != [] {
      assert forall e :: e in inv[1..] ==> e in inv;
      HoldingsMembers(inv[1..], figures, nombre);
      assert inv == [inv[0]] + inv[1..];
      assert forall e :: e in inv <==> e == inv[0] || e in inv[1..];
    }
  }

  /** `GET /figuras?albumId=` for user `uid`: the album is looked up first
   *  to learn its name; an entry whose figure is gone populates as null and
   *  the filter then throws. */
  function FigurasOfAlbum(db: Db, uid: Id, albumId: Id): (r: Result<seq<Holding>>)
  {
    if albumId !in db.albums then Err(NotFound)
    else if uid !in db.users then Err(Internal)
    else
      var inv := db.users[uid].figurasUsuario;
      if !(forall e :: e in inv ==> e.figura in db.figures) then Err(Internal)
      else Ok(Holdings(inv, db.figures, db.albums[albumId].nombre))
  }

  /** An unknown album is not found; a missing user or a held figure that
   *  is gone makes the handler throw; otherwise the answer is the listing
   *  of the user's inventory, whose rows are those of the entries whose
   *  figure's album NAME equals the album's nombre (one row per such entry,
   *  in inventory order, by `HoldingsAppend` and `HoldingsSingle`). */
  lemma FigurasOfAlbumSpec(db: Db, uid: Id, albumId: Id)
    ensures albumId !in db.albums ==> FigurasOfAlbum(db, uid, albumId) == Err(NotFound)
    ensures albumId in db.albums && uid !in db.users ==> FigurasOfAlbum(db, uid, albumId) == Err(Internal)
    ensures albumId in db.albums && uid in db.users ==>
              (FigurasOfAlbum(db, uid, albumId).Ok? <==>
                 forall e :: e in db.users[uid].figurasUsuario ==> e.figura in db.figures)
    ensures FigurasOfAlbum(db, uid, albumId).Err? ==> FigurasOfAlbum(db, uid, albumId).error in {NotFound, Internal}
    ensures FigurasOfAlbum(db, uid, albumId).Ok? ==>
              var inv := db.users[uid].figurasUsuario;
              var nombre := db.albums[albumId].nombre;
              && (forall e :: e in inv ==> e.figura in db.figures)
              && FigurasOfAlbum(db, uid, albumId).value == Holdings(inv, db.figures, nombre)
              && forall h :: h in FigurasOfAlbum(db, uid, albumId).value <==>
                   exists e :: e in inv && FigureAlbum(db, e) == nombre
                               && h == Holding(e.figura, db.figures[e.figura], e.count)
  {
    if FigurasOfAlbum(db, uid, albumId).Ok? {
      HoldingsMembers(db.users[uid].figurasUsuario, db.figures, db.albums[albumId].nombre);
    }
  }

  /** The album name a held figure carries (its figure must exist). */
  function FigureAlbum(db: Db, e: Entry): (r: string)
    requires e.figura in db.figures
  {
    db.figures[e.figura].album
  }

  // ---------------------------------------------------------------------
  // POST /add

  predicate NombreTaken(users: map<Id, User>, nombre: string) {
    exists v :: v in users && users[v].nombre == nombre
  }

  /** `POST /add`: a new user with role admin and nothing held. The save
   *  trims `nombre` and rejects a name shorter than 3, a taken name or a
   *  credential shorter than 6, lengths counted in UTF-16 code units. */
  function Add(db: Db, nombre: string, contra: string): (r: Result<(Db, Id)>)
  {
    var n := Trim(nombre);
    if Utf16Length(n) < 3 || Utf16Length(contra) < 6 || NombreTaken(db.users, n) then Err(Validation)
    else
      var id := db.nextId;
      Ok((db.(users := db.users[id := User(n, contra, [], [], [], [], Admin)], nextId := id + 1), id))
  }

  /** The user is created exactly when the trimmed name is 3 or more code
   *  units long and is free and the credential is 6 or more; the new user
   *  is an admin with no albums, no inventory, no sets and no orders, and
   *  no other user changes. */
  lemma AddOutcome(db: Db, nombre: string, contra: string)
    requires DbValid(db)
    ensures Add(db, nombre, contra).Ok? <==>
              Utf16Length(Trim(nombre)) >= 3 && Utf16Length(contra) >= 6 && forall v :: v in db.users ==> db.users[v].nombre != Trim(nombre)
    ensures Add(db, nombre, contra).Err? ==> Add(db, nombre, contra).error == Validation
    ensures Add(db, nombre, contra).Ok? ==>
              var (d, id) := Add(db, nombre, contra).value;
              && id !in db.users && d.users.Keys == db.users.Keys + {id}
              && (forall v :: v in db.users ==> d.users[v] == db.users[v])
              && d.users[id].nombre == Trim(nombre) && d.users[id].rol == Admin
              && d.users[id].figurasUsuario == [] && d.users[id].orders == []
              && d.users[id].albumesUsuario == [] && d.users[id].setsUsuario == []
              && d.albums == db.albums && d.figures == db.figures
  {
  }

  /** Lengths are measured as JavaScript measures them, after trimming: an
   *  emoji and one letter make a three-unit name, while a leading vertical
   *  tab is stripped and leaves a two-letter name. */
  lemma AddMeasuresCodeUnits()
    ensures Add(Db(map[], map[], map[], 0), "\U{1F600}a", "secreto").Ok?
    ensures Add(Db(map[], map[], map[], 0), "\U{000B}ab", "secreto") == Err(Validation)
  {
    assert Trim("\U{1F600}a") == "\U{1F600}a";
    assert Utf16Length("\U{1F600}a") == 3;
    assert TrimStart("\U{000B}ab") == "ab";
    assert Trim("\U{000B}ab") == "ab";
  }

  lemma AddKeepsValid(db: Db, nombre: string, contra: string)
    requires DbValid(db) && Add(db, nombre, contra).Ok?
    ensures DbValid(Add(db, nombre, contra).value.0)
  {
  }
}
