/** The documents of the collection store (albums, figures, users with their
 *  embedded inventory entries, set entries and orders), the constraints their
 *  schemas declare, and the store itself as one value. */
module Schema {

  /** Document identifiers (MongoDB ObjectIds). */
  type Id = nat

  datatype Option<T> = None | Some(value: T)

  /** What a handler reports instead of success. */
  datatype Error =
    | Validation                    // missing or malformed input, or a save the schema rejects with 400
    | NotFound                      // a referenced album, figure, user or order is absent (404)
    | UnknownFigure(figura: Id)     // an order item names a figure that does not exist (400)
    | InsufficientStock(figura: Id) // the user does not hold enough of that figure (400)
    | InvalidState                  // an order transition out of a non-pending state (400)
    | Internal                      // the handler throws, or a save is rejected with 500

  datatype Result<T> = Ok(value: T) | Err(error: Error)

  /** The six values the `tipo` enum of figures and set entries admits. */
  const Tipos: set<string> := {"normal", "dorado_normal", "dorado_escarchado", "lenticular", "troquelada", "premio"}

  datatype Status = Pending | Delivered | Cancelled

  datatype Rol = Usuario | Admin

  /** One entry of `figurasUsuario`: how many of a figure the user holds.
   *  The optional `tipo` tag is declared but no handler writes it. */
  datatype Entry = Entry(figura: Id, tipo: Option<string>, count: int)

  /** One entry of `setsUsuario` (declared, never written by a handler). */
  datatype SetEntry = SetEntry(album: Id, tipo: string, count: int)

  datatype OrderItem = OrderItem(figura: Id, quantity: int)

  datatype Order = Order(id: Id, album: Id, customer: string, items: seq<OrderItem>,
                         total: int, status: Status, createdAt: nat)

  datatype User = User(nombre: string, contra: string, albumesUsuario: seq<Id>,
                       figurasUsuario: seq<Entry>, setsUsuario: seq<SetEntry>,
                       orders: seq<Order>, rol: Rol)

  /** An album. The album schema declares no type catalog, yet the figure
   *  route reads `album.tipos[].key`; `tipos` holds those keys. */
  datatype Album = Album(nombre: string, editorial: string, imagen: string,
                         tipos: set<string>, figuras: seq<Id>)

  /** A figure; `album` is the album's NAME, not its id. */
  datatype Figure = Figure(album: string, code: string, tipo: string)

  /** The three collections; `nextId` stands for the ObjectId generator:
   *  every id handed out so far is below it. */
  datatype Db = Db(albums: map<Id, Album>, figures: map<Id, Figure>,
                   users: map<Id, User>, nextId: nat)

  // ---------------------------------------------------------------------
  // Trimming (the `trim: true` setter on nombre and customer)

  /** What `String.prototype.trim` strips: the ECMAScript WhiteSpace and
   *  LineTerminator code points (section 12.2 and 12.3 of ECMA-262). */
  predicate IsSpace(c: char) {
    || c == '\U{0009}' || c == '\U{000A}' || c == '\U{000B}' || c == '\U{000C}'
    || c == '\U{000D}' || c == '\U{0020}' || c == '\U{00A0}' || c == '\U{1680}'
    || ('\U{2000}' <= c <= '\U{200A}')
    || c == '\U{2028}' || c == '\U{2029}' || c == '\U{202F}' || c == '\U{205F}'
    || c == '\U{3000}' || c == '\U{FEFF}'
  }

  function TrimStart(s: string): (r: string)
  {
    if s != [] && IsSpace(s[0]) then TrimStart(s[1..]) else s
  }

  function TrimEnd(s: string): (r: string)
  {
    if s != [] && IsSpace(s[|s| - 1]) then TrimEnd(s[..|s| - 1]) else s
  }

  /** Dropping leading white space leaves a suffix that is empty or starts
   *  with a non-space, and everything dropped was white space. */
  lemma {:induction false} TrimStartSpec(s: string)
    ensures |TrimStart(s)| <= |s| && TrimStart(s) == s[|s| - |TrimStart(s)|..]
    ensures TrimStart(s) == [] || !IsSpace(TrimStart(s)[0])
    ensures forall i :: 0 <= i < |s| - |TrimStart(s)| ==> IsSpace(s[i])
  {
    if s != [] && IsSpace(s[0]) {
      TrimStartSpec(s[1..]);
      forall i | 0 <= i < |s| - |TrimStart(s)| ensures IsSpace(s[i]) {
        if i > 0 { assert s[i] == s[1..][i - 1]; }
      }
    }
  }

  /** Dropping trailing white space leaves a prefix that is empty or ends
   *  with a non-space, and everything dropped was white space. */
  lemma {:induction false} TrimEndSpec(s: string)
    ensures |TrimEnd(s)| <= |s| && TrimEnd(s) == s[..|TrimEnd(s)|]
    ensures TrimEnd(s) == [] || !IsSpace(TrimEnd(s)[|TrimEnd(s)| - 1])
    ensures forall i :: |TrimEnd(s)| <= i < |s| ==> IsSpace(s[i])
  {
    if s != [] && IsSpace(s[|s| - 1]) {
      var p := s[..|s| - 1];
      TrimEndSpec(p);
      forall i | |TrimEnd(s)| <= i < |s| ensures IsSpace(s[i]) {
        if i < |s| - 1 { assert s[i] == p[i]; }
      }
      assert TrimEnd(s) == p[..|TrimEnd(p)|] == s[..|TrimEnd(s)|];
    }
  }

  /** `s` without its leading and trailing white space. */
  function Trim(s: string): (r: string)
  {
    TrimEnd(TrimStart(s))
  }

  /** Trimming leaves nothing exactly when every character is white space;
   *  a trimmed string neither starts nor ends with white space; and it is
   *  the contiguous slice of `s` starting after the leading white space,
   *  everything outside that slice being white space. */
  lemma TrimSpec(s: string)
    ensures Trim(s) == [] <==> forall i :: 0 <= i < |s| ==> IsSpace(s[i])
    ensures Trim(s) != [] ==> !IsSpace(Trim(s)[0]) && !IsSpace(Trim(s)[|Trim(s)| - 1])
    ensures |Trim(s)| <= |s|
    ensures var i := |s| - |TrimStart(s)|;
            && 0 <= i && i + |Trim(s)| <= |s|
            && Trim(s) == s[i..i + |Trim(s)|]
            && forall k :: 0 <= k < |s| && !(i <= k < i + |Trim(s)|) ==> IsSpace(s[k])
  {
    var t := TrimStart(s);
    TrimStartSpec(s);
    TrimEndSpec(t);
    var i := |s| - |t|;
    assert Trim(s) == t[..|Trim(s)|] == s[i..i + |Trim(s)|];
    forall k | 0 <= k < |s| && !(i <= k < i + |Trim(s)|) ensures IsSpace(s[k]) {
      if k >= i { assert s[k] == t[k - i]; }
    }
    if Trim(s) != [] {
      assert TrimEnd(t)[0] == t[0];
    }
  }

  // ---------------------------------------------------------------------
  // String length as JavaScript measures it

  /** `s.length` in JavaScript, which `minlength` compares: the number of
   *  UTF-16 code units, two for a character outside the Basic Multilingual
   *  Plane. */
  function Utf16Length(s: string): (r: nat)
  {
    if s == [] then 0 else (if s[0] >= '\U{10000}' then 2 else 1) + Utf16Length(s[1..])
  }

  /** Every character takes one or two code units. */
  lemma {:induction false} Utf16LengthBounds(s: string)
    ensures |s| <= Utf16Length(s) <= 2 * |s|
  {
    if s != [] {
      Utf16LengthBounds(s[1..]);
    }
  }

  /** The JavaScript length is the number of characters exactly when no
   *  character lies outside the Basic Multilingual Plane. */
  lemma {:induction false} Utf16LengthBmp(s: string)
    ensures Utf16Length(s) == |s| <==> forall i :: 0 <= i < |s| ==> s[i] < '\U{10000}'
  {
    if s != [] {
      Utf16LengthBmp(s[1..]);
      Utf16LengthBounds(s[1..]);
      if s[0] < '\U{10000}' && Utf16Length(s) == |s| {
        forall i | 0 <= i < |s| ensures s[i] < '\U{10000}' {
          if i > 0 { assert s[i] == s[1..][i - 1]; }
        }
      }
      if forall i :: 0 <= i < |s| ==> s[i] < '\U{10000}' {
        assert s[0] < '\U{10000}';
        assert forall i :: 0 <= i < |s[1..]| ==> s[1..][i] == s[i + 1];
      }
    }
  }

  // ---------------------------------------------------------------------
  // Schema constraints (min, minlength, required, enum)

  /** A new inventory entry: count defaults to 0 and no tag. */
  function NewEntry(f: Id): (e: Entry)
    ensures e.figura == f && e.count == 0 && EntryValid(e)
  {
    Entry(f, None, 0)
  }

  /** A new set entry: count defaults to 0; the schema admits it exactly
   *  when its type is one of the six. */
  function NewSetEntry(album: Id, tipo: string): (s: SetEntry)
    ensures s.album == album && s.tipo == tipo && s.count == 0
    ensures SetEntryValid(s) <==> tipo in Tipos
  {
    SetEntry(album, tipo, 0)
  }

  predicate EntryValid(e: Entry) {
    e.count >= 0
  }

  predicate SetEntryValid(s: SetEntry) {
    s.tipo in Tipos && s.count >= 0
  }

  predicate ItemValid(it: OrderItem) {
    it.quantity >= 1
  }

  predicate OrderValid(o: Order) {
    && o.customer != ""
    && o.total >= 0
    && forall it :: it in o.items ==> ItemValid(it)
  }

  /** What the user schema's validators check when a user is saved; the
   *  `minlength` bounds count UTF-16 code units. */
  predicate UserValid(u: User) {
    && Utf16Length(u.nombre) >= 3
    && Utf16Length(u.contra) >= 6
    && (forall e :: e in u.figurasUsuario ==> EntryValid(e))
    && (forall s :: s in u.setsUsuario ==> SetEntryValid(s))
    && (forall o :: o in u.orders ==> OrderValid(o))
  }

  predicate AlbumValid(a: Album) {
    a.nombre != "" && a.editorial != "" && a.imagen != ""
  }

  predicate FigureValid(f: Figure) {
    f.album != "" && f.code != "" && f.tipo in Tipos
  }

  /** The unique index on `nombre`. */
  ghost predicate NombresUnique(users: map<Id, User>) {
    forall a, b :: a in users && b in users && a != b ==> users[a].nombre != users[b].nombre
  }

  /** Every document in the store satisfies its schema, the user names are
   *  unique, and every id in use was handed out before `nextId`. */
  ghost predicate DbValid(db: Db) {
    && (forall a :: a in db.albums ==> a < db.nextId && AlbumValid(db.albums[a]))
    && (forall f :: f in db.figures ==> f < db.nextId && FigureValid(db.figures[f]))
    && (forall u :: u in db.users ==> u < db.nextId && UserValid(db.users[u]))
    && (forall u, o :: u in db.users && o in db.users[u].orders ==> o.id < db.nextId)
    && NombresUnique(db.users)
  }

  /** Saving one user document over another with the same name, when the
   *  new document is valid and its orders carry ids handed out before `n`,
   *  and advancing the generator to `n`, keeps the store valid. */
  lemma ReplaceUserKeepsValid(db: Db, uid: Id, u: User, n: nat)
    requires DbValid(db) && uid in db.users && db.nextId <= n
    requires UserValid(u) && u.nombre == db.users[uid].nombre
    requires forall o :: o in u.orders ==> o.id < n
    ensures DbValid(db.(users := db.users[uid := u], nextId := n))
  {
    var users := db.users[uid := u];
    forall a, b | a in users && b in users && a != b ensures users[a].nombre != users[b].nombre {
      assert users[a].nombre == db.users[a].nombre && users[b].nombre == db.users[b].nombre;
    }
  }

  /** An inventory holding a negative count is not a valid user. */
  lemma NegativeCountInvalid(u: User, i: nat)
    requires i < |u.figurasUsuario| && u.figurasUsuario[i].count < 0
    ensures !UserValid(u)
  {
    assert u.figurasUsuario[i] in u.figurasUsuario;
  }

  /** `usuario.save()`: the validators run on the whole document; a
   *  rejected save stores nothing. */
  function SaveUser<T>(db: Db, uid: Id, u: User, out: T): (r: Result<(Db, T)>)
  {
    if UserValid(u) then Ok((db.(users := db.users[uid := u]), out)) else Err(Internal)
  }
}
