/**
 * The API's request handling for accounts, designs, guests and RSVP responses:
 * field extraction from a JSON body, validation, ownership checks, partial
 * updates and the storage of canvas documents. The database is four maps from
 * row id to record; a handler returns the database it leaves behind together
 * with its reply. Routing, sessions, tokens and timestamps are outside the model.
 */
module Backend {
  import opened Wrappers
  import Text

  /** A JSON value (numbers restricted to integers). */
  datatype Json = JNull | JBool(b: bool) | JNum(n: int) | JStr(s: string) | JArray(items: seq<Json>) | JObject(fields: map<string, Json>)

  /** Python's truth value of the decoded JSON value. */
  predicate Truthy(v: Json) {
    match v
    case JNull => false
    case JBool(b) => b
    case JNum(n) => n != 0
    case JStr(s) => s != []
    case JArray(items) => items != []
    case JObject(fields) => fields != map[]
  }

  /** A request body: the decoded JSON object, or none when the body is `null`. */
  type Body = map<string, Json>

  /** `data.get(key)`: the value at `key`, `None` when the key is absent. */
  function Get(data: Body, key: string): (v: Json)
    ensures key !in data ==> v == JNull
    ensures key in data ==> v == data[key]
  {
    if key in data then data[key] else JNull
  }

  /**
   * `(data.get(key) or '').strip()`: "" for an absent or falsy value, the stripped
   * string for a non-empty string, and none for any other truthy value (calling
   * `strip` on it raises, which the server answers with status 500).
   */
  function Stripped(data: Body, key: string): (r: Option<string>)
    ensures r.None? <==> Truthy(Get(data, key)) && !Get(data, key).JStr?
    ensures Get(data, key).JStr? ==> r == Some(Text.Trim(Text.Py, Get(data, key).s))
    ensures !Truthy(Get(data, key)) ==> r == Some("")
    ensures r.Some? ==> Text.Trim(Text.Py, r.value) == r.value
  {
    var v := Get(data, key);
    if !Truthy(v) then Some("")
    else if v.JStr? then
      Text.TrimIdempotent(Text.Py, v.s);
      Some(Text.Trim(Text.Py, v.s))
    else None
  }

  /** `... .strip() or None`: an empty result becomes no value. */
  function Optional(s: string): (r: Option<string>)
    ensures r.None? <==> s == []
    ensures r.Some? ==> r.value == s
  {
    if s == [] then None else Some(s)
  }

  // ---------------------------------------------------------------------------
  // Stored documents

  /** A document column: no value, an empty string, or the text `json.dumps` made of
      a value. */
  datatype Column = NullColumn | EmptyText | Dumped(value: Json)

  /** `dump_fabric`: `None` stays `None`; anything else is serialised. */
  function DumpFabric(v: Json): (c: Column)
    ensures c == NullColumn <==> v == JNull
    ensures c != EmptyText
  {
    if v == JNull then NullColumn else Dumped(v)
  }

  /** `load_fabric`: a missing or empty column reads as `None`; anything else is
      parsed. */
  function LoadFabric(c: Column): (v: Json)
    ensures c == NullColumn || c == EmptyText ==> v == JNull
    ensures c.Dumped? ==> v == c.value
  {
    match c
    case Dumped(value) => value
    case _ => JNull
  }

  /** Storing a document and reading it back gives the document. */
  lemma FabricRoundTrip(v: Json)
    ensures LoadFabric(DumpFabric(v)) == v
  {
  }

  // ---------------------------------------------------------------------------
  // The database

  datatype User = User(email: string, passwordHash: string)
  datatype Design = Design(userId: nat, templateId: int, title: Json, fabric: Column, rsvpFabric: Column)
  datatype Guest = Guest(designId: nat, name: string, contact: Option<string>, comment: Option<string>, confirmed: bool)
  datatype Rsvp = Rsvp(designId: nat, name: string, phone: string, message: Option<string>)

  datatype Db = Db(users: map<nat, User>, designs: map<nat, Design>, guests: map<nat, Guest>, responses: map<nat, Rsvp>)

  /** A finite set of naturals that is not empty has a largest element. */
  lemma {:induction false} HasLargest(s: set<nat>)
    requires s != {}
    ensures exists m :: m in s && forall y :: y in s ==> y <= m
    decreases |s|
  {
    var x :| x in s;
    if s != {x} {
      HasLargest(s - {x});
      var m :| m in s - {x} && forall y :: y in s - {x} ==> y <= m;
      var top := if x <= m then m else x;
      forall y | y in s
        ensures y <= top
      {
        if y != x {
          assert y in s - {x};
        }
      }
      assert top in s;
    }
  }

  /** The largest id in use, 0 when there is none. */
  function Largest(s: set<nat>): (m: nat)
    ensures forall y :: y in s ==> y <= m
    ensures s != {} ==> m in s
  {
    if s == {} then 0
    else
      HasLargest(s);
      var m :| m in s && forall y :: y in s ==> y <= m;
      m
  }

  /** The id SQLite gives a new row of a table without AUTOINCREMENT: one more than
      the largest id in use, so 1 for an empty table. */
  function NextId<T>(rows: map<nat, T>): (id: nat)
    ensures id > 0 && id !in rows
    ensures forall k :: k in rows ==> k < id
  {
    1 + Largest(rows.Keys)
  }

  // ---------------------------------------------------------------------------
  // Replies

  datatype Payload =
    | Error(message: string)
    | Crash
    | Done
    | Account(userId: nat, email: string)
    | DesignView(designId: nat, title: Json, templateId: int, fabric: Json, rsvpFabric: Json)
    | GuestView(guestId: nat, guest: Guest)
    | RsvpView(responseId: nat, response: Rsvp)

  datatype Reply = Reply(status: int, payload: Payload)

  /** A handler's outcome: the database after the request, and the reply. */
  datatype Handled = Handled(db: Db, reply: Reply)

  predicate Succeeded(h: Handled) { h.reply.status == 200 || h.reply.status == 201 }

  const ServerError := Reply(500, Crash)
  const NotFound := Reply(404, Error("Not found"))

  /** The design exists and belongs to the user; anything else reads as missing. */
  predicate Owns(db: Db, userId: nat, designId: nat) {
    designId in db.designs && db.designs[designId].userId == userId
  }

  // ---------------------------------------------------------------------------
  // Accounts

  /** No two accounts share an e-mail address. */
  predicate UniqueEmails(db: Db) {
    forall a, b :: a in db.users && b in db.users && db.users[a].email == db.users[b].email ==> a == b
  }

  predicate EmailTaken(db: Db, email: string) {
    exists id :: id in db.users && db.users[id].email == email
  }

  /** The e-mail as the account table keys it: stripped, then lower-cased. */
  function NormalEmail(raw: string): string {
    Text.Lower(Text.Trim(Text.Py, raw))
  }

  /**
   * `register`: the e-mail is stripped and lower-cased; an empty e-mail or password
   * is refused with 400, an e-mail already registered with 409; otherwise an
   * account is added under the next id, storing the password hash (which the
   * server derives with a random salt, and is a parameter here).
   */
  function Register(db: Db, data: Option<Body>, passwordHash: string): (h: Handled)
    ensures !Succeeded(h) ==> h.db == db
    ensures data.None? ==> h.reply == ServerError
    ensures data.Some? && Stripped(data.value, "email").None? ==> h.reply == ServerError
    ensures data.Some? && Stripped(data.value, "email").Some? ==>
              var email := Text.Lower(Stripped(data.value, "email").value);
              var password := Get(data.value, "password");
              && (email == [] || !Truthy(password) ==> h.reply == Reply(400, Error("Email & password required")))
              && (email != [] && Truthy(password) && EmailTaken(db, email) ==>
                    h.reply == Reply(409, Error("Email already registered")))
              && (email != [] && Truthy(password) && !EmailTaken(db, email) && !password.JStr? ==>
                    h.reply == ServerError)
              && (Succeeded(h) <==> email != [] && password.JStr? && Truthy(password) && !EmailTaken(db, email))
    ensures Succeeded(h) ==>
              && data.Some? && Get(data.value, "email").JStr? && Get(data.value, "password").JStr?
              && h.reply.status == 200
              && var id := NextId(db.users);
              var email := NormalEmail(Get(data.value, "email").s);
              && email != [] && !EmailTaken(db, email)
              && h.reply.payload == Account(id, email)
              && h.db == db.(users := db.users[id := User(email, passwordHash)])
  {
    if data.None? then Handled(db, ServerError)
    else
      var body := data.value;
      match Stripped(body, "email")
      case None => Handled(db, ServerError)
      case Some(stripped) =>
        var email := Text.Lower(stripped);
        var password := Get(body, "password");
        Text.LowerEmpty(stripped);
        if email == [] || !Truthy(password) then Handled(db, Reply(400, Error("Email & password required")))
        else if EmailTaken(db, email) then Handled(db, Reply(409, Error("Email already registered")))
        else if !password.JStr? then Handled(db, ServerError)
        else
          var id := NextId(db.users);
          Handled(db.(users := db.users[id := User(email, passwordHash)]), Reply(200, Account(id, email)))
  }

  /** Registration keeps e-mail addresses unique. */
  lemma RegisterKeepsEmailsUnique(db: Db, data: Option<Body>, passwordHash: string)
    requires UniqueEmails(db)
    ensures UniqueEmails(Register(db, data, passwordHash).db)
  {
  }

  /** Two addresses that, once stripped, differ only in the case of their ASCII
      letters normalise to the same address. */
  lemma SameAddressAnyCase(a: string, b: string)
    requires |Text.Trim(Text.Py, a)| == |Text.Trim(Text.Py, b)|
    requires forall k :: 0 <= k < |Text.Trim(Text.Py, a)| ==>
               Text.LowerChar(Text.Trim(Text.Py, a)[k]) == Text.LowerChar(Text.Trim(Text.Py, b)[k])
    ensures NormalEmail(a) == NormalEmail(b)
  {
    Text.LowerAgrees(Text.Trim(Text.Py, a), Text.Trim(Text.Py, b));
  }

  /** Registering a new address succeeds; registering the same address again is
      refused with 409, whatever the letter case or surrounding white space
      (`SameAddressAnyCase` says which spellings normalise alike). */
  lemma RegisterTwice(db: Db, first: Body, second: Body, hash1: string, hash2: string)
    requires Get(first, "email").JStr? && Get(first, "password").JStr? && Get(first, "password").s != []
    requires NormalEmail(Get(first, "email").s) != [] && !EmailTaken(db, NormalEmail(Get(first, "email").s))
    requires Get(second, "email").JStr? && Truthy(Get(second, "password"))
    requires NormalEmail(Get(second, "email").s) == NormalEmail(Get(first, "email").s)
    ensures Succeeded(Register(db, Some(first), hash1))
    ensures Register(Register(db, Some(first), hash1).db, Some(second), hash2).reply.status == 409
  {
    Text.LowerEmpty(Text.Trim(Text.Py, Get(first, "email").s));
    var h := Register(db, Some(first), hash1);
    var id := NextId(db.users);
    var email := NormalEmail(Get(first, "email").s);
    assert h.db.users[id].email == email;
    Text.LowerEmpty(Text.Trim(Text.Py, Get(second, "email").s));
  }

  // ---------------------------------------------------------------------------
  // Designs

  /** `get_design`: 404 unless the user owns the design; otherwise its fields with
      both documents parsed. Nothing is written. */
  function GetDesign(db: Db, userId: nat, designId: nat): (h: Handled)
    ensures h.db == db
    ensures !Owns(db, userId, designId) <==> h.reply == NotFound
    ensures Owns(db, userId, designId) ==> var d := db.designs[designId];
              h.reply == Reply(200, DesignView(designId, d.title, d.templateId, LoadFabric(d.fabric), LoadFabric(d.rsvpFabric)))
  {
    if !Owns(db, userId, designId) then Handled(db, NotFound)
    else
      var d := db.designs[designId];
      Handled(db, Reply(200, DesignView(designId, d.title, d.templateId, LoadFabric(d.fabric), LoadFabric(d.rsvpFabric))))
  }

  /** The design after the fields present in `data` are written. */
  function PatchDesign(d: Design, data: Body): (r: Design)
    ensures r.userId == d.userId && r.templateId == d.templateId
    ensures r.title == if "title" in data then data["title"] else d.title
    ensures r.fabric == if "fabric_json" in data then DumpFabric(data["fabric_json"]) else d.fabric
    ensures r.rsvpFabric == if "rsvp_fabric_json" in data then DumpFabric(data["rsvp_fabric_json"]) else d.rsvpFabric
  {
    var d1 := if "title" in data then d.(title := data["title"]) else d;
    var d2 := if "fabric_json" in data then d1.(fabric := DumpFabric(data["fabric_json"])) else d1;
    if "rsvp_fabric_json" in data then d2.(rsvpFabric := DumpFabric(data["rsvp_fabric_json"])) else d2
  }

  /**
   * `update_design`: 404 unless the user owns the design; otherwise only the title
   * and the two documents are written, each only when its key is in the body. A
   * `null` body passes the ownership check and then fails with 500.
   */
  function UpdateDesign(db: Db, userId: nat, designId: nat, data: Option<Body>): (h: Handled)
    ensures !Succeeded(h) ==> h.db == db
    ensures !Owns(db, userId, designId) ==> h.reply == NotFound
    ensures Owns(db, userId, designId) && data.None? ==> h.reply == ServerError
    ensures Succeeded(h) <==> Owns(db, userId, designId) && data.Some?
    ensures Succeeded(h) ==>
              h.reply == Reply(200, Done) && h.db == db.(designs := db.designs[designId := PatchDesign(db.designs[designId], data.value)])
  {
    if !Owns(db, userId, designId) then Handled(db, NotFound)
    else if data.None? then Handled(db, ServerError)
    else
      Handled(db.(designs := db.designs[designId := PatchDesign(db.designs[designId], data.value)]), Reply(200, Done))
  }

  /** A design saved with a document is read back with that document; the keys
      left out of the update read back as before, and every other design is
      untouched. */
  lemma UpdateThenGet(db: Db, userId: nat, designId: nat, data: Body)
    requires Owns(db, userId, designId)
    ensures var after := UpdateDesign(db, userId, designId, Some(data)).db;
            var view := GetDesign(after, userId, designId).reply.payload;
            var d := db.designs[designId];
            && view.DesignView?
            && ("title" in data ==> view.title == data["title"])
            && ("title" !in data ==> view.title == d.title)
            && ("fabric_json" in data ==> view.fabric == data["fabric_json"])
            && ("fabric_json" !in data ==> view.fabric == LoadFabric(d.fabric))
            && ("rsvp_fabric_json" in data ==> view.rsvpFabric == data["rsvp_fabric_json"])
            && ("rsvp_fabric_json" !in data ==> view.rsvpFabric == LoadFabric(d.rsvpFabric))
            && (forall k :: k in db.designs && k != designId ==> k in after.designs && after.designs[k] == db.designs[k])
  {
    var d := db.designs[designId];
    if "fabric_json" in data { FabricRoundTrip(data["fabric_json"]); }
    if "rsvp_fabric_json" in data { FabricRoundTrip(data["rsvp_fabric_json"]); }
  }

  // ---------------------------------------------------------------------------
  // Guests

  /** What every stored guest satisfies: a stripped, non-empty name, and contact and
      comment that are absent or stripped and non-empty. */
  predicate ValidGuest(g: Guest) {
    && g.name != [] && Text.Trim(Text.Py, g.name) == g.name
    && (g.contact.Some? ==> g.contact.value != [] && Text.Trim(Text.Py, g.contact.value) == g.contact.value)
    && (g.comment.Some? ==> g.comment.value != [] && Text.Trim(Text.Py, g.comment.value) == g.comment.value)
  }

  predicate ValidGuests(db: Db) {
    forall id :: id in db.guests ==> ValidGuest(db.guests[id])
  }

  /**
   * `create_guest`: a missing body counts as empty. The name is read and checked
   * first (400 when blank), then contact and comment (stripped, empty becoming
   * none), then the design's ownership (404); the new guest gets the next id and
   * is answered with 201.
   */
  function CreateGuest(db: Db, userId: nat, designId: nat, data: Option<Body>): (h: Handled)
    ensures !Succeeded(h) ==> h.db == db
    ensures var body := data.GetOr(map[]);
            && (Stripped(body, "name") == Some("") ==> h.reply == Reply(400, Error("Guest name is required")))
            && (Succeeded(h) ==>
                  && Owns(db, userId, designId)
                  && Stripped(body, "name").Some? && Stripped(body, "contact").Some? && Stripped(body, "comment").Some?
                  && var id := NextId(db.guests);
                  var g := Guest(designId, Stripped(body, "name").value, Optional(Stripped(body, "contact").value),
                                 Optional(Stripped(body, "comment").value), Truthy(Get(body, "is_confirmed")));
                  && ValidGuest(g)
                  && h.reply == Reply(201, GuestView(id, g))
                  && h.db == db.(guests := db.guests[id := g]))
    ensures Succeeded(h) <==> var body := data.GetOr(map[]);
              && Stripped(body, "name").Some? && Stripped(body, "name").value != []
              && Stripped(body, "contact").Some? && Stripped(body, "comment").Some?
              && Owns(db, userId, designId)
    ensures var body := data.GetOr(map[]);
            && Stripped(body, "name").Some? && Stripped(body, "name").value != []
            && Stripped(body, "contact").Some? && Stripped(body, "comment").Some?
            && !Owns(db, userId, designId)
            ==> h.reply == NotFound
  {
    var body := data.GetOr(map[]);
    match Stripped(body, "name")
    case None => Handled(db, ServerError)
    case Some(name) =>
      if name == [] then Handled(db, Reply(400, Error("Guest name is required")))
      else match (Stripped(body, "contact"), Stripped(body, "comment"))
        case (Some(contact), Some(comment)) =>
          if !Owns(db, userId, designId) then Handled(db, NotFound)
          else
            var id := NextId(db.guests);
            var g := Guest(designId, name, Optional(contact), Optional(comment), Truthy(Get(body, "is_confirmed")));
            Handled(db.(guests := db.guests[id := g]), Reply(201, GuestView(id, g)))
        case _ => Handled(db, ServerError)
  }

  /** Whether the guest exists and its design belongs to the user. */
  predicate GuestReachable(db: Db, userId: nat, guestId: nat) {
    guestId in db.guests && Owns(db, userId, db.guests[guestId].designId)
  }

  /** The guest after the fields present in `data` are written, or none when a
      present field cannot be read or the new name is blank. */
  function PatchGuest(g: Guest, data: Body): (r: Option<Guest>)
    ensures r.None? <==> ("name" in data && (Stripped(data, "name").None? || Stripped(data, "name").value == []))
                         || ("contact" in data && Stripped(data, "contact").None?)
                         || ("comment" in data && Stripped(data, "comment").None?)
    ensures r.Some? ==> r.value.designId == g.designId
    ensures r.Some? ==> r.value.name == if "name" in data then Stripped(data, "name").value else g.name
    ensures r.Some? ==> r.value.contact == if "contact" in data then Optional(Stripped(data, "contact").value) else g.contact
    ensures r.Some? ==> r.value.comment == if "comment" in data then Optional(Stripped(data, "comment").value) else g.comment
    ensures r.Some? ==> r.value.confirmed == if "is_confirmed" in data then Truthy(data["is_confirmed"]) else g.confirmed
    ensures ValidGuest(g) && r.Some? ==> ValidGuest(r.value)
  {
    var name := if "name" in data then Stripped(data, "name") else Some(g.name);
    var contact := if "contact" in data then Stripped(data, "contact") else Some("");
    var comment := if "comment" in data then Stripped(data, "comment") else Some("");
    if name.None? || ("name" in data && name.value == []) || contact.None? || comment.None? then None
    else Some(Guest(g.designId, name.value,
                    if "contact" in data then Optional(contact.value) else g.contact,
                    if "comment" in data then Optional(comment.value) else g.comment,
                    if "is_confirmed" in data then Truthy(data["is_confirmed"]) else g.confirmed))
  }

  /**
   * `update_guest`: a missing body counts as empty; 404 for a missing guest and for
   * one whose design the user does not own; 400 for a present but blank name; 500
   * for a present field that is not text. Nothing is written on any of these. On
   * success only the fields whose keys are present change.
   */
  function UpdateGuest(db: Db, userId: nat, guestId: nat, data: Option<Body>): (h: Handled)
    ensures !Succeeded(h) ==> h.db == db
    ensures !GuestReachable(db, userId, guestId) ==> h.reply == NotFound
    ensures var body := data.GetOr(map[]);
            GuestReachable(db, userId, guestId) && "name" in body && Stripped(body, "name") == Some("") ==>
              h.reply == Reply(400, Error("Guest name is required"))
    ensures Succeeded(h) <==> GuestReachable(db, userId, guestId) && PatchGuest(db.guests[guestId], data.GetOr(map[])).Some?
    ensures Succeeded(h) ==> var g := PatchGuest(db.guests[guestId], data.GetOr(map[])).value;
              h.reply == Reply(200, GuestView(guestId, g)) && h.db == db.(guests := db.guests[guestId := g])
  {
    var body := data.GetOr(map[]);
    if !GuestReachable(db, userId, guestId) then Handled(db, NotFound)
    else if "name" in body && Stripped(body, "name") == Some("") then Handled(db, Reply(400, Error("Guest name is required")))
    else match PatchGuest(db.guests[guestId], body)
      case None => Handled(db, ServerError)
      case Some(g) => Handled(db.(guests := db.guests[guestId := g]), Reply(200, GuestView(guestId, g)))
  }

  /** `delete_guest`: 404 for a missing guest or one whose design the user does not
      own; otherwise exactly that guest is removed. */
  function DeleteGuest(db: Db, userId: nat, guestId: nat): (h: Handled)
    ensures !GuestReachable(db, userId, guestId) <==> h.reply == NotFound
    ensures !Succeeded(h) ==> h.db == db
    ensures Succeeded(h) ==> h.reply == Reply(200, Done) && h.db == db.(guests := db.guests - {guestId})
  {
    if !GuestReachable(db, userId, guestId) then Handled(db, NotFound)
    else Handled(db.(guests := db.guests - {guestId}), Reply(200, Done))
  }

  /** Every guest request keeps every stored guest valid. */
  lemma GuestRequestsKeepGuestsValid(db: Db, userId: nat, id: nat, data: Option<Body>)
    requires ValidGuests(db)
    ensures ValidGuests(CreateGuest(db, userId, id, data).db)
    ensures ValidGuests(UpdateGuest(db, userId, id, data).db)
    ensures ValidGuests(DeleteGuest(db, userId, id).db)
  {
    CreateKeepsGuestsValid(db, userId, id, data);
    UpdateKeepsGuestsValid(db, userId, id, data);
  }

  lemma CreateKeepsGuestsValid(db: Db, userId: nat, designId: nat, data: Option<Body>)
    requires ValidGuests(db)
    ensures ValidGuests(CreateGuest(db, userId, designId, data).db)
  {
    var c := CreateGuest(db, userId, designId, data);
    if Succeeded(c) {
      var n := NextId(db.guests);
      assert ValidGuest(c.db.guests[n]);
      assert forall k :: k in c.db.guests ==> k == n || c.db.guests[k] == db.guests[k];
    }
  }

  lemma UpdateKeepsGuestsValid(db: Db, userId: nat, guestId: nat, data: Option<Body>)
    requires ValidGuests(db)
    ensures ValidGuests(UpdateGuest(db, userId, guestId, data).db)
  {
  }

  /** A design that belongs to someone else is indistinguishable from a missing one:
      the same reply and the same (unchanged) database. */
  lemma ForeignDesignLooksMissing(db: Db, userId: nat, designId: nat, guestId: nat, data: Option<Body>)
    requires designId in db.designs && db.designs[designId].userId != userId
    requires guestId in db.guests && db.guests[guestId].designId == designId
    ensures var gone := db.(designs := db.designs - {designId});
            && GetDesign(db, userId, designId) == Handled(db, GetDesign(gone, userId, designId).reply)
            && UpdateDesign(db, userId, designId, data) == Handled(db, UpdateDesign(gone, userId, designId, data).reply)
            && CreateGuest(db, userId, designId, data).reply == CreateGuest(gone, userId, designId, data).reply
            && CreateGuest(db, userId, designId, data).db == db
            && UpdateGuest(db, userId, guestId, data) == Handled(db, UpdateGuest(gone, userId, guestId, data).reply)
            && DeleteGuest(db, userId, guestId) == Handled(db, DeleteGuest(gone, userId, guestId).reply)
  {
  }

  // ---------------------------------------------------------------------------
  // RSVP responses

  predicate ValidResponse(r: Rsvp) {
    && r.name != [] && Text.Trim(Text.Py, r.name) == r.name
    && r.phone != [] && Text.Trim(Text.Py, r.phone) == r.phone
    && (r.message.Some? ==> r.message.value != [] && Text.Trim(Text.Py, r.message.value) == r.message.value)
  }

  /**
   * `create_response`, open to anyone: a missing body counts as empty; name, phone
   * and message are stripped; a blank name or phone is refused with 400, a missing
   * design with 404 (there is no ownership check); the response is stored under
   * the next id with an empty message stored as none.
   */
  function CreateResponse(db: Db, designId: nat, data: Option<Body>): (h: Handled)
    ensures !Succeeded(h) ==> h.db == db
    ensures var body := data.GetOr(map[]);
            (Stripped(body, "name") == Some("") || Stripped(body, "phone") == Some(""))
            && Stripped(body, "name").Some? && Stripped(body, "phone").Some? && Stripped(body, "message").Some?
            ==> h.reply == Reply(400, Error("Name and phone are required"))
    ensures Succeeded(h) <==> var body := data.GetOr(map[]);
              && Stripped(body, "name").Some? && Stripped(body, "phone").Some? && Stripped(body, "message").Some?
              && Stripped(body, "name").value != [] && Stripped(body, "phone").value != []
              && designId in db.designs
    ensures var body := data.GetOr(map[]);
            && Stripped(body, "name").Some? && Stripped(body, "phone").Some? && Stripped(body, "message").Some?
            && Stripped(body, "name").value != [] && Stripped(body, "phone").value != []
            && designId !in db.designs
            ==> h.reply == NotFound
    ensures Succeeded(h) ==> var body := data.GetOr(map[]);
              var id := NextId(db.responses);
              var r := Rsvp(designId, Stripped(body, "name").value, Stripped(body, "phone").value,
                            Optional(Stripped(body, "message").value));
              && ValidResponse(r)
              && h.reply == Reply(200, RsvpView(id, r))
              && h.db == db.(responses := db.responses[id := r])
  {
    var body := data.GetOr(map[]);
    match (Stripped(body, "name"), Stripped(body, "phone"), Stripped(body, "message"))
    case (Some(name), Some(phone), Some(message)) =>
      if name == [] || phone == [] then Handled(db, Reply(400, Error("Name and phone are required")))
      else if designId !in db.designs then Handled(db, NotFound)
      else
        var id := NextId(db.responses);
        var r := Rsvp(designId, name, phone, Optional(message));
        Handled(db.(responses := db.responses[id := r]), Reply(200, RsvpView(id, r)))
    case _ => Handled(db, ServerError)
  }
}
