/** The journal entry handlers of server/src/controllers/entry.controller.ts
    (`createEntry`, `getEntries`, `deleteEntry`) over an in-memory entry
    table. The caller is `req.user` as the token middleware left it; the id
    and creation time the database assigns, and the IV, are parameters. */
module EntryController {
  import opened Common
  import opened CipherRecord
  import Hex

  type EntryId = string

  /** One row of the Entry table; `content` is the stored record. */
  datatype Entry = Entry(id: EntryId, userId: string, mood: string, content: string, createdAt: int)

  /** The JSON body of `POST /entries`: None for a field that is absent or
      not a string. */
  datatype EntryBody = EntryBody(content: Option<string>, mood: Option<string>)

  datatype Body =
    | EntryJson(entry: Entry)
    | EntryList(entries: seq<Entry>)
    | Message(message: string)
    | Error(error: string)

  datatype Reply = Reply(status: int, body: Body)

  /** A handler's reply together with the table it leaves. */
  datatype Step = Step(reply: Reply, table: map<EntryId, Entry>)

  const Unauthorized: Reply := Reply(401, Error("Unauthorized"))
  const SaveFailed: Reply := Reply(400, Error("Failed to save entry"))
  const NotFound: Reply := Reply(404, Error("Entry not found"))
  const Forbidden: Reply := Reply(403, Error("Forbidden"))
  const Deleted: Reply := Reply(200, Message("Entry deleted"))

  /** Each row is stored under its own id, as the primary key makes it. This
      is all the read path needs: any content string, even one that is not a
      record, can be listed. */
  ghost predicate Keyed(table: map<EntryId, Entry>)
  {
    forall id | id in table :: table[id].id == id
  }

  /** The consistency the handlers keep: rows stored under their ids, and
      every content a ciphertext record, never plain text. */
  ghost predicate TableValid(table: map<EntryId, Entry>)
  {
    Keyed(table) && forall id | id in table :: IsRecord(table[id].content)
  }

  /** `EntrySchema`: content a string of at least one character, mood any string. */
  predicate SchemaAccepts(body: EntryBody): (ok: bool)
    ensures ok <==> body.content.Some? && body.content.value != "" && body.mood.Some?
    ensures body.content == Some("") ==> !ok
    ensures body.content.Some? && body.content.value != "" && body.mood == Some("") ==> ok
  {
    body.content.Some? && |body.content.value| >= 1 && body.mood.Some?
  }

  /** The entries of the table that belong to `uid`. */
  ghost function Owned(table: map<EntryId, Entry>, uid: string): set<Entry>
  {
    set id | id in table && table[id].userId == uid :: table[id]
  }

  /** `createEntry`: the body is validated first (400), then the caller (401);
      encryption (which throws on a bad key) and the insert (which throws on a
      taken id) both fall into the handler's catch (400). On success the new
      row holds the caller's id, the mood and the encrypted content, and the
      201 reply carries that row, content still encrypted. */
  function CreateStep(table: map<EntryId, Entry>, c: Cipher, key: seq<Byte>, body: EntryBody,
                      user: Option<Claims>, iv: seq<Byte>, id: EntryId, now: int): (s: Step)
    requires |iv| == IvLength
    ensures !SchemaAccepts(body) ==> s.reply == SaveFailed
    ensures SchemaAccepts(body) && CallerId(user).None? ==> s.reply == Unauthorized
    ensures SchemaAccepts(body) && CallerId(user).Some? && (|key| != KeyLength || id in table) ==>
              s.reply == SaveFailed
    ensures s.reply.status == 201 <==>
              SchemaAccepts(body) && CallerId(user).Some? && |key| == KeyLength && id !in table
    ensures s.reply.status != 201 ==> s.table == table
    ensures s.reply.status == 201 ==>
              && s.reply.body.EntryJson?
              && var e := s.reply.body.entry;
              && s.table == table[id := e]
              && e.id == id && e.userId == CallerId(user).value
              && e.mood == body.mood.value && e.createdAt == now
              && IsRecord(e.content)
              && e.content == Encrypt(c, key, iv, body.content.value).value
  {
    if !SchemaAccepts(body) then Step(SaveFailed, table)
    else if CallerId(user).None? then Step(Unauthorized, table)
    else
      match Encrypt(c, key, iv, body.content.value)
      case None => Step(SaveFailed, table)
      case Some(record) =>
        if id in table then Step(SaveFailed, table)
        else
          var e := Entry(id, CallerId(user).value, body.mood.value, record, now);
          Step(Reply(201, EntryJson(e)), table[id := e])
  }

  /** Every entry of a sequence is at least as new as every later one. */
  predicate NewestFirstOrder(es: seq<Entry>)
  {
    forall i, j | 0 <= i < j < |es| :: es[i].createdAt >= es[j].createdAt
  }

  ghost predicate IsNewest(e: Entry, s: set<Entry>)
  {
    forall x | x in s :: x.createdAt <= e.createdAt
  }

  lemma {:induction false} NewestExists(s: set<Entry>)
    requires s != {}
    ensures exists e :: e in s && IsNewest(e, s)
    decreases |s|
  {
    var x :| x in s;
    if s != {x} {
      NewestExists(s - {x});
      var m :| m in s - {x} && IsNewest(m, s - {x});
      if x.createdAt <= m.createdAt {
        assert IsNewest(m, s);
      } else {
        assert IsNewest(x, s);
      }
    } else {
      assert IsNewest(x, s);
    }
  }

  /** `orderBy: { createdAt: 'desc' }`: the entries of a set, newest first
      (the database leaves the order of equal timestamps open; this picks one). */
  ghost function NewestFirst(s: set<Entry>): (r: seq<Entry>)
    ensures |r| == |s|
    ensures forall e :: e in r <==> e in s
    ensures NewestFirstOrder(r)
    ensures forall i, j | 0 <= i < j < |r| :: r[i] != r[j]
    decreases |s|
  {
    if s == {} then []
    else
      NewestExists(s);
      var e :| e in s && IsNewest(e, s);
      [e] + NewestFirst(s - {e})
  }

  /** The row as `getEntries` returns it: every field kept, content decrypted. */
  function Revealed(c: Cipher, key: seq<Byte>, e: Entry): (r: Entry)
    ensures r == e.(content := r.content)
    ensures |key| != KeyLength || |Hex.Decode(Halves(e.content).0)| != IvLength ==> r.content == Placeholder
    ensures Inverse(c) && |key| == KeyLength ==>
              forall iv: seq<Byte>, text: string | |iv| == IvLength && e.content == Encrypt(c, key, iv, text).value ::
                r.content == text
  {
    forall iv: seq<Byte>, text: string | |iv| == IvLength && |key| == KeyLength && Inverse(c) && e.content == Encrypt(c, key, iv, text).value
      ensures Decrypt(c, key, e.content) == text
    {
      DecryptEncrypt(c, key, iv, text);
    }
    e.(content := Decrypt(c, key, e.content))
  }

  lemma OwnedRows(table: map<EntryId, Entry>, uid: string)
    requires Keyed(table)
    ensures forall e | e in Owned(table, uid) :: e.id in table && table[e.id] == e && e.userId == uid
  {
    forall e | e in Owned(table, uid) ensures e.id in table && table[e.id] == e && e.userId == uid {
      var k :| k in table && table[k].userId == uid && table[k] == e;
    }
  }

  /** The caller's rows as `findMany({ where: { userId }, orderBy: { createdAt: 'desc' } })`
      returns them: each one a row of the table owned by `uid`, every such row
      once, newest first. */
  ghost function FindOwned(table: map<EntryId, Entry>, uid: string): (r: seq<Entry>)
    requires Keyed(table)
    ensures forall i | 0 <= i < |r| :: r[i].id in table && table[r[i].id] == r[i] && r[i].userId == uid
    ensures forall id | id in table && table[id].userId == uid :: exists i :: 0 <= i < |r| && r[i].id == id
    ensures NewestFirstOrder(r)
    ensures forall i, j | 0 <= i < j < |r| :: r[i].id != r[j].id
  {
    OwnedRows(table, uid);
    var r := NewestFirst(Owned(table, uid));
    assert forall id | id in table && table[id].userId == uid :: table[id] in r;
    r
  }

  /** `es` is exactly the listing of `uid`'s entries: each one a row of
      theirs with its content decrypted and every other field as stored,
      every such row once, newest first. */
  ghost predicate ListsExactly(table: map<EntryId, Entry>, c: Cipher, key: seq<Byte>, uid: string, es: seq<Entry>)
  {
    && (forall i | 0 <= i < |es| ::
          es[i].id in table && table[es[i].id].userId == uid && es[i] == Revealed(c, key, table[es[i].id]))
    && (forall id | id in table && table[id].userId == uid :: exists i :: 0 <= i < |es| && es[i].id == id)
    && NewestFirstOrder(es)
    && (forall i, j | 0 <= i < j < |es| :: es[i].id != es[j].id)
  }

  /** Decrypting the rows `findMany` returned, one by one, keeps everything
      `FindOwned` promises about them. */
  lemma RevealedRowsListExactly(table: map<EntryId, Entry>, c: Cipher, key: seq<Byte>, uid: string,
                                rows: seq<Entry>, es: seq<Entry>)
    requires Keyed(table) && rows == FindOwned(table, uid)
    requires |es| == |rows| && forall i | 0 <= i < |es| :: es[i] == Revealed(c, key, rows[i])
    ensures ListsExactly(table, c, key, uid, es)
  {
    forall i | 0 <= i < |es|
      ensures es[i].id == rows[i].id && es[i].createdAt == rows[i].createdAt
      ensures es[i].id in table && table[es[i].id].userId == uid && es[i] == Revealed(c, key, table[es[i].id])
    {
      assert table[rows[i].id] == rows[i];
    }
    forall id | id in table && table[id].userId == uid
      ensures exists i :: 0 <= i < |es| && es[i].id == id
    {
      var i :| 0 <= i < |rows| && rows[i].id == id;
      assert es[i].id == id;
    }
  }

  /** `getEntries`: 401 without a caller; otherwise 200 with exactly the
      caller's entries, newest first, each with its content decrypted and
      every other field as stored. It only reads the table. */
  ghost function GetEntries(table: map<EntryId, Entry>, c: Cipher, key: seq<Byte>, user: Option<Claims>): (r: Reply)
    requires Keyed(table)
    ensures r.status == 401 <==> CallerId(user).None?
    ensures CallerId(user).None? ==> r == Unauthorized
    ensures CallerId(user).Some? ==>
              r.status == 200 && r.body.EntryList? && ListsExactly(table, c, key, CallerId(user).value, r.body.entries)
  {
    match CallerId(user)
    case None => Unauthorized
    case Some(uid) =>
      var rows := FindOwned(table, uid);
      var es := seq(|rows|, i requires 0 <= i < |rows| => Revealed(c, key, rows[i]));
      RevealedRowsListExactly(table, c, key, uid, rows, es);
      Reply(200, EntryList(es))
  }

  /** `deleteEntry`: checks, in this order, the caller (401), the entry's
      existence (404) and its owner (403); only the owner's own request
      removes the row, and it removes nothing else. */
  function DeleteStep(table: map<EntryId, Entry>, id: EntryId, user: Option<Claims>): (s: Step)
    ensures s.reply.status == 401 <==> CallerId(user).None?
    ensures s.reply.status == 404 <==> CallerId(user).Some? && id !in table
    ensures s.reply.status == 403 <==> CallerId(user).Some? && id in table && table[id].userId != CallerId(user).value
    ensures s.reply.status == 200 <==> CallerId(user).Some? && id in table && table[id].userId == CallerId(user).value
    ensures s.reply.status == 200 ==>
              s.table.Keys == table.Keys - {id} && (forall k | k in s.table :: s.table[k] == table[k])
    ensures s.reply.status != 200 ==> s.table == table
  {
    match CallerId(user)
    case None => Step(Unauthorized, table)
    case Some(uid) =>
      if id !in table then Step(NotFound, table)
      else if table[id].userId != uid then Step(Forbidden, table)
      else Step(Deleted, table - {id})
  }

  /** Creating an entry keeps the table valid. */
  lemma CreateKeepsValid(table: map<EntryId, Entry>, c: Cipher, key: seq<Byte>, body: EntryBody,
                         user: Option<Claims>, iv: seq<Byte>, id: EntryId, now: int)
    requires TableValid(table) && |iv| == IvLength
    ensures TableValid(CreateStep(table, c, key, body, user, iv, id, now).table)
  {
  }

  /** What one user creates or deletes never changes what another user lists. */
  lemma OthersUnaffected(table: map<EntryId, Entry>, s: Step, caller: string, other: string)
    requires Keyed(table) && Keyed(s.table)
    requires other != caller
    requires forall k | k in table && k !in s.table :: table[k].userId == caller
    requires forall k | k in s.table && k !in table :: s.table[k].userId == caller
    requires forall k | k in table && k in s.table :: table[k] == s.table[k]
    ensures Owned(s.table, other) == Owned(table, other)
  {
    forall e | e in Owned(table, other) ensures e in Owned(s.table, other) {
      var k :| k in table && table[k].userId == other && table[k] == e;
      assert k in s.table;
    }
  }

  /** Isolation: a successful create or delete by one user leaves every
      other user's listing exactly as it was. */
  lemma ListingIsolated(table: map<EntryId, Entry>, c: Cipher, key: seq<Byte>, body: EntryBody,
                        user: Option<Claims>, iv: seq<Byte>, id: EntryId, now: int, other: Option<Claims>)
    requires Keyed(table) && |iv| == IvLength
    requires CallerId(user).Some? && CallerId(other).Some? && CallerId(other) != CallerId(user)
    ensures var s := CreateStep(table, c, key, body, user, iv, id, now);
            Keyed(s.table) && GetEntries(s.table, c, key, other) == GetEntries(table, c, key, other)
    ensures var s := DeleteStep(table, id, user);
            Keyed(s.table) && GetEntries(s.table, c, key, other) == GetEntries(table, c, key, other)
  {
    var caller, o := CallerId(user).value, CallerId(other).value;
    var s1 := CreateStep(table, c, key, body, user, iv, id, now);
    OthersUnaffected(table, s1, caller, o);
    var s2 := DeleteStep(table, id, user);
    OthersUnaffected(table, s2, caller, o);
  }

  /** What a user saves reads back: after a successful create, the user's
      listing holds the new entry with its original text and mood. */
  lemma CreateThenList(table: map<EntryId, Entry>, c: Cipher, key: seq<Byte>, body: EntryBody,
                       user: Option<Claims>, iv: seq<Byte>, id: EntryId, now: int)
    requires Inverse(c)
    requires Keyed(table) && |iv| == IvLength
    requires CreateStep(table, c, key, body, user, iv, id, now).reply.status == 201
    ensures var s := CreateStep(table, c, key, body, user, iv, id, now);
            Keyed(s.table) &&
            var r := GetEntries(s.table, c, key, user);
            exists i :: 0 <= i < |r.body.entries| &&
              r.body.entries[i] == Entry(id, CallerId(user).value, body.mood.value, body.content.value, now)
  {
    var s := CreateStep(table, c, key, body, user, iv, id, now);
    DecryptEncrypt(c, key, iv, body.content.value);
    var r := GetEntries(s.table, c, key, user);
    assert id in s.table && s.table[id].userId == CallerId(user).value;
    var i :| 0 <= i < |r.body.entries| && r.body.entries[i].id == id;
  }

  /** The read path survives rows it cannot decrypt: a row of the caller's
      whose IV field does not decode to 16 bytes (corrupted, or not written
      by `encrypt` at all) is still listed, with every field as stored and
      the placeholder as its content. */
  lemma CorruptedRowListed(table: map<EntryId, Entry>, c: Cipher, key: seq<Byte>, user: Option<Claims>, id: EntryId)
    requires Keyed(table) && CallerId(user).Some?
    requires id in table && table[id].userId == CallerId(user).value
    requires |Hex.Decode(Halves(table[id].content).0)| != IvLength
    ensures var es := GetEntries(table, c, key, user).body.entries;
            exists i :: 0 <= i < |es| && es[i] == table[id].(content := Placeholder)
  {
    var es := GetEntries(table, c, key, user).body.entries;
    var i :| 0 <= i < |es| && es[i].id == id;
    assert es[i] == Revealed(c, key, table[id]);
  }

  /** A row holding "zz", which is no record, is listed as the placeholder. */
  lemma ForeignContentListed(c: Cipher, key: seq<Byte>)
    ensures var table := map["e1" := Entry("e1", "u", "Happy", "zz", 5)];
            GetEntries(table, c, key, Some(Claims("u", "Ann"))).body.entries
              == [Entry("e1", "u", "Happy", Placeholder, 5)]
  {
    NotARecord();
    OneRowListing(map["e1" := Entry("e1", "u", "Happy", "zz", 5)], c, key, Some(Claims("u", "Ann")),
                  Entry("e1", "u", "Happy", "zz", 5));
  }

  /** A table of one row lists exactly that row, revealed, to its owner. */
  lemma OneRowListing(table: map<EntryId, Entry>, c: Cipher, key: seq<Byte>, user: Option<Claims>, e: Entry)
    requires table == map[e.id := e] && CallerId(user) == Some(e.userId)
    ensures GetEntries(table, c, key, user).body.entries == [Revealed(c, key, e)]
  {
    var es := GetEntries(table, c, key, user).body.entries;
    assert e.id in table && table[e.id].userId == e.userId;
    assert forall i | 0 <= i < |es| :: es[i].id == e.id;
    var i :| 0 <= i < |es| && es[i].id == e.id;
  }

  /** "zz" has no ':' and no hex digit, so its IV field decodes to no 16 bytes. */
  lemma NotARecord()
    ensures |Hex.Decode(Halves("zz").0)| != IvLength
  {
    assert ':' !in "zz";
    assert |Hex.Decode("zz")| <= 1;
  }

  /** The entry table, which `createEntry` and `deleteEntry` change in place. */
  class EntryStore {
    var entries: map<EntryId, Entry>

    ghost predicate Valid()
      reads this
    {
      TableValid(entries)
    }

    constructor ()
      ensures Valid() && entries == map[]
    {
      entries := map[];
    }

    method CreateEntry(c: Cipher, key: seq<Byte>, body: EntryBody, user: Option<Claims>,
                       iv: seq<Byte>, id: EntryId, now: int) returns (reply: Reply)
      requires Valid() && |iv| == IvLength
      modifies this
      ensures Valid()
      ensures Step(reply, entries) == CreateStep(old(entries), c, key, body, user, iv, id, now)
    {
      if !SchemaAccepts(body) {
        return SaveFailed;
      }
      var content, mood := body.content.value, body.mood.value;
      var uid := CallerId(user);
      if uid.None? {
        return Unauthorized;
      }
      var record := Encrypt(c, key, iv, content);
      if record.None? || id in entries {
        return SaveFailed;
      }
      var e := Entry(id, uid.value, mood, record.value, now);
      entries := entries[id := e];
      reply := Reply(201, EntryJson(e));
    }

    method DeleteEntry(id: EntryId, user: Option<Claims>) returns (reply: Reply)
      requires Valid()
      modifies this
      ensures Valid()
      ensures Step(reply, entries) == DeleteStep(old(entries), id, user)
    {
      var uid := CallerId(user);
      if uid.None? {
        return Unauthorized;
      }
      if id !in entries {
        return NotFound;
      }
      if entries[id].userId != uid.value {
        return Forbidden;
      }
      entries := entries - {id};
      reply := Deleted;
    }
  }
}
