/**
 * The `/api/notes` routes: five handlers over a store of notes keyed by id,
 * each answering with a status code and a response envelope, all behind
 * the session guard.
 */
module NotesRoutes {
  import opened NoteModel
  import Auth

  const NotFoundMessage := "Note not found"
  const ServerErrorMessage := "Server Error"
  const ForbiddenAccessMessage := "Not authorized to access this note"
  const ForbiddenUpdateMessage := "Not authorized to update this note"
  const ForbiddenDeleteMessage := "Not authorized to delete this note"

  /**
   * The filter object the list handler assembles: the owner always, a tag
   * and a search term only when given. `textMatch` stands for the store's
   * full-text index, which decides what a search term matches.
   */
  datatype Query = Query(user: UserId, tag: Option<string>, search: Option<string>)

  predicate Selects(q: Query, n: Note, textMatch: (string, Note) -> bool)
  {
    && n.user == q.user
    && (q.tag.Some? ==> q.tag.value in n.tags)
    && (q.search.Some? ==> textMatch(q.search.value, n))
  }

  /** Every stored note carries its own key as id. */
  predicate KeyedById(notes: map<NoteId, Note>)
  {
    forall id :: id in notes ==> notes[id].id == id
  }

  /** `sort({ createdAt: -1 })` */
  predicate NewestFirst(ns: seq<Note>)
  {
    forall i, j :: 0 <= i < j < |ns| ==> ns[i].createdAt >= ns[j].createdAt
  }

  predicate DistinctIds(ns: seq<Note>)
  {
    forall i, j :: 0 <= i < j < |ns| ==> ns[i].id != ns[j].id
  }

  /** Places `n` before the first note that is not newer than it. */
  function InsertNewestFirst(n: Note, ns: seq<Note>): (r: seq<Note>)
    ensures |r| == |ns| + 1
    ensures forall m :: m in r <==> m in ns || m == n
  {
    if ns == [] || n.createdAt >= ns[0].createdAt then [n] + ns
    else
      assert ns == [ns[0]] + ns[1..];
      [ns[0]] + InsertNewestFirst(n, ns[1..])
  }

  lemma {:induction false} InsertKeepsNewestFirst(n: Note, ns: seq<Note>)
    requires NewestFirst(ns)
    ensures NewestFirst(InsertNewestFirst(n, ns))
  {
    var r := InsertNewestFirst(n, ns);
    if ns == [] || n.createdAt >= ns[0].createdAt {
      assert forall i :: 1 <= i < |r| ==> r[i] == ns[i - 1];
    } else {
      var rest := InsertNewestFirst(n, ns[1..]);
      InsertKeepsNewestFirst(n, ns[1..]);
      assert forall i :: 1 <= i < |r| ==> r[i] == rest[i - 1];
      forall i | 0 <= i < |rest| ensures ns[0].createdAt >= rest[i].createdAt {
        assert rest[i] in rest;
        if rest[i] != n {
          var k :| 0 <= k < |ns[1..]| && ns[1..][k] == rest[i];
          assert ns[k + 1] == rest[i];
        }
      }
    }
  }

  lemma {:induction false} InsertKeepsIdsDistinct(n: Note, ns: seq<Note>)
    requires DistinctIds(ns)
    requires forall m :: m in ns ==> m.id != n.id
    ensures DistinctIds(InsertNewestFirst(n, ns))
  {
    var r := InsertNewestFirst(n, ns);
    if ns == [] || n.createdAt >= ns[0].createdAt {
      assert forall i :: 1 <= i < |r| ==> r[i] == ns[i - 1] && r[i] in ns;
    } else {
      var rest := InsertNewestFirst(n, ns[1..]);
      assert forall m :: m in ns[1..] ==> m in ns;
      InsertKeepsIdsDistinct(n, ns[1..]);
      assert forall i :: 1 <= i < |r| ==> r[i] == rest[i - 1];
      forall i | 0 <= i < |rest| ensures ns[0].id != rest[i].id {
        assert rest[i] in rest;
        if rest[i] != n {
          var k :| 0 <= k < |ns[1..]| && ns[1..][k] == rest[i];
          assert ns[k + 1] == rest[i];
        } else {
          assert ns[0] in ns;
        }
      }
    }
  }

  /**
   * `Note.find(query).sort({ createdAt: -1 })`: exactly the stored notes the
   * query selects, each once, newest first.
   */
  method Find(notes: map<NoteId, Note>, q: Query, textMatch: (string, Note) -> bool) returns (r: seq<Note>)
    requires KeyedById(notes)
    ensures forall n :: n in r ==> n.id in notes && notes[n.id] == n && Selects(q, n, textMatch)
    ensures forall id :: id in notes && Selects(q, notes[id], textMatch) ==> notes[id] in r
    ensures DistinctIds(r)
    ensures NewestFirst(r)
  {
    r := [];
    var pending := notes.Keys;
    while pending != {}
      invariant pending <= notes.Keys
      invariant forall n :: n in r ==> n.id in notes && n.id !in pending && notes[n.id] == n && Selects(q, n, textMatch)
      invariant forall id :: id in notes && id !in pending && Selects(q, notes[id], textMatch) ==> notes[id] in r
      invariant DistinctIds(r)
      invariant NewestFirst(r)
      decreases pending
    {
      var id :| id in pending;
      var n := notes[id];
      if Selects(q, n, textMatch) {
        InsertKeepsNewestFirst(n, r);
        InsertKeepsIdsDistinct(n, r);
        r := InsertNewestFirst(n, r);
      }
      pending := pending - {id};
    }
  }

  /** A request to the notes API, with the query, route parameter and body it carries. */
  datatype Request =
    | ListNotes(tag: Option<string>, search: Option<string>)
    | GetNote(id: NoteId)
    | CreateNote(body: NoteBody)
    | UpdateNote(id: NoteId, body: NoteBody)
    | DeleteNote(id: NoteId)

  /** Whether each store call throws: the lookup or query, and the write. */
  datatype StoreFaults = StoreFaults(readFails: bool, writeFails: bool)

  /**
   * The note that `Note.create(body)` would store, or None when validation
   * rejects the body: owner, title and content are required, and a required
   * string may not be empty. The owner is whatever the body says.
   */
  function Created(body: NoteBody, newId: NoteId, now: int): (n: Option<Note>)
    ensures n.Some? <==> body.user.Some? && Given(body.title) && Given(body.content)
    ensures n.Some? ==> n.value.id == newId && n.value.user == body.user.value && n.value.createdAt == now
                        && n.value.title == body.title.value && n.value.content == body.content.value
                        && n.value.tags == (if body.tags.Some? then body.tags.value else [])
  {
    if body.user.Some? && Given(body.title) && Given(body.content) then
      Some(Note(newId, body.user.value, body.title.value, body.content.value,
                if body.tags.Some? then body.tags.value else [], createdAt := now))
    else None
  }

  /** `findByIdAndUpdate(id, body)`: every field the body supplies replaces the stored one. */
  function Patched(n: Note, body: NoteBody): (r: Note)
    ensures r.id == n.id && r.createdAt == n.createdAt
    ensures body == NoteBody(None, None, None, None) ==> r == n
  {
    n.(user := if body.user.Some? then body.user.value else n.user,
       title := if body.title.Some? then body.title.value else n.title,
       content := if body.content.Some? then body.content.value else n.content,
       tags := if body.tags.Some? then body.tags.value else n.tags)
  }

  function Ok(status: int, data: Payload): Response
  {
    Response(status, Envelope(true, data, None, None))
  }

  // What each handler answers, and what the store holds afterwards
  // (`before` and `after`), for a signed-in caller `userId`.

  /**
   * GET /: a store fault gives 500; otherwise 200 with exactly the caller's
   * notes, filtered by tag membership when a non-empty tag is given and by
   * the text index when a non-empty search term is given, each once, newest
   * first, with `count` equal to the number returned.
   */
  predicate ListAnswers(notes: map<NoteId, Note>, userId: UserId, tag: Option<string>, search: Option<string>,
                        textMatch: (string, Note) -> bool, faults: StoreFaults, resp: Response)
  {
    && (faults.readFails ==> resp == Failure(500, ServerErrorMessage))
    && (!faults.readFails ==>
        && resp.status == 200 && resp.body.success && resp.body.message == None
        && resp.body.data.NoteList?
        && resp.body.count == Some(|resp.body.data.notes|)
        && var listed := resp.body.data.notes;
           && (forall n :: n in listed ==>
                 && n.id in notes && notes[n.id] == n && n.user == userId
                 && (Given(tag) ==> tag.value in n.tags)
                 && (Given(search) ==> textMatch(search.value, n)))
           && (forall id :: (id in notes && notes[id].user == userId
                 && (Given(tag) ==> tag.value in notes[id].tags)
                 && (Given(search) ==> textMatch(search.value, notes[id]))) ==> notes[id] in listed)
           && DistinctIds(listed)
           && NewestFirst(listed))
  }

  /** GET /:id: 500 on a fault, 404 for an unknown id, 403 for another user's note, else 200 with it. */
  predicate GetAnswers(notes: map<NoteId, Note>, userId: UserId, id: NoteId, faults: StoreFaults, resp: Response)
  {
    && (faults.readFails ==> resp == Failure(500, ServerErrorMessage))
    && (!faults.readFails && id !in notes ==> resp == Failure(404, NotFoundMessage))
    && (!faults.readFails && id in notes && notes[id].user != userId ==>
          resp == Failure(403, ForbiddenAccessMessage))
    && (!faults.readFails && id in notes && notes[id].user == userId ==>
          resp == Ok(200, OneNote(notes[id])))
  }

  /**
   * POST /: the body is stamped with the caller as owner before it is
   * stored; success adds exactly the new note and answers 201 with it, any
   * failure answers 500 and stores nothing.
   */
  predicate CreateAnswers(before: map<NoteId, Note>, after: map<NoteId, Note>, userId: UserId,
                          body: NoteBody, newId: NoteId, now: int, faults: StoreFaults, resp: Response)
  {
    var n := Created(body.(user := Some(userId)), newId, now);
    if !faults.writeFails && n.Some? && newId !in before then
      && after == before[newId := n.value]
      && n.value.user == userId
      && resp == Ok(201, OneNote(n.value))
    else
      after == before && resp == Failure(500, ServerErrorMessage)
  }

  /**
   * PUT /:id: existence before ownership before the write, each refusal
   * leaving the store as it was; success replaces only that id by the
   * patched note and answers 200 with it.
   */
  predicate UpdateAnswers(before: map<NoteId, Note>, after: map<NoteId, Note>, userId: UserId,
                          id: NoteId, body: NoteBody, faults: StoreFaults, resp: Response)
  {
    && (faults.readFails ==> resp == Failure(500, ServerErrorMessage) && after == before)
    && (!faults.readFails && id !in before ==>
          resp == Failure(404, NotFoundMessage) && after == before)
    && (!faults.readFails && id in before && before[id].user != userId ==>
          resp == Failure(403, ForbiddenUpdateMessage) && after == before)
    && (!faults.readFails && id in before && before[id].user == userId ==>
          if faults.writeFails then
            resp == Failure(500, ServerErrorMessage) && after == before
          else
            && after == before[id := Patched(before[id], body)]
            && resp == Ok(200, OneNote(after[id])))
  }

  /**
   * DELETE /:id: existence before ownership before the removal, each refusal
   * leaving the store as it was; success removes exactly that id, keeps every
   * other note, and answers 200 with an empty object.
   */
  predicate DeleteAnswers(before: map<NoteId, Note>, after: map<NoteId, Note>, userId: UserId,
                          id: NoteId, faults: StoreFaults, resp: Response)
  {
    && (faults.readFails ==> resp == Failure(500, ServerErrorMessage) && after == before)
    && (!faults.readFails && id !in before ==>
          resp == Failure(404, NotFoundMessage) && after == before)
    && (!faults.readFails && id in before && before[id].user != userId ==>
          resp == Failure(403, ForbiddenDeleteMessage) && after == before)
    && (!faults.readFails && id in before && before[id].user == userId ==>
          if faults.writeFails then
            resp == Failure(500, ServerErrorMessage) && after == before
          else
            && after == before - {id}
            && after.Keys == before.Keys - {id}
            && (forall k :: k in after ==> after[k] == before[k])
            && resp == Ok(200, EmptyObject))
  }

  class NoteStore {
    var notes: map<NoteId, Note>

    ghost predicate Valid()
      reads this
    {
      KeyedById(notes)
    }

    constructor ()
      ensures Valid() && notes == map[]
    {
      notes := map[];
    }

    /** GET /: the caller's notes, filtered, newest first, with their count. */
    method List(userId: UserId, tag: Option<string>, search: Option<string>,
                textMatch: (string, Note) -> bool, faults: StoreFaults) returns (resp: Response)
      requires Valid()
      ensures ListAnswers(notes, userId, tag, search, textMatch, faults, resp)
    {
      var query := Query(userId, None, None);
      if Given(tag) {
        query := query.(tag := tag);
      }
      if Given(search) {
        query := query.(search := search);
      }
      if faults.readFails {
        return Failure(500, ServerErrorMessage);
      }
      var found := Find(notes, query, textMatch);
      resp := Response(200, Envelope(true, NoteList(found), None, Some(|found|)));
    }

    /** GET /:id: 404 when no note has the id, 403 when it belongs to someone else. */
    method Get(userId: UserId, id: NoteId, faults: StoreFaults) returns (resp: Response)
      ensures GetAnswers(notes, userId, id, faults, resp)
    {
      if faults.readFails {
        return Failure(500, ServerErrorMessage);
      }
      if id !in notes {
        return Failure(404, NotFoundMessage);
      }
      var note := notes[id];
      if note.user != userId {
        return Failure(403, ForbiddenAccessMessage);
      }
      resp := Ok(200, OneNote(note));
    }

    /**
     * POST /: the owner is always the session user, whatever the body says;
     * the stored note is returned with 201.
     */
    method Create(userId: UserId, body: NoteBody, newId: NoteId, now: int, faults: StoreFaults)
      returns (resp: Response)
      requires Valid()
      modifies this
      ensures Valid()
      ensures CreateAnswers(old(notes), notes, userId, body, newId, now, faults, resp)
    {
      var stamped := body.(user := Some(userId));
      var n := Created(stamped, newId, now);
      if faults.writeFails || n.None? || newId in notes {
        return Failure(500, ServerErrorMessage);
      }
      notes := notes[newId := n.value];
      resp := Ok(201, OneNote(n.value));
    }

    /**
     * PUT /:id: existence is checked before ownership; the body is applied
     * as given and the updated note is returned.
     */
    method Update(userId: UserId, id: NoteId, body: NoteBody, faults: StoreFaults) returns (resp: Response)
      requires Valid()
      modifies this
      ensures Valid()
      ensures UpdateAnswers(old(notes), notes, userId, id, body, faults, resp)
    {
      if faults.readFails {
        return Failure(500, ServerErrorMessage);
      }
      if id !in notes {
        return Failure(404, NotFoundMessage);
      }
      var note := notes[id];
      if note.user != userId {
        return Failure(403, ForbiddenUpdateMessage);
      }
      if faults.writeFails {
        return Failure(500, ServerErrorMessage);
      }
      note := Patched(note, body);
      notes := notes[id := note];
      resp := Ok(200, OneNote(note));
    }

    /** DELETE /:id: existence, then ownership, then removal of exactly that note. */
    method Delete(userId: UserId, id: NoteId, faults: StoreFaults) returns (resp: Response)
      requires Valid()
      modifies this
      ensures Valid()
      ensures DeleteAnswers(old(notes), notes, userId, id, faults, resp)
    {
      if faults.readFails {
        return Failure(500, ServerErrorMessage);
      }
      if id !in notes {
        return Failure(404, NotFoundMessage);
      }
      var note := notes[id];
      if note.user != userId {
        return Failure(403, ForbiddenDeleteMessage);
      }
      if faults.writeFails {
        return Failure(500, ServerErrorMessage);
      }
      notes := notes - {id};
      resp := Ok(200, EmptyObject);
    }

    /**
     * A request as the router sees it: the session guard runs first, and only
     * a request it lets through reaches its handler, which then answers it.
     */
    method Serve(sessionUserId: Option<UserId>, req: Request, textMatch: (string, Note) -> bool,
                 newId: NoteId, now: int, faults: StoreFaults) returns (resp: Response)
      requires Valid()
      modifies this
      ensures Valid()
      ensures !Given(sessionUserId) ==> resp == Auth.Unauthorized() && notes == old(notes)
      ensures Given(sessionUserId) ==> resp.status != 401
      ensures req.ListNotes? || req.GetNote? ==> notes == old(notes)
      ensures Given(sessionUserId) ==>
                forall id :: id in old(notes) && old(notes)[id].user != sessionUserId.value ==>
                  id in notes && notes[id] == old(notes)[id]
      ensures Given(sessionUserId) && req.ListNotes? ==>
                ListAnswers(old(notes), sessionUserId.value, req.tag, req.search, textMatch, faults, resp)
      ensures Given(sessionUserId) && req.GetNote? ==>
                GetAnswers(old(notes), sessionUserId.value, req.id, faults, resp)
      ensures Given(sessionUserId) && req.CreateNote? ==>
                CreateAnswers(old(notes), notes, sessionUserId.value, req.body, newId, now, faults, resp)
      ensures Given(sessionUserId) && req.UpdateNote? ==>
                UpdateAnswers(old(notes), notes, sessionUserId.value, req.id, req.body, faults, resp)
      ensures Given(sessionUserId) && req.DeleteNote? ==>
                DeleteAnswers(old(notes), notes, sessionUserId.value, req.id, faults, resp)
    {
      var guard := Auth.IsAuthenticated(sessionUserId);
      if !guard.nextCalled {
        return guard.written.value;
      }
      var userId := sessionUserId.value;
      match req {
        case ListNotes(tag, search) =>
          resp := List(userId, tag, search, textMatch, faults);
        case GetNote(id) =>
          resp := Get(userId, id, faults);
        case CreateNote(body) =>
          resp := Create(userId, body, newId, now, faults);
        case UpdateNote(id, body) =>
          resp := Update(userId, id, body, faults);
        case DeleteNote(id) =>
          resp := Delete(userId, id, faults);
      }
    }
  }
}
