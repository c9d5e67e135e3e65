# Notes app — a Dafny model of the note service and its browser client

The application is a small note-taking web app. Signed-in users create, edit,
tag, search and delete their own notes through a REST API under `/api/notes`.
A single-page client keeps a snapshot of the list, a tag index built from it,
the active tag filter and the note that is currently open.

The model covers three pieces.

- **The session guard** (`auth.dfy`, module `Auth`). `isAuthenticated` either
  passes the request on or writes a 401 with the login message. It never does
  both.
- **The notes routes** (`notes_routes.dfy`, module `NotesRoutes`).
  - The store is a class `NoteStore` whose one field is a `map` from note id
    to note.
  - The five handlers (list, get, create, update, delete) are methods on it.
    Each returns the status code and the JSON envelope
    `{success, data, message, count}` the route sends.
  - `Serve` runs the guard before dispatching, as the router does.
  - Store exceptions are a `StoreFaults` parameter: one flag says the lookup
    or query throws, the other says the write throws.
  - The list query `Note.find(query).sort({createdAt: -1})` is the method
    `Find`, a loop over the stored ids that keeps its result newest first.
- **The client** (`client.dfy` and `tags.dfy`, modules `Client` and `Tags`,
  on top of `JsText`, which gives JavaScript's `trim`, `split` and `join`).
  - The client code modelled here:
    - the card preview;
    - the list URL built by `fetchNotes`;
    - the tag parsing of the note form and the tag join that prefills it;
    - the tag index of `collectTags` and the tag list of `renderTags`.
  - The module-level state variables (`currentUser`, `notes`, `allTags`,
    `activeTag`, `currentNoteId`) are the fields of the class `ClientState`.
  - Each response handler that changes them is a method of that class.

`note_model.dfy` (module `NoteModel`) holds the shared records: `Note`, the
request body `NoteBody` (every field optional, as in JSON), the envelope and
the response. It also defines `Given`, JavaScript truthiness of an optional
string: present and not empty.

Three behaviours of the handlers are easy to misread, and the model keeps them as the code has them.
- Update applies the request body unfiltered (`server/routes/notes.js:90`), so
  a body with a `user` field reassigns the owner. Nothing in the handler keeps
  the owner fixed.
- A create or update that fails validation ends in the handler's `catch`
  (`server/routes/notes.js:70-72`, `99-101`). It answers 500 "Server Error";
  no route answers 400.
- The list handler's tag filter applies only when the `tag` query value is
  truthy (`server/routes/notes.js:12`). An empty `tag=` applies no filter.

## Model

| member | source | states |
|---|---|---|
| `Auth.Unauthorized` | server/middleware/auth.js:5 | the rejection is status 401, `success` false, with the login message |
| `Auth.IsAuthenticated` | server/middleware/auth.js:1-6 | `next()` is called exactly when the session user id is truthy; exactly one of "call next" and "write a response" happens; the written response is the 401 rejection |
| `NotesRoutes.InsertNewestFirst` | server/routes/notes.js:21 | inserting one note adds exactly that note to the list and keeps every other one |
| `NotesRoutes.InsertKeepsNewestFirst` | server/routes/notes.js:21 | insertion keeps a list ordered by `createdAt`, newest first |
| `NotesRoutes.InsertKeepsIdsDistinct` | server/routes/notes.js:21 | inserting a note whose id is new keeps the ids distinct |
| `NotesRoutes.Find` | server/routes/notes.js:9-21 | the result is exactly the stored notes the query selects (sound and complete), each once, newest first |
| `NotesRoutes.Created` | server/routes/notes.js:64 | `Note.create(body)` stores a note iff the body names an owner and gives a non-empty title and content; the note carries the fresh id, the owner the body names, the creation time and the body's fields, with no tags when the body has none |
| `NotesRoutes.Patched` | server/routes/notes.js:90-93 | the update keeps id and creation time; an empty body changes nothing |
| `NotesRoutes.NoteStore.List` | server/routes/notes.js:7-32 | a store fault gives 500 "Server Error"; otherwise 200 with `count` equal to the number of notes returned; the notes are exactly the caller's own, filtered by tag membership only for a truthy tag and by the text index only for a truthy search; each appears once, newest first |
| `NotesRoutes.NoteStore.Get` | server/routes/notes.js:35-56 | 500 on a fault; 404 for an unknown id, checked before ownership; 403 for another user's note; otherwise 200 with the stored note |
| `NotesRoutes.NoteStore.Create` | server/routes/notes.js:59-74 | the body is stamped with the session user before `Note.create` reads its owner, so the owner is the session user whatever the body says; on success the store gains exactly the new note and the reply is 201 with it; on any failure 500 and the store is unchanged |
| `NotesRoutes.NoteStore.Update` | server/routes/notes.js:77-103 | 404 before 403 before the write, each leaving the store unchanged; a failed write gives 500 and changes nothing; otherwise only that id is replaced by the patched note and the reply is 200 with it |
| `NotesRoutes.NoteStore.Delete` | server/routes/notes.js:107-130 | 404 before 403, each leaving the store unchanged; on success exactly that id is removed, every other note is unchanged, and the reply is 200 with an empty object |
| `NotesRoutes.NoteStore.Serve` | server/routes/notes.js:7-107 | without a session user every route answers the 401 rejection and the store is unchanged; with one, each request gets exactly its handler's answer and store change (the same list, get, create, update and delete outcomes the handlers state), never 401; list and get never change the store; no request changes another user's notes |
| `JsText.TrimStartSpec` | public/js/main.js:233 | the leading part `trim` removes is all whitespace, and what remains starts with a non-whitespace character |
| `JsText.TrimEndSpec` | public/js/main.js:233 | the trailing part `trim` removes is all whitespace, and what remains ends with a non-whitespace character |
| `JsText.TrimIsTrimmed` | public/js/main.js:517 | `trim` yields a string that neither starts nor ends with whitespace |
| `JsText.TrimIsInfix` | public/js/main.js:517 | `trim` keeps a contiguous middle part and drops only whitespace around it |
| `JsText.TrimEmptyIffBlank` | public/js/main.js:233 | `tag.trim()` is falsy exactly when the tag is all whitespace |
| `JsText.TrimKeepsChars` | public/js/main.js:517 | `trim` introduces no character absent from its input |
| `JsText.TrimOfTrimmed` | public/js/main.js:517 | `trim` leaves an already-trimmed string as it is |
| `JsText.TrimLeadingSpace` | public/js/main.js:435 | the space that `join(', ')` puts after a comma never survives `trim` |
| `JsText.Split` | public/js/main.js:517 | `split(',')` gives at least one piece, none contains a comma, and joining the pieces with commas gives the input back |
| `JsText.SplitWithoutSep` | public/js/main.js:517 | a string without commas splits into itself |
| `JsText.SplitAppend` | public/js/main.js:517 | splitting `a + "," + b` gives the pieces of `a` followed by the pieces of `b` |
| `JsText.SplitJoin` | public/js/main.js:517 | joining comma-free pieces with commas and splitting again gives the pieces back |
| `Tags.TrimAll` | public/js/main.js:517 | `.map(tag => tag.trim())` keeps the length and trims each element in place |
| `Tags.DropEmpty` | public/js/main.js:517 | `.filter(tag => tag)` keeps exactly the non-empty elements |
| `Tags.TrimAllAppend` | public/js/main.js:517 | trimming element-wise distributes over concatenation |
| `Tags.DropEmptyAppend` | public/js/main.js:517 | filtering distributes over concatenation, so input order is kept |
| `Tags.ParseTagsWellFormed` | public/js/main.js:517 | every parsed tag is non-empty, trimmed and comma-free |
| `Tags.ParseTagsAppend` | public/js/main.js:517 | parsing `a + "," + b` is parsing `a` then parsing `b`: the input order is kept |
| `Tags.ParseTagsSingle` | public/js/main.js:517 | a comma-free input parses to its trimmed self, or to nothing when blank |
| `Tags.ParseTagsLeadingSpace` | public/js/main.js:517 | a leading space in the tag field changes nothing |
| `Tags.ParseJoinNormalises` | public/js/main.js:435 | parsing `tags.join(', ')` for comma-free tags gives the tags trimmed, with the blank ones dropped |
| `Tags.ParseJoinRoundTrip` | public/js/main.js:517 | parsing `tags.join(', ')` gives `tags` back when every tag is non-empty, trimmed and comma-free |
| `Tags.WellFormedNormal` | public/js/main.js:517 | trimming and filtering leave well-formed tags unchanged |
| `Tags.ParseTagsIdempotent` | public/js/main.js:517 | saving a form whose tag field was filled from parsed tags parses to the same tags |
| `Tags.AddTagsSpec` | public/js/main.js:232-236 | adding one note's tags keeps the index duplicate-free and adds exactly the non-empty trimmed tags |
| `Tags.TagIndexSpec` | public/js/main.js:228-238 | the index has no duplicates and holds exactly the non-empty `trim(tag)` over all tags of all notes of the snapshot |
| `Tags.BelowIrreflexive` | public/js/main.js:259 | the string order used by `sort()` is irreflexive |
| `Tags.BelowAsymmetric` | public/js/main.js:259 | the string order is asymmetric |
| `Tags.BelowTransitive` | public/js/main.js:259 | the string order is transitive |
| `Tags.BelowTotal` | public/js/main.js:259 | any two different strings are ordered one way or the other |
| `Tags.FrontStaysAscending` | public/js/main.js:259 | putting a tag in front of an ascending list whose head is not below it keeps the list ascending |
| `Tags.ConsStaysAscending` | public/js/main.js:259 | keeping a smaller head in front of an ascending insertion result keeps the list ascending |
| `Tags.InsertAscending` | public/js/main.js:259 | insertion adds exactly one copy of the tag and keeps an ascending list ascending |
| `Tags.SortTags` | public/js/main.js:259 | `sort()` returns a permutation of the tags, in ascending order |
| `Tags.RenderTagsSpec` | public/js/main.js:241-272 | "All Notes" comes first and is highlighted exactly when no tag is active; then each indexed tag appears exactly once, strictly ascending, captioned `#tag`, highlighted exactly when active, and selecting that tag when clicked |
| `Tags.SortedDistinct` | public/js/main.js:259 | sorting a duplicate-free index yields no duplicates |
| `Tags.OccursOnce` | public/js/main.js:259 | a duplicate-free list holds each value at most once |
| `Client.Preview` | public/js/main.js:317 | content of at most 100 characters is shown whole; longer content shows its first 100 characters followed by "..." |
| `Client.SplitFirst` | public/js/main.js:204 | splitting at the first `?` gives the part before it, without `?`, and the rest when it occurs |
| `Client.SplitFirstAt` | public/js/main.js:204 | the first occurrence of the separator decides the split |
| `Client.SplitFirstAbsent` | public/js/main.js:204 | a URL without `?` has no query part |
| `Client.ParseOneParam` | public/js/main.js:200 | `key=value` reads back as that single parameter |
| `Client.ParseQueryUrl` | public/js/main.js:197 | the notes path followed by `?` and a query reads back as the notes path with that query's parameters |
| `Client.TagAndSearchUrl` | public/js/main.js:199-206 | `?tag=…&search=…` reads back as the tag parameter then the search parameter |
| `Client.TagOnlyUrl` | public/js/main.js:199-201 | `?tag=…` reads back as the tag parameter alone |
| `Client.SearchOnlyUrl` | public/js/main.js:203-206 | `?search=…` reads back as the search parameter alone |
| `Client.BareUrl` | public/js/main.js:197 | the bare notes path carries no parameters |
| `Client.OneParam` | public/js/main.js:200 | a URL with one parameter reads back as that parameter |
| `Client.BothParams` | public/js/main.js:205 | a URL with a tag and a search parameter reads back as both, in that order |
| `Client.BuildListUrl` | public/js/main.js:197-206 | the URL is the notes path with a `tag` parameter exactly when a tag is active and a `search` parameter (of the trimmed text) exactly when that text is non-empty, tag first; it contains `?` exactly when it carries a parameter |
| `Client.FindById` | public/js/main.js:428 | the note found is the first in the list with that id; nothing is found exactly when no listed note has the id |
| `Client.EditUnchangedRoundTrip` | public/js/main.js:427-435 | opening a listed note in the form and saving it unchanged sends a PUT to that note with its title and content and its tags trimmed and blank-free; tags already in that form are sent back unchanged |
| `Client.EditMissingCreates` | public/js/main.js:427-430 | a form opened for a note not in the list stays blank and submits as a new note with no tags |
| `Client.ClientState.constructor` | public/js/main.js:36-40 | no user, no notes, no tags, no active tag, no open note |
| `Client.ClientState.CollectTags` | public/js/main.js:228-238 | the tag index is rebuilt from the current notes alone |
| `Client.ClientState.NotesFetched` | public/js/main.js:211-218 | a successful fetch replaces the snapshot wholesale and rebuilds the index, so a tag survives only if a note of the new snapshot carries it; a failed fetch changes nothing |
| `Client.ClientState.SignedIn` | public/js/main.js:58-59 | a successful session probe, login or registration makes the reported user current; a failure leaves it |
| `Client.ClientState.LoggedOut` | public/js/main.js:177-183 | a successful logout clears the user and the snapshot and nothing else; a failed one changes nothing |
| `Client.ClientState.NoteOpened` | public/js/main.js:377-379 | a successful detail fetch makes that note the open one |
| `Client.ClientState.Back` | public/js/main.js:415-418 | the back button closes the open note |
| `Client.ClientState.NoteDeleted` | public/js/main.js:471-476 | a successful delete closes the open note; a failed one leaves it open |
| `Client.ClientState.SelectTag` | public/js/main.js:251-253 | clicking "All Notes" clears the tag filter and clicking `#tag` selects that tag |

## Left out

- The `$text` search of the document store (`server/routes/notes.js:17-19`) is a parameter `textMatch`. Tokenising, stemming and stop words belong to the database.
- The `models/Note` schema is not part of this model. Validation is modelled as "owner, title and content are required, and title and content are non-empty"; `updatedAt` is not modelled.
- Fresh note ids are a parameter (`newId`), and so is the creation time (`now`). An id already in the store makes create fail.
- `NotesRoutes.NoteStore.Update` folds schema validation on update (`runValidators`) into the write-fault flag rather than modelling the validators.
- A malformed id, which makes `findById` throw a cast error, is covered by the read-fault flag: it answers 500.
- Query parameters given twice (which Express delivers as arrays) are not modelled; `tag` and `search` are optional strings.
- `server/server.js` (session store, static files, route mounting, `listen`) is not part of this model.
- The login and register routes are not part of this model. `SignedIn` stands for the three handlers that accept a user (main.js lines 58-59, 111-112, 152-153).
- Everything about the DOM is left out: element building, CSS classes, animations, theme, flash messages, markdown and highlighting.
- `fetch` and the asynchronous interleaving of handlers are left out. Each handler is one atomic step, and a response is the `Reply` it receives.
- After a successful save, the client re-fetches an open note and the list (`public/js/main.js:559-564`). These are calls to the fetch handlers already modelled; the sequencing itself is not modelled.
- `encodeURIComponent` is a parameter `encode`. The model assumes only that its output holds no `?` and no `&`.
- How the server reads the URL back is a small model of its own: path, then `&`-separated `key=value` pairs after the first `?`. It is not Express's query parser.
- `Tags.SortTags` orders strings by code point, where JavaScript's default `sort()` compares UTF-16 code units. The two orders differ only for characters outside the Basic Multilingual Plane.
- `Client.Preview` counts code points, where `substring` and `length` count UTF-16 code units. The two differ only for characters outside the Basic Multilingual Plane.
- `JsText.TrimStartSpec`: whitespace is the ECMAScript WhiteSpace and LineTerminator set listed in `IsWhitespace`, taken as a fixed list rather than the Unicode "Space_Separator" category.
- A note body carries only `user`, `title`, `content` and `tags`. Other fields that a client could send are not modelled.
