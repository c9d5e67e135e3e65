/**
 * The browser client: note previews, the list URL, the note form, and the
 * state variables its event handlers reset or replace.
 */
module Client {
  import opened NoteModel
  import opened JsText
  import opened Tags

  // ---------------------------------------------------------------------
  // Note cards

  const PreviewLength := 100

  /** `content.substring(0, 100) + (content.length > 100 ? '...' : '')` */
  function Preview(content: string): (p: string)
    ensures |content| <= PreviewLength ==> p == content
    ensures |content| > PreviewLength ==>
              |p| == PreviewLength + 3 && p[..PreviewLength] == content[..PreviewLength] && p[PreviewLength..] == "..."
    ensures |p| <= PreviewLength + 3
  {
    if |content| > PreviewLength then content[..PreviewLength] + "..." else content
  }

  // ---------------------------------------------------------------------
  // The list URL (`fetchNotes`)

  const NotesPath := "/api/notes"

  /** What `encodeURIComponent` returns is free of the characters that delimit a query. */
  predicate QuerySafe(s: string)
  {
    '?' !in s && '&' !in s
  }

  datatype Param = Param(key: string, value: string)

  /** Splits at the first `c`: the part before it, and the part after it if `c` occurs. */
  function SplitFirst(s: string, c: char): (r: (string, Option<string>))
    ensures r.1.None? ==> r.0 == s && c !in s
    ensures r.1.Some? ==> s == r.0 + [c] + r.1.value && c !in r.0
  {
    if s == [] then ([], None)
    else if s[0] == c then
      assert s == [] + [c] + s[1..];
      ([], Some(s[1..]))
    else
      var (before, after) := SplitFirst(s[1..], c);
      assert s == [s[0]] + s[1..];
      ([s[0]] + before, after)
  }

  /** `key=value`, split at the first `=`. */
  function ParseParam(p: string): Param
  {
    match SplitFirst(p, '=')
    case (k, None) => Param(k, "")
    case (k, Some(v)) => Param(k, v)
  }

  /** How a server reads a URL: the path, then `&`-separated parameters after the first `?`. */
  function ParseUrl(url: string): (string, seq<Param>)
  {
    match SplitFirst(url, '?')
    case (path, None) => (path, [])
    case (path, Some(query)) => (path, ParseQuery(query))
  }

  /**
   * The parameters the list request is meant to carry: `tag` when a tag is
   * active, `search` when the trimmed search text is not empty, in that order.
   */
  function ListParams(activeTag: Option<string>, searchValue: string, encode: string -> string): seq<Param>
  {
    (if Given(activeTag) then [Param("tag", encode(activeTag.value))] else [])
    + (if Trim(searchValue) != "" then [Param("search", encode(Trim(searchValue)))] else [])
  }

  lemma {:induction false} SplitFirstAt(a: string, c: char, b: string)
    requires c !in a
    ensures SplitFirst(a + [c] + b, c) == (a, Some(b))
  {
    if a == [] {
      assert a + [c] + b == [c] + b;
      assert ([c] + b)[1..] == b;
    } else {
      assert (a + [c] + b)[0] == a[0];
      assert (a + [c] + b)[1..] == a[1..] + [c] + b;
      assert c !in a[1..];
      SplitFirstAt(a[1..], c, b);
      assert [a[0]] + a[1..] == a;
    }
  }

  lemma SplitFirstAbsent(a: string, c: char)
    requires c !in a
    ensures SplitFirst(a, c) == (a, None)
  {
  }

  /** The query string of a single `key=value` pair. */
  lemma ParseOneParam(key: string, value: string)
    requires '=' !in key && '&' !in key && '&' !in value
    ensures Split(key + "=" + value, '&') == [key + "=" + value]
    ensures ParseParam(key + "=" + value) == Param(key, value)
  {
    var p := key + "=" + value;
    assert forall i :: 0 <= i < |p| ==> p[i] != '&' by {
      forall i | 0 <= i < |p| ensures p[i] != '&' {
        if i < |key| { assert p[i] == key[i]; }
        else if i > |key| { assert p[i] == value[i - |key| - 1]; }
      }
    }
    SplitWithoutSep(p, '&');
    assert p == key + ['='] + value;
    SplitFirstAt(key, '=', value);
  }

  /** The parsed form of `?` followed by a query string. */
  lemma ParseQueryUrl(q: string)
    ensures ParseUrl(NotesPath + "?" + q) == (NotesPath, ParseQuery(q))
  {
    assert '?' !in NotesPath;
    assert NotesPath + "?" + q == NotesPath + ['?'] + q;
    SplitFirstAt(NotesPath, '?', q);
  }

  function ParseQuery(q: string): seq<Param>
  {
    var parts := Split(q, '&');
    seq(|parts|, i requires 0 <= i < |parts| => ParseParam(parts[i]))
  }

  /**
   * `fetchNotes` builds the URL by appending: `?tag=` when a tag is active,
   * then `search=` behind `&` or `?`, whichever the URL needs. Read back,
   * the URL is the notes path with exactly the intended parameters.
   */
  method BuildListUrl(activeTag: Option<string>, searchValue: string, encode: string -> string)
    returns (url: string)
    requires forall s :: QuerySafe(encode(s))
    ensures ParseUrl(url) == (NotesPath, ListParams(activeTag, searchValue, encode))
    ensures '?' in url <==> ListParams(activeTag, searchValue, encode) != []
  {
    url := NotesPath;
    ghost var tagPart := "";
    if Given(activeTag) {
      tagPart := "?tag=" + encode(activeTag.value);
      url := url + "?tag=" + encode(activeTag.value);
      assert url[|NotesPath|] == '?';
    } else {
      assert '?' !in NotesPath;
    }
    assert url == NotesPath + tagPart;
    var term := Trim(searchValue);
    ghost var searchPart := "";
    if term != "" {
      var separator := if '?' in url then "&" else "?";
      assert separator == if Given(activeTag) then "&" else "?";
      searchPart := separator + "search=" + encode(term);
      url := url + separator + "search=" + encode(term);
    }
    assert url == NotesPath + tagPart + searchPart;
    ghost var params := ListParams(activeTag, searchValue, encode);
    if Given(activeTag) && term != "" {
      var t, e := encode(activeTag.value), encode(term);
      assert url == NotesPath + ("?tag=" + t) + ("&" + "search=" + e);
      assert params == [Param("tag", t)] + [Param("search", e)];
      TagAndSearchUrl(t, e);
    } else if Given(activeTag) {
      var t := encode(activeTag.value);
      assert url == NotesPath + ("?tag=" + t) + "";
      assert params == [Param("tag", t)] + [];
      TagOnlyUrl(t);
    } else if term != "" {
      var e := encode(term);
      assert url == NotesPath + "" + ("?" + "search=" + e);
      assert params == [] + [Param("search", e)];
      SearchOnlyUrl(e);
    } else {
      assert url == NotesPath + "" + "";
      assert params == [];
      BareUrl();
    }
  }

  lemma TagAndSearchUrl(t: string, e: string)
    requires QuerySafe(t) && QuerySafe(e)
    ensures var url := NotesPath + ("?tag=" + t) + ("&" + "search=" + e);
      ParseUrl(url) == (NotesPath, [Param("tag", t)] + [Param("search", e)]) && '?' in url
  {
    assert "?tag=" + t == "?" + ("tag" + "=" + t);
    assert "&" + "search=" + e == ['&'] + ("search" + "=" + e);
    assert NotesPath + ("?tag=" + t) + ("&" + "search=" + e)
        == NotesPath + "?" + (("tag" + "=" + t) + ['&'] + ("search" + "=" + e));
    BothParams(t, e);
    assert [Param("tag", t)] + [Param("search", e)] == [Param("tag", t), Param("search", e)];
  }

  lemma TagOnlyUrl(t: string)
    requires QuerySafe(t)
    ensures var url := NotesPath + ("?tag=" + t) + "";
      ParseUrl(url) == (NotesPath, [Param("tag", t)] + []) && '?' in url
  {
    assert NotesPath + ("?tag=" + t) + "" == NotesPath + "?" + ("tag" + "=" + t);
    OneParam("tag", t);
    assert [Param("tag", t)] + [] == [Param("tag", t)];
  }

  lemma SearchOnlyUrl(e: string)
    requires QuerySafe(e)
    ensures var url := NotesPath + "" + ("?" + "search=" + e);
      ParseUrl(url) == (NotesPath, [] + [Param("search", e)]) && '?' in url
  {
    assert NotesPath + "" + ("?" + "search=" + e) == NotesPath + "?" + ("search" + "=" + e);
    OneParam("search", e);
    assert [] + [Param("search", e)] == [Param("search", e)];
  }

  lemma BareUrl()
    ensures var url := NotesPath + "" + "";
      ParseUrl(url) == (NotesPath, []) && '?' !in url
  {
    assert '?' !in NotesPath;
    SplitFirstAbsent(NotesPath, '?');
    assert NotesPath + "" + "" == NotesPath;
  }

  lemma OneParam(key: string, v: string)
    requires key == "tag" || key == "search"
    requires QuerySafe(v)
    ensures ParseUrl(NotesPath + "?" + (key + "=" + v)) == (NotesPath, [Param(key, v)])
    ensures '?' in NotesPath + "?" + (key + "=" + v)
  {
    var q := key + "=" + v;
    ParseQueryUrl(q);
    ParseOneParam(key, v);
    assert Split(q, '&') == [q];
    assert |ParseQuery(q)| == 1;
    assert ParseQuery(q)[0] == ParseParam(q);
    assert ParseParam(q) == Param(key, v);
    assert ParseQuery(q) == [Param(key, v)];
    assert (NotesPath + "?" + q)[|NotesPath|] == '?';
  }

  lemma BothParams(t: string, e: string)
    requires QuerySafe(t) && QuerySafe(e)
    ensures var q := ("tag" + "=" + t) + ['&'] + ("search" + "=" + e);
      && ParseUrl(NotesPath + "?" + q) == (NotesPath, [Param("tag", t), Param("search", e)])
      && '?' in NotesPath + "?" + q
  {
    var a, b := "tag" + "=" + t, "search" + "=" + e;
    var q := a + ['&'] + b;
    ParseQueryUrl(q);
    SplitAppend(a, b, '&');
    ParseOneParam("tag", t);
    ParseOneParam("search", e);
    assert Split(q, '&') == [a, b];
    assert |ParseQuery(q)| == 2;
    assert ParseQuery(q)[0] == ParseParam(a) == Param("tag", t);
    assert ParseQuery(q)[1] == ParseParam(b) == Param("search", e);
    assert ParseQuery(q) == [Param("tag", t), Param("search", e)];
    assert (NotesPath + "?" + q)[|NotesPath|] == '?';
  }

  // ---------------------------------------------------------------------
  // The note form

  /** The four inputs of the note form; an empty `id` means a new note. */
  datatype NoteForm = NoteForm(id: string, title: string, content: string, tags: string)

  const BlankForm := NoteForm("", "", "", "")

  /** What the form submits: POST for a new note, PUT to the note's URL for an edit. */
  datatype Submission = PostNote(body: NoteBody) | PutNote(id: NoteId, body: NoteBody)

  /** `notes.find(n => n._id === noteId)`: the first note with that id, scanning from the front. */
  function FindById(notes: seq<Note>, id: NoteId): (r: Option<Note>)
    ensures r.Some? ==> r.value in notes && r.value.id == id
    ensures r.None? <==> forall n :: n in notes ==> n.id != id
    ensures r.Some? ==> exists k :: 0 <= k < |notes| && notes[k] == r.value
                                    && forall j :: 0 <= j < k ==> notes[j].id != id
  {
    if notes == [] then None
    else if notes[0].id == id then Some(notes[0])
    else
      assert forall n :: n in notes ==> n == notes[0] || n in notes[1..];
      var r := FindById(notes[1..], id);
      if r.Some? then
        var k :| 0 <= k < |notes[1..]| && notes[1..][k] == r.value
                 && forall j :: 0 <= j < k ==> notes[1..][j].id != id;
        assert notes[k + 1] == r.value;
        assert forall j :: 0 <= j < k + 1 ==> notes[j].id != id by {
          forall j | 0 <= j < k + 1 ensures notes[j].id != id {
            if j > 0 { assert notes[j] == notes[1..][j - 1]; }
          }
        }
        r
      else r
  }

  /**
   * `showNoteModal(noteId)`: the form is reset, then filled from the note in
   * the current list when one with that id is found.
   */
  function ShowNoteModal(notes: seq<Note>, noteId: Option<NoteId>): NoteForm
  {
    if Given(noteId) then
      match FindById(notes, noteId.value)
      case Some(n) => NoteForm(n.id, n.title, n.content, JoinTags(n.tags))
      case None => BlankForm
    else BlankForm
  }

  /** The note form's submit handler: the request it sends. */
  function SubmitNoteForm(form: NoteForm): Submission
  {
    var body := NoteBody(None, Some(form.title), Some(form.content), Some(ParseTags(form.tags)));
    if form.id != "" then PutNote(form.id, body) else PostNote(body)
  }

  /**
   * Opening a listed note for editing and saving it unchanged sends a PUT to
   * that note with its title and content, and with its tags trimmed and the
   * blank ones dropped; tags already in that form come back unchanged.
   */
  lemma EditUnchangedRoundTrip(notes: seq<Note>, id: NoteId)
    requires id != ""
    requires FindById(notes, id).Some?
    requires forall t :: t in FindById(notes, id).value.tags ==> ',' !in t
    ensures var n := FindById(notes, id).value;
      SubmitNoteForm(ShowNoteModal(notes, Some(id)))
        == PutNote(id, NoteBody(None, Some(n.title), Some(n.content), Some(DropEmpty(TrimAll(n.tags)))))
    ensures var n := FindById(notes, id).value;
      (forall t :: t in n.tags ==> WellFormedTag(t)) ==>
        SubmitNoteForm(ShowNoteModal(notes, Some(id)))
          == PutNote(id, NoteBody(None, Some(n.title), Some(n.content), Some(n.tags)))
  {
    var n := FindById(notes, id).value;
    ParseJoinNormalises(n.tags);
    if forall t :: t in n.tags ==> WellFormedTag(t) {
      ParseJoinRoundTrip(n.tags);
    }
  }

  /** A form opened for a note that is not in the list stays blank and submits as a new note. */
  lemma EditMissingCreates(notes: seq<Note>, id: NoteId)
    requires FindById(notes, id).None?
    ensures SubmitNoteForm(ShowNoteModal(notes, Some(id))) == PostNote(NoteBody(None, Some(""), Some(""), Some([])))
  {
    assert Split("", ',') == [""];
    assert TrimAll([""]) == [Trim("")] + TrimAll([]);
    assert [""][1..] == [];
  }

  // ---------------------------------------------------------------------
  // Client state

  /** The signed-in user as `/api/auth/me`, login and register report it. */
  datatype User = User(id: UserId, name: string)

  /** The outcome of a request as a handler sees it: `success` with its data, or a failure of any kind. */
  datatype Reply<T> = Succeeded(data: T) | Failed

  class ClientState {
    var currentUser: Option<User>
    var notes: seq<Note>
    var allTags: seq<string>
    var activeTag: Option<string>
    var currentNoteId: Option<NoteId>

    constructor ()
      ensures currentUser == None && notes == [] && allTags == []
      ensures activeTag == None && currentNoteId == None
    {
      currentUser := None;
      notes := [];
      allTags := [];
      activeTag := None;
      currentNoteId := None;
    }

    /** `collectTags`: rebuilds the tag index from the notes alone, starting from an empty set. */
    method CollectTags()
      modifies this`allTags
      ensures allTags == TagIndex(notes)
    {
      var index: seq<string> := [];
      var i := 0;
      while i < |notes|
        invariant 0 <= i <= |notes|
        invariant index == TagIndex(notes[..i])
      {
        var tags := notes[i].tags;
        var j := 0;
        while j < |tags|
          invariant 0 <= j <= |tags|
          invariant index == AddTags(TagIndex(notes[..i]), tags[..j])
        {
          assert tags[..j + 1][..j] == tags[..j];
          index := AddTag(index, tags[j]);
          j := j + 1;
        }
        assert notes[..i + 1][..i] == notes[..i];
        assert tags[..j] == tags;
        i := i + 1;
      }
      assert notes[..i] == notes;
      allTags := index;
    }

    /**
     * A list response: on success the snapshot is replaced wholesale and the
     * tag index rebuilt from it, so a tag survives only if some note of the
     * new snapshot still carries it; on failure nothing changes.
     */
    method NotesFetched(reply: Reply<seq<Note>>)
      modifies this
      ensures reply.Succeeded? ==> notes == reply.data && allTags == TagIndex(reply.data)
      ensures reply.Succeeded? ==> forall t :: t in allTags <==> t != "" && Occurs(reply.data, t)
      ensures reply.Failed? ==> notes == old(notes) && allTags == old(allTags)
      ensures currentUser == old(currentUser) && activeTag == old(activeTag)
      ensures currentNoteId == old(currentNoteId)
    {
      if reply.Succeeded? {
        notes := reply.data;
        CollectTags();
        TagIndexSpec(notes);
      }
    }

    /** Session probe, login or registration: on success the reported user becomes current. */
    method SignedIn(reply: Reply<User>)
      modifies this`currentUser
      ensures currentUser == if reply.Succeeded? then Some(reply.data) else old(currentUser)
    {
      if reply.Succeeded? {
        currentUser := Some(reply.data);
      }
    }

    /** Logout: on success the user and the snapshot are dropped; nothing else is reset. */
    method LoggedOut(reply: Reply<()>)
      modifies this
      ensures reply.Succeeded? ==> currentUser == None && notes == []
      ensures reply.Failed? ==> currentUser == old(currentUser) && notes == old(notes)
      ensures allTags == old(allTags) && activeTag == old(activeTag) && currentNoteId == old(currentNoteId)
    {
      if reply.Succeeded? {
        currentUser := None;
        notes := [];
      }
    }

    /** A note detail response: on success that note becomes the open one. */
    method NoteOpened(reply: Reply<Note>)
      modifies this`currentNoteId
      ensures currentNoteId == if reply.Succeeded? then Some(reply.data.id) else old(currentNoteId)
    {
      if reply.Succeeded? {
        currentNoteId := Some(reply.data.id);
      }
    }

    /** The back button closes the detail view. */
    method Back()
      modifies this`currentNoteId
      ensures currentNoteId == None
    {
      currentNoteId := None;
    }

    /** A delete response: on success the detail view closes (a list fetch follows). */
    method NoteDeleted(reply: Reply<()>)
      modifies this`currentNoteId
      ensures currentNoteId == if reply.Succeeded? then None else old(currentNoteId)
    {
      if reply.Succeeded? {
        currentNoteId := None;
      }
    }

    /** A click on a tag button: "All Notes" clears the filter, `#tag` selects that tag. */
    method SelectTag(button: TagButton)
      modifies this`activeTag
      ensures activeTag == button.filter
    {
      activeTag := button.filter;
    }
  }
}
