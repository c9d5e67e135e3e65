/**
 * Client-side tag handling: the comma-separated tag field of the note form,
 * the tag index rebuilt after every list fetch, and the sorted tag buttons.
 */
module Tags {
  import opened NoteModel
  import opened JsText

  /** `tags.map(tag => tag.trim())` */
  function TrimAll(parts: seq<string>): (r: seq<string>)
    ensures |r| == |parts|
    ensures forall i :: 0 <= i < |r| ==> r[i] == Trim(parts[i])
  {
    if parts == [] then [] else [Trim(parts[0])] + TrimAll(parts[1..])
  }

  /** `.filter(tag => tag)`: drops the empty strings and keeps the order. */
  function DropEmpty(parts: seq<string>): (r: seq<string>)
    ensures forall t :: t in r <==> t in parts && t != ""
  {
    if parts == [] then []
    else if parts[0] == "" then DropEmpty(parts[1..])
    else [parts[0]] + DropEmpty(parts[1..])
  }

  /** The tag input of the note form: `value.split(',').map(trim).filter(nonEmpty)`. */
  function ParseTags(input: string): seq<string>
  {
    DropEmpty(TrimAll(Split(input, ',')))
  }

  /** What the edit form shows in its tag field: `note.tags.join(', ')`. */
  function JoinTags(tags: seq<string>): string
  {
    Join(tags, ", ")
  }

  /** A tag as the form produces it: trimmed, non-empty and free of commas. */
  predicate WellFormedTag(t: string)
  {
    t != "" && IsTrimmed(t) && ',' !in t
  }

  lemma {:induction false} TrimAllAppend(a: seq<string>, b: seq<string>)
    ensures TrimAll(a + b) == TrimAll(a) + TrimAll(b)
  {
    if a != [] {
      assert (a + b)[1..] == a[1..] + b;
      TrimAllAppend(a[1..], b);
    } else {
      assert a + b == b;
    }
  }

  lemma {:induction false} DropEmptyAppend(a: seq<string>, b: seq<string>)
    ensures DropEmpty(a + b) == DropEmpty(a) + DropEmpty(b)
  {
    if a != [] {
      assert (a + b)[1..] == a[1..] + b;
      DropEmptyAppend(a[1..], b);
    } else {
      assert a + b == b;
    }
  }

  /** Every parsed tag is trimmed, non-empty and free of commas. */
  lemma ParseTagsWellFormed(input: string)
    ensures forall t :: t in ParseTags(input) ==> WellFormedTag(t)
  {
    var parts := Split(input, ',');
    forall t | t in ParseTags(input) ensures WellFormedTag(t) {
      var i :| 0 <= i < |parts| && TrimAll(parts)[i] == t;
      TrimIsTrimmed(parts[i]);
      if ',' in t {
        TrimKeepsChars(parts[i], ',');
      }
    }
  }

  /** Parsing keeps the input order: a comma splits the input into independently parsed halves. */
  lemma ParseTagsAppend(a: string, b: string)
    ensures ParseTags(a + "," + b) == ParseTags(a) + ParseTags(b)
  {
    SplitAppend(a, b, ',');
    TrimAllAppend(Split(a, ','), Split(b, ','));
    DropEmptyAppend(TrimAll(Split(a, ',')), TrimAll(Split(b, ',')));
  }

  /** Without a comma the field holds at most one tag: the trimmed input, unless it is blank. */
  lemma ParseTagsSingle(input: string)
    requires ',' !in input
    ensures ParseTags(input) == if Trim(input) == "" then [] else [Trim(input)]
  {
    SplitWithoutSep(input, ',');
    var t := Trim(input);
    assert TrimAll([input]) == [t] + TrimAll([]);
    assert [t][1..] == [];
    assert DropEmpty([t]) == if t == "" then DropEmpty([]) else [t] + DropEmpty([]);
  }

  /** Leading whitespace of the field is never part of a tag. */
  lemma ParseTagsLeadingSpace(input: string)
    ensures ParseTags(" " + input) == ParseTags(input)
  {
    var rest := Split(input, ',');
    assert (" " + input)[1..] == input;
    assert Split(" " + input, ',') == [" " + rest[0]] + rest[1..];
    TrimLeadingSpace(rest[0]);
    assert rest == [rest[0]] + rest[1..];
  }

  /**
   * Prefilling the form with `join(', ')` and parsing it again yields the
   * tags trimmed, with the blank ones dropped.
   */
  lemma {:induction false} ParseJoinNormalises(tags: seq<string>)
    requires forall t :: t in tags ==> ',' !in t
    ensures ParseTags(JoinTags(tags)) == DropEmpty(TrimAll(tags))
  {
    if tags == [] {
      assert Split("", ',') == [""];
    } else if |tags| == 1 {
      ParseTagsSingle(tags[0]);
    } else {
      var rest := Join(tags[1..], ", ");
      assert JoinTags(tags) == tags[0] + "," + (" " + rest);
      ParseTagsAppend(tags[0], " " + rest);
      ParseTagsLeadingSpace(rest);
      assert forall t :: t in tags[1..] ==> t in tags;
      ParseJoinNormalises(tags[1..]);
      ParseTagsSingle(tags[0]);
      assert tags == [tags[0]] + tags[1..];
      TrimAllAppend([tags[0]], tags[1..]);
      DropEmptyAppend([Trim(tags[0])], TrimAll(tags[1..]));
    }
  }

  /** Round trip: well-formed tags survive `join(', ')` followed by parsing unchanged. */
  lemma {:induction false} ParseJoinRoundTrip(tags: seq<string>)
    requires forall t :: t in tags ==> WellFormedTag(t)
    ensures ParseTags(JoinTags(tags)) == tags
  {
    ParseJoinNormalises(tags);
    WellFormedNormal(tags);
  }

  lemma {:induction false} WellFormedNormal(tags: seq<string>)
    requires forall t :: t in tags ==> WellFormedTag(t)
    ensures DropEmpty(TrimAll(tags)) == tags
  {
    if tags != [] {
      assert tags[0] in tags;
      assert forall t :: t in tags[1..] ==> t in tags;
      WellFormedNormal(tags[1..]);
      TrimOfTrimmed(tags[0]);
      assert TrimAll(tags) == [tags[0]] + TrimAll(tags[1..]);
      assert tags == [tags[0]] + tags[1..];
    }
  }

  /** Saving an edited note without touching the tag field keeps the parsed tags. */
  lemma ParseTagsIdempotent(input: string)
    ensures ParseTags(JoinTags(ParseTags(input))) == ParseTags(input)
  {
    ParseTagsWellFormed(input);
    ParseJoinRoundTrip(ParseTags(input));
  }

  // ---------------------------------------------------------------------
  // The tag index (`collectTags`): a JavaScript Set, kept here as a
  // duplicate-free sequence in insertion order, as `Array.from` sees it.

  predicate NoDuplicates(s: seq<string>)
  {
    forall i, j :: 0 <= i < j < |s| ==> s[i] != s[j]
  }

  /** `if (tag.trim()) allTags.add(tag.trim())` */
  function AddTag(index: seq<string>, tag: string): seq<string>
  {
    var t := Trim(tag);
    if t == "" || t in index then index else index + [t]
  }

  /** Adds the tags of one note, in order. */
  function AddTags(index: seq<string>, tags: seq<string>): seq<string>
  {
    if tags == [] then index else AddTag(AddTags(index, tags[..|tags| - 1]), tags[|tags| - 1])
  }

  /** The tag index of a snapshot of notes, built from an empty set. */
  function TagIndex(notes: seq<Note>): seq<string>
  {
    if notes == [] then [] else AddTags(TagIndex(notes[..|notes| - 1]), notes[|notes| - 1].tags)
  }

  /** Some tag of the list trims to `t`. */
  ghost predicate HasTag(tags: seq<string>, t: string)
  {
    exists j :: 0 <= j < |tags| && Trim(tags[j]) == t
  }

  /** Some note of the snapshot carries a tag that trims to `t`. */
  ghost predicate Occurs(notes: seq<Note>, t: string)
  {
    exists i, j :: 0 <= i < |notes| && 0 <= j < |notes[i].tags| && Trim(notes[i].tags[j]) == t
  }

  lemma {:induction false} AddTagsSpec(index: seq<string>, tags: seq<string>)
    requires NoDuplicates(index)
    ensures NoDuplicates(AddTags(index, tags))
    ensures forall t :: t in AddTags(index, tags) <==> t in index || (t != "" && HasTag(tags, t))
  {
    if tags != [] {
      var init := tags[..|tags| - 1];
      AddTagsSpec(index, init);
      forall t ensures HasTag(tags, t) <==> HasTag(init, t) || Trim(tags[|tags| - 1]) == t
      {
        if HasTag(tags, t) {
          var j :| 0 <= j < |tags| && Trim(tags[j]) == t;
          if j < |init| { assert init[j] == tags[j]; }
        }
        if HasTag(init, t) {
          var j :| 0 <= j < |init| && Trim(init[j]) == t;
          assert tags[j] == init[j];
        }
      }
    }
  }

  /**
   * The tag index is duplicate-free and holds exactly the non-empty trimmed
   * tags of the current snapshot: nothing from an earlier snapshot survives.
   */
  lemma {:induction false} TagIndexSpec(notes: seq<Note>)
    ensures NoDuplicates(TagIndex(notes))
    ensures forall t :: t in TagIndex(notes) <==> t != "" && Occurs(notes, t)
  {
    if notes != [] {
      var init := notes[..|notes| - 1];
      var last := notes[|notes| - 1];
      TagIndexSpec(init);
      AddTagsSpec(TagIndex(init), last.tags);
      forall t ensures Occurs(notes, t) <==> Occurs(init, t) || HasTag(last.tags, t)
      {
        if Occurs(notes, t) {
          var i, j :| 0 <= i < |notes| && 0 <= j < |notes[i].tags| && Trim(notes[i].tags[j]) == t;
          if i < |init| { assert init[i] == notes[i]; }
        }
        if Occurs(init, t) {
          var i, j :| 0 <= i < |init| && 0 <= j < |init[i].tags| && Trim(init[i].tags[j]) == t;
          assert notes[i] == init[i];
        }
        if HasTag(last.tags, t) {
          var j :| 0 <= j < |last.tags| && Trim(last.tags[j]) == t;
          assert notes[|notes| - 1] == last;
        }
      }
    }
  }

  // ---------------------------------------------------------------------
  // `Array.from(allTags).sort()`: JavaScript compares strings element by
  // element; here the elements are Dafny characters.

  /** Strict lexicographic order on strings. */
  predicate Below(a: string, b: string)
  {
    if a == [] then b != []
    else if b == [] then false
    else if a[0] != b[0] then a[0] < b[0]
    else Below(a[1..], b[1..])
  }

  lemma {:induction false} BelowIrreflexive(a: string)
    ensures !Below(a, a)
  {
    if a != [] { BelowIrreflexive(a[1..]); }
  }

  lemma {:induction false} BelowAsymmetric(a: string, b: string)
    requires Below(a, b)
    ensures !Below(b, a)
  {
    if a != [] && b != [] && a[0] == b[0] { BelowAsymmetric(a[1..], b[1..]); }
  }

  lemma {:induction false} BelowTransitive(a: string, b: string, c: string)
    requires Below(a, b) && Below(b, c)
    ensures Below(a, c)
  {
    if a != [] && b != [] && c != [] && a[0] == b[0] && b[0] == c[0] {
      BelowTransitive(a[1..], b[1..], c[1..]);
    }
  }

  lemma {:induction false} BelowTotal(a: string, b: string)
    requires a != b
    ensures Below(a, b) || Below(b, a)
  {
    if a != [] && b != [] && a[0] == b[0] {
      assert a == [a[0]] + a[1..] && b == [b[0]] + b[1..];
      BelowTotal(a[1..], b[1..]);
    }
  }

  predicate Ascending(s: seq<string>)
  {
    forall i, j :: 0 <= i < j < |s| ==> !Below(s[j], s[i])
  }

  /** Putting `t` in front keeps the order when the old front is not below it. */
  lemma FrontStaysAscending(t: string, s: seq<string>)
    requires s == [] || !Below(s[0], t)
    ensures Ascending(s) ==> Ascending([t] + s)
  {
    if s != [] && Ascending(s) {
      forall k | 0 <= k < |s| ensures !Below(s[k], t) {
        if Below(s[k], t) && s[0] != t {
          BelowTotal(s[0], t);
          BelowTransitive(s[k], t, s[0]);
        }
      }
      assert forall i :: 1 <= i < |[t] + s| ==> ([t] + s)[i] == s[i - 1];
    }
  }

  /** Keeping the old front ahead of a sorted insertion into the rest keeps the order. */
  lemma ConsStaysAscending(s: seq<string>, t: string, rest: seq<string>)
    requires s != [] && Below(s[0], t)
    requires multiset(rest) == multiset(s[1..]) + multiset{t}
    requires Ascending(s[1..]) ==> Ascending(rest)
    ensures Ascending(s) ==> Ascending([s[0]] + rest)
  {
    if Ascending(s) {
      BelowAsymmetric(s[0], t);
      forall k | 0 <= k < |rest| ensures !Below(rest[k], s[0]) {
        assert rest[k] in multiset(rest);
        if rest[k] != t {
          assert rest[k] in multiset(s[1..]);
          var m :| 0 <= m < |s[1..]| && s[1..][m] == rest[k];
          assert s[m + 1] == rest[k];
        }
      }
      assert forall i :: 1 <= i < |[s[0]] + rest| ==> ([s[0]] + rest)[i] == rest[i - 1];
    }
  }

  function InsertAscending(t: string, s: seq<string>): (r: seq<string>)
    ensures multiset(r) == multiset(s) + multiset{t}
    ensures Ascending(s) ==> Ascending(r)
  {
    if s == [] || !Below(s[0], t) then
      FrontStaysAscending(t, s);
      [t] + s
    else
      var rest := InsertAscending(t, s[1..]);
      ConsStaysAscending(s, t, rest);
      assert s == [s[0]] + s[1..];
      [s[0]] + rest
  }

  /** The ascending order of a sequence of tags. */
  function SortTags(s: seq<string>): (r: seq<string>)
    ensures multiset(r) == multiset(s)
    ensures Ascending(r)
  {
    if s == [] then [] else
      assert s == [s[0]] + s[1..];
      InsertAscending(s[0], SortTags(s[1..]))
  }

  /** One button of the tag list: its label, the filter it selects and whether it is highlighted. */
  datatype TagButton = TagButton(caption: string, filter: Option<string>, active: bool)

  const AllNotesLabel := "All Notes"

  /** `renderTags`: "All Notes" first, then `#tag` for each indexed tag in sorted order. */
  function RenderTags(allTags: seq<string>, activeTag: Option<string>): seq<TagButton>
  {
    var sorted := SortTags(allTags);
    [TagButton(AllNotesLabel, None, activeTag == None)]
      + seq(|sorted|, i requires 0 <= i < |sorted| =>
              TagButton("#" + sorted[i], Some(sorted[i]), activeTag == Some(sorted[i])))
  }

  /**
   * The rendered list starts with "All Notes", which is highlighted exactly
   * when no tag is active; then each indexed tag appears once, in strictly
   * ascending order, labelled `#tag` and highlighted exactly when it is the
   * active tag.
   */
  lemma RenderTagsSpec(allTags: seq<string>, activeTag: Option<string>)
    requires NoDuplicates(allTags)
    ensures var b := RenderTags(allTags, activeTag);
      && |b| == |allTags| + 1
      && b[0] == TagButton(AllNotesLabel, None, activeTag == None)
      && (forall i :: 1 <= i < |b| ==>
            b[i].filter.Some? && b[i].filter.value in allTags
            && b[i].caption == "#" + b[i].filter.value
            && b[i].active == (activeTag == b[i].filter))
      && (forall t :: t in allTags ==> exists i :: 1 <= i < |b| && b[i].filter == Some(t))
      && (forall i, j :: 1 <= i < j < |b| ==> Below(b[i].filter.value, b[j].filter.value))
  {
    var sorted := SortTags(allTags);
    var b := RenderTags(allTags, activeTag);
    assert |sorted| == |allTags| by {
      assert |multiset(sorted)| == |multiset(allTags)|;
    }
    forall i | 1 <= i < |b| ensures b[i].filter == Some(sorted[i - 1]) && sorted[i - 1] in allTags {
      assert sorted[i - 1] in multiset(sorted);
    }
    forall t | t in allTags ensures exists i :: 1 <= i < |b| && b[i].filter == Some(t) {
      assert t in multiset(sorted);
      var k :| 0 <= k < |sorted| && sorted[k] == t;
      assert b[k + 1].filter == Some(t);
    }
    forall i, j | 0 <= i < j < |sorted| ensures Below(sorted[i], sorted[j]) {
      assert sorted[i] != sorted[j] by { SortedDistinct(allTags, sorted, i, j); }
      BelowTotal(sorted[i], sorted[j]);
    }
  }

  /** A permutation of a duplicate-free sequence is duplicate-free. */
  lemma SortedDistinct(s: seq<string>, p: seq<string>, i: int, j: int)
    requires NoDuplicates(s) && multiset(p) == multiset(s)
    requires 0 <= i < j < |p|
    ensures p[i] != p[j]
  {
    if p[i] == p[j] {
      var x := p[i];
      assert multiset(p)[x] >= 2 by {
        assert p == p[..i] + [x] + p[i + 1..j] + [x] + p[j + 1..];
      }
      OccursOnce(s, x);
    }
  }

  lemma {:induction false} OccursOnce(s: seq<string>, x: string)
    requires NoDuplicates(s)
    ensures multiset(s)[x] <= 1
  {
    if s != [] {
      assert s == [s[0]] + s[1..];
      OccursOnce(s[1..], x);
      if s[0] == x {
        forall k | 0 <= k < |s| - 1 ensures s[1..][k] != x {
          assert s[1..][k] == s[k + 1];
        }
        assert x !in s[1..];
      }
    }
  }
}
