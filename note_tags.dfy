/**
 * note_tags.json: the edges between notes (by timestamp ID) and tags (by
 * `t...` ID). Tagging a note by tag name walks the tags in order; every tag
 * with that name adds an edge, unless the note already has an edge to one of
 * them, in which case nothing at all is written.
 */
module NoteTags {
  import opened Wrappers
  import opened Model

  predicate HasPair(noteTags: seq<NoteTag>, noteId: string, tagId: string)
  {
    exists i :: 0 <= i < |noteTags| && noteTags[i].noteId == noteId && noteTags[i].tagId == tagId
  }

  predicate PairsUnique(noteTags: seq<NoteTag>)
  {
    forall i, j :: 0 <= i < j < |noteTags| ==> noteTags[i] != noteTags[j]
  }

  /**
   * The edges after visiting the tags from index `k` on, starting from `acc`;
   * `None` when a visit found the edge already present and gave up.
   */
  function Tagged(noteId: string, name: string, tags: seq<Tag>, k: nat, acc: seq<NoteTag>): Option<seq<NoteTag>>
    requires k <= |tags|
    decreases |tags| - k
  {
    if k == |tags| then Some(acc)
    else if tags[k].name != name then Tagged(noteId, name, tags, k + 1, acc)
    else if HasPair(acc, noteId, tags[k].id) then None
    else Tagged(noteId, name, tags, k + 1, acc + [NoteTag(noteId, tags[k].id)])
  }

  /** `written` is false when the pair was found and the file left alone. */
  method InsertNoteTag(noteId: string, name: string, tags: seq<Tag>, noteTags: seq<NoteTag>)
    returns (updated: seq<NoteTag>, written: bool)
    ensures written <==> Tagged(noteId, name, tags, 0, noteTags).Some?
    ensures updated == if written then Tagged(noteId, name, tags, 0, noteTags).value else noteTags
  {
    var acc := noteTags;
    var k := 0;
    while k < |tags|
      invariant 0 <= k <= |tags|
      invariant Tagged(noteId, name, tags, 0, noteTags) == Tagged(noteId, name, tags, k, acc)
    {
      if name == tags[k].name {
        var j := 0;
        while j < |acc|
          invariant 0 <= j <= |acc|
          invariant forall m :: 0 <= m < j ==> !(acc[m].noteId == noteId && acc[m].tagId == tags[k].id)
        {
          if acc[j].noteId == noteId && acc[j].tagId == tags[k].id {
            return noteTags, false;
          }
          j := j + 1;
        }
        acc := acc + [NoteTag(noteId, tags[k].id)];
      }
      k := k + 1;
    }
    return acc, true;
  }

  /** Tagging never creates a duplicate edge, and keeps the edges it started with in front. */
  lemma {:induction false} TaggedKeepsPairsUnique(noteId: string, name: string, tags: seq<Tag>, k: nat, acc: seq<NoteTag>)
    requires k <= |tags| && PairsUnique(acc)
    ensures Tagged(noteId, name, tags, k, acc).Some? ==>
      PairsUnique(Tagged(noteId, name, tags, k, acc).value) && acc <= Tagged(noteId, name, tags, k, acc).value
    decreases |tags| - k
  {
    if k < |tags| && tags[k].name == name && !HasPair(acc, noteId, tags[k].id) {
      var next := acc + [NoteTag(noteId, tags[k].id)];
      assert PairsUnique(next);
      TaggedKeepsPairsUnique(noteId, name, tags, k + 1, next);
    } else if k < |tags| && tags[k].name != name {
      TaggedKeepsPairsUnique(noteId, name, tags, k + 1, acc);
    }
  }

  /** Every edge tagging adds points from the note to a tag carrying the requested name. */
  lemma {:induction false} TaggedAddsOnlyNamed(noteId: string, name: string, tags: seq<Tag>, k: nat, acc: seq<NoteTag>)
    requires k <= |tags|
    ensures Tagged(noteId, name, tags, k, acc).Some? ==>
      var r := Tagged(noteId, name, tags, k, acc).value;
      acc <= r && forall i :: |acc| <= i < |r| ==>
        r[i].noteId == noteId && exists t :: 0 <= t < |tags| && tags[t].id == r[i].tagId && tags[t].name == name
    decreases |tags| - k
  {
    if k < |tags| && tags[k].name == name && !HasPair(acc, noteId, tags[k].id) {
      var next := acc + [NoteTag(noteId, tags[k].id)];
      TaggedAddsOnlyNamed(noteId, name, tags, k + 1, next);
      if Tagged(noteId, name, tags, k, acc).Some? {
        var r := Tagged(noteId, name, tags, k, acc).value;
        assert next <= r;
        assert r[|acc|] == next[|acc|];
      }
    } else if k < |tags| && tags[k].name != name {
      TaggedAddsOnlyNamed(noteId, name, tags, k + 1, acc);
    }
  }

  /**
   * With tag names unique, tagging adds the single edge to the tag of that
   * name if the note lacks it, gives up if the note has it, and writes the
   * edges back unchanged when no tag has that name.
   */
  lemma {:induction false} TaggedWithUniqueNames(noteId: string, name: string, tags: seq<Tag>, k: nat, acc: seq<NoteTag>)
    requires k <= |tags|
    requires forall i, j :: k <= i < j < |tags| ==> tags[i].name != tags[j].name
    ensures (forall t :: k <= t < |tags| ==> tags[t].name != name) ==> Tagged(noteId, name, tags, k, acc) == Some(acc)
    ensures forall t :: k <= t < |tags| && tags[t].name == name ==>
      Tagged(noteId, name, tags, k, acc) ==
        if HasPair(acc, noteId, tags[t].id) then None else Some(acc + [NoteTag(noteId, tags[t].id)])
    decreases |tags| - k
  {
    if k < |tags| {
      if tags[k].name == name {
        NoOtherName(noteId, name, tags, k + 1, acc + [NoteTag(noteId, tags[k].id)]);
      } else {
        TaggedWithUniqueNames(noteId, name, tags, k + 1, acc);
      }
    }
  }

  lemma {:induction false} NoOtherName(noteId: string, name: string, tags: seq<Tag>, k: nat, acc: seq<NoteTag>)
    requires k <= |tags|
    requires forall t :: k <= t < |tags| ==> tags[t].name != name
    ensures Tagged(noteId, name, tags, k, acc) == Some(acc)
    decreases |tags| - k
  {
    if k < |tags| {
      NoOtherName(noteId, name, tags, k + 1, acc);
    }
  }
}
