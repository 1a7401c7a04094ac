/** tags.json: tags are created by name, de-duplicated on the exact name, and numbered `t001`, `t002`, ... */
module Tags {
  import opened Model
  import opened DisplayIds

  function TagIds(tags: seq<Tag>): (ids: seq<string>)
    ensures |ids| == |tags| && forall i :: 0 <= i < |tags| ==> ids[i] == tags[i].id
  {
    seq(|tags|, i requires 0 <= i < |tags| => tags[i].id)
  }

  predicate HasName(tags: seq<Tag>, name: string)
  {
    exists i :: 0 <= i < |tags| && tags[i].name == name
  }

  predicate NamesUnique(tags: seq<Tag>)
  {
    forall i, j :: 0 <= i < j < |tags| ==> tags[i].name != tags[j].name
  }

  predicate IdsUnique(tags: seq<Tag>)
  {
    forall i, j :: 0 <= i < j < |tags| ==> tags[i].id != tags[j].id
  }

  /** Below the 64-bit limit, the numbering can go on. */
  predicate CanAllocate(tags: seq<Tag>)
  {
    MaxSuffix("t", TagIds(tags)) < MaxInt64
  }

  method GetNextTagID(tags: seq<Tag>) returns (id: string)
    ensures id == NextId("t", TagIds(tags))
    ensures CanAllocate(tags) ==> forall i :: 0 <= i < |tags| ==> tags[i].id != id
  {
    id := NextIdScan("t", TagIds(tags));
    if CanAllocate(tags) {
      NextIdFresh("t", TagIds(tags));
    }
  }

  /** Appending a freshly numbered tag advances the numbering by one and keeps IDs distinct. */
  lemma AppendAllocated(tags: seq<Tag>, name: string)
    requires CanAllocate(tags)
    ensures var updated := tags + [Tag(NextId("t", TagIds(tags)), name)];
      MaxSuffix("t", TagIds(updated)) == MaxSuffix("t", TagIds(tags)) + 1
      && (IdsUnique(tags) ==> IdsUnique(updated))
  {
    var updated := tags + [Tag(NextId("t", TagIds(tags)), name)];
    assert TagIds(updated) == TagIds(tags) + [NextId("t", TagIds(tags))];
    NextIdAdvances("t", TagIds(tags));
    NextIdFresh("t", TagIds(tags));
  }

  /** Adds a tag unless one with the same name exists; the new tag gets the next `t` ID. */
  method InsertTagToJson(tags: seq<Tag>, tag: Tag) returns (updated: seq<Tag>)
    ensures HasName(tags, tag.name) ==> updated == tags
    ensures !HasName(tags, tag.name) ==> updated == tags + [Tag(NextId("t", TagIds(tags)), tag.name)]
    ensures HasName(updated, tag.name)
    ensures NamesUnique(tags) ==> NamesUnique(updated)
    ensures CanAllocate(tags) && IdsUnique(tags) ==> IdsUnique(updated)
    ensures CanAllocate(tags) ==> MaxSuffix("t", TagIds(updated)) <= MaxSuffix("t", TagIds(tags)) + 1
  {
    var i := 0;
    while i < |tags|
      invariant 0 <= i <= |tags|
      invariant forall j :: 0 <= j < i ==> tags[j].name != tag.name
    {
      if tag.name == tags[i].name {
        return tags;
      }
      i := i + 1;
    }
    var newId := GetNextTagID(tags);
    updated := tags + [tag.(id := newId)];
    assert updated[|tags|].name == tag.name;
    if CanAllocate(tags) {
      AppendAllocated(tags, tag.name);
    }
  }

  /** What one step of `CreateNewTag` keeps true. */
  lemma CreateStep(tags: seq<Tag>, before: seq<Tag>, after: seq<Tag>, names: seq<string>, k: nat, newId: string)
    requires k < |names| && tags <= before
    requires forall m :: 0 <= m < k ==> HasName(before, names[m])
    requires forall i :: |tags| <= i < |before| ==> before[i].name in names[..k] && !HasName(tags, before[i].name)
    requires after == before || (after == before + [Tag(newId, names[k])] && !HasName(before, names[k]))
    requires HasName(after, names[k])
    ensures tags <= after
    ensures forall m :: 0 <= m < k + 1 ==> HasName(after, names[m])
    ensures forall i :: |tags| <= i < |after| ==> after[i].name in names[..k + 1] && !HasName(tags, after[i].name)
  {
    assert names[..k + 1] == names[..k] + [names[k]];
    forall m | 0 <= m < k
      ensures HasName(after, names[m])
    {
      var j :| 0 <= j < |before| && before[j].name == names[m];
      assert after[j] == before[j];
    }
  }

  /** Creates each named tag in turn; names that already exist are skipped. */
  method CreateNewTag(names: seq<string>, tags: seq<Tag>) returns (updated: seq<Tag>)
    ensures tags <= updated
    ensures forall k :: 0 <= k < |names| ==> HasName(updated, names[k])
    ensures forall i :: |tags| <= i < |updated| ==> updated[i].name in names && !HasName(tags, updated[i].name)
    ensures NamesUnique(tags) ==> NamesUnique(updated)
    ensures MaxSuffix("t", TagIds(tags)) + |names| < MaxInt64 && IdsUnique(tags) ==> IdsUnique(updated)
  {
    updated := tags;
    var k := 0;
    ghost var bounded := MaxSuffix("t", TagIds(tags)) + |names| < MaxInt64;
    while k < |names|
      invariant 0 <= k <= |names|
      invariant tags <= updated
      invariant forall m :: 0 <= m < k ==> HasName(updated, names[m])
      invariant forall i :: |tags| <= i < |updated| ==> updated[i].name in names[..k] && !HasName(tags, updated[i].name)
      invariant NamesUnique(tags) ==> NamesUnique(updated)
      invariant bounded ==> MaxSuffix("t", TagIds(updated)) <= MaxSuffix("t", TagIds(tags)) + k
      invariant bounded && IdsUnique(tags) ==> IdsUnique(updated)
    {
      var before := updated;
      updated := InsertTagToJson(before, Tag("", names[k]));
      CreateStep(tags, before, updated, names, k, NextId("t", TagIds(before)));
      k := k + 1;
    }
    assert names[..k] == names;
  }
}
