/** sources.json: bibliographic sources, de-duplicated on the exact title and numbered `s001`, ... */
module Sources {
  import opened Model
  import opened DisplayIds

  function SourceIds(sources: seq<Source>): (ids: seq<string>)
    ensures |ids| == |sources| && forall i :: 0 <= i < |sources| ==> ids[i] == sources[i].sourceId
  {
    seq(|sources|, i requires 0 <= i < |sources| => sources[i].sourceId)
  }

  predicate HasTitle(sources: seq<Source>, title: string)
  {
    exists i :: 0 <= i < |sources| && sources[i].title == title
  }

  predicate TitlesUnique(sources: seq<Source>)
  {
    forall i, j :: 0 <= i < j < |sources| ==> sources[i].title != sources[j].title
  }

  predicate IdsUnique(sources: seq<Source>)
  {
    forall i, j :: 0 <= i < j < |sources| ==> sources[i].sourceId != sources[j].sourceId
  }

  method GetNextSourceID(sources: seq<Source>) returns (id: string)
    ensures id == NextId("s", SourceIds(sources))
    ensures MaxSuffix("s", SourceIds(sources)) < MaxInt64 ==> forall i :: 0 <= i < |sources| ==> sources[i].sourceId != id
  {
    id := NextIdScan("s", SourceIds(sources));
    if MaxSuffix("s", SourceIds(sources)) < MaxInt64 {
      NextIdFresh("s", SourceIds(sources));
    }
  }

  /** Adds a source unless one with the same title exists; whatever ID it came with is replaced by the next `s` ID. */
  method InsertSourceToJson(sources: seq<Source>, source: Source) returns (updated: seq<Source>)
    ensures HasTitle(sources, source.title) ==> updated == sources
    ensures !HasTitle(sources, source.title) ==>
      updated == sources + [source.(sourceId := NextId("s", SourceIds(sources)))]
    ensures HasTitle(updated, source.title)
    ensures TitlesUnique(sources) ==> TitlesUnique(updated)
    ensures MaxSuffix("s", SourceIds(sources)) < MaxInt64 && IdsUnique(sources) ==> IdsUnique(updated)
  {
    var i := 0;
    while i < |sources|
      invariant 0 <= i <= |sources|
      invariant forall j :: 0 <= j < i ==> sources[j].title != source.title
    {
      if source.title == sources[i].title {
        return sources;
      }
      i := i + 1;
    }
    var newId := GetNextSourceID(sources);
    updated := sources + [source.(sourceId := newId)];
    assert updated[|sources|].title == source.title;
  }
}
