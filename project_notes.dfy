/** project_notes.json: the edges between projects and notes, added at most once per pair. */
module ProjectNotes {
  import opened Model

  predicate HasPair(projectNotes: seq<ProjectNote>, pn: ProjectNote)
  {
    exists i :: 0 <= i < |projectNotes| && projectNotes[i].noteId == pn.noteId && projectNotes[i].projectId == pn.projectId
  }

  predicate PairsUnique(projectNotes: seq<ProjectNote>)
  {
    forall i, j :: 0 <= i < j < |projectNotes| ==> projectNotes[i] != projectNotes[j]
  }

  method InsertProjectNoteToJson(projectNotes: seq<ProjectNote>, pn: ProjectNote) returns (updated: seq<ProjectNote>)
    ensures HasPair(projectNotes, pn) ==> updated == projectNotes
    ensures !HasPair(projectNotes, pn) ==> updated == projectNotes + [pn]
    ensures pn in updated
    ensures PairsUnique(projectNotes) ==> PairsUnique(updated)
  {
    var i := 0;
    while i < |projectNotes|
      invariant 0 <= i <= |projectNotes|
      invariant forall j :: 0 <= j < i ==> !(projectNotes[j].noteId == pn.noteId && projectNotes[j].projectId == pn.projectId)
    {
      if projectNotes[i].noteId == pn.noteId && projectNotes[i].projectId == pn.projectId {
        assert projectNotes[i] == pn;
        return projectNotes;
      }
      i := i + 1;
    }
    updated := projectNotes + [ProjectNote(pn.projectId, pn.noteId)];
  }
}
