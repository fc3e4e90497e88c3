/** The notes page's data logic: the case-insensitive search, the content
    preview of a card, and the hint shown when no card is listed. */
module NotesPage {
  import opened Js
  import opened Seqs
  import opened ClientRecords

  const PREVIEW_LENGTH: nat := 100
  const ELLIPSIS := "..."
  const HINT_SEARCHING := "Try a different search term"
  const HINT_EMPTY := "Get started by creating your first note"

  /** The title or the content contains the search term, both lowercased. */
  predicate Matches(n: NoteCard, searchTerm: string)
  {
    Includes(Lower(n.title), Lower(searchTerm)) || Includes(Lower(n.content), Lower(searchTerm))
  }

  /** `filteredNotes`: the notes whose title or content contains the search
      term, in their original order. */
  function FilteredNotes(notes: seq<NoteCard>, searchTerm: string): (r: seq<NoteCard>)
    ensures forall n :: n in r <==>
      n in notes && (Occurs(Lower(n.title), Lower(searchTerm)) || Occurs(Lower(n.content), Lower(searchTerm)))
    ensures Subsequence(r, notes)
    ensures searchTerm == "" ==> r == notes
  {
    var r := Filter(notes, (n: NoteCard) => Matches(n, searchTerm));
    if searchTerm == "" then
      forall n | n in notes ensures Matches(n, searchTerm) {
        IncludesEmpty(Lower(n.title));
      }
      FilterAll(notes, (n: NoteCard) => Matches(n, searchTerm));
      r
    else r
  }

  /** `content.substring(0, 100)` followed by `"..."` when the content is longer than 100. */
  function Preview(content: string): (r: string)
    ensures |content| <= PREVIEW_LENGTH ==> r == content
    ensures |content| > PREVIEW_LENGTH ==>
      |r| == PREVIEW_LENGTH + |ELLIPSIS| && r[..PREVIEW_LENGTH] == content[..PREVIEW_LENGTH] && r[PREVIEW_LENGTH..] == ELLIPSIS
  {
    if |content| > PREVIEW_LENGTH then content[..PREVIEW_LENGTH] + ELLIPSIS else content
  }

  /** A preview never shows more than 100 characters of content, and always
      starts with as much of it as fits. */
  lemma PreviewKeepsPrefix(content: string)
    ensures |Preview(content)| <= PREVIEW_LENGTH + |ELLIPSIS|
    ensures Preview(content)[..Min(PREVIEW_LENGTH, |content|)] == content[..Min(PREVIEW_LENGTH, |content|)]
  {
  }

  /** The hint under "No notes found". */
  function EmptyStateHint(searchTerm: string): (r: string)
    ensures r == HINT_SEARCHING <==> searchTerm != ""
    ensures r == HINT_EMPTY <==> searchTerm == ""
  {
    if searchTerm != "" then HINT_SEARCHING else HINT_EMPTY
  }

  /** With no search term the page lists nothing only when there are no notes,
      so the "first note" hint is never shown over existing notes. */
  lemma EmptyListWithoutTerm(notes: seq<NoteCard>)
    ensures FilteredNotes(notes, "") == [] ==> notes == []
  {
  }
}
