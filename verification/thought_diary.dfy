/** The CBT thought diary: a six-field form saved as a new entry at the top
    of a list, entries deleted by id, and the list mirrored to storage
    while it is non-empty. */
module ThoughtDiary {
  import opened Base
  import EntryStore

  datatype Entry = Entry(
    id: string,
    date: string,
    situation: string,
    emotion: string,
    automaticThought: string,
    evidenceFor: string,
    evidenceAgainst: string,
    rationalResponse: string)

  /** The partially filled form: a field is `None` until first typed in. */
  datatype Draft = Draft(
    situation: Option<string>,
    emotion: Option<string>,
    automaticThought: Option<string>,
    evidenceFor: Option<string>,
    evidenceAgainst: Option<string>,
    rationalResponse: Option<string>)

  const EmptyDraft: Draft := Draft(None, None, None, None, None, None)

  datatype State = State(
    entries: seq<Entry>,
    showForm: bool,
    draft: Draft,
    expandedId: Option<string>,
    stored: Option<seq<Entry>>)

  function EntryId(e: Entry): string
  {
    e.id
  }

  /** A form field passes validation when it is present and not the empty
      string; whitespace alone passes, since nothing is trimmed. */
  predicate Filled(f: Option<string>)
  {
    f.Some? && f.value != ""
  }

  /** The form's six fields, in the order the form shows them. */
  function Fields(d: Draft): seq<Option<string>>
  {
    [d.situation, d.emotion, d.automaticThought, d.evidenceFor, d.evidenceAgainst, d.rationalResponse]
  }

  /** Saving is allowed only when every one of the six fields holds a
      non-empty string; the cleared form never qualifies. */
  predicate Complete(d: Draft)
    ensures Complete(d) <==> forall i :: 0 <= i < |Fields(d)| ==> Fields(d)[i].Some? && |Fields(d)[i].value| > 0
    ensures d == EmptyDraft ==> !Complete(d)
  {
    var fs := Fields(d);
    assert fs[0] == d.situation && fs[1] == d.emotion && fs[2] == d.automaticThought;
    assert fs[3] == d.evidenceFor && fs[4] == d.evidenceAgainst && fs[5] == d.rationalResponse;
    && Filled(d.situation) && Filled(d.emotion) && Filled(d.automaticThought)
    && Filled(d.evidenceFor) && Filled(d.evidenceAgainst) && Filled(d.rationalResponse)
  }

  /** The entry a complete draft becomes, with the clock's id and date. */
  function EntryOf(d: Draft, id: string, date: string): (e: Entry)
    requires Complete(d)
    ensures e.id == id && e.date == date
    ensures Some(e.situation) == d.situation && Some(e.emotion) == d.emotion
    ensures Some(e.automaticThought) == d.automaticThought && Some(e.evidenceFor) == d.evidenceFor
    ensures Some(e.evidenceAgainst) == d.evidenceAgainst && Some(e.rationalResponse) == d.rationalResponse
  {
    Entry(id, date, d.situation.value, d.emotion.value, d.automaticThought.value,
          d.evidenceFor.value, d.evidenceAgainst.value, d.rationalResponse.value)
  }

  /** "Сохранить запись", with `id` and `date` standing for `Date.now()` and
      today's date.  An incomplete draft is rejected and nothing changes.
      Otherwise the new entry goes on top, the old ones follow in order,
      the form is cleared and closed, and the list is stored. */
  function Save(s: State, id: string, date: string): (t: State)
    ensures !Complete(s.draft) ==> t == s
    ensures Complete(s.draft) ==>
              && |t.entries| == |s.entries| + 1
              && t.entries[0] == EntryOf(s.draft, id, date)
              && t.entries[1..] == s.entries
              && t.draft == EmptyDraft && !t.showForm
              && t.expandedId == s.expandedId
              && t.stored == Some(t.entries)
  {
    if !Complete(s.draft) then s
    else
      var entries := [EntryOf(s.draft, id, date)] + s.entries;
      s.(entries := entries, draft := EmptyDraft, showForm := false,
         stored := EntryStore.Persist(s.stored, entries))
  }

  /** Deleting: every entry with the id goes, the rest keep their order; an
      expanded entry that is deleted is collapsed.  The list is stored only
      if something is left, so deleting the last entry leaves the previous
      snapshot in storage. */
  function Delete(s: State, id: string): (t: State)
    ensures t.entries == EntryStore.RemoveId(s.entries, EntryId, id)
    ensures forall i :: 0 <= i < |t.entries| ==> t.entries[i].id != id
    ensures (forall i :: 0 <= i < |s.entries| ==> s.entries[i].id != id) ==> t.entries == s.entries
    ensures t.expandedId == (if s.expandedId == Some(id) then None else s.expandedId)
    ensures t.stored == (if |t.entries| > 0 then Some(t.entries) else s.stored)
    ensures t.draft == s.draft && t.showForm == s.showForm
  {
    var entries := EntryStore.RemoveId(s.entries, EntryId, id);
    s.(entries := entries,
       expandedId := if s.expandedId == Some(id) then None else s.expandedId,
       stored := EntryStore.Persist(s.stored, entries))
  }

  /** Clicking an entry's header expands it, or collapses it if it was the
      expanded one. */
  function ToggleExpanded(s: State, id: string): (t: State)
    ensures t.expandedId == Some(id) <==> s.expandedId != Some(id)
    ensures t.expandedId == None || t.expandedId == Some(id)
    ensures t.(expandedId := s.expandedId) == s
  {
    s.(expandedId := if s.expandedId == Some(id) then None else Some(id))
  }

  /** The component as mounted over the stored snapshot. */
  function Mount(stored: Option<seq<Entry>>): (s: State)
    ensures s.entries == EntryStore.Load(stored) && s.stored == stored
    ensures s.draft == EmptyDraft && !s.showForm && s.expandedId == None
  {
    State(EntryStore.Load(stored), false, EmptyDraft, None, stored)
  }

  /** Saving with a fresh id and then deleting that id gives back the old
      list. */
  lemma SaveThenDelete(s: State, id: string, date: string)
    requires Complete(s.draft)
    requires forall i :: 0 <= i < |s.entries| ==> s.entries[i].id != id
    ensures Delete(Save(s, id, date), id).entries == s.entries
  {
    EntryStore.PrependThenRemove(EntryOf(s.draft, id, date), s.entries, EntryId);
  }

  /** Deleting an id twice is the same as deleting it once. */
  lemma DeleteIdempotent(s: State, id: string)
    ensures Delete(Delete(s, id), id).entries == Delete(s, id).entries
  {
    EntryStore.RemoveIdIdempotent(s.entries, EntryId, id);
  }

  /** As long as the list is non-empty, a reload shows exactly the list. */
  lemma ReloadKeepsNonEmpty(s: State, id: string)
    requires |Delete(s, id).entries| > 0
    ensures Mount(Delete(s, id).stored).entries == Delete(s, id).entries
  {
  }

  /** Deleting the only entry empties the list but not the storage: a
      reload brings the entry back. */
  lemma LastDeleteComesBack(e: Entry, s: State)
    requires s.entries == [e] && s.stored == Some([e])
    ensures Delete(s, e.id).entries == []
    ensures Mount(Delete(s, e.id).stored).entries == [e]
  {
  }

  /** Validation does not trim: a draft of blank-but-non-empty fields is
      saved. */
  lemma BlankFieldsAccepted(s: State, id: string, date: string)
    requires s.draft == Draft(Some(" "), Some(" "), Some(" "), Some(" "), Some(" "), Some(" "))
    ensures |Save(s, id, date).entries| == |s.entries| + 1
    ensures Save(s, id, date).entries[0].situation == " "
  {
  }
}
