/** How the browser's requests meet the backend's endpoints: what the chat page
    sends to `/api/query` and `/api/filter` is never refused. */
module Protocol {
  import opened Wrappers
  import opened Text
  import Chat
  import Backend

  /** The page sends a query only when its trimmed text is non-empty, so `/api/query`
      never answers with "No query provided". */
  lemma SentQueryAnswered(draft: string, run: string -> string)
    requires JsTrim(draft) != []
    ensures Backend.Query(Some(JsTrim(draft)), run) == Backend.Answered(run(JsTrim(draft)))
  {
  }

  /** The page collects exactly the non-empty fields; `/api/filter` refuses the
      collected map exactly when every field was empty, which is the case the page
      answers with an alert instead of sending. */
  lemma CollectedFiltersRefusedIffEmpty(t: Backend.Table, f: Chat.FilterFields)
    ensures Backend.FilterSpec(t, Some(Chat.CollectFilters(f))).NoFilters? <==> Chat.AllEmpty(f)
  {
    Chat.CollectFiltersEmpty(f);
  }

  /** Every filter name the page sends is one `/api/filter` has candidate columns for. */
  lemma CollectedKeysRead(f: Chat.FilterFields)
    ensures forall k :: k in Chat.CollectFilters(f) ==> Backend.CandidateColumns(k) != []
  {
    Chat.CollectFiltersMeaning(f);
  }
}
