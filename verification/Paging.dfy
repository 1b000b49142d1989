/** Offset paging over a sorted list, as the list tools answer it. */
module Paging {

  datatype Next = Last | More(offset: nat)

  /** `next` is More exactly when the response says it is truncated. */
  datatype Page<T> = Page(total: nat, items: seq<T>, next: Next)

  function PageOf<T>(entries: seq<T>, offset: nat, limit: nat): Page<T> {
    if offset < |entries| then
      var end := if offset + limit < |entries| then offset + limit else |entries|;
      Page(|entries|, entries[offset..end], if end < |entries| then More(end) else Last)
    else Page(|entries|, [], Last)
  }

  /** What a client collects that follows next_offset from `offset`, asking for
      `limit(o)` entries at offset `o`, when the server lists `lists(o)` at that
      moment. The fuel is the number of requests it makes at most. */
  function Followed<T>(lists: nat -> seq<T>, limit: nat -> nat, offset: nat, requests: nat): (seq<T>, Next)
    decreases requests
  {
    if requests == 0 then ([], More(offset))
    else
      var page := PageOf(lists(offset), offset, limit(offset));
      match page.next
      case Last => (page.items, Last)
      case More(o) => var (rest, next) := Followed(lists, limit, o, requests - 1); (page.items + rest, next)
  }

  /** Following next_offset ends after at most one request per remaining entry,
      and the pages together are the rest of the list, each entry once, whatever
      the limits and however they vary; it is enough that every request is
      answered from the same list. */
  lemma {:induction false} PagesAreTheList<T>(entries: seq<T>, lists: nat -> seq<T>, limit: nat -> nat, offset: nat, requests: nat)
    requires forall o :: lists(o) == entries
    requires forall o :: limit(o) >= 1
    requires offset <= |entries| && requests > |entries| - offset
    ensures Followed(lists, limit, offset, requests) == (entries[offset..], Last)
    decreases requests
  {
    assert lists(offset) == entries && limit(offset) >= 1;
    var page := PageOf(entries, offset, limit(offset));
    if page.next.More? {
      PagesAreTheList(entries, lists, limit, page.next.offset, requests - 1);
      assert entries[offset..] == entries[offset..page.next.offset] + entries[page.next.offset..];
    } else {
      assert page.items == entries[offset..];
    }
  }

  /** A page is as long as its limit allows: it stops short only at the end of the
      list, it holds the entries from the offset on, and it says how many there are
      in all and where the next page starts, if there is one. */
  lemma PageIsFull<T>(entries: seq<T>, offset: nat, limit: nat)
    ensures var page := PageOf(entries, offset, limit);
            && page.total == |entries|
            && (offset >= |entries| ==> page.items == [] && page.next == Last)
            && (offset < |entries| <= offset + limit ==> page.items == entries[offset..] && page.next == Last)
            && (offset + limit < |entries| ==> page.items == entries[offset..offset + limit] && page.next == More(offset + limit))
  {
  }
}
