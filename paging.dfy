/**
  The interactive list's cursor (`RlContext` in main.go): the unacknowledged
  conversations fetched at start-up, shown `pageSize` at a time, with a cursor
  `curIdx` on the current page `curPage` and the set of positions
  acknowledged during the session.
*/
module Paging {
  import opened Wrappers
  import opened TextOrder
  import opened Store
  import StoreProperties

  /** One line `doList` prints: its number on the page, the cursor mark, the acknowledged mark, the name. */
  datatype ListLine = ListLine(number: int, selected: bool, acknowledged: bool, displayName: string)

  class RlContext {
    var unackedConversations: seq<AcknowledgedConversation>
    var pageSize: int
    var curPage: int
    var curIdx: int
    var acked: map<int, bool>
    const db: SlackBoxDB

    /**
      The paging invariant: the current page starts inside the list and, when
      the list is not empty, the cursor lies on the current page.
    */
    ghost predicate Valid()
      reads this
    {
      && pageSize > 0
      && curPage >= 0
      && curPage * pageSize <= |unackedConversations|
      && (|unackedConversations| == 0 ==> curIdx == 0)
      && (|unackedConversations| > 0 ==> curPage * pageSize <= curIdx < CalcPageIdxs().1)
    }

    /** The context `rlLoop` builds: first page, first item, two items per page, nothing acknowledged. */
    constructor (db: SlackBoxDB, unackedConversations: seq<AcknowledgedConversation>)
      ensures Valid()
      ensures this.db == db && this.unackedConversations == unackedConversations
      ensures pageSize == 2 && curPage == 0 && curIdx == 0 && acked == map[]
    {
      this.db := db;
      this.unackedConversations := unackedConversations;
      pageSize := 2;
      curPage := 0;
      curIdx := 0;
      acked := map[];
    }

    /** The bounds [start, end) of the current page: `end` is the smaller of `start + pageSize` and the length. */
    function CalcPageIdxs(): (r: (int, int))
      reads this
      ensures r.0 == curPage * pageSize
      ensures r.1 <= r.0 + pageSize && r.1 <= |unackedConversations|
      ensures r.1 == r.0 + pageSize || r.1 == |unackedConversations|
    {
      var start := curPage * pageSize;
      var end := if start + pageSize >= |unackedConversations| then |unackedConversations| else start + pageSize;
      (start, end)
    }

    /** Turns to the next page, with the cursor on its first item, unless this is the last page. */
    method NextPage()
      modifies this`curIdx, this`curPage
      ensures var end := old(CalcPageIdxs()).1;
        if end < |unackedConversations| then curPage == old(curPage) + 1 && curIdx == end
        else curPage == old(curPage) && curIdx == old(curIdx)
      ensures old(curPage) <= curPage
      ensures old(Valid()) ==> Valid() && old(curIdx) <= curIdx
    {
      var (_, end) := CalcPageIdxs();
      if end < |unackedConversations| {
        curPage := curPage + 1;
        assert curPage * pageSize == (curPage - 1) * pageSize + pageSize;
        var (start, _) := CalcPageIdxs();
        curIdx := start;
      }
    }

    /**
      Moves the cursor down one item, turning the page when the cursor leaves
      it. On a valid context this is exactly one step forward, or nothing on
      the last item of the list.
    */
    method Next()
      modifies this`curIdx, this`curPage
      ensures var end := old(CalcPageIdxs()).1;
        if old(curIdx) + 1 < end then curIdx == old(curIdx) + 1 && curPage == old(curPage)
        else if end < |unackedConversations| then curPage == old(curPage) + 1 && curIdx == end
        else curPage == old(curPage) && curIdx == old(curIdx)
      ensures old(curPage) <= curPage
      ensures old(Valid()) ==> Valid()
      ensures old(Valid()) && old(curIdx) + 1 < |unackedConversations| ==> curIdx == old(curIdx) + 1
      ensures old(Valid()) && old(curIdx) + 1 >= |unackedConversations| ==>
        curIdx == old(curIdx) && curPage == old(curPage)
    {
      var (_, end) := CalcPageIdxs();
      if curIdx + 1 >= end {
        NextPage();
      } else {
        curIdx := curIdx + 1;
      }
    }

    /** Records position `idx` as acknowledged; entries are only ever added. */
    method MarkAcked(idx: int)
      modifies this`acked
      ensures acked == old(acked)[idx := true]
      ensures old(acked).Keys <= acked.Keys
    {
      acked := acked[idx := true];
    }

    /** As written: indexes the list at the cursor, which needs a non-empty list. */
    function GetCurrentConveration(): (uc: AcknowledgedConversation)
      reads this
      requires 0 <= curIdx < |unackedConversations|
      ensures uc in unackedConversations
      ensures Valid() ==> uc in unackedConversations[CalcPageIdxs().0..CalcPageIdxs().1]
    {
      unackedConversations[curIdx]
    }

    /** The current conversation, or nothing when no conversation is unread. */
    function CurrentConversation(): (r: Option<AcknowledgedConversation>)
      reads this
      requires Valid()
      ensures r.None? <==> |unackedConversations| == 0
      ensures r.Some? ==> r.value == GetCurrentConveration()
    {
      if |unackedConversations| == 0 then None else Some(unackedConversations[curIdx])
    }

    /** The lines `doList` prints for the current page, in order. */
    method DoList() returns (lines: seq<ListLine>)
      requires 0 <= CalcPageIdxs().0 <= CalcPageIdxs().1
      ensures var (start, end) := CalcPageIdxs();
        && |lines| == end - start
        && forall i :: 0 <= i < |lines| ==>
             lines[i] == ListLine(i + 1, curIdx == start + i, start + i in acked,
                                  unackedConversations[start + i].conversation.displayName)
      ensures Valid() && |unackedConversations| > 0 ==>
        var k := curIdx - CalcPageIdxs().0;
        0 <= k < |lines| && forall i :: 0 <= i < |lines| ==> (lines[i].selected <==> i == k)
    {
      var (start, end) := CalcPageIdxs();
      var page := unackedConversations[start..end];
      lines := [];
      for i := 0 to |page|
        invariant |lines| == i
        invariant forall k :: 0 <= k < i ==>
          lines[k] == ListLine(k + 1, curIdx == start + k, start + k in acked, page[k].conversation.displayName)
      {
        lines := lines + [ListLine(i + 1, curIdx == start + i, start + i in acked, page[i].conversation.displayName)];
      }
    }

    /**
      `doAck`: acknowledges the current conversation through its latest
      message, marks its position, and moves the cursor on. With nothing
      unread it does nothing (see GetCurrentConveration for the code as written).
    */
    method DoAck(storageFails: bool) returns (err: Option<DbError>)
      requires Valid()
      modifies this`curIdx, this`curPage, this`acked, db.db`acknowledgements
      ensures Valid()
      ensures |unackedConversations| == 0 ==>
        err.None? && unchanged(this) && db.db.acknowledgements == old(db.db.acknowledgements)
      ensures |unackedConversations| > 0 ==>
        var uc := old(GetCurrentConveration()).conversation;
        && err == (if storageFails then Some(StorageFailure) else None)
        && db.db.acknowledgements ==
             (if storageFails then old(db.db.acknowledgements)
              else old(db.db.acknowledgements) + {Ack(uc.id, uc.latestMsgTs)})
        && (storageFails ==> unchanged(this))
        && (!storageFails ==> !IsUnread(uc, db.db.acknowledgements))
        && (!storageFails ==> acked == old(acked)[old(curIdx) := true])
        && (!storageFails && old(curIdx) + 1 < |unackedConversations| ==> curIdx == old(curIdx) + 1)
        && (!storageFails && old(curIdx) + 1 >= |unackedConversations| ==>
              curIdx == old(curIdx) && curPage == old(curPage))
    {
      var current := CurrentConversation();
      if current.None? {
        return None;
      }
      var uc := current.value.conversation;
      err := db.AckConversation(uc.id, uc.latestMsgTs, storageFails);
      if err.Some? {
        return;
      }
      StoreProperties.AckThroughLatestHides(uc, old(db.db.acknowledgements), uc.latestMsgTs);
      MarkAcked(curIdx);
      Next();
    }
  }

  /**
    What `rlLoop` builds when nothing is unread: a valid context whose cursor
    has no item, so the unguarded GetCurrentConveration in `doAck` and `doGo`
    would index out of range.
  */
  method NothingUnreadCounterexample(db: SlackBoxDB) returns (ctx: RlContext)
    ensures ctx.Valid() && ctx.unackedConversations == []
    ensures !(0 <= ctx.curIdx < |ctx.unackedConversations|)
  {
    ctx := new RlContext(db, []);
  }

  /** A valid context keeps `doList`'s slice and the cursor inside the list. */
  lemma ValidBounds(ctx: RlContext)
    requires ctx.Valid()
    ensures 0 <= ctx.CalcPageIdxs().0 <= ctx.CalcPageIdxs().1 <= |ctx.unackedConversations|
    ensures |ctx.unackedConversations| > 0 ==> 0 <= ctx.curIdx < |ctx.unackedConversations|
  {
  }
}
