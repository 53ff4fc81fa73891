/**
  Properties of the conversation watermark store that relate several
  operations, or an operation to an independent description of its result.
*/
module StoreProperties {
  import opened Wrappers
  import opened TextOrder
  import opened Store

  // ---------------------------------------------------------------------------
  // Conversation registry

  /** Replaying an update is harmless: the second application changes nothing. */
  lemma UpsertIdempotent(reg: Registry, c: Conversation)
    ensures Upsert(Upsert(reg, c), c) == Upsert(reg, c)
  {
  }

  /** An update carrying the stored timestamp leaves the row alone, whatever its display name. */
  lemma SameTimestampKeepsFirst(reg: Registry, c: Conversation, name: string)
    ensures Upsert(Upsert(reg, c), c.(displayName := name))[c.id] == Upsert(reg, c)[c.id]
  {
  }

  /** The ids a batch of updates mentions. */
  function BatchIds(cs: seq<Conversation>): set<string> {
    set i | 0 <= i < |cs| :: cs[i].id
  }

  /** Every timestamp the registry has held or been offered for `id`. */
  function OfferedTimestamps(reg: Registry, cs: seq<Conversation>, id: string): set<string> {
    (if id in reg then {reg[id].latestMsgTs} else {})
    + set i | 0 <= i < |cs| && cs[i].id == id :: cs[i].latestMsgTs
  }

  lemma {:induction false} UpsertAllKeys(reg: Registry, cs: seq<Conversation>)
    ensures UpsertAll(reg, cs).Keys == reg.Keys + BatchIds(cs)
    decreases |cs|
  {
    if cs != [] {
      var init := cs[..|cs| - 1];
      UpsertAllKeys(reg, init);
      assert BatchIds(cs) == BatchIds(init) + {cs[|cs| - 1].id} by {
        forall x | x in BatchIds(cs) ensures x in BatchIds(init) + {cs[|cs| - 1].id} {
          var i :| 0 <= i < |cs| && cs[i].id == x;
          if i < |cs| - 1 { assert init[i] == cs[i]; }
        }
        forall x | x in BatchIds(init) ensures x in BatchIds(cs) {
          var i :| 0 <= i < |init| && init[i].id == x;
          assert cs[i] == init[i];
        }
      }
    }
  }

  /**
    A batch of updates, in any order, leaves each row holding the greatest
    timestamp the row ever held or was offered: stale or re-ordered snapshots
    cannot erase newer state.
  */
  lemma {:induction false} UpsertAllKeepsLatest(reg: Registry, cs: seq<Conversation>, id: string)
    requires id in UpsertAll(reg, cs)
    ensures IsMaxOf(UpsertAll(reg, cs)[id].latestMsgTs, OfferedTimestamps(reg, cs, id))
    decreases |cs|
  {
    if cs == [] {
      assert OfferedTimestamps(reg, cs, id) == {reg[id].latestMsgTs};
    } else {
      var init, c := cs[..|cs| - 1], cs[|cs| - 1];
      var before := UpsertAll(reg, init);
      var after := UpsertAll(reg, cs);
      assert after == Upsert(before, c);
      var offered, offeredBefore := OfferedTimestamps(reg, cs, id), OfferedTimestamps(reg, init, id);
      assert offered == offeredBefore + (if c.id == id then {c.latestMsgTs} else {}) by {
        forall t | t in offered ensures t in offeredBefore + (if c.id == id then {c.latestMsgTs} else {}) {
          if t !in (if id in reg then {reg[id].latestMsgTs} else {}) {
            var i :| 0 <= i < |cs| && cs[i].id == id && cs[i].latestMsgTs == t;
            if i < |cs| - 1 { assert init[i] == cs[i]; }
          }
        }
        forall t | t in offeredBefore ensures t in offered {
          if t !in (if id in reg then {reg[id].latestMsgTs} else {}) {
            var i :| 0 <= i < |init| && init[i].id == id && init[i].latestMsgTs == t;
            assert cs[i] == init[i];
          }
        }
      }
      if id in before {
        UpsertAllKeepsLatest(reg, init, id);
        var m := before[id].latestMsgTs;
        if c.id == id && Less(m, c.latestMsgTs) {
          forall t | t in offered ensures LessOrEqual(t, c.latestMsgTs) {
            if t in offeredBefore {
              LessOrEqualTransitive(t, m, c.latestMsgTs);
            }
          }
        } else if c.id == id {
          LessTotal(m, c.latestMsgTs);
        }
      } else {
        assert c.id == id && after[id] == c;
        UpsertAllKeys(reg, init);
        forall i | 0 <= i < |init|
          ensures init[i].id != id
        {
          assert init[i].id in BatchIds(init);
        }
        assert offeredBefore == {};
      }
    }
  }

  /** No row is lost and no stored timestamp decreases under a batch of updates; types never change. */
  lemma {:induction false} UpsertAllMonotone(reg: Registry, cs: seq<Conversation>)
    ensures forall id :: id in reg ==>
      && id in UpsertAll(reg, cs)
      && LessOrEqual(reg[id].latestMsgTs, UpsertAll(reg, cs)[id].latestMsgTs)
      && UpsertAll(reg, cs)[id].conversationType == reg[id].conversationType
    decreases |cs|
  {
    if cs != [] {
      var init := cs[..|cs| - 1];
      UpsertAllMonotone(reg, init);
      var before := UpsertAll(reg, init);
      forall id | id in reg
        ensures LessOrEqual(reg[id].latestMsgTs, UpsertAll(reg, cs)[id].latestMsgTs)
      {
        LessOrEqualTransitive(reg[id].latestMsgTs, before[id].latestMsgTs, UpsertAll(reg, cs)[id].latestMsgTs);
      }
    }
  }

  /**
    Updates at t1, then t2 > t1, then t1 again: the row keeps the t2 update's
    timestamp and display name. Its type stays the one first inserted, since
    a conflict never rewrites `conversation_type`.
  */
  lemma ReplayCannotRegress(reg: Registry, first: Conversation, second: Conversation)
    requires first.id !in reg && second.id == first.id
    requires Less(first.latestMsgTs, second.latestMsgTs)
    ensures UpsertAll(reg, [first, second, first])[first.id] ==
      Conversation(first.conversationType, first.id, second.displayName, second.latestMsgTs)
  {
    assert [first, second, first][..2] == [first, second];
    assert [first, second][..1] == [first];
    assert [first][..0] == [];
    var afterFirst := Upsert(reg, first);
    assert UpsertAll(reg, [first]) == afterFirst;
    var afterSecond := Upsert(afterFirst, second);
    assert UpsertAll(reg, [first, second]) == afterSecond;
    assert afterSecond[first.id] ==
      Conversation(first.conversationType, first.id, second.displayName, second.latestMsgTs);
    LessAsymmetric(first.latestMsgTs, second.latestMsgTs);
    assert Upsert(afterSecond, first)[first.id] == afterSecond[first.id];
  }

  // ---------------------------------------------------------------------------
  // Acknowledgements and the unread rule

  /**
    The max() aggregate is the right one: a conversation is unread exactly when
    it has a message and that message is past every watermark recorded for it.
  */
  lemma UnreadIffPastEveryWatermark(c: Conversation, ledger: Ledger)
    ensures IsUnread(c, ledger) <==>
      c.latestMsgTs != "" &&
      forall a :: a in ledger && a.conversationId == c.id ==> Less(a.acknowledgedThroughTs, c.latestMsgTs)
  {
    match LatestAck(ledger, c.id)
    case None =>
    case Some(m) =>
      if Less(m, c.latestMsgTs) {
        forall a | a in ledger && a.conversationId == c.id
          ensures Less(a.acknowledgedThroughTs, c.latestMsgTs)
        {
          if a.acknowledgedThroughTs != m {
            LessTransitive(a.acknowledgedThroughTs, m, c.latestMsgTs);
          }
        }
      } else {
        assert Ack(c.id, m) in ledger;
      }
  }

  /** Acknowledging through the latest message takes a conversation off the unread list. */
  lemma AckThroughLatestHides(c: Conversation, ledger: Ledger, ts: string)
    requires LessOrEqual(c.latestMsgTs, ts)
    ensures !IsUnread(c, ledger + {Ack(c.id, ts)})
  {
    UnreadIffPastEveryWatermark(c, ledger + {Ack(c.id, ts)});
    if Less(ts, c.latestMsgTs) {
      if c.latestMsgTs == ts {
        LessIrreflexive(ts);
      } else {
        LessAsymmetric(c.latestMsgTs, ts);
      }
    }
  }

  /** Adding an acknowledgement never makes a conversation unread. */
  lemma AckNeverSurfaces(c: Conversation, ledger: Ledger, a: Ack)
    ensures IsUnread(c, ledger + {a}) ==> IsUnread(c, ledger)
  {
    UnreadIffPastEveryWatermark(c, ledger);
    UnreadIffPastEveryWatermark(c, ledger + {a});
  }

  /** Removing an acknowledgement never hides a conversation. */
  lemma UnackNeverHides(c: Conversation, ledger: Ledger, a: Ack)
    ensures IsUnread(c, ledger) ==> IsUnread(c, ledger - {a})
  {
    UnreadIffPastEveryWatermark(c, ledger);
    UnreadIffPastEveryWatermark(c, ledger - {a});
  }

  // ---------------------------------------------------------------------------
  // The unacknowledged view

  predicate Listed(r: seq<AcknowledgedConversation>, id: string) {
    exists i :: 0 <= i < |r| && r[i].conversation.id == id
  }

  /** A registry conversation is listed exactly when it is unread; nothing else is listed. */
  lemma ListedIff(reg: Registry, ledger: Ledger, id: string)
    requires WellKeyed(reg)
    ensures Listed(UnackedView(reg, ledger), id) <==> id in reg && IsUnread(reg[id], ledger)
  {
  }

  /** Each listed row carries the largest watermark of its conversation, or '' when it has none. */
  lemma ListedWatermark(reg: Registry, ledger: Ledger, i: int)
    requires WellKeyed(reg)
    requires 0 <= i < |UnackedView(reg, ledger)|
    ensures var x := UnackedView(reg, ledger)[i];
      var id := x.conversation.id;
      && ((forall a :: a in ledger ==> a.conversationId != id) ==> x.acknowledgedThroughTs == "")
      && ((exists a :: a in ledger && a.conversationId == id) ==> Ack(id, x.acknowledgedThroughTs) in ledger)
      && forall a :: a in ledger && a.conversationId == id ==>
           LessOrEqual(a.acknowledgedThroughTs, x.acknowledgedThroughTs)
  {
  }

  /** The link target of a listed row is never empty and never past its latest message. */
  lemma ListedBestLinkableTs(reg: Registry, ledger: Ledger, i: int)
    requires WellKeyed(reg)
    requires 0 <= i < |UnackedView(reg, ledger)|
    ensures var x := UnackedView(reg, ledger)[i];
      x.GetBestLinkableTs() != "" && LessOrEqual(x.GetBestLinkableTs(), x.conversation.latestMsgTs)
  {
  }

  /** In a sorted sequence the head occurs once, so the tail holds exactly the other elements. */
  lemma SortedTail(s: seq<AcknowledgedConversation>)
    requires Sorted(s) && s != []
    ensures Sorted(s[1..])
    ensures forall x :: x in s[1..] <==> x in s && x != s[0]
  {
    forall x | x in s[1..]
      ensures x != s[0]
    {
      var k :| 0 <= k < |s[1..]| && s[1..][k] == x;
      assert Precedes(s[0], s[k + 1]);
      PrecedesIrreflexive(x);
    }
    assert s == [s[0]] + s[1..];
  }

  lemma {:induction false} SortedWithSameElementsEqual(a: seq<AcknowledgedConversation>, b: seq<AcknowledgedConversation>)
    requires Sorted(a) && Sorted(b)
    requires forall x :: x in a <==> x in b
    ensures a == b
    decreases |a|
  {
    if b != [] {
      assert b[0] in a;
    }
    if a != [] {
      assert a[0] in b;
      if a[0] != b[0] {
        assert b[0] in a;
        var i :| 0 <= i < |a| && a[i] == b[0];
        var j :| 0 <= j < |b| && b[j] == a[0];
        PrecedesAsymmetric(a[0], b[0]);
        assert false;
      }
      SortedTail(a);
      SortedTail(b);
      SortedWithSameElementsEqual(a[1..], b[1..]);
      assert a == [a[0]] + a[1..] && b == [b[0]] + b[1..];
    }
  }

  /**
    The view is fully determined by the registry and the ledger: any sequence
    that lists exactly the unread conversations, with their watermarks, in
    `order by` order, is the query's result.
  */
  lemma UnackedViewUnique(reg: Registry, ledger: Ledger, r: seq<AcknowledgedConversation>)
    requires WellKeyed(reg)
    requires IsUnackedViewOf(r, reg, ledger)
    ensures r == UnackedView(reg, ledger)
  {
    var v := UnackedView(reg, ledger);
    forall x
      ensures x in r <==> x in v
    {
      if x in r {
        assert ViewRow(reg[x.conversation.id], ledger) in v;
      }
      if x in v {
        assert ViewRow(reg[x.conversation.id], ledger) in r;
      }
    }
    SortedWithSameElementsEqual(r, v);
  }

  /** Acknowledgements of ids that are not in the registry play no part (the join starts from conversations). */
  lemma OrphanAcksIgnored(reg: Registry, ledger: Ledger)
    requires WellKeyed(reg)
    ensures UnackedView(reg, ledger) == UnackedView(reg, set a | a in ledger && a.conversationId in reg)
  {
    var kept := set a | a in ledger && a.conversationId in reg;
    forall id | id in reg
      ensures LatestAck(ledger, id) == LatestAck(kept, id)
    {
      assert AckedTimestamps(ledger, id) == AckedTimestamps(kept, id);
    }
    assert UnackedRows(reg, ledger) == UnackedRows(reg, kept);
  }

  /** Ties on the timestamp are broken by ascending id; later messages come first. */
  lemma OrderingExample()
    ensures
      var a := Conversation("im", "a", "A", "2.0");
      var b := Conversation("im", "b", "B", "2.0");
      var c := Conversation("im", "c", "C", "3.0");
      UnackedView(map["a" := a, "b" := b, "c" := c], {}) ==
        [AcknowledgedConversation(c, ""), AcknowledgedConversation(a, ""), AcknowledgedConversation(b, "")]
  {
    var a := Conversation("im", "a", "A", "2.0");
    var b := Conversation("im", "b", "B", "2.0");
    var c := Conversation("im", "c", "C", "3.0");
    var reg := map["a" := a, "b" := b, "c" := c];
    var r := [AcknowledgedConversation(c, ""), AcknowledgedConversation(a, ""), AcknowledgedConversation(b, "")];
    assert Less("2.0", "3.0") && Less("a", "b");
    assert IsUnackedViewOf(r, reg, {});
    UnackedViewUnique(reg, {}, r);
  }

  /** The conversation "x" of the acknowledgement scenario below, at its first and second message. */
  const X1 := Conversation("im", "x", "X", "1.0")
  const X2 := X1.(latestMsgTs := "2.0")

  /** A conversation seen at "1.0" is unread; acknowledging "1.0" clears it. */
  lemma ScenarioFirstMessage()
    ensures Listed(UnackedView(Upsert(map[], X1), {}), "x")
    ensures !Listed(UnackedView(Upsert(map[], X1), {Ack("x", "1.0")}), "x")
  {
  }

  /**
    A message at "2.0" brings it back; withdrawing the old "1.0" watermark
    keeps it unread; acknowledging "2.0" clears it again.
  */
  lemma ScenarioSecondMessage()
    ensures var reg := Upsert(Upsert(map[], X1), X2);
      && Listed(UnackedView(reg, {Ack("x", "1.0")}), "x")
      && Listed(UnackedView(reg, {Ack("x", "1.0")} - {Ack("x", "1.0")}), "x")
      && !Listed(UnackedView(reg, {Ack("x", "1.0")} - {Ack("x", "1.0")} + {Ack("x", "2.0")}), "x")
  {
    var reg := Upsert(Upsert(map[], X1), X2);
    assert Less("1.0", "2.0");
    assert reg["x"] == X2;
    var acked1: Ledger := {Ack("x", "1.0")};
    var unacked := acked1 - {Ack("x", "1.0")};
    assert unacked == {};
    ListedIff(reg, acked1, "x");
    ListedIff(reg, unacked, "x");
    ListedIff(reg, unacked + {Ack("x", "2.0")}, "x");
    UnreadIffPastEveryWatermark(X2, acked1);
    AckThroughLatestHides(X2, unacked, "2.0");
  }

  // ---------------------------------------------------------------------------
  // Sessions on one file

  /**
    A new conversation is not found before it is written; once written, it is
    found again exactly as given.
  */
  method UpdateThenGet(store: SlackBoxDB, c: Conversation) returns (before: bool, after: Conversation, found: bool)
    requires store.db.Valid() && c.id !in store.db.conversations
    modifies store.db`conversations
    ensures !before
    ensures found && after == c
  {
    var _, b := store.GetConversation(c.id);
    before := b;
    var err := store.UpdateConversation(c, false);
    assert err.None?;
    after, found := store.GetConversation(c.id);
  }

  /**
    A new file opens twice without error; once its version row has been
    raised by one, opening it is refused with the stored version 2.
  */
  method ReopenAfterVersionBump(file: Database) returns (first: Option<DbError>, second: Option<DbError>, third: Option<DbError>)
    requires file.versionTable == map[]
    modifies file`versionTable, file`schemaCreated
    ensures first.None? && second.None?
    ensures third == Some(UnsupportedVersion(SupportedDBVersion, 2))
  {
    var _, e1 := ConnectDB(file);
    first := e1;
    var _, e2 := ConnectDB(file);
    second := e2;
    // update version set version = version + 1
    file.versionTable := map k | k in file.versionTable :: file.versionTable[k] + 1;
    var _, e3 := ConnectDB(file);
    third := e3;
  }
}
