/**
  The conversation watermark store of db.go, with the SQLite tables restated as
  values: the `conversations` table as a map from id to row, the
  `acknowledgements` table as a set of (conversation id, watermark) pairs, and
  the `version` table as a map from its `singleton` key to the version number.
  Every TEXT comparison the SQL makes (the upsert guard, max(), the filter and
  ORDER BY) is `TextOrder.Less`.
*/
module Store {
  import opened Wrappers
  import opened TextOrder

  const SupportedDBVersion := 1

  /** A conversation as the fetcher produces it and the `conversations` table stores it. */
  datatype Conversation = Conversation(
    conversationType: string,
    id: string,
    displayName: string,
    latestMsgTs: string)

  /** Go's zero value `Conversation{}`. */
  const EmptyConversation := Conversation("", "", "", "")

  /** A conversation joined with its resolved watermark ('' when it has none). */
  datatype AcknowledgedConversation = AcknowledgedConversation(
    conversation: Conversation,
    acknowledgedThroughTs: string)
  {
    /** The message to link to: the watermark when there is one, else the latest message. */
    function GetBestLinkableTs(): (ts: string)
      ensures ts == acknowledgedThroughTs || ts == conversation.latestMsgTs
      ensures acknowledgedThroughTs != "" ==> ts == acknowledgedThroughTs
      ensures ts == "" <==> acknowledgedThroughTs == "" && conversation.latestMsgTs == ""
    {
      if acknowledgedThroughTs != "" then acknowledgedThroughTs else conversation.latestMsgTs
    }
  }

  /** One row of the `acknowledgements` table; `acknowledged_at` is never written and is left out. */
  datatype Ack = Ack(conversationId: string, acknowledgedThroughTs: string)

  /** `unsupportedVersionError`, and the errors the storage engine reports. */
  datatype DbError =
    | UnsupportedVersion(supportedVersion: int, actualVersion: int)
    | StorageFailure

  type Registry = map<string, Conversation>
  type Ledger = set<Ack>

  /** The primary key of a row is its `id` column. */
  predicate WellKeyed(reg: Registry) {
    forall id :: id in reg ==> reg[id].id == id
  }

  // ---------------------------------------------------------------------------
  // Conversation registry

  /**
    `insert ... on conflict (id) do update set display_name, latest_msg_ts
    where excluded.latest_msg_ts > latest_msg_ts`.
  */
  function Upsert(reg: Registry, c: Conversation): (r: Registry)
    ensures r.Keys == reg.Keys + {c.id}
    ensures c.id !in reg ==> r[c.id] == c
    ensures c.id in reg && Less(reg[c.id].latestMsgTs, c.latestMsgTs) ==>
      r[c.id] == reg[c.id].(displayName := c.displayName, latestMsgTs := c.latestMsgTs)
    ensures c.id in reg && !Less(reg[c.id].latestMsgTs, c.latestMsgTs) ==> r[c.id] == reg[c.id]
    ensures forall id :: id in reg && id != c.id ==> r[id] == reg[id]
    ensures forall id :: id in reg ==>
      LessOrEqual(reg[id].latestMsgTs, r[id].latestMsgTs) && r[id].conversationType == reg[id].conversationType
    ensures WellKeyed(reg) ==> WellKeyed(r)
  {
    if c.id !in reg then
      reg[c.id := c]
    else if Less(reg[c.id].latestMsgTs, c.latestMsgTs) then
      reg[c.id := reg[c.id].(displayName := c.displayName, latestMsgTs := c.latestMsgTs)]
    else
      reg
  }

  /** The upserts of a slice, applied in slice order. */
  function UpsertAll(reg: Registry, cs: seq<Conversation>): (r: Registry)
    ensures reg.Keys <= r.Keys
    ensures WellKeyed(reg) ==> WellKeyed(r)
    decreases |cs|
  {
    if cs == [] then reg else Upsert(UpsertAll(reg, cs[..|cs| - 1]), cs[|cs| - 1])
  }

  // ---------------------------------------------------------------------------
  // Acknowledgement ledger and the unacknowledged view

  /** The watermarks recorded for one conversation id. */
  function AckedTimestamps(ledger: Ledger, id: string): set<string> {
    set a | a in ledger && a.conversationId == id :: a.acknowledgedThroughTs
  }

  /** `max(acknowledged_through_ts) ... group by conversation_id`, absent when there are no rows. */
  function LatestAck(ledger: Ledger, id: string): (m: Option<string>)
    ensures m.None? <==> forall a :: a in ledger ==> a.conversationId != id
    ensures m.Some? ==> Ack(id, m.value) in ledger
    ensures m.Some? ==> forall a :: a in ledger && a.conversationId == id ==>
      LessOrEqual(a.acknowledgedThroughTs, m.value)
  {
    var ts := AckedTimestamps(ledger, id);
    if ts == {} then
      assert forall a :: a in ledger && a.conversationId == id ==> a.acknowledgedThroughTs in ts;
      None
    else
      var m := Max(ts);
      Some(m)
  }

  /** `coalesce(a.acknowledged_through_ts, '')`. */
  function AcknowledgedThrough(ledger: Ledger, id: string): (t: string)
    ensures (forall a :: a in ledger ==> a.conversationId != id) ==> t == ""
    ensures t == "" || Ack(id, t) in ledger
    ensures forall a :: a in ledger && a.conversationId == id ==> LessOrEqual(a.acknowledgedThroughTs, t)
  {
    LatestAck(ledger, id).GetOr("")
  }

  /** The query's `where` clause: a message was seen, and it is past every watermark. */
  predicate IsUnread(c: Conversation, ledger: Ledger)
    ensures IsUnread(c, ledger) ==> c.latestMsgTs != ""
    ensures (forall a :: a in ledger ==> a.conversationId != c.id) ==> (IsUnread(c, ledger) <==> c.latestMsgTs != "")
  {
    && c.latestMsgTs != ""
    && match LatestAck(ledger, c.id)
       case None => true
       case Some(t) => Less(t, c.latestMsgTs)
  }

  function ViewRow(c: Conversation, ledger: Ledger): AcknowledgedConversation {
    AcknowledgedConversation(c, AcknowledgedThrough(ledger, c.id))
  }

  /** `order by latest_msg_ts desc, id asc`, as a strict order on result rows. */
  predicate Precedes(x: AcknowledgedConversation, y: AcknowledgedConversation)
    ensures Precedes(x, y) ==> LessOrEqual(y.conversation.latestMsgTs, x.conversation.latestMsgTs)
    ensures x.conversation.latestMsgTs == y.conversation.latestMsgTs ==>
      (Precedes(x, y) <==> Less(x.conversation.id, y.conversation.id))
  {
    LessIrreflexive(x.conversation.latestMsgTs);
    || Less(y.conversation.latestMsgTs, x.conversation.latestMsgTs)
    || (x.conversation.latestMsgTs == y.conversation.latestMsgTs && Less(x.conversation.id, y.conversation.id))
  }

  predicate Sorted(s: seq<AcknowledgedConversation>) {
    forall i, j :: 0 <= i < j < |s| ==> Precedes(s[i], s[j])
  }

  lemma PrecedesIrreflexive(x: AcknowledgedConversation)
    ensures !Precedes(x, x)
  {
  }

  lemma PrecedesTransitive(x: AcknowledgedConversation, y: AcknowledgedConversation, z: AcknowledgedConversation)
    requires Precedes(x, y) && Precedes(y, z)
    ensures Precedes(x, z)
  {
    var tx, ty, tz := x.conversation.latestMsgTs, y.conversation.latestMsgTs, z.conversation.latestMsgTs;
    if Less(ty, tx) && Less(tz, ty) {
      LessTransitive(tz, ty, tx);
    } else if !Less(ty, tx) && !Less(tz, ty) {
      LessTransitive(x.conversation.id, y.conversation.id, z.conversation.id);
    }
  }

  lemma PrecedesAsymmetric(x: AcknowledgedConversation, y: AcknowledgedConversation)
    requires Precedes(x, y)
    ensures !Precedes(y, x)
  {
    if Precedes(y, x) {
      PrecedesTransitive(x, y, x);
      PrecedesIrreflexive(x);
    }
  }

  lemma PrecedesTotal(x: AcknowledgedConversation, y: AcknowledgedConversation)
    requires x.conversation.id != y.conversation.id
    ensures Precedes(x, y) || Precedes(y, x)
  {
    LessTotal(x.conversation.latestMsgTs, y.conversation.latestMsgTs);
    LessTotal(x.conversation.id, y.conversation.id);
  }

  /** Rows of a result set never share an id, since they come from a table keyed by id. */
  predicate UniqueIds(rows: set<AcknowledgedConversation>) {
    forall x, y :: x in rows && y in rows && x.conversation.id == y.conversation.id ==> x == y
  }

  predicate IsFirst(x: AcknowledgedConversation, rows: set<AcknowledgedConversation>) {
    x in rows && forall y :: y in rows && y != x ==> Precedes(x, y)
  }

  lemma {:induction false} FirstExists(rows: set<AcknowledgedConversation>)
    requires rows != {} && UniqueIds(rows)
    ensures exists x :: IsFirst(x, rows)
    decreases |rows|
  {
    var x :| x in rows;
    if rows == {x} {
      assert IsFirst(x, rows);
    } else {
      var rest := rows - {x};
      FirstExists(rest);
      var f :| IsFirst(f, rest);
      PrecedesTotal(f, x);
      if Precedes(x, f) {
        forall y | y in rows && y != x
          ensures Precedes(x, y)
        {
          if y != f {
            PrecedesTransitive(x, f, y);
          }
        }
        assert IsFirst(x, rows);
      } else {
        assert IsFirst(f, rows);
      }
    }
  }

  lemma FirstUnique(rows: set<AcknowledgedConversation>)
    ensures forall x, x' :: IsFirst(x, rows) && IsFirst(x', rows) ==> x == x'
  {
    forall x, x' | IsFirst(x, rows) && IsFirst(x', rows)
      ensures x == x'
    {
      if x != x' {
        PrecedesAsymmetric(x, x');
      }
    }
  }

  /** A result set in `order by` order. */
  function SortRows(rows: set<AcknowledgedConversation>): (r: seq<AcknowledgedConversation>)
    requires UniqueIds(rows)
    ensures forall x :: x in r <==> x in rows
    ensures Sorted(r)
    ensures forall i, j :: 0 <= i < j < |r| ==> r[i].conversation.id != r[j].conversation.id
    decreases |rows|
  {
    if rows == {} then
      []
    else
      FirstExists(rows);
      FirstUnique(rows);
      var x :| IsFirst(x, rows);
      [x] + SortRows(rows - {x})
  }

  /** The rows the query selects, before ordering. */
  function UnackedRows(reg: Registry, ledger: Ledger): set<AcknowledgedConversation> {
    set id | id in reg && IsUnread(reg[id], ledger) :: ViewRow(reg[id], ledger)
  }

  /**
    What `GetUnackedConversations` returns: exactly the unread registry
    conversations, each with its resolved watermark, in `order by` order.
    Acknowledgements of ids that are not in the registry play no part.
  */
  ghost predicate IsUnackedViewOf(r: seq<AcknowledgedConversation>, reg: Registry, ledger: Ledger) {
    && (forall id :: id in reg && IsUnread(reg[id], ledger) ==> ViewRow(reg[id], ledger) in r)
    && (forall x :: x in r ==>
          x.conversation.id in reg && x == ViewRow(reg[x.conversation.id], ledger) && IsUnread(x.conversation, ledger))
    && Sorted(r)
  }

  function UnackedView(reg: Registry, ledger: Ledger): (r: seq<AcknowledgedConversation>)
    requires WellKeyed(reg)
    ensures IsUnackedViewOf(r, reg, ledger)
    ensures forall i, j :: 0 <= i < j < |r| ==> r[i].conversation.id != r[j].conversation.id
  {
    SortRows(UnackedRows(reg, ledger))
  }

  // ---------------------------------------------------------------------------
  // Schema guard

  /** `insert into version (singleton, version) values (1, 1) on conflict(singleton) do nothing`. */
  function WithVersionRow(table: map<int, int>): (r: map<int, int>)
    ensures r.Keys == table.Keys + {1}
    ensures 1 in table ==> r == table
    ensures 1 !in table ==> r[1] == SupportedDBVersion && forall k :: k in table ==> r[k] == table[k]
  {
    if 1 in table then table else table[1 := SupportedDBVersion]
  }

  predicate VersionSupported(table: map<int, int>) {
    forall k :: k in table ==> table[k] <= SupportedDBVersion
  }

  /** The on-disk SQLite file. */
  class Database {
    var versionTable: map<int, int>
    var schemaCreated: bool
    var conversations: Registry
    var acknowledgements: Ledger

    ghost predicate Valid()
      reads this
    {
      WellKeyed(conversations)
    }

    /** A new, empty file. */
    constructor Empty()
      ensures Valid()
      ensures versionTable == map[] && !schemaCreated
      ensures conversations == map[] && acknowledgements == {}
    {
      versionTable := map[];
      schemaCreated := false;
      conversations := map[];
      acknowledgements := {};
    }
  }

  method CheckSupportedVersion(db: Database) returns (err: Option<DbError>)
    modifies db`versionTable
    ensures db.versionTable == WithVersionRow(old(db.versionTable))
    ensures err.None? <==> VersionSupported(db.versionTable)
    ensures err.Some? ==>
      && err.value.UnsupportedVersion?
      && err.value.supportedVersion == SupportedDBVersion
      && err.value.actualVersion > SupportedDBVersion
      && exists k :: k in db.versionTable && db.versionTable[k] == err.value.actualVersion
  {
    db.versionTable := WithVersionRow(db.versionTable);
    // the rows (singleton, version) of the table, visited in no particular order
    var rows := db.versionTable.Items;
    while rows != {}
      invariant rows <= db.versionTable.Items
      invariant forall k :: k in db.versionTable && (k, db.versionTable[k]) !in rows ==>
        db.versionTable[k] <= SupportedDBVersion
      decreases rows
    {
      var row :| row in rows;
      var version := row.1;
      if version > SupportedDBVersion {
        var singleton := row.0;
        assert singleton in db.versionTable && db.versionTable[singleton] > SupportedDBVersion;
        return Some(UnsupportedVersion(SupportedDBVersion, version));
      }
      rows := rows - {row};
    }
    return None;
  }

  /** Runs the version guard, then creates the tables if they do not exist. */
  method Initialize(db: Database) returns (err: Option<DbError>)
    modifies db`versionTable, db`schemaCreated
    ensures db.versionTable == WithVersionRow(old(db.versionTable))
    ensures err.None? <==> VersionSupported(db.versionTable)
    ensures err.Some? ==>
      && err.value.UnsupportedVersion?
      && err.value.supportedVersion == SupportedDBVersion
      && err.value.actualVersion > SupportedDBVersion
      && exists k :: k in db.versionTable && db.versionTable[k] == err.value.actualVersion
    ensures db.schemaCreated == (old(db.schemaCreated) || err.None?)
    ensures old(1 in db.versionTable && db.schemaCreated) ==>
      db.versionTable == old(db.versionTable) && db.schemaCreated
  {
    err := CheckSupportedVersion(db);
    if err.Some? {
      return;
    }
    db.schemaCreated := true;
  }

  method ConnectDB(file: Database) returns (store: SlackBoxDB?, err: Option<DbError>)
    modifies file`versionTable, file`schemaCreated
    ensures store != null <==> err.None?
    ensures store != null ==> fresh(store) && store.db == file && file.schemaCreated
    ensures file.versionTable == WithVersionRow(old(file.versionTable))
    ensures err.None? <==> VersionSupported(file.versionTable)
    ensures err.Some? ==>
      && err.value.UnsupportedVersion?
      && err.value.supportedVersion == SupportedDBVersion
      && err.value.actualVersion > SupportedDBVersion
      && exists k :: k in file.versionTable && file.versionTable[k] == err.value.actualVersion
  {
    err := Initialize(file);
    if err.Some? {
      return null, err;
    }
    store := new SlackBoxDB(file);
  }

  /** The store handle: every operation goes to the one file it was opened on. */
  class SlackBoxDB {
    const db: Database

    constructor (db: Database)
      ensures this.db == db
    {
      this.db := db;
    }

    method UpdateConversation(conversation: Conversation, storageFails: bool) returns (err: Option<DbError>)
      requires db.Valid()
      modifies db`conversations
      ensures db.Valid()
      ensures err == if storageFails then Some(StorageFailure) else None
      ensures db.conversations ==
        if storageFails then old(db.conversations) else Upsert(old(db.conversations), conversation)
    {
      if storageFails {
        return Some(StorageFailure);
      }
      db.conversations := Upsert(db.conversations, conversation);
      return None;
    }

    /** `failing` holds the positions at which the storage engine reports an error. */
    method UpdateConversations(conversations: seq<Conversation>, failing: set<nat>) returns (err: Option<DbError>)
      requires db.Valid()
      modifies db`conversations
      ensures db.Valid()
      ensures err.None? <==> forall i :: 0 <= i < |conversations| ==> i !in failing
      ensures err.None? ==> db.conversations == UpsertAll(old(db.conversations), conversations)
      ensures err.Some? ==> err == Some(StorageFailure) && exists k ::
        && 0 <= k < |conversations| && k in failing
        && (forall i :: 0 <= i < k ==> i !in failing)
        && db.conversations == UpsertAll(old(db.conversations), conversations[..k])
    {
      var i := 0;
      while i < |conversations|
        invariant 0 <= i <= |conversations|
        invariant db.Valid()
        invariant forall j :: 0 <= j < i ==> j !in failing
        invariant db.conversations == UpsertAll(old(db.conversations), conversations[..i])
      {
        err := UpdateConversation(conversations[i], i in failing);
        if err.Some? {
          return;
        }
        assert conversations[..i + 1][..i] == conversations[..i];
        i := i + 1;
      }
      assert conversations[..i] == conversations;
      return None;
    }

    /** Not found is an ordinary outcome, reported as `found == false` with Go's zero value. */
    method GetConversation(conversationID: string) returns (c: Conversation, found: bool)
      ensures found <==> conversationID in db.conversations
      ensures found ==> c == db.conversations[conversationID]
      ensures !found ==> c == EmptyConversation
    {
      if conversationID !in db.conversations {
        return EmptyConversation, false;
      }
      return db.conversations[conversationID], true;
    }

    method AckConversation(id: string, ackTs: string, storageFails: bool) returns (err: Option<DbError>)
      modifies db`acknowledgements
      ensures err == if storageFails then Some(StorageFailure) else None
      ensures db.acknowledgements ==
        if storageFails then old(db.acknowledgements) else old(db.acknowledgements) + {Ack(id, ackTs)}
    {
      if storageFails {
        return Some(StorageFailure);
      }
      db.acknowledgements := db.acknowledgements + {Ack(id, ackTs)};
      return None;
    }

    method UnackConversation(id: string, ackTs: string, storageFails: bool) returns (err: Option<DbError>)
      modifies db`acknowledgements
      ensures err == if storageFails then Some(StorageFailure) else None
      ensures db.acknowledgements ==
        if storageFails then old(db.acknowledgements) else old(db.acknowledgements) - {Ack(id, ackTs)}
    {
      if storageFails {
        return Some(StorageFailure);
      }
      db.acknowledgements := db.acknowledgements - {Ack(id, ackTs)};
      return None;
    }

    /**
      Reads the result set of the view query. The loop stands for the
      `rows.Next()` / `append` loop over the query's rows; it only copies them,
      and `UnackedView` is what says which rows there are and in what order.
    */
    method GetUnackedConversations() returns (conversations: seq<AcknowledgedConversation>)
      requires db.Valid()
      ensures conversations == UnackedView(db.conversations, db.acknowledgements)
    {
      var rows := UnackedView(db.conversations, db.acknowledgements);
      conversations := [];
      var i := 0;
      while i < |rows|
        invariant 0 <= i <= |rows|
        invariant conversations == rows[..i]
      {
        conversations := conversations + [rows[i]];
        i := i + 1;
      }
    }
  }
}
