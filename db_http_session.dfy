/** The database session handler (DbHttpSession.php) over an in-memory session
    table. One handler object stands for one request's connection: its table is
    what that connection sees, committed or not, and `txnStart` is the table as
    it was when the open transaction began, which a rollback restores. */
module DbHttpSession {
  import opened PhpArray
  import opened ArrayHelper
  import opened ConflictResolver

  newtype byte = x: int | 0 <= x < 256
  type Bytes = seq<byte>

  /** A row of the session table; `data` is None for SQL NULL. */
  datatype Row = Row(expire: int, data: Option<Bytes>)

  /** `session_decode` / `session_encode`, taken as given. */
  datatype Codec = Codec(decode: Bytes -> seq<Entry>, encode: seq<Entry> -> Bytes)

  /** Which database call of writeSession throws, if any. */
  datatype Fault = NoFault | FailLookup | FailLockedRead | FailStore | FailCommit

  /** `getSessionData($id)`: the data of the row `id` if it has not expired.
      A missing or expired row reads as ''. The Oci8 driver casts the result to
      a string, so a NULL column reads as '' there; other drivers pass NULL on. */
  function LiveData(table: map<string, Row>, id: string, now: int, oci8: bool): (r: Option<Bytes>)
    ensures (id !in table || table[id].expire <= now) ==> r == Some([])
    ensures id in table && table[id].expire > now && table[id].data.Some? ==> r == table[id].data
    ensures id in table && table[id].expire > now && table[id].data.None? ==>
      r == if oci8 then Some([]) else None
  {
    if id in table && table[id].expire > now then
      if oci8 then Some(table[id].data.GetOr([])) else table[id].data
    else Some([])
  }

  /** A row just written reads back until it expires, and as '' afterwards. */
  lemma WrittenRowReadsBack(table: map<string, Row>, id: string, data: Bytes, expire: int, later: int, oci8: bool)
    ensures later < expire ==> LiveData(table[id := Row(expire, Some(data))], id, later, oci8) == Some(data)
    ensures later >= expire ==> LiveData(table[id := Row(expire, Some(data))], id, later, oci8) == Some([])
  {}

  /** After a rename the new id reads what the old one read, and the old id
      reads as a missing session. */
  lemma RenamedRowReadsSame(table: map<string, Row>, oldId: string, newId: string, now: int, oci8: bool)
    requires oldId in table
    ensures LiveData(table - {oldId} + map[newId := table[oldId]], newId, now, oci8) == LiveData(table, oldId, now, oci8)
    ensures newId != oldId ==> LiveData(table - {oldId} + map[newId := table[oldId]], oldId, now, oci8) == Some([])
  {}

  /** `empty($oldId)` for a string. */
  predicate EmptyId(id: string) {
    id == "" || id == "0"
  }

  /** The session as getDataForSave leaves it in `$_SESSION`: the writer's
      changes since `init` laid over the re-read `current`. A NULL snapshot or
      row decodes as ''. */
  function SessionToSave(c: Codec, init: Option<Bytes>, final: Bytes, current: Option<Bytes>): seq<Entry> {
    Resolve(c.decode(init.GetOr([])), c.decode(final), c.decode(current.GetOr([])))
  }

  /** A writer that changed nothing stores back exactly what it re-read. */
  lemma SaveUnchanged(c: Codec, init: Option<Bytes>, current: Option<Bytes>)
    requires WellFormed(Arr(c.decode(init.GetOr([]))))
    ensures SessionToSave(c, init, init.GetOr([]), current) == c.decode(current.GetOr([]))
  {
    ResolveNoOp(c.decode(init.GetOr([])), c.decode(current.GetOr([])));
  }

  /** A session variable the writer set keeps the writer's value, and one it
      left alone keeps the value another request stored meanwhile. */
  lemma SaveMergesByKey(c: Codec, init: Option<Bytes>, final: Bytes, current: Option<Bytes>, s: string)
    requires WellFormed(Arr(c.decode(init.GetOr([])))) && UniqueKeys(c.decode(final))
    ensures var k := StrKey(s);
      var i, f := c.decode(init.GetOr([])), c.decode(final);
      Lookup(i, k) == Lookup(f, k) ==>
        Lookup(SessionToSave(c, init, final, current), k) == Lookup(c.decode(current.GetOr([])), k)
    ensures var k := StrKey(s);
      var i, f := c.decode(init.GetOr([])), c.decode(final);
      HasKey(f, k) && !Get(f, k).Arr? && Lookup(i, k) != Lookup(f, k) ==>
        Lookup(SessionToSave(c, init, final, current), k) == Lookup(f, k)
  {
    var k := StrKey(s);
    var i, f, cur := c.decode(init.GetOr([])), c.decode(final), c.decode(current.GetOr([]));
    if Lookup(i, k) == Lookup(f, k) {
      ResolveUntouchedKey(i, f, cur, s);
    }
    if HasKey(f, k) && !Get(f, k).Arr? && Lookup(i, k) != Lookup(f, k) {
      ResolveKeepsLocalEdit(i, f, cur, s);
    }
  }

  class SessionHandler {
    var table: map<string, Row>
    var txnStart: map<string, Row>
    var transaction: bool
    var initSessionData: Option<Bytes>
    var exclusive: bool
    const timeout: int
    const oci8: bool
    const codec: Codec

    constructor (table: map<string, Row>, timeout: int, oci8: bool, codec: Codec)
      ensures this.table == table && this.timeout == timeout && this.oci8 == oci8 && this.codec == codec
      ensures !transaction && initSessionData.None? && !exclusive
    {
      this.table := table;
      txnStart := table;
      transaction := false;
      initSessionData := None;
      exclusive := false;
      this.timeout := timeout;
      this.oci8 := oci8;
      this.codec := codec;
    }

    /** `setExclusive($status)`: later reads lock the row. */
    method SetExclusive(status: bool)
      modifies this
      ensures exclusive == status
      ensures table == old(table) && txnStart == old(txnStart) && transaction == old(transaction)
      ensures initSessionData == old(initSessionData)
    {
      exclusive := status;
    }

    /** `openSession`: forgets the snapshot of an earlier session span. */
    method OpenSession() returns (ok: bool)
      modifies this
      ensures ok && initSessionData.None?
      ensures table == old(table) && txnStart == old(txnStart) && transaction == old(transaction)
      ensures exclusive == old(exclusive)
    {
      initSessionData := None;
      ok := true;
    }

    /** `getSessionData($id, $forUpdate)`: a locking read first opens a
        transaction unless one is open; the read itself filters out expired
        rows. */
    method GetSessionData(id: string, forUpdate: bool, now: int) returns (data: Option<Bytes>)
      modifies this
      ensures data == LiveData(table, id, now, oci8)
      ensures transaction == (old(transaction) || forUpdate)
      ensures txnStart == if forUpdate && !old(transaction) then old(table) else old(txnStart)
      ensures table == old(table) && initSessionData == old(initSessionData) && exclusive == old(exclusive)
    {
      if forUpdate && !transaction {
        transaction := true;
        txnStart := table;
      }
      data := LiveData(table, id, now, oci8);
    }

    /** `readSession($id)`: reads (locking when exclusive) and keeps the first
        data read since openSession as the snapshot the writer's changes are
        measured against. */
    method ReadSession(id: string, now: int) returns (data: Option<Bytes>)
      modifies this
      ensures data == LiveData(table, id, now, oci8)
      ensures initSessionData == if old(initSessionData).None? then data else old(initSessionData)
      ensures transaction == (old(transaction) || exclusive)
      ensures txnStart == if exclusive && !old(transaction) then old(table) else old(txnStart)
      ensures table == old(table) && exclusive == old(exclusive)
    {
      data := GetSessionData(id, exclusive, now);
      if initSessionData.None? {
        initSessionData := data;
      }
    }

    /** `getDataForSave($id, $data)`: decodes the snapshot, the data being
        written and the row re-read under lock, resolves them and encodes the
        result. */
    method GetDataForSave(id: string, data: Bytes, now: int) returns (payload: Bytes)
      modifies this
      ensures payload == codec.encode(SessionToSave(codec, initSessionData, data, LiveData(table, id, now, oci8)))
      ensures transaction
      ensures txnStart == if old(transaction) then old(txnStart) else old(table)
      ensures table == old(table) && initSessionData == old(initSessionData) && exclusive == old(exclusive)
    {
      var init := codec.decode(initSessionData.GetOr([]));
      var final := codec.decode(data);
      var current := GetSessionData(id, true, now);
      var db := codec.decode(current.GetOr([]));
      var changes := ArrayRecursiveDiff(final, init);
      var merged := Merge(db, changes);
      var resolved := ArrayRemovedRecursiveDiff(Arr(merged), init, final);
      payload := codec.encode(resolved.entries);
    }

    /** What writeSession stores for `id`: the data as given when the table has
        no row for it, and otherwise the merge getDataForSave resolves. */
    function StoredData(table: map<string, Row>, init: Option<Bytes>, id: string, data: Bytes, now: int): Bytes {
      if id in table then codec.encode(SessionToSave(codec, init, data, LiveData(table, id, now, oci8)))
      else data
    }

    /** The catch block of writeSession: roll back an open transaction. The
        whole table returns to `txnStart`, which matches a database rollback
        only while no other request has changed the table meanwhile. */
    method Rollback()
      modifies this
      ensures !transaction
      ensures table == if old(transaction) then old(txnStart) else old(table)
      ensures txnStart == old(txnStart) && initSessionData == old(initSessionData) && exclusive == old(exclusive)
    {
      if transaction {
        table := txnStart;
        transaction := false;
      }
    }

    /** `writeSession($id, $data)`. The first write of a session stores the
        data as given; a later one stores the resolved merge with the row
        re-read under lock. The row expires `timeout` after `now`. Whatever
        happens, no transaction is left open: it is committed on success and
        rolled back when a database call throws, and then false is returned. */
    method WriteSession(id: string, data: Bytes, now: int, fault: Fault) returns (ok: bool)
      modifies this
      ensures !transaction
      ensures ok <==> (fault == NoFault
                       || (id !in old(table) && fault == FailLockedRead)
                       || (id !in old(table) && !old(transaction) && fault == FailCommit))
      ensures ok ==> table == old(table)[id := Row(now + timeout, Some(StoredData(old(table), old(initSessionData), id, data, now)))]
      ensures !ok ==> table == if old(transaction) then old(txnStart) else old(table)
      ensures initSessionData == old(initSessionData) && exclusive == old(exclusive)
    {
      var expire := now + timeout;
      if fault == FailLookup {
        Rollback();
        return false;
      }
      var found := id in table;
      var payload := data;
      if found {
        if fault == FailLockedRead {
          // getSessionData($id, true) has opened the transaction when the read throws
          if !transaction {
            transaction := true;
            txnStart := table;
          }
          Rollback();
          return false;
        }
        payload := GetDataForSave(id, data, now);
      }
      if fault == FailStore {
        Rollback();
        return false;
      }
      table := table[id := Row(expire, Some(payload))];
      if transaction {
        if fault == FailCommit {
          Rollback();
          return false;
        }
        transaction := false;
      }
      ok := true;
    }

    /** `regenerateID($deleteOldSession)` once PHP has switched the session
        from `oldId` to `newId`. The old row is looked up without an expiry
        filter: it is renamed when the old session is deleted and copied
        otherwise; with no old row an empty row is inserted. An insert or
        rename onto an id that already has a row breaks the primary key and
        throws, which is `ok == false` with the table unchanged. */
    method RegenerateID(oldId: string, newId: string, deleteOld: bool, now: int) returns (ok: bool)
      modifies this
      ensures EmptyId(oldId) ==> ok && table == old(table)
      ensures !EmptyId(oldId) && oldId in old(table) && deleteOld ==>
        if newId != oldId && newId in old(table) then !ok && table == old(table)
        else ok && table == old(table) - {oldId} + map[newId := old(table)[oldId]]
      ensures !EmptyId(oldId) && oldId in old(table) && !deleteOld ==>
        if newId in old(table) then !ok && table == old(table)
        else ok && table == old(table)[newId := Row(old(table)[oldId].expire,
          if oci8 then Some(old(table)[oldId].data.GetOr([])) else old(table)[oldId].data)]
      ensures !EmptyId(oldId) && oldId !in old(table) ==>
        if newId in old(table) then !ok && table == old(table)
        else ok && table == old(table)[newId := Row(now + timeout, None)]
      ensures txnStart == old(txnStart) && transaction == old(transaction)
      ensures initSessionData == old(initSessionData) && exclusive == old(exclusive)
    {
      if EmptyId(oldId) {
        return true;
      }
      if oldId in table {
        var row := table[oldId];
        if deleteOld {
          if newId != oldId && newId in table {
            return false;
          }
          table := table - {oldId} + map[newId := row];
        } else {
          if newId in table {
            return false;
          }
          // the Oci8 insert writes the copied data into an empty BLOB
          var copied := if oci8 then Some(row.data.GetOr([])) else row.data;
          table := table[newId := Row(row.expire, copied)];
        }
      } else {
        if newId in table {
          return false;
        }
        table := table[newId := Row(now + timeout, None)];
      }
      ok := true;
    }
  }
}
