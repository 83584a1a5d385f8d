/**
 * The two tables of the bot's database, held in memory: `logs`, the status
 * history, and `users`, the subscribers. Both keep SQLite's AUTOINCREMENT
 * semantics (a per-table sequence that only grows), and `users` keeps the
 * UNIQUE constraint on the chat id. Storage failures are inputs.
 */
module Store {
  import opened Wrappers

  /** One row of `logs`: the status observed and the time it was written. */
  datatype Log = Log(id: int, status: bool, timestamp: string)

  /** One row of `users`: a subscriber, identified by the chat it is notified in. */
  datatype User = User(id: int, telegramId: int)

  /** Which storage operations fail during one call into the database. */
  datatype Faults = Faults(lastReadFails: bool, insertFails: bool, selectFails: bool)

  const NoFaults := Faults(false, false, false)

  /** Ids strictly increase along the table, are positive and never exceed the sequence. */
  ghost predicate LogsValid(logs: seq<Log>, logSeq: int)
  {
    && 0 <= logSeq
    && (forall i, j :: 0 <= i < j < |logs| ==> logs[i].id < logs[j].id)
    && (forall i :: 0 <= i < |logs| ==> 1 <= logs[i].id <= logSeq)
  }

  /** As for logs, and no chat id occurs in two rows. */
  ghost predicate UsersValid(users: seq<User>, userSeq: int)
  {
    && 0 <= userSeq
    && (forall i, j :: 0 <= i < j < |users| ==> users[i].id < users[j].id)
    && (forall i :: 0 <= i < |users| ==> 1 <= users[i].id <= userSeq)
    && (forall i, j :: 0 <= i < j < |users| ==> users[i].telegramId != users[j].telegramId)
  }

  /** The chat ids of the subscribers. */
  function ChatIds(users: seq<User>): (ids: set<int>)
    ensures forall i :: 0 <= i < |users| ==> users[i].telegramId in ids
    ensures forall c :: c in ids ==> exists i :: 0 <= i < |users| && users[i].telegramId == c
  {
    set u | u in users :: u.telegramId
  }

  class Database {
    var logs: seq<Log>
    var logSeq: int      // the AUTOINCREMENT sequence of `logs`: the largest id ever handed out
    var users: seq<User>
    var userSeq: int     // the AUTOINCREMENT sequence of `users`

    ghost predicate Valid()
      reads this
    {
      LogsValid(logs, logSeq) && UsersValid(users, userSeq)
    }

    /** A freshly created database: both tables empty. */
    constructor ()
      ensures Valid()
      ensures logs == [] && users == [] && logSeq == 0 && userSeq == 0
    {
      logs, logSeq := [], 0;
      users, userSeq := [], 0;
    }

    /**
     * The newest row of `logs` (ORDER BY id DESC LIMIT 1). Fails both when
     * the read fails and when the table is empty.
     */
    method LastStatus(readFails: bool) returns (last: Option<Log>)
      requires Valid()
      ensures last.Some? <==> !readFails && logs != []
      ensures last.Some? ==> last.value in logs && forall l :: l in logs ==> l.id <= last.value.id
      ensures last.Some? ==> last.value == logs[|logs| - 1]
    {
      if readFails || logs == [] {
        return None;
      }
      last := Some(logs[|logs| - 1]);
    }

    /**
     * Appends one row with the given status and timestamp under a fresh id,
     * larger than every id already in the table; on a write failure nothing changes.
     */
    method InsertStatus(status: bool, timestamp: string, writeFails: bool) returns (ok: bool)
      requires Valid()
      modifies this`logs, this`logSeq
      ensures Valid()
      ensures ok == !writeFails
      ensures ok ==> logSeq == old(logSeq) + 1 && logs == old(logs) + [Log(logSeq, status, timestamp)]
      ensures ok ==> forall l :: l in old(logs) ==> l.id < logSeq
      ensures !ok ==> logs == old(logs) && logSeq == old(logSeq)
    {
      if writeFails {
        return false;
      }
      logSeq := logSeq + 1;
      logs := logs + [Log(logSeq, status, timestamp)];
      ok := true;
    }

    /** Every subscriber, in table order, unless the read fails. */
    method SelectAllUsers(readFails: bool) returns (all: Option<seq<User>>)
      requires Valid()
      ensures all.Some? <==> !readFails
      ensures all.Some? ==> all.value == users
    {
      if readFails {
        return None;
      }
      all := Some(users);
    }

    /**
     * Adds a subscriber for `chatId`. Rejected, with the table unchanged,
     * when the chat is already subscribed (the UNIQUE constraint) or the
     * write fails; the caller cannot tell the two apart.
     */
    method InsertUser(chatId: int, writeFails: bool) returns (ok: bool)
      requires Valid()
      modifies this`users, this`userSeq
      ensures Valid()
      ensures ok <==> !writeFails && chatId !in ChatIds(old(users))
      ensures ok ==> userSeq == old(userSeq) + 1 && users == old(users) + [User(userSeq, chatId)]
      ensures !ok ==> users == old(users) && userSeq == old(userSeq)
      ensures ChatIds(users) == ChatIds(old(users)) + (if writeFails then {} else {chatId})
    {
      if writeFails || chatId in ChatIds(users) {
        return false;
      }
      userSeq := userSeq + 1;
      users := users + [User(userSeq, chatId)];
      ok := true;
    }
  }
}
