/**
 * Handling of an incoming chat message: subscribe the chat, then reply with
 * the welcome text and, when the log has a newest row, the current status.
 */
module Subscription {
  import opened Wrappers
  import opened Messages
  import opened Store
  import opened Notifier

  /**
   * The replies the handler tries to send, in order: the welcome text, and the
   * status line only when a last status exists and the welcome went out (a
   * failed send ends the handler early).
   */
  function Replies(inserted: bool, last: Option<bool>, welcomeSent: bool): (replies: seq<string>)
    ensures 1 <= |replies| <= 2
    ensures replies[0] == WelcomeText(inserted)
    ensures |replies| == 2 <==> last.Some? && welcomeSent
    ensures |replies| == 2 ==> replies[1] == StatusLine(last.value)
  {
    if last.Some? && welcomeSent then [WelcomeText(inserted), StatusLine(last.value)]
    else [WelcomeText(inserted)]
  }

  /** A duplicate chat and a failed write give the same reply. */
  lemma DuplicateLooksLikeFailure(last: Option<bool>, welcomeSent: bool)
    ensures Replies(false, last, welcomeSent)[0] == WelcomeBase + AlreadySubscribedSuffix
  {
  }

  /**
   * Handles one message from `chatId`: tries to subscribe it, looks up the
   * newest log row and returns the replies attempted. Only `users` can change,
   * and only by the one new row.
   */
  method HandleMessage(db: Database, chatId: int, faults: Faults, welcomeSent: bool) returns (replies: seq<string>)
    requires db.Valid()
    modifies db
    ensures db.Valid()
    ensures db.logs == old(db.logs) && db.logSeq == old(db.logSeq)
    ensures var inserted := !faults.insertFails && chatId !in ChatIds(old(db.users));
            && (inserted ==> db.users == old(db.users) + [User(old(db.userSeq) + 1, chatId)]
                             && db.userSeq == old(db.userSeq) + 1)
            && (!inserted ==> db.users == old(db.users) && db.userSeq == old(db.userSeq))
            && replies == Replies(inserted, if faults.lastReadFails || db.logs == [] then None
                                            else Some(db.logs[|db.logs| - 1].status), welcomeSent)
    ensures chatId in ChatIds(db.users) <==> chatId in ChatIds(old(db.users)) || !faults.insertFails
  {
    var added := db.InsertUser(chatId, faults.insertFails);
    var lastRow := db.LastStatus(faults.lastReadFails);
    var status: Option<bool> := None;
    if lastRow.Some? {
      status := Some(lastRow.value.status);
    }
    replies := [WelcomeText(added)];
    if welcomeSent && status.Some? {
      replies := replies + [StatusLine(status.value)];
    }
  }

  // ---------------------------------------------------------------------
  // The chat id as the handler stores it

  /** Rust's `as i32` on a 64-bit integer: keep the low 32 bits, read as two's complement. */
  function AsI32(x: int): (r: int)
    ensures -0x8000_0000 <= r < 0x8000_0000
    ensures (x - r) % 0x1_0000_0000 == 0
  {
    var low := x % 0x1_0000_0000;
    if low < 0x8000_0000 then low else low - 0x1_0000_0000
  }

  /** The chat id the store receives from a message, as the handler converts it. */
  function StoredChatIdAsWritten(chatId: int): (stored: int)
    ensures -0x8000_0000 <= chatId < 0x8000_0000 ==> stored == chatId
  {
    AsI32(chatId)
  }

  /**
   * A chat whose id does not fit in 32 bits is stored under a different id, so
   * the notification goes to another chat, and two chats 2^32 apart collide,
   * so the second is told it is already subscribed.
   */
  lemma TruncatedChatIdMisroutes()
    ensures StoredChatIdAsWritten(7_000_000_000) == -1_589_934_592
    ensures StoredChatIdAsWritten(7_000_000_000) == StoredChatIdAsWritten(7_000_000_000 - 0x1_0000_0000)
  {
  }

  /**
   * Once chat 7000000000 is subscribed under its truncated id, chat 2705032704
   * is already present (its insert is rejected and it gets the "già iscritto"
   * welcome), and every notification for that row goes to chat -1589934592.
   */
  lemma TruncationConsequences(users: seq<User>, i: nat, text: string, sendOk: int -> bool)
    requires i < |users| && users[i].telegramId == StoredChatIdAsWritten(7_000_000_000)
    ensures StoredChatIdAsWritten(2_705_032_704) in ChatIds(users)
    ensures FanOut(users, text, sendOk)[i].chatId == -1_589_934_592 != 7_000_000_000
    ensures WelcomeText(StoredChatIdAsWritten(2_705_032_704) !in ChatIds(users))
              == WelcomeBase + AlreadySubscribedSuffix
  {
    TruncatedChatIdMisroutes();
    assert users[i].telegramId in ChatIds(users);
  }
}
