/**
 * Fan-out of one notification to every subscriber. Each send is tried on its
 * own: a failed send is logged and the loop goes on with the next subscriber.
 */
module Notifier {
  import opened Store

  /** One attempted send: the chat, the text and whether the transport accepted it. */
  datatype Delivery = Delivery(chatId: int, text: string, ok: bool)

  /** The sends the loop attempts: one per subscriber, in list order, all with the same text. */
  function FanOut(users: seq<User>, text: string, sendOk: int -> bool): (attempts: seq<Delivery>)
    ensures |attempts| == |users|
    ensures forall i :: 0 <= i < |users| ==>
              attempts[i] == Delivery(users[i].telegramId, text, sendOk(users[i].telegramId))
  {
    seq(|users|, i requires 0 <= i < |users| => Delivery(users[i].telegramId, text, sendOk(users[i].telegramId)))
  }

  /** How many attempts succeeded. */
  function Delivered(attempts: seq<Delivery>): (n: nat)
    ensures n <= |attempts|
  {
    if attempts == [] then 0
    else Delivered(attempts[..|attempts| - 1]) + (if attempts[|attempts| - 1].ok then 1 else 0)
  }

  /** How many subscribers the transport refuses. */
  function Failures(users: seq<User>, sendOk: int -> bool): (n: nat)
    ensures n <= |users|
  {
    if users == [] then 0
    else Failures(users[..|users| - 1], sendOk) + (if sendOk(users[|users| - 1].telegramId) then 0 else 1)
  }

  /** Failure isolation: the successful sends are all subscribers minus those that fail. */
  lemma {:induction false} FanOutDelivered(users: seq<User>, text: string, sendOk: int -> bool)
    ensures Delivered(FanOut(users, text, sendOk)) == |users| - Failures(users, sendOk)
  {
    if users != [] {
      var init := users[..|users| - 1];
      FanOutDelivered(init, text, sendOk);
      assert FanOut(users, text, sendOk)[..|users| - 1] == FanOut(init, text, sendOk);
    }
  }

  /** Sends `text` to every subscriber in turn, carrying on past failed sends. */
  method Notify(users: seq<User>, text: string, sendOk: int -> bool) returns (attempts: seq<Delivery>)
    ensures |attempts| == |users|
    ensures forall i :: 0 <= i < |users| ==>
              attempts[i] == Delivery(users[i].telegramId, text, sendOk(users[i].telegramId))
    ensures attempts == FanOut(users, text, sendOk)
    ensures Delivered(attempts) == |users| - Failures(users, sendOk)
  {
    attempts := [];
    var i := 0;
    while i < |users|
      invariant 0 <= i <= |users|
      invariant attempts == FanOut(users[..i], text, sendOk)
    {
      var user := users[i];
      var ok := sendOk(user.telegramId);
      attempts := attempts + [Delivery(user.telegramId, text, ok)];
      i := i + 1;
    }
    assert users[..i] == users;
    FanOutDelivered(users, text, sendOk);
  }
}
