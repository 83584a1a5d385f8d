/**
 * The texts the bot sends: the notification for a status change, the welcome
 * reply to a subscriber and the current-status line. The formatted time of
 * day and date are opaque strings supplied by the caller.
 */
module Messages {
  import opened Wrappers

  const ClosedPrefix: string := "Il laboratorio è stato chiuso alle "
  const OpenPrefix: string := "Il laboratorio è stato aperto alle "
  const DateSeparator: string := " del "
  const ActorSeparator: string := " da "

  /**
   * The notification text: closed ignores the actor; open names the actor
   * when one is known and uses the plain open template otherwise.
   */
  function Render(open: bool, actor: Option<string>, timeOfDay: string, date: string): (text: string)
    ensures !open ==> ClosedPrefix <= text
    ensures open ==> OpenPrefix <= text
  {
    if !open then
      ClosedPrefix + timeOfDay + DateSeparator + date
    else if actor.Some? then
      OpenPrefix + timeOfDay + DateSeparator + date + ActorSeparator + actor.value
    else
      OpenPrefix + timeOfDay + DateSeparator + date
  }

  /** Reads the status back from a notification text by its template prefix. */
  function StatusOfMessage(text: string): (open: Option<bool>)
  {
    if ClosedPrefix <= text then Some(false)
    else if OpenPrefix <= text then Some(true)
    else None
  }

  /** The two template prefixes part ways at "chiuso" / "aperto". */
  lemma PrefixesDiffer(text: string)
    requires OpenPrefix <= text
    ensures !(ClosedPrefix <= text)
  {
    assert text[23] == OpenPrefix[23] == 'a';
    assert ClosedPrefix[23] == 'c';
  }

  /** Every notification states the status it was rendered for. */
  lemma RenderStatusRoundTrip(open: bool, actor: Option<string>, timeOfDay: string, date: string)
    ensures StatusOfMessage(Render(open, actor, timeOfDay, date)) == Some(open)
  {
    if open {
      PrefixesDiffer(Render(open, actor, timeOfDay, date));
    }
  }

  /** A closed notification is the same whoever the actor is. */
  lemma ClosedIgnoresActor(a1: Option<string>, a2: Option<string>, timeOfDay: string, date: string)
    ensures Render(false, a1, timeOfDay, date) == Render(false, a2, timeOfDay, date)
  {
  }

  /**
   * An open notification with an actor extends the plain open one by
   * " da " and the actor's name, so the name can be read back from it.
   */
  lemma OpenActorRecoverable(name: string, timeOfDay: string, date: string)
    ensures var plain := Render(true, None, timeOfDay, date);
            var named := Render(true, Some(name), timeOfDay, date);
            && named == plain + ActorSeparator + name
            && named[|plain| + |ActorSeparator|..] == name
  {
    var plain := Render(true, None, timeOfDay, date);
    var named := Render(true, Some(name), timeOfDay, date);
    assert named == plain + ActorSeparator + name;
  }

  /** Two open notifications with the same time and date name the same actor only if they are equal. */
  lemma {:induction false} OpenActorInjective(n1: string, n2: string, timeOfDay: string, date: string)
    requires Render(true, Some(n1), timeOfDay, date) == Render(true, Some(n2), timeOfDay, date)
    ensures n1 == n2
  {
    OpenActorRecoverable(n1, timeOfDay, date);
    OpenActorRecoverable(n2, timeOfDay, date);
  }

  const WelcomeBase: string := "Ciao, sono il bot HLCS 🦀. Ti avviserò quando il laboratorio sarà aperto o chiuso"
  const AlreadySubscribedSuffix: string := ", ti avverto che eri già iscritto"

  /**
   * The welcome reply: the base greeting, followed by the "already
   * subscribed" warning exactly when the subscription insert failed.
   */
  function WelcomeText(inserted: bool): (text: string)
    ensures WelcomeBase <= text
    ensures text == WelcomeBase <==> inserted
    ensures !inserted ==> text[|WelcomeBase|..] == AlreadySubscribedSuffix
  {
    if inserted then WelcomeBase else WelcomeBase + AlreadySubscribedSuffix
  }

  const StatusLinePrefix: string := "Il laboratorio è attualmente "

  /** The current-status reply, built from the newest log row. */
  function StatusLine(open: bool): (text: string)
    ensures StatusLinePrefix <= text
    ensures |text| > |StatusLinePrefix| && text[|StatusLinePrefix|] == (if open then 'a' else 'c')
  {
    StatusLinePrefix + (if open then "aperto" else "chiuso")
  }
}
