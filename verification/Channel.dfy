/** The service that the notify protocol gives the layers above it, in one direction: bodies are
    sent, some of them are read by the other side, always in send order and each at most once,
    and the fate of each is reported to its sender, in send order, once it is settled. */
module Channel {
  datatype Channel<P> = Channel(
    sent: seq<P>,
    cursor: nat,          // bodies before this one can no longer be read
    read: set<nat>,       // the bodies that were read
    notified: nat)        // the bodies before this one have been reported

  ghost predicate Valid<P>(c: Channel<P>) {
    && (forall i :: i in c.read ==> i < c.cursor)
    && c.notified <= c.cursor <= |c.sent| <= c.notified + 30
  }

  function Empty<P>(): Channel<P> {
    Channel([], 0, {}, 0)
  }

  ghost predicate CanSend<P>(c: Channel<P>) { |c.sent| < c.notified + 30 }

  ghost function Send<P>(c: Channel<P>, body: P): Channel<P> {
    c.(sent := c.sent + [body])
  }

  /** Body i is read; the unread ones before it never will be. */
  ghost predicate CanRead<P>(c: Channel<P>, i: nat) { c.cursor <= i < |c.sent| }

  ghost function Read<P>(c: Channel<P>, i: nat): Channel<P> {
    c.(cursor := i + 1, read := c.read + {i})
  }

  /** The receiver learns that body i - 1 was sent without reading it. */
  ghost predicate CanSkip<P>(c: Channel<P>, i: nat) { c.cursor <= i <= |c.sent| }

  ghost function Skip<P>(c: Channel<P>, i: nat): Channel<P> {
    c.(cursor := i)
  }

  /** The oldest unreported body is reported: as arrived exactly if it was read. */
  ghost predicate CanNotify<P>(c: Channel<P>) { c.notified < c.cursor }

  ghost predicate Arrived<P>(c: Channel<P>) { c.notified in c.read }

  ghost function Notify<P>(c: Channel<P>): Channel<P> {
    c.(notified := c.notified + 1)
  }

  lemma StepsKeepValid<P>(c: Channel<P>, body: P, i: nat)
    requires Valid(c)
    ensures CanSend(c) ==> Valid(Send(c, body))
    ensures CanRead(c, i) ==> Valid(Read(c, i))
    ensures CanSkip(c, i) ==> Valid(Skip(c, i))
    ensures CanNotify(c) ==> Valid(Notify(c))
  {
  }

  /** What is settled stays settled: a body that was read, or can no longer be, keeps that fate
      whatever the channel does next. */
  lemma FateIsFinal<P>(c: Channel<P>, body: P, i: nat, k: nat)
    requires Valid(c) && k < c.cursor
    ensures CanSend(c) ==> (k in Send(c, body).read <==> k in c.read)
    ensures CanRead(c, i) ==> (k in Read(c, i).read <==> k in c.read)
  {
  }
}
