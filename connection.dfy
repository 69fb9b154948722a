/** The session state of the viewer's `useSolaceClient` hook: the four state
    fields, the `connect` and `disconnect` callbacks and the handlers that
    `connect` registers for the transport's session events. The transport
    itself is abstract: what its calls return or throw, and which events it
    delivers, are inputs. */
module Connection {
  import opened Strings

  /** Identifies one transport session object created by `createSession`. */
  type SessionHandle = nat

  /** A thrown JavaScript value: an `Error` with its message, or anything else. */
  datatype Thrown = ErrorObject(message: string) | OtherValue

  /** `err instanceof Error ? err.message : fallback`. */
  function ErrorText(t: Thrown, fallback: string): (text: string)
    ensures t.ErrorObject? ==> text == t.message
    ensures t.OtherValue? ==> text == fallback
  {
    match t
    case ErrorObject(m) => m
    case OtherValue => fallback
  }

  /** `err.message` inside a template literal: `undefined` for a thrown value
      that is not an `Error`. */
  function MessageText(t: Thrown): (text: string)
    ensures t.ErrorObject? ==> text == t.message
    ensures t.OtherValue? ==> text == "undefined"
  {
    match t
    case ErrorObject(m) => m
    case OtherValue => "undefined"
  }

  /** How the body of `connect` ends after its guard: the session is created
      and `connect()` is called on it; creating the session throws; or the
      session exists (its handlers registered) and `connect()` throws. */
  datatype ConnectAttempt =
    | Opened(handle: SessionHandle)
    | CreateThrew(thrown: Thrown)
    | ConnectThrew(handle: SessionHandle, thrown: Thrown)

  /** A session event and the session whose handler receives it. `UpNotice`
      carries what the subscribe call in its handler throws, if anything. */
  datatype SessionEvent =
    | UpNotice(source: SessionHandle, subscribeFailure: Option<Thrown>)
    | ConnectFailed(source: SessionHandle, infoStr: string)
    | Disconnected(source: SessionHandle)
    | SubscriptionError(source: SessionHandle, infoStr: string)

  class SolaceClient {
    var isConnected: bool
    var isConnecting: bool
    var session: Option<SessionHandle>
    var error: Option<string>
    /** The transport sessions `connect` has created, oldest first. */
    ghost var created: seq<SessionHandle>

    /** Connected implies a session is held, connected and connecting
        exclude each other, and a held session is one `connect` created. */
    ghost predicate Valid()
      reads this
    {
      && (isConnected ==> session.Some?)
      && !(isConnected && isConnecting)
      && (session.Some? ==> session.value in created)
    }

    constructor ()
      ensures Valid()
      ensures !isConnected && !isConnecting && session == None && error == None && created == []
    {
      isConnected, isConnecting, session, error := false, false, None, None;
      created := [];
    }

    /** `connect`: a no-op while a session is held or a connection is in
        flight; otherwise connecting starts with the error cleared, or, if
        the transport call throws, ends at once with the error recorded. */
    method Connect(attempt: ConnectAttempt)
      requires Valid()
      modifies this
      ensures Valid()
      ensures old(session.Some? || isConnecting) ==>
        isConnected == old(isConnected) && isConnecting == old(isConnecting) &&
        session == old(session) && error == old(error) && created == old(created)
      ensures !old(session.Some? || isConnecting) ==>
        && session == None && !isConnected
        && created == old(created) + (if attempt.CreateThrew? then [] else [attempt.handle])
        && (attempt.Opened? ==> isConnecting && error == None)
        && (!attempt.Opened? ==> !isConnecting && error == Some(ErrorText(attempt.thrown, "Failed to connect")))
    {
      if session.Some? || isConnecting {
        return;
      }
      isConnecting := true;
      error := None;
      match attempt
      case Opened(h) =>
        created := created + [h];
      case CreateThrew(t) =>
        error := Some(ErrorText(t, "Failed to connect"));
        isConnecting := false;
        isConnected := false;
      case ConnectThrew(h, t) =>
        created := created + [h];
        error := Some(ErrorText(t, "Failed to connect"));
        isConnecting := false;
        isConnected := false;
    }

    /** The handler `connect` registered on `e.source` for the event. */
    method OnEvent(e: SessionEvent)
      requires Valid() && e.source in created
      modifies this
      ensures Valid() && created == old(created)
      ensures e.UpNotice? ==>
        && isConnected && !isConnecting && session == Some(e.source)
        && error == (if e.subscribeFailure.None? then None
                     else Some("Failed to subscribe: " + MessageText(e.subscribeFailure.value)))
      ensures e.ConnectFailed? ==>
        && !isConnected && !isConnecting && session == old(session)
        && error == Some("Connection failed: " + e.infoStr)
      ensures e.Disconnected? ==>
        && !isConnected && session == None
        && isConnecting == old(isConnecting) && error == old(error)
      ensures e.SubscriptionError? ==>
        && isConnected == old(isConnected) && isConnecting == old(isConnecting) && session == old(session)
        && error == Some("Subscription error: " + e.infoStr)
    {
      match e
      case UpNotice(h, subscribeFailure) =>
        isConnected := true;
        isConnecting := false;
        error := None;
        session := Some(h);
        if subscribeFailure.Some? {
          error := Some("Failed to subscribe: " + MessageText(subscribeFailure.value));
        }
      case ConnectFailed(_, infoStr) =>
        error := Some("Connection failed: " + infoStr);
        isConnecting := false;
        isConnected := false;
      case Disconnected(_) =>
        isConnected := false;
        session := None;
      case SubscriptionError(_, infoStr) =>
        error := Some("Subscription error: " + infoStr);
    }

    /** `disconnect`: a no-op without a session. Otherwise, when the transport
        reports the session connected, unsubscribe and disconnect are called;
        if they throw only the error changes and the session is kept, else the
        session is released and the client is disconnected. */
    method Disconnect(transportConnected: bool, teardownFailure: Option<Thrown>)
      requires Valid()
      modifies this
      ensures Valid() && created == old(created) && isConnecting == old(isConnecting)
      ensures old(session).None? ==>
        isConnected == old(isConnected) && session == old(session) && error == old(error)
      ensures old(session).Some? && transportConnected && teardownFailure.Some? ==>
        && isConnected == old(isConnected) && session == old(session)
        && error == Some(ErrorText(teardownFailure.value, "Failed to disconnect"))
      ensures old(session).Some? && !(transportConnected && teardownFailure.Some?) ==>
        !isConnected && session == None && error == old(error)
    {
      if session.Some? {
        if transportConnected && teardownFailure.Some? {
          error := Some(ErrorText(teardownFailure.value, "Failed to disconnect"));
          return;
        }
        session := None;
        isConnected := false;
      }
    }
  }

  /** A run of the hook showing that connecting twice opens one session:
      a second `connect` while the first is in flight creates no second
      session; a subscription error leaves the client
      connected; a second `disconnect` changes nothing. */
  method ConnectTwiceThenDisconnect()
  {
    var c := new SolaceClient();
    c.Connect(Opened(1));
    c.Connect(Opened(2));
    assert c.created == [1] && c.isConnecting;
    c.OnEvent(UpNotice(1, None));
    assert c.isConnected && c.session == Some(1) && c.error == None;
    c.OnEvent(SubscriptionError(1, "denied"));
    assert c.isConnected && c.error == Some("Subscription error: " + "denied");
    c.Connect(Opened(3));
    assert c.created == [1];
    c.Disconnect(true, None);
    assert !c.isConnected && c.session == None;
    c.Disconnect(false, None);
    assert !c.isConnected && c.session == None && c.error == Some("Subscription error: " + "denied");
  }
}
