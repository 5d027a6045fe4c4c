/** The client's connection state (VPSMonit/context/ApiContext.tsx): the provider's
    `data / loading / error / eventSource` state and the events that change it.
    `JSON.parse` is the parameter `decode`; the endpoint address is a parameter too.

    React state read inside a handler is the value of the render that created the
    handler. The model keeps that value apart (`renderedEventSource`) from the latest
    value set (`eventSource`), and `Render` is the re-render that brings them together. */
module ApiContext {
  import opened Types

  /** What a failing `JSON.parse` throws: an `Error`, or some other value. */
  datatype Thrown = ThrownError(error: Error) | ThrownValue(description: string)

  /** The error the provider stores for a parse failure (ApiContext.tsx:46-48). */
  function ParseFailure(t: Thrown): (e: Error)
    ensures t.ThrownError? ==> e == t.error
    ensures t.ThrownValue? ==> e.message == "Failed to parse data"
  {
    match t
    case ThrownError(err) => err
    case ThrownValue(_) => Error("Failed to parse data")
  }

  const ConnectionError := Error("Connection error")

  class EventSource {
    const url: string
    var closed: bool

    constructor (url: string)
      ensures this.url == url && !closed
    {
      this.url := url;
      closed := false;
    }

    method Close()
      modifies this
      ensures closed
    {
      closed := true;
    }
  }

  class ApiProvider {
    const endpoint: string
    const decode: string -> Result<SystemData, Thrown>
    var data: Option<SystemData>
    var loading: bool
    var error: Option<Error>
    /** The latest connection stored with `setEventSource`. */
    var eventSource: EventSource?
    /** The connection as seen by the functions of the latest render. */
    var renderedEventSource: EventSource?
    /** Every connection the provider has opened, oldest first. */
    ghost var Connections: seq<EventSource>

    ghost predicate Valid()
      reads this, Connections
    {
      && (eventSource == null <==> Connections == [])
      && (Connections != [] ==> eventSource == Connections[|Connections| - 1])
      && (renderedEventSource != null ==> renderedEventSource in Connections)
      && (forall i, j :: 0 <= i < j < |Connections| ==> Connections[i] != Connections[j])
    }

    /** Every connection the provider opened is closed, except perhaps the current one. */
    ghost predicate OnlyCurrentOpen()
      reads this, Connections
    {
      forall k :: 0 <= k < |Connections| && Connections[k] != eventSource ==> Connections[k].closed
    }

    /** The provider's initial state (ApiContext.tsx:23-26). */
    constructor (endpoint: string, decode: string -> Result<SystemData, Thrown>)
      ensures Valid() && OnlyCurrentOpen()
      ensures this.endpoint == endpoint && this.decode == decode
      ensures data == None && loading && error == None
      ensures eventSource == null && renderedEventSource == null && Connections == []
    {
      this.endpoint, this.decode := endpoint, decode;
      data, loading, error := None, true, None;
      eventSource, renderedEventSource := null, null;
      Connections := [];
    }

    /** A re-render: the provider's functions now see the latest connection. */
    method Render()
      requires Valid()
      modifies this
      ensures Valid()
      ensures renderedEventSource == eventSource
      ensures eventSource == old(eventSource) && Connections == old(Connections)
      ensures data == old(data) && loading == old(loading) && error == old(error)
    {
      renderedEventSource := eventSource;
    }

    /** `setupEventSource` (ApiContext.tsx:28-61) as written: it closes the connection
        its render saw, shows loading, clears the error and opens a new current connection.
        When that render saw the latest connection, every older one is closed afterwards. */
    method SetupEventSource()
      requires Valid()
      modifies this, renderedEventSource
      ensures Valid()
      ensures old(renderedEventSource) != null ==> old(renderedEventSource).closed
      ensures forall c :: c in old(Connections) && c != old(renderedEventSource) ==> c.closed == old(c.closed)
      ensures fresh(eventSource) && eventSource.url == endpoint && !eventSource.closed
      ensures Connections == old(Connections) + [eventSource]
      ensures renderedEventSource == old(renderedEventSource)
      ensures loading && error == None && data == old(data)
      ensures old(OnlyCurrentOpen()) && old(renderedEventSource) == old(eventSource) ==> OnlyCurrentOpen()
    {
      if renderedEventSource != null {
        renderedEventSource.Close();
      }
      loading, error := true, None;
      var newEventSource := new EventSource(endpoint);
      eventSource := newEventSource;
      Connections := Connections + [newEventSource];
    }

    /** `refresh` (ApiContext.tsx:76-78): exactly `setupEventSource`. */
    method Refresh()
      requires Valid()
      modifies this, renderedEventSource
      ensures Valid()
      ensures old(renderedEventSource) != null ==> old(renderedEventSource).closed
      ensures forall c :: c in old(Connections) && c != old(renderedEventSource) ==> c.closed == old(c.closed)
      ensures fresh(eventSource) && eventSource.url == endpoint && !eventSource.closed
      ensures Connections == old(Connections) + [eventSource]
      ensures renderedEventSource == old(renderedEventSource)
      ensures loading && error == None && data == old(data)
      ensures old(OnlyCurrentOpen()) && old(renderedEventSource) == old(eventSource) ==> OnlyCurrentOpen()
    {
      SetupEventSource();
    }

    /** `setupEventSource` reading the latest connection (as through a ref) instead of the
        rendered one: every older connection stays closed whatever the order of events. */
    method SetupEventSourceLatest()
      requires Valid()
      modifies this, eventSource
      ensures Valid()
      ensures old(eventSource) != null ==> old(eventSource).closed
      ensures forall c :: c in old(Connections) && c != old(eventSource) ==> c.closed == old(c.closed)
      ensures fresh(eventSource) && eventSource.url == endpoint && !eventSource.closed
      ensures Connections == old(Connections) + [eventSource]
      ensures renderedEventSource == old(renderedEventSource)
      ensures loading && error == None && data == old(data)
      ensures old(OnlyCurrentOpen()) ==> OnlyCurrentOpen()
    {
      if eventSource != null {
        eventSource.Close();
      }
      loading, error := true, None;
      var newEventSource := new EventSource(endpoint);
      eventSource := newEventSource;
      Connections := Connections + [newEventSource];
    }

    /** `onmessage` of an open connection (ApiContext.tsx:40-51): a payload that decodes
        replaces `data`; one that does not sets `error`; either way loading ends. */
    method OnMessage(source: EventSource, payload: string)
      requires Valid() && source in Connections && !source.closed
      modifies this
      ensures Valid()
      ensures !loading
      ensures decode(payload).Success? ==> data == Some(decode(payload).value) && error == old(error)
      ensures decode(payload).Failure? ==> error == Some(ParseFailure(decode(payload).error)) && data == old(data)
      ensures eventSource == old(eventSource) && renderedEventSource == old(renderedEventSource)
      ensures Connections == old(Connections)
    {
      match decode(payload)
      case Success(parsed) =>
        data := Some(parsed);
        loading := false;
      case Failure(thrown) =>
        error := Some(ParseFailure(thrown));
        loading := false;
    }

    /** `onerror` of an open connection (ApiContext.tsx:53-58): the error is shown, loading
        ends, the data is kept and that connection is closed for good (no reconnect). */
    method OnError(source: EventSource)
      requires Valid() && source in Connections && !source.closed
      modifies this, source
      ensures Valid()
      ensures error == Some(ConnectionError) && !loading && data == old(data)
      ensures source.closed
      ensures eventSource == old(eventSource) && renderedEventSource == old(renderedEventSource)
      ensures Connections == old(Connections)
      ensures old(OnlyCurrentOpen()) ==> OnlyCurrentOpen()
    {
      error := Some(ConnectionError);
      loading := false;
      source.Close();
    }
  }

  /** Where every connection but the current one is closed, at most one is open. */
  lemma AtMostOneOpen(p: ApiProvider, c: EventSource, d: EventSource)
    requires p.Valid() && p.OnlyCurrentOpen()
    requires c in p.Connections && d in p.Connections && !c.closed && !d.closed
    ensures c == d && c == p.eventSource
  {
  }

  /** Mount, a render, then two refreshes before the next render: both new connections are open. */
  method DoubleRefreshAsWritten(endpoint: string, decode: string -> Result<SystemData, Thrown>)
    returns (first: EventSource, second: EventSource)
    ensures first != second && !first.closed && !second.closed
  {
    var p := new ApiProvider(endpoint, decode);
    p.SetupEventSource();
    p.Render();
    p.Refresh();
    first := p.eventSource;
    p.Refresh();
    second := p.eventSource;
  }

  /** The same events with the corrected setup: only the last connection is open. */
  method DoubleRefreshLatest(endpoint: string, decode: string -> Result<SystemData, Thrown>)
    returns (first: EventSource, second: EventSource)
    ensures first != second && first.closed && !second.closed
  {
    var p := new ApiProvider(endpoint, decode);
    p.SetupEventSourceLatest();
    p.Render();
    p.SetupEventSourceLatest();
    first := p.eventSource;
    p.SetupEventSourceLatest();
    second := p.eventSource;
  }
}
