/**
 * `HttpServerService`: the per-request handler on `/paste` and the static single instance
 * through which the activity registers its text listener. The HTTP library is abstracted to
 * the request method, the request body (already decoded to characters) and the sequence of
 * things the handler does to the exchange.
 */
module PasteServer {
  import opened Wrappers
  import opened LineReader
  import Utf8

  /** Method tokens are compared case-sensitively (section 9.1 of RFC 9110). */
  const POST := "POST"
  const STATUS_OK := 200
  const OK_TEXT := "Text received successfully"
  /** "Send POST request to /paste with text in body", written in two parts for the ASCII proof below. */
  const USAGE_TEXT := "Send POST request " + "to /paste with text in body"

  /** An `OnTextReceivedListener`, known only by its identity. */
  datatype TextListener = TextListener(id: nat)

  /**
   * What the handler does, in order: call the listener, send the headers, write the body
   * (`BodyWritten(t)` writes `t.getBytes()`, that is `Utf8.Encode(t)`) and close it.
   */
  datatype ExchangeEvent =
    | TextReceived(listener: TextListener, text: string)
    | ResponseHeaders(status: int, length: int)
    | BodyWritten(text: string)
    | BodyClosed

  /** The response the handler sends, as headers, body and close. */
  function Respond(response: string): (events: seq<ExchangeEvent>)
  {
    [ResponseHeaders(STATUS_OK, |response|), BodyWritten(response), BodyClosed]
  }

  /** Everything `handle` does to one exchange, given the listener registered at that time. */
  function Exchange(requestMethod: string, body: string, listener: Option<TextListener>): (events: seq<ExchangeEvent>)
    ensures 3 <= |events| <= 4 && events[|events| - 1] == BodyClosed
    ensures events[|events| - 3].ResponseHeaders? && events[|events| - 3].status == STATUS_OK
    ensures forall i :: 0 <= i < |events| - 3 ==> events[i].TextReceived?
  {
    if requestMethod == POST then
      (if listener.Some? then [TextReceived(listener.value, Strip(body))] else []) + Respond(OK_TEXT)
    else
      Respond(USAGE_TEXT)
  }

  /** The status and the body text an exchange ends with. */
  function Response(events: seq<ExchangeEvent>): (r: Option<(int, string)>)
  {
    if |events| >= 3 && events[|events| - 3].ResponseHeaders? && events[|events| - 2].BodyWritten? then
      Some((events[|events| - 3].status, events[|events| - 2].text))
    else
      None
  }

  /** A request whose method is exactly "POST" is answered 200 with the success text. */
  lemma PostAcknowledged(body: string, listener: Option<TextListener>)
    ensures Response(Exchange(POST, body, listener)) == Some((200, OK_TEXT))
  {
  }

  /**
   * Any other method, lower-case "post" included, is answered 200 with the usage text, and
   * the listener is not called.
   */
  lemma OtherMethodGetsUsage(requestMethod: string, body: string, listener: Option<TextListener>)
    requires requestMethod != POST
    ensures Response(Exchange(requestMethod, body, listener)) == Some((200, USAGE_TEXT))
    ensures forall i :: 0 <= i < |Exchange(requestMethod, body, listener)| ==>
      !Exchange(requestMethod, body, listener)[i].TextReceived?
  {
    var events := Exchange(requestMethod, body, listener);
    assert events == Respond(USAGE_TEXT);
  }

  lemma LowerCasePostGetsUsage(body: string, listener: Option<TextListener>)
    ensures Exchange("post", body, listener) == Respond(USAGE_TEXT)
  {
    assert "post"[0] != POST[0];
  }

  /**
   * The listener is called at most once: exactly when the method is "POST" and a listener is
   * registered, with the body minus its line terminators, and before the headers are sent.
   */
  lemma ListenerCalledOnceBeforeHeaders(requestMethod: string, body: string, listener: Option<TextListener>)
    ensures var events := Exchange(requestMethod, body, listener);
      (exists i :: 0 <= i < |events| && events[i].TextReceived?) <==> (requestMethod == POST && listener.Some?)
    ensures var events := Exchange(requestMethod, body, listener);
      forall i, j :: 0 <= i < |events| && 0 <= j < |events| && events[i].TextReceived? && events[j].TextReceived? ==> i == j
    ensures var events := Exchange(requestMethod, body, listener);
      forall i, j :: 0 <= i < |events| && 0 <= j < |events| && events[i].TextReceived? && events[j].ResponseHeaders? ==> i < j
    ensures var events := Exchange(requestMethod, body, listener);
      forall i :: 0 <= i < |events| && events[i].TextReceived? ==>
        events[i] == TextReceived(listener.value, Strip(body)) && NoTerminator(events[i].text)
  {
    var events := Exchange(requestMethod, body, listener);
    if requestMethod == POST && listener.Some? {
      assert events[0].TextReceived?;
    }
  }

  /** A body without line terminators reaches the listener unchanged. */
  lemma UnterminatedBodyPassedThrough(body: string, listener: TextListener)
    requires NoTerminator(body)
    ensures Exchange(POST, body, Some(listener))[0] == TextReceived(listener, body)
  {
    StripNoTerminator(body);
  }

  lemma OkTextAscii()
    ensures Utf8.IsAscii(OK_TEXT)
  {
  }

  lemma UsageTextAscii()
    ensures Utf8.IsAscii(USAGE_TEXT)
  {
    assert Utf8.IsAscii("Send POST request ");
    assert Utf8.IsAscii("to /paste with text in body");
    Utf8.AsciiAppend("Send POST request ", "to /paste with text in body");
  }

  /** For an ASCII response the declared length, in characters, is the number of bytes written. */
  lemma RespondLength(response: string)
    requires Utf8.IsAscii(response)
    ensures Respond(response)[0].length == |Utf8.Encode(Respond(response)[1].text)|
  {
    Utf8.EncodeAscii(response);
  }

  /** The declared length is the number of bytes written, for both fixed responses. */
  lemma DeclaredLengthIsBytesWritten(requestMethod: string, body: string, listener: Option<TextListener>)
    ensures var events := Exchange(requestMethod, body, listener);
      |events| >= 3 && events[|events| - 3].ResponseHeaders? && events[|events| - 2].BodyWritten? &&
      events[|events| - 3].length == |Utf8.Encode(events[|events| - 2].text)|
  {
    ExchangeShape(requestMethod, body, listener);
    ResponseTextAscii(requestMethod);
    RespondEndsExchange(ListenerCalls(requestMethod, body, listener), ResponseText(requestMethod));
  }

  /** The listener call `handle` makes before it responds, if any. */
  function ListenerCalls(requestMethod: string, body: string, listener: Option<TextListener>): seq<ExchangeEvent>
  {
    if requestMethod == POST && listener.Some? then [TextReceived(listener.value, Strip(body))] else []
  }

  /** The response text `handle` picks for a method. */
  function ResponseText(requestMethod: string): string
  {
    if requestMethod == POST then OK_TEXT else USAGE_TEXT
  }

  lemma ResponseTextAscii(requestMethod: string)
    ensures Utf8.IsAscii(ResponseText(requestMethod))
  {
    if requestMethod == POST {
      OkTextAscii();
    } else {
      UsageTextAscii();
    }
  }

  /** Every exchange is the listener calls followed by the chosen response. */
  lemma ExchangeShape(requestMethod: string, body: string, listener: Option<TextListener>)
    ensures Exchange(requestMethod, body, listener)
            == ListenerCalls(requestMethod, body, listener) + Respond(ResponseText(requestMethod))
  {
    if requestMethod != POST {
      assert [] + Respond(USAGE_TEXT) == Respond(USAGE_TEXT);
    }
  }

  /** Whatever comes before it, an ASCII response ends the exchange with a matching length. */
  lemma RespondEndsExchange(prefix: seq<ExchangeEvent>, response: string)
    requires Utf8.IsAscii(response)
    ensures var events := prefix + Respond(response);
      |events| >= 3 && events[|events| - 3].ResponseHeaders? && events[|events| - 2].BodyWritten? &&
      events[|events| - 3].length == |Utf8.Encode(events[|events| - 2].text)|
  {
    RespondLength(response);
    var events := prefix + Respond(response);
    assert events[|events| - 3] == Respond(response)[0] && events[|events| - 2] == Respond(response)[1];
  }

  /** The `readLine` loop of `handle`: the lines are concatenated without their terminators. */
  method ReadBody(body: string) returns (text: string)
    ensures text == Strip(body)
  {
    text := [];
    var rest := body;
    while true
      invariant text + Strip(rest) == Strip(body)
      decreases |rest|
    {
      var r := ReadLine(rest);
      if r.None? {
        break;
      }
      ReadLineStrip(rest);
      text := text + r.value.line;
      rest := r.value.rest;
    }
  }

  class HttpServerService {
    /** The registered `OnTextReceivedListener`, if any. */
    var listener: Option<TextListener>

    constructor ()
      ensures listener == None
    {
      listener := None;
    }

    /** `PasteHandler.handle` on one exchange. */
    method Handle(requestMethod: string, body: string) returns (events: seq<ExchangeEvent>)
      ensures events == Exchange(requestMethod, body, listener)
    {
      events := [];
      if requestMethod == POST {
        var receivedText := ReadBody(body);
        if listener.Some? {
          events := events + [TextReceived(listener.value, receivedText)];
        }
        events := events + Respond(OK_TEXT);
      } else {
        events := events + Respond(USAGE_TEXT);
      }
    }
  }

  /** The static `instance` field, shared by all callers. */
  class ServiceRegistry {
    var instance: HttpServerService?

    constructor ()
      ensures instance == null
    {
      instance := null;
    }

    /** `setOnTextReceivedListener`: reaches the running instance, and nothing when there is none. */
    method SetOnTextReceivedListener(listener: Option<TextListener>)
      modifies if instance != null then {instance} else {}
      ensures instance == old(instance)
      ensures instance != null ==> instance.listener == listener
    {
      if instance != null {
        instance.listener := listener;
      }
    }

    /** `onCreate` makes the created service the instance. */
    method OnCreate(service: HttpServerService)
      modifies this
      ensures instance == service
    {
      instance := service;
    }

    /** `onDestroy` clears the instance. */
    method OnDestroy()
      modifies this
      ensures instance == null
    {
      instance := null;
    }
  }
}
