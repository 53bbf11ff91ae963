/** `handle_request_crossbeam_tiles`: the first WebSocket message decides whether a
    render starts; if so a compute task runs the tile workers and a collector task
    merges, forwards and finally saves what they send. */
module Server {
  import opened Wrappers
  import opened Colors
  import opened Canvas
  import opened ImageTile
  import opened TileWorker
  import opened Collector

  /** The kinds of WebSocket message the handler distinguishes. */
  datatype WsMessage = Text(body: string) | Close | OtherMessage

  /** One item of the socket's receive stream: a message or a transport error. */
  datatype Frame = Received(msg: WsMessage) | ReceiveError(err: string)

  /** The integer fields of the `RENDERFRACTAL` request the renderer uses. */
  datatype RenderRequest = RenderRequest(width: nat, height: nat, colors: nat, xTiles: nat, yTiles: nat)

  /** The JSON decoding of a `WebSocketRequest`; its only command is `RENDERFRACTAL`. */
  type Parser = string -> Option<RenderRequest>

  /** The decision on the first message: a closed stream (`unwrap` on None) and a
      receive error (`panic!`) panic. A close message panics when info logging is on
      (`logInfo`): the log line unwraps the message's text, which only a text message
      has, and the logging macros evaluate their arguments only when the level is
      enabled. A text that parses starts a render; a text that does not parse, a close
      message with logging off and any other message start nothing. */
  function FirstMessage(first: Option<Frame>, parse: Parser, logInfo: bool): (r: Result<Option<RenderRequest>>)
    ensures r.Panic? <==> first.None? || first.value.ReceiveError? || (first.value.msg.Close? && logInfo)
    ensures r.Ok? && r.value.Some? <==>
              first.Some? && first.value.Received? && first.value.msg.Text? && parse(first.value.msg.body).Some?
    ensures r.Ok? && r.value.Some? ==> r.value.value == parse(first.value.msg.body).value
  {
    match first
    case None => Panic("called `Option::unwrap()` on a `None` value")
    case Some(ReceiveError(err)) => Panic("not a valid request struct")
    case Some(Received(Text(body))) => Ok(parse(body))
    case Some(Received(Close)) =>
      if logInfo then Panic("called `Result::unwrap()` on an `Err` value") else Ok(None)
    case Some(Received(OtherMessage)) => Ok(None)
  }

  /** The request a first message starts, if any. */
  predicate Starts(first: Option<Frame>, parse: Parser, logInfo: bool, req: RenderRequest)
  {
    FirstMessage(first, parse, logInfo) == Ok(Some(req))
  }

  /** The whole handler. The compute task runs the tile workers on `cores` threads in
      the interleaving `schedule`; the channel's receiver lives as long as the
      collector, so no send to it fails. A compute task that panics does so before
      sending anything, which drops the only sender: the collector then sees an empty
      channel. `socketFails` are the message positions whose socket send fails. */
  method HandleRequestCrossbeamTiles(first: Option<Frame>, parse: Parser, logInfo: bool, cores: nat,
                                     palette16: seq<Color>, palette256: seq<Color>, kernel: Kernel,
                                     schedule: seq<nat>, socketFails: set<nat>)
    returns (r: Result<Option<(seq<Color>, seq<Event>)>>)
    requires forall req :: Starts(first, parse, logInfo, req) && req.xTiles > 0 && req.yTiles > 0 ==>
               Progressing(Tiles(req.width, req.height, req.xTiles, req.yTiles))
    ensures r.Panic? <==> FirstMessage(first, parse, logInfo).Panic?
    ensures r.Ok? ==> (r.value.Some? <==> FirstMessage(first, parse, logInfo).value.Some?)
    ensures r.Ok? && r.value.Some? ==>
              var req := FirstMessage(first, parse, logInfo).value.value;
              var (pixels, events) := r.value.value;
              |events| > 0 && events[|events| - 1] == Saved(pixels) &&
              (forall i :: 0 <= i < |events| - 1 ==> !events[i].Saved?) &&
              pixels == if cores > 0 && req.xTiles > 0 && req.yTiles > 0 &&
                           SelectPalette(req.colors, palette16, palette256).Ok?
                        then RowMajor(req.width, req.height, Bind(kernel, SelectPalette(req.colors, palette16, palette256).value))
                        else Blank(req.width * req.height)
  {
    var action := FirstMessage(first, parse, logInfo);
    if action.Panic? {
      return Panic(action.reason);
    }
    if action.value.None? {
      return Ok(None);
    }
    var req := action.value.value;
    assert Starts(first, parse, logInfo, req);
    var computed, sentTiles, lostTiles := CalcMultiThreadedCrossbeamTiles(
      req.width, req.height, req.colors, req.xTiles, req.yTiles, cores, palette16, palette256, kernel,
      schedule, {});
    var received: seq<TileData> := [];
    if computed.Ok? {
      received := computed.value.0;
    }
    ghost var expected := Blank(req.width * req.height);
    if computed.Ok? && cores > 0 {
      var f := Bind(kernel, SelectPalette(req.colors, palette16, palette256).value);
      DeliveredCanvas(req.width, req.height, req.xTiles, req.yTiles, f, sentTiles, lostTiles, received);
      expected := RowMajor(req.width, req.height, f);
    } else {
      assert Overlay(expected, req.width, Points(received)) == Some(expected);
    }
    var collected := ServerCollector(req.width, req.height, received, socketFails);
    var (pixels, events) := collected.value;
    EventLogShape(received, socketFails);
    return Ok(Some((pixels, events)));
  }

}
