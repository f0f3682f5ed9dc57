/** The protocol client: the wire records, the endpoint URLs, model
    listing, and the line-oriented parser that turns a streamed
    chat-completion response into text fragments.

    The HTTP stack and the JSON decoder are collaborators outside the
    model. A server is a function from (url, request) to a response, and a
    decoder is a partial function from a payload to a chunk. */
module Network {
  import opened Wrappers
  import opened Text

  /** One entry of the `GET /v1/models` envelope. */
  datatype ModelInfo = ModelInfo(id: string, object: string, ownedBy: string)

  /** The `{ "data": [...] }` envelope. */
  datatype ModelsResponse = ModelsResponse(data: seq<ModelInfo>)

  /** A `{role, content}` pair as it goes over the wire. */
  datatype WireMessage = WireMessage(role: string, content: string)

  /** The body of `POST /v1/chat/completions`. */
  datatype ChatRequest = ChatRequest(
    model: string,
    messages: seq<WireMessage>,
    maxTokens: int,
    temperature: real,
    stream: bool)

  /** `delta` of a streamed choice; both fields may be absent. */
  datatype Delta = Delta(role: Option<string>, content: Option<string>)

  datatype ChunkChoice = ChunkChoice(delta: Option<Delta>, finishReason: Option<string>)

  /** One decoded `data:` frame of a streamed response. */
  datatype Chunk = Chunk(choices: seq<ChunkChoice>)

  /** The errors the client surfaces: a non-200 status, a failed or
      interrupted transfer, and a payload the decoder rejects. */
  datatype NetError = BadServerResponse | TransportError | DecodeError

  /** What the HTTP stack hands back for a streamed request: the status and
      the body split into lines, or nothing at all. `interrupted` means that
      reading past the last line throws instead of reporting end of body. */
  datatype HttpResponse =
    | Streamed(status: int, lines: seq<string>, interrupted: bool)
    | NoResponse

  const ModelsPath: string := "/v1/models"
  const ChatCompletionsPath: string := "/v1/chat/completions"
  const DataPrefix: string := "data:"
  const DoneToken: string := "[DONE]"

  /** `"\(baseURL)/v1/models"`. */
  function ModelsURL(baseURL: string): string {
    baseURL + ModelsPath
  }

  /** `"\(baseURL)/v1/chat/completions"`. */
  function ChatCompletionsURL(baseURL: string): (url: string)
    ensures url == baseURL + "/v1/chat/completions"
  {
    baseURL + ChatCompletionsPath
  }

  /** `fetchModels`: one GET of the models endpoint, decoded, returning the
      envelope's `data` array as is. The transport's answer is `None` when
      the request throws; the status code is not inspected. */
  function FetchModels(
    baseURL: string,
    get: string -> Option<string>,
    decode: string -> Option<ModelsResponse>): (r: Result<seq<ModelInfo>, NetError>)
    ensures r.Success? <==> get(baseURL + "/v1/models").Some? && decode(get(baseURL + "/v1/models").value).Some?
    ensures r.Success? ==> r.value == decode(get(baseURL + "/v1/models").value).value.data
    ensures get(baseURL + "/v1/models").None? ==> r == Failure(TransportError)
  {
    match get(ModelsURL(baseURL))
    case None => Failure(TransportError)
    case Some(body) =>
      match decode(body)
      case None => Failure(DecodeError)
      case Some(envelope) => Success(envelope.data)
  }

  // ---------------------------------------------------------------------
  // Stream framing

  /** Why the stream ended: the body ran out, a `[DONE]` frame arrived, or
      an error was thrown. The first two both finish the stream normally. */
  datatype Stop = EndOfLines | Done | Failed(error: NetError)

  /** The fragments yielded, in order, and how the stream ended. */
  datatype StreamResult = StreamResult(fragments: seq<string>, stop: Stop) {
    predicate Succeeded() {
      !stop.Failed?
    }
  }

  /** A line trimmed of surrounding whitespace and newlines. */
  function TrimLine(line: string): string {
    Trim(line, IsWhitespaceOrNewline)
  }

  /** Only lines that start with `data:` once trimmed carry a frame. */
  predicate IsDataLine(line: string) {
    HasPrefix(TrimLine(line), DataPrefix)
  }

  /** The frame text after `data:`, trimmed of whitespace (not newlines). */
  function Payload(line: string): string
    requires IsDataLine(line)
  {
    Trim(TrimLine(line)[|DataPrefix|..], IsWhitespace)
  }

  predicate IsDoneLine(line: string) {
    IsDataLine(line) && Payload(line) == DoneToken
  }

  /** `choice.delta?.content`. */
  function ContentOf(choice: ChunkChoice): Option<string> {
    if choice.delta.Some? then choice.delta.value.content else None
  }

  /** The contents a chunk yields: one per choice that has delta content,
      in choice order. */
  function Contents(choices: seq<ChunkChoice>): (r: seq<string>)
    ensures |r| <= |choices|
    ensures forall x :: x in r <==> exists i :: 0 <= i < |choices| && ContentOf(choices[i]) == Some(x)
  {
    if |choices| == 0 then []
    else
      var rest := Contents(choices[1..]);
      assert forall i :: 1 <= i < |choices| ==> choices[i] == choices[1..][i - 1];
      match ContentOf(choices[0])
      case Some(c) => [c] + rest
      case None => rest
  }

  /** Fragments yielded earlier, followed by what the rest of the stream yields. */
  function Prepend(fragments: seq<string>, rest: StreamResult): StreamResult {
    StreamResult(fragments + rest.fragments, rest.stop)
  }

  /** The `for try await line in bytes.lines` loop of
      `streamChatCompletionRequest`, as a function of the lines. */
  function ParseLines(lines: seq<string>, interrupted: bool, decode: string -> Option<Chunk>): StreamResult
    decreases |lines|
  {
    if |lines| == 0 then
      StreamResult([], if interrupted then Failed(TransportError) else EndOfLines)
    else if !IsDataLine(lines[0]) then ParseLines(lines[1..], interrupted, decode)
    else if Payload(lines[0]) == DoneToken then StreamResult([], Done)
    else
      match decode(Payload(lines[0]))
      case None => StreamResult([], Failed(DecodeError))
      case Some(chunk) => Prepend(Contents(chunk.choices), ParseLines(lines[1..], interrupted, decode))
  }

  /** The whole stream: the status check happens before any line is read. */
  function ParseResponse(response: HttpResponse, decode: string -> Option<Chunk>): (r: StreamResult)
    ensures response.NoResponse? ==> r == StreamResult([], Failed(TransportError))
    ensures response.Streamed? && response.status != 200 ==> r == StreamResult([], Failed(BadServerResponse))
    ensures r.fragments != [] ==> response.Streamed? && response.status == 200
  {
    match response
    case NoResponse => StreamResult([], Failed(TransportError))
    case Streamed(status, lines, interrupted) =>
      if status != 200 then StreamResult([], Failed(BadServerResponse))
      else ParseLines(lines, interrupted, decode)
  }

  /** `streamChatCompletionRequest`: POST the request to the chat endpoint
      and parse what comes back. */
  function StreamChatCompletion(
    baseURL: string,
    request: ChatRequest,
    server: (string, ChatRequest) -> HttpResponse,
    decode: string -> Option<Chunk>): (r: StreamResult)
    ensures r == ParseResponse(server(baseURL + "/v1/chat/completions", request), decode)
  {
    ParseResponse(server(ChatCompletionsURL(baseURL), request), decode)
  }

  /** The parser as the source writes it: a loop over lines with `continue`,
      `break` and a `yield` per present delta content. It computes exactly
      what `ParseResponse` describes. */
  method StreamFragments(response: HttpResponse, decode: string -> Option<Chunk>)
    returns (fragments: seq<string>, stop: Stop)
    ensures StreamResult(fragments, stop) == ParseResponse(response, decode)
  {
    fragments := [];
    if response.NoResponse? {
      stop := Failed(TransportError);
      return;
    }
    if response.status != 200 {
      stop := Failed(BadServerResponse);
      return;
    }
    var lines := response.lines;
    var interrupted := response.interrupted;
    assert ParseResponse(response, decode) == ParseLines(lines, interrupted, decode);
    var i := 0;
    while i < |lines|
      invariant 0 <= i <= |lines|
      invariant ParseLines(lines, interrupted, decode)
                == Prepend(fragments, ParseLines(lines[i..], interrupted, decode))
    {
      var line := lines[i];
      // the trimmed line must start with `data:`; the frame is what follows,
      // trimmed of whitespace
      if !IsDataLine(line) {
        SkipStep(lines, i, interrupted, decode);
        i := i + 1;
        continue;
      }
      var json := Payload(line);
      if json == DoneToken {
        StopStep(lines, i, interrupted, decode, fragments);
        stop := Done;
        return;
      }
      var chunk := decode(json);
      if chunk.None? {
        StopStep(lines, i, interrupted, decode, fragments);
        stop := Failed(DecodeError);
        return;
      }
      FrameStep(lines, i, interrupted, decode, fragments, chunk.value);
      fragments := YieldContents(fragments, chunk.value.choices);
      i := i + 1;
    }
    assert lines[i..] == [];
    assert fragments + [] == fragments;
    stop := if interrupted then Failed(TransportError) else EndOfLines;
  }

  /** A line that is not a `data:` line is skipped. */
  lemma SkipStep(lines: seq<string>, i: nat, interrupted: bool, decode: string -> Option<Chunk>)
    requires i < |lines| && !IsDataLine(lines[i])
    ensures ParseLines(lines[i..], interrupted, decode) == ParseLines(lines[i + 1..], interrupted, decode)
  {
    ParseLinesStep(lines, i, interrupted, decode);
  }

  /** `[DONE]`, or a frame the decoder rejects, ends the stream with the
      fragments yielded so far. */
  lemma StopStep(lines: seq<string>, i: nat, interrupted: bool, decode: string -> Option<Chunk>, fragments: seq<string>)
    requires i < |lines| && IsDataLine(lines[i])
    requires Payload(lines[i]) == DoneToken || decode(Payload(lines[i])).None?
    ensures Prepend(fragments, ParseLines(lines[i..], interrupted, decode)) ==
              StreamResult(fragments, if Payload(lines[i]) == DoneToken then Done else Failed(DecodeError))
  {
    ParseLinesStep(lines, i, interrupted, decode);
    assert fragments + [] == fragments;
  }

  /** A decoded frame's contents follow the fragments yielded so far. */
  lemma FrameStep(lines: seq<string>, i: nat, interrupted: bool, decode: string -> Option<Chunk>, fragments: seq<string>, chunk: Chunk)
    requires i < |lines| && IsDataLine(lines[i])
    requires Payload(lines[i]) != DoneToken && decode(Payload(lines[i])) == Some(chunk)
    ensures Prepend(fragments, ParseLines(lines[i..], interrupted, decode)) ==
              Prepend(fragments + Contents(chunk.choices), ParseLines(lines[i + 1..], interrupted, decode))
  {
    ParseLinesStep(lines, i, interrupted, decode);
    PrependTwice(fragments, Contents(chunk.choices), ParseLines(lines[i + 1..], interrupted, decode));
  }

  /** One turn of the line loop: how the line at `i` relates what the
      lines from `i` on yield to what the lines after it yield. */
  lemma ParseLinesStep(lines: seq<string>, i: nat, interrupted: bool, decode: string -> Option<Chunk>)
    requires i < |lines|
    ensures ParseLines(lines[i..], interrupted, decode) ==
              if !IsDataLine(lines[i]) then ParseLines(lines[i + 1..], interrupted, decode)
              else if Payload(lines[i]) == DoneToken then StreamResult([], Done)
              else if decode(Payload(lines[i])).None? then StreamResult([], Failed(DecodeError))
              else Prepend(Contents(decode(Payload(lines[i])).value.choices), ParseLines(lines[i + 1..], interrupted, decode))
  {
    assert lines[i..][0] == lines[i] && lines[i..][1..] == lines[i + 1..];
  }

  lemma PrependTwice(a: seq<string>, b: seq<string>, rest: StreamResult)
    ensures Prepend(a, Prepend(b, rest)) == Prepend(a + b, rest)
  {
    assert a + (b + rest.fragments) == (a + b) + rest.fragments;
  }

  /** The inner `for choice in chunk.choices` loop: one yield per choice
      whose delta has content. */
  method YieldContents(before: seq<string>, choices: seq<ChunkChoice>) returns (fragments: seq<string>)
    ensures fragments == before + Contents(choices)
  {
    fragments := before;
    var j := 0;
    while j < |choices|
      invariant 0 <= j <= |choices|
      invariant fragments == before + Contents(choices[..j])
    {
      ContentsAppend(choices[..j], [choices[j]]);
      assert choices[..j + 1] == choices[..j] + [choices[j]];
      var content := ContentOf(choices[j]);
      if content.Some? {
        fragments := fragments + [content.value];
      }
      j := j + 1;
    }
    assert choices[..j] == choices;
  }

  lemma {:induction false} ContentsAppend(a: seq<ChunkChoice>, b: seq<ChunkChoice>)
    ensures Contents(a + b) == Contents(a) + Contents(b)
    decreases |a|
  {
    if |a| == 0 {
      assert a + b == b;
    } else {
      assert (a + b)[1..] == a[1..] + b;
      ContentsAppend(a[1..], b);
    }
  }

  /** Every data line is a frame the loop gets past: not `[DONE]`, and decodable. */
  predicate AllFramesPass(lines: seq<string>, decode: string -> Option<Chunk>) {
    forall i :: 0 <= i < |lines| && IsDataLine(lines[i]) ==>
      Payload(lines[i]) != DoneToken && decode(Payload(lines[i])).Some?
  }

  /** How the line loop ends. It runs off the end of the body exactly when
      every frame passes and reading did not throw; it stops at `[DONE]`
      only if a `[DONE]` frame is present, and fails to decode only if some
      frame is undecodable. A status error never comes from the loop, and
      without any data line nothing is yielded. */
  lemma {:induction false} ParseLinesOutcome(lines: seq<string>, interrupted: bool, decode: string -> Option<Chunk>)
    ensures ParseLines(lines, interrupted, decode).stop == EndOfLines <==>
              !interrupted && AllFramesPass(lines, decode)
    ensures ParseLines(lines, interrupted, decode).stop == Done ==>
              exists i :: 0 <= i < |lines| && IsDoneLine(lines[i])
    ensures ParseLines(lines, interrupted, decode).stop == Failed(DecodeError) ==>
              exists i :: 0 <= i < |lines| && IsDataLine(lines[i]) && decode(Payload(lines[i])).None?
    ensures ParseLines(lines, interrupted, decode).stop != Failed(BadServerResponse)
    ensures (forall i :: 0 <= i < |lines| ==> !IsDataLine(lines[i])) ==>
              ParseLines(lines, interrupted, decode).fragments == []
    decreases |lines|
  {
    if |lines| > 0 {
      ParseLinesOutcome(lines[1..], interrupted, decode);
      assert forall i :: 1 <= i < |lines| ==> lines[i] == lines[1..][i - 1];
      var r := ParseLines(lines, interrupted, decode);
      if r.stop == Done && !IsDoneLine(lines[0]) {
        var k :| 0 <= k < |lines[1..]| && IsDoneLine(lines[1..][k]);
        assert IsDoneLine(lines[k + 1]);
      }
      if r.stop == Failed(DecodeError) && !(IsDataLine(lines[0]) && decode(Payload(lines[0])).None?) {
        var k :| 0 <= k < |lines[1..]| && IsDataLine(lines[1..][k]) && decode(Payload(lines[1..][k])).None?;
        assert lines[k + 1] == lines[1..][k];
      }
    }
  }

  /** A line that is not a `data:` line yields nothing and does not end the stream. */
  lemma SkipNonDataLine(line: string, rest: seq<string>, interrupted: bool, decode: string -> Option<Chunk>)
    requires !IsDataLine(line)
    ensures ParseLines([line] + rest, interrupted, decode) == ParseLines(rest, interrupted, decode)
  {
    assert ([line] + rest)[1..] == rest;
  }

  /** Parsing is compositional: the lines after a prefix matter only when
      the prefix ran out without `[DONE]` or an error, and then their
      fragments follow the prefix's, in order. */
  lemma {:induction false} ParseAppend(a: seq<string>, b: seq<string>, interrupted: bool, decode: string -> Option<Chunk>)
    ensures ParseLines(a + b, interrupted, decode) ==
              if ParseLines(a, false, decode).stop == EndOfLines
              then Prepend(ParseLines(a, false, decode).fragments, ParseLines(b, interrupted, decode))
              else ParseLines(a, false, decode)
    decreases |a|
  {
    if |a| == 0 {
      assert a + b == b;
    } else {
      var line := a[0];
      assert (a + b)[0] == line;
      assert (a + b)[1..] == a[1..] + b;
      ParseAppend(a[1..], b, interrupted, decode);
      if IsDataLine(line) && Payload(line) != DoneToken && decode(Payload(line)).Some? {
        var rest := ParseLines(a[1..], false, decode);
        PrependTwice(Contents(decode(Payload(line)).value.choices), rest.fragments, ParseLines(b, interrupted, decode));
      }
    }
  }

  /** After a `[DONE]` frame nothing is read: later lines, and a transfer
      error after them, change neither the fragments nor the outcome. */
  lemma DoneEndsStream(a: seq<string>, done: string, b: seq<string>, interrupted: bool, decode: string -> Option<Chunk>)
    requires IsDoneLine(done)
    ensures ParseLines(a + [done] + b, interrupted, decode) == ParseLines(a + [done], false, decode)
    ensures ParseLines(a + [done], false, decode).Succeeded() ==
              ParseLines(a, false, decode).Succeeded()
    ensures ParseLines(a, false, decode).stop == EndOfLines ==>
              ParseLines(a + [done], false, decode) == StreamResult(ParseLines(a, false, decode).fragments, Done)
  {
    assert a + [done] + b == a + ([done] + b);
    ParseAppend(a, [done] + b, interrupted, decode);
    ParseAppend(a, [done], false, decode);
  }

  /** A payload the decoder rejects fails the stream at that line: the
      fragments yielded before it stay, nothing after it is read. */
  lemma DecodeFailureStops(a: seq<string>, bad: string, b: seq<string>, interrupted: bool, decode: string -> Option<Chunk>)
    requires IsDataLine(bad) && Payload(bad) != DoneToken && decode(Payload(bad)).None?
    requires ParseLines(a, false, decode).stop == EndOfLines
    ensures ParseLines(a + [bad] + b, interrupted, decode) ==
              StreamResult(ParseLines(a, false, decode).fragments, Failed(DecodeError))
  {
    assert a + [bad] + b == a + ([bad] + b);
    ParseAppend(a, [bad] + b, interrupted, decode);
  }

  /** A decoded frame contributes its contents right after everything
      yielded before it. */
  lemma FrameOrder(a: seq<string>, frame: string, chunk: Chunk, b: seq<string>, interrupted: bool, decode: string -> Option<Chunk>)
    requires IsDataLine(frame) && Payload(frame) != DoneToken && decode(Payload(frame)) == Some(chunk)
    requires ParseLines(a, false, decode).stop == EndOfLines
    ensures ParseLines(a + [frame] + b, interrupted, decode) ==
              Prepend(ParseLines(a, false, decode).fragments + Contents(chunk.choices), ParseLines(b, interrupted, decode))
  {
    var pre := ParseLines(a, false, decode);
    assert a + [frame] + b == a + ([frame] + b);
    ParseAppend(a, [frame] + b, interrupted, decode);
    assert ([frame] + b)[0] == frame && ([frame] + b)[1..] == b;
    assert ParseLines([frame] + b, interrupted, decode) == Prepend(Contents(chunk.choices), ParseLines(b, interrupted, decode));
    PrependTwice(pre.fragments, Contents(chunk.choices), ParseLines(b, interrupted, decode));
  }

  /** A frame body written without surrounding blanks, as servers send it. */
  predicate PlainPayload(json: string) {
    |json| > 0 && !IsWhitespaceOrNewline(json[0]) && !IsWhitespaceOrNewline(json[|json| - 1])
  }

  /** Two content frames and a `[DONE]` frame, such as
      `data: {"choices":[{"delta":{"content":"Hel"}}]}`,
      `data: {"choices":[{"delta":{"content":"lo"}}]}`, `data: [DONE]`,
      yield `["Hel", "lo"]` and finish normally. */
  lemma HelloStream(json1: string, json2: string, decode: string -> Option<Chunk>)
    requires PlainPayload(json1) && PlainPayload(json2)
    requires json1 != DoneToken && json2 != DoneToken
    requires decode(json1) == Some(Chunk([ChunkChoice(Some(Delta(None, Some("Hel"))), None)]))
    requires decode(json2) == Some(Chunk([ChunkChoice(Some(Delta(None, Some("lo"))), None)]))
    ensures ParseResponse(Streamed(200, ["data: " + json1, "data: " + json2, "data: [DONE]"], false), decode)
            == StreamResult(["Hel", "lo"], Done)
  {
    var l0, l1, l2 := "data: " + json1, "data: " + json2, "data: [DONE]";
    HelloTail(json2, decode);
    OneContent("Hel");
    PlainFrame(l0, json1, Chunk([ChunkChoice(Some(Delta(None, Some("Hel"))), None)]), [l1, l2], false, decode);
    assert [l0] + [l1, l2] == [l0, l1, l2];
    assert ["Hel"] + ["lo"] == ["Hel", "lo"];
  }

  /** The last two lines of the example yield `"lo"` and finish normally. */
  lemma HelloTail(json2: string, decode: string -> Option<Chunk>)
    requires PlainPayload(json2) && json2 != DoneToken
    requires decode(json2) == Some(Chunk([ChunkChoice(Some(Delta(None, Some("lo"))), None)]))
    ensures ParseLines(["data: " + json2, "data: [DONE]"], false, decode) == StreamResult(["lo"], Done)
  {
    var l1, l2 := "data: " + json2, "data: [DONE]";
    DoneLine(decode);
    OneContent("lo");
    PlainFrame(l1, json2, Chunk([ChunkChoice(Some(Delta(None, Some("lo"))), None)]), [l2], false, decode);
    assert [l1] + [l2] == [l1, l2];
    assert ["lo"] + [] == ["lo"];
  }

  /** A choice whose delta carries `text` yields `text`. */
  lemma OneContent(text: string)
    ensures Contents([ChunkChoice(Some(Delta(None, Some(text))), None)]) == [text]
  {
    var c := [ChunkChoice(Some(Delta(None, Some(text))), None)];
    assert c[1..] == [];
  }

  /** `data: [DONE]` alone finishes the stream with nothing yielded. */
  lemma DoneLine(decode: string -> Option<Chunk>)
    ensures ParseLines(["data: [DONE]"], false, decode) == StreamResult([], Done)
  {
    var line := "data: [DONE]";
    assert line == "data: " + DoneToken;
    PayloadOfDataLine(line, DoneToken);
    assert [line][1..] == [];
  }

  /** A plain content frame followed by other lines yields the frame's
      contents and then what the other lines yield. */
  lemma PlainFrame(line: string, json: string, chunk: Chunk, rest: seq<string>, interrupted: bool, decode: string -> Option<Chunk>)
    requires line == "data: " + json && PlainPayload(json) && json != DoneToken
    requires decode(json) == Some(chunk)
    ensures ParseLines([line] + rest, interrupted, decode) == Prepend(Contents(chunk.choices), ParseLines(rest, interrupted, decode))
  {
    PayloadOfDataLine(line, json);
    assert ([line] + rest)[0] == line && ([line] + rest)[1..] == rest;
  }

  /** `data: <json>` with no surrounding blanks carries exactly `<json>`. */
  lemma PayloadOfDataLine(line: string, json: string)
    requires line == "data: " + json
    requires PlainPayload(json)
    ensures IsDataLine(line) && Payload(line) == json
  {
    assert TrimStart(line, IsWhitespaceOrNewline) == line;
    assert line[|line| - 1] == json[|json| - 1];
    assert TrimEnd(line, IsWhitespaceOrNewline) == line;
    assert TrimLine(line) == line;
    assert line[..5] == DataPrefix;
    var rest := line[5..];
    assert rest == " " + json;
    assert rest[1..] == json;
    assert TrimStart(rest[1..], IsWhitespace) == json;
    assert TrimStart(rest, IsWhitespace) == json;
    assert TrimEnd(json, IsWhitespace) == json;
  }
}
