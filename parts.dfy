/**
 * `part_from_buffer` (sniff_info.py): turns one block of captured lines into a
 * structured request or response fragment ("part"). The first line is the
 * sniffer's header; the remaining lines are the opaque payload.
 */
module Parts {
  import opened Wrappers
  import opened Text

  /** The header marker of a request travelling from client to server. */
  const InMarker := "-->>"
  /** The header marker of a response travelling from server to client. */
  const OutMarker := "<<--"
  /** A request kind whose blocks carry nothing to report. */
  const KillCursors := "killCursors"

  /** One side of a captured exchange. Only requests name a collection. */
  datatype Part =
    | Inbound(client: string, server: string, collection: string, size: int, data: seq<string>)
    | Outbound(client: string, server: string, size: int, data: seq<string>)

  /**
   * Why a block could not be parsed: the marker token is wrong (the source's
   * "this is not a header line"), a header token is missing (IndexError), or
   * the size token is not an integer (ValueError).
   */
  datatype ParseError = NotAHeader | MissingField | BadSize

  datatype Outcome = Skip | Parsed(part: Part) | Failed(error: ParseError)

  /** A line that starts a new block. */
  predicate IsHeader(line: string) {
    Contains(line, OutMarker) || Contains(line, InMarker)
  }

  /**
   * A line whose second token is a direction marker passes the header test,
   * so every header the parser accepts also starts a block of its own.
   */
  lemma MarkerTokenIsHeader(line: string)
    requires |Tokens(line)| >= 2
    requires Tokens(line)[1] == InMarker || Tokens(line)[1] == OutMarker
    ensures IsHeader(line)
  {
    TokensOccur(line, 1);
  }

  /** Blocks too short to carry a payload, and killCursors blocks, are skipped. */
  predicate Skipped(buffer: seq<string>) {
    |buffer| < 2 || Contains(buffer[1], KillCursors)
  }

  function PartFromBuffer(buffer: seq<string>): (r: Outcome)
    ensures r.Skip? <==> Skipped(buffer)
    ensures r.Parsed? ==> r.part.data == buffer[1..]
    ensures r.Parsed? ==> |Tokens(buffer[0])| >= 2 &&
                          (r.part.Inbound? <==> Tokens(buffer[0])[1] == InMarker) &&
                          (r.part.Outbound? <==> Tokens(buffer[0])[1] == OutMarker)
    ensures !Skipped(buffer) && |Tokens(buffer[0])| < 2 ==> r == Failed(MissingField)
    ensures !Skipped(buffer) && |Tokens(buffer[0])| >= 2 &&
            Tokens(buffer[0])[1] != InMarker && Tokens(buffer[0])[1] != OutMarker
            ==> r == Failed(NotAHeader)
    ensures !Skipped(buffer) && |Tokens(buffer[0])| >= 2 && Tokens(buffer[0])[1] == InMarker ==>
              var header := Tokens(buffer[0]);
              && (|header| < 5 ==> r == Failed(MissingField))
              && (|header| >= 5 ==> (r == Failed(BadSize) <==> ParseInt(header[4]).None?))
              && (|header| >= 5 && ParseInt(header[4]).Some? ==> r.Parsed?)
    ensures !Skipped(buffer) && |Tokens(buffer[0])| >= 2 && Tokens(buffer[0])[1] == OutMarker ==>
              var header := Tokens(buffer[0]);
              && (|header| < 4 ==> r == Failed(MissingField))
              && (|header| >= 4 ==> (r == Failed(BadSize) <==> ParseInt(header[3]).None?))
              && (|header| >= 4 && ParseInt(header[3]).Some? ==> r.Parsed?)
    ensures r.Parsed? && r.part.Inbound? ==>
              && !Skipped(buffer)
              && var header := Tokens(buffer[0]);
              && |header| >= 5
              && r.part.client == header[0] && r.part.server == header[2] && r.part.collection == header[3]
              && ParseInt(header[4]) == Some(r.part.size)
    ensures r.Parsed? && r.part.Outbound? ==>
              && !Skipped(buffer)
              && var header := Tokens(buffer[0]);
              && |header| >= 4
              && r.part.client == header[2] && r.part.server == header[0]
              && ParseInt(header[3]) == Some(r.part.size)
  {
    if Skipped(buffer) then Skip
    else
      var header := Tokens(buffer[0]);
      if |header| < 2 then Failed(MissingField)
      else if header[1] != InMarker && header[1] != OutMarker then Failed(NotAHeader)
      else if header[1] == InMarker then
        if |header| < 5 then Failed(MissingField)
        else match ParseInt(header[4])
          case None => Failed(BadSize)
          case Some(size) => Parsed(Inbound(header[0], header[2], header[3], size, buffer[1..]))
      else
        if |header| < 4 then Failed(MissingField)
        else match ParseInt(header[3])
          case None => Failed(BadSize)
          case Some(size) => Parsed(Outbound(header[2], header[0], size, buffer[1..]))
  }

  /** A request header as the sniffer writes it, with arbitrary whitespace and trailing fields. */
  function InboundHeader(client: string, server: string, collection: string, size: int,
                         trailer: seq<string>, gaps: seq<string>): string
    requires |gaps| == 6 + |trailer|
  {
    Layout([client, InMarker, server, collection, ShowInt(size)] + trailer, gaps)
  }

  /** A response header as the sniffer writes it, with arbitrary whitespace and trailing fields. */
  function OutboundHeader(server: string, client: string, size: int,
                          trailer: seq<string>, gaps: seq<string>): string
    requires |gaps| == 5 + |trailer|
  {
    Layout([server, OutMarker, client, ShowInt(size)] + trailer, gaps)
  }

  /** A payload that is not skipped: it has a first line, which is not a killCursors request. */
  predicate KeptPayload(payload: seq<string>) {
    |payload| >= 1 && !Contains(payload[0], KillCursors)
  }

  /**
   * Field layout of a request: client, marker, server, collection, size; the
   * parser recovers every field exactly, whatever whitespace the header uses.
   */
  lemma InboundRoundTrip(client: string, server: string, collection: string, size: int,
                         trailer: seq<string>, gaps: seq<string>, payload: seq<string>)
    requires IsWord(client) && IsWord(server) && IsWord(collection)
    requires forall k :: 0 <= k < |trailer| ==> IsWord(trailer[k])
    requires Separators([client, InMarker, server, collection, ShowInt(size)] + trailer, gaps)
    requires KeptPayload(payload)
    ensures PartFromBuffer([InboundHeader(client, server, collection, size, trailer, gaps)] + payload)
            == Parsed(Inbound(client, server, collection, size, payload))
  {
    var words := [client, InMarker, server, collection, ShowInt(size)] + trailer;
    ParseIntOfShowInt(size);
    assert forall k :: 0 <= k < |words| ==> IsWord(words[k]) by {
      forall k | 0 <= k < |words| ensures IsWord(words[k]) {
        if k >= 5 { assert words[k] == trailer[k - 5]; }
      }
    }
    TokensOfLayout(words, gaps);
    var buffer := [InboundHeader(client, server, collection, size, trailer, gaps)] + payload;
    assert buffer[1..] == payload;
  }

  /**
   * Field layout of a response: server, marker, client, size; the parser
   * recovers every field exactly, whatever whitespace the header uses.
   */
  lemma OutboundRoundTrip(server: string, client: string, size: int,
                          trailer: seq<string>, gaps: seq<string>, payload: seq<string>)
    requires IsWord(client) && IsWord(server)
    requires forall k :: 0 <= k < |trailer| ==> IsWord(trailer[k])
    requires Separators([server, OutMarker, client, ShowInt(size)] + trailer, gaps)
    requires KeptPayload(payload)
    ensures PartFromBuffer([OutboundHeader(server, client, size, trailer, gaps)] + payload)
            == Parsed(Outbound(client, server, size, payload))
  {
    var words := [server, OutMarker, client, ShowInt(size)] + trailer;
    ParseIntOfShowInt(size);
    assert forall k :: 0 <= k < |words| ==> IsWord(words[k]) by {
      forall k | 0 <= k < |words| ensures IsWord(words[k]) {
        if k >= 4 { assert words[k] == trailer[k - 4]; }
      }
    }
    TokensOfLayout(words, gaps);
    var buffer := [OutboundHeader(server, client, size, trailer, gaps)] + payload;
    assert buffer[1..] == payload;
  }

  /** Lengthening or shortening a whitespace run in the header changes nothing. */
  lemma HeaderWhitespaceIrrelevant(a: string, w1: string, w2: string, b: string, payload: seq<string>)
    requires w1 != [] && AllSpace(w1)
    requires w2 != [] && AllSpace(w2)
    ensures PartFromBuffer([a + w1 + b] + payload) == PartFromBuffer([a + w2 + b] + payload)
  {
    WhitespaceRunLength(a, w1, w2, b);
    assert ([a + w1 + b] + payload)[1..] == payload == ([a + w2 + b] + payload)[1..];
  }
}
