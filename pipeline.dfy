/**
 * `run` (sniff_info.py): the whole analysis of one capture. The lines are cut
 * into parts, the parts merged into operations, the operations optionally
 * restricted to one collection, and the chosen report computed. Reading the
 * file and printing are left to the caller.
 */
module Pipeline {
  import opened Wrappers
  import opened Text
  import opened Parts
  import opened Splitter
  import opened Matcher
  import opened Ordering
  import opened Reports

  /** The two report modes of the command line. */
  datatype Mode = Sort | Aggregate

  datatype Report = Top(ops: seq<Op>) | Totals(entries: seq<Entry>)

  /** The operations a capture yields after the optional collection filter, or its parse error. */
  function Operations(lines: seq<string>, collection: Option<string>): (r: Result<seq<Op>, ParseError>)
    ensures r.Failure? <==> exists j :: 0 <= j < |Blocks(lines)| && PartFromBuffer(Blocks(lines)[j]).Failed?
    ensures r.Success? && collection.Some? ==>
              forall k :: 0 <= k < |r.value| ==> r.value[k].collection == collection.value
    ensures collection.None? && PartsOf(Blocks(lines)).Success? ==>
              var parts := PartsOf(Blocks(lines)).value;
              r.Success? &&
              |r.value| == |set i | 0 <= i < |parts| && parts[i].Inbound? && HasLaterSameClient(parts, i)|
  {
    PartsFailure(Blocks(lines));
    match PartsOf(Blocks(lines))
    case Failure(e) => Failure(e)
    case Success(parts) =>
      OpsCountByClient(parts);
      Success(FilterCollection(OpsUpTo(parts, |parts|), collection))
  }

  method Run(lines: seq<string>, mode: Mode, collection: Option<string>)
    returns (r: Result<Report, ParseError>, unmatched: seq<Part>)
    ensures Operations(lines, collection).Failure? ==>
              r == Failure(Operations(lines, collection).error) && unmatched == []
    ensures Operations(lines, collection).Success? ==>
              && r.Success?
              && unmatched == UnmatchedUpTo(PartsOf(Blocks(lines)).value, |PartsOf(Blocks(lines)).value|)
              && (mode == Sort ==> r.value == Top(TopBySizeOut(Operations(lines, collection).value)))
              && (mode == Aggregate ==>
                    r.value.Totals? && IsAggregation(Operations(lines, collection).value, r.value.entries))
  {
    var collected := CollectParts(lines);
    if collected.Failure? {
      return Failure(collected.error), [];
    }
    var parts := collected.value;
    var ops;
    ops, unmatched := MergeParts(parts);
    ops := FilterCollection(ops, collection);
    match mode {
      case Sort =>
        r := Success(Top(TopBySizeOut(ops)));
      case Aggregate =>
        var entries := AggregateOps(ops);
        r := Success(Totals(entries));
    }
  }

  /** Payload lines carry no direction marker. */
  predicate PayloadLines(lines: seq<string>) {
    forall k :: 0 <= k < |lines| ==> !IsHeader(lines[k])
  }

  lemma ContainsMiddle(a: string, p: string, b: string)
    ensures Contains(a + p + b, p)
  {
    assert (a + p + b)[|a|..|a| + |p|] == p;
    assert OccursAt(a + p + b, p, |a|);
  }

  /** A laid-out header whose second word is a marker contains that marker. */
  lemma LayoutHasMarker(words: seq<string>, gaps: seq<string>)
    requires |words| >= 2 && |gaps| == |words| + 1
    ensures Contains(Layout(words, gaps), words[1])
  {
    var rest := Layout(words[2..], gaps[2..]);
    assert Layout(words[1..], gaps[1..]) == gaps[1] + words[1] + rest;
    assert Layout(words, gaps) == (gaps[0] + words[0] + gaps[1]) + words[1] + rest;
    ContainsMiddle(gaps[0] + words[0] + gaps[1], words[1], rest);
  }

  /** Two blocks, each opened by its header: the capture is cut at the second header. */
  lemma TwoBlocks(h1: string, p1: seq<string>, h2: string, p2: seq<string>)
    requires IsHeader(h1) && IsHeader(h2) && PayloadLines(p1) && PayloadLines(p2)
    ensures Blocks([h1] + p1 + [h2] + p2) == [[], [h1] + p1, [h2] + p2]
  {
    var lines := [h1] + p1 + [h2] + p2;
    var b1 := [h1] + p1;
    var b2 := [h2] + p2;
    var blocks := [[], b1, b2];
    assert blocks[..2] == [[], b1];
    assert blocks[..2][..1] == blocks[..1];
    assert blocks[..1][..0] == [];
    assert Flatten(blocks[..1]) == [];
    assert Flatten(blocks[..2]) == b1;
    assert lines == b1 + b2;
    assert b1[1..] == p1;
    assert b2[1..] == p2;
    BlocksUnique(lines, blocks);
  }

  /** The parts of a skipped empty block, a request block and a reply block. */
  lemma TwoParts(b1: seq<string>, q: Part, b2: seq<string>, p: Part)
    requires PartFromBuffer(b1) == Parsed(q) && PartFromBuffer(b2) == Parsed(p)
    ensures PartsOf([[], b1, b2]) == Success([q, p])
  {
    var blocks := [[], b1, b2];
    assert blocks[..2][..1] == blocks[..1];
    assert blocks[..1][..0] == [];
    assert PartFromBuffer(blocks[0]) == Skip;
    assert PartsOf(blocks[..1]) == Success([]);
    assert [] + [q] == [q];
    assert blocks[..2][1] == b1;
    assert PartsOf(blocks[..2]) == Success([q]);
    assert blocks[2] == b2;
    assert [q] + [p] == [q, p];
  }

  /** A request followed by its own reply merges into one operation. */
  lemma OneOp(q: Part, p: Part)
    requires q.Inbound? && p.Outbound? && p.client == q.client
    ensures OpsUpTo([q, p], 2) == [MakeOp(q, p)]
  {
    assert FirstMatch([q, p], 0) == Some(1);
    assert Matchable([q, p], 0) && !Matchable([q, p], 1);
    assert [] + [MakeOp(q, p)] == [MakeOp(q, p)];
    assert OpsUpTo([q, p], 1) == [MakeOp(q, p)];
  }

  /**
   * One request followed by its reply: the capture yields exactly one
   * operation, with the request's client, server, collection, size and
   * payload and the reply's size and payload.
   */
  lemma SingleExchange(client: string, server: string, collection: string, sizeIn: int, sizeOut: int,
                       inTrailer: seq<string>, inGaps: seq<string>, request: seq<string>,
                       outTrailer: seq<string>, outGaps: seq<string>, reply: seq<string>)
    requires IsWord(client) && IsWord(server) && IsWord(collection)
    requires forall k :: 0 <= k < |inTrailer| ==> IsWord(inTrailer[k])
    requires forall k :: 0 <= k < |outTrailer| ==> IsWord(outTrailer[k])
    requires Separators([client, InMarker, server, collection, ShowInt(sizeIn)] + inTrailer, inGaps)
    requires Separators([server, OutMarker, client, ShowInt(sizeOut)] + outTrailer, outGaps)
    requires KeptPayload(request) && PayloadLines(request)
    requires KeptPayload(reply) && PayloadLines(reply)
    ensures Operations([InboundHeader(client, server, collection, sizeIn, inTrailer, inGaps)] + request +
                       [OutboundHeader(server, client, sizeOut, outTrailer, outGaps)] + reply, None)
            == Success([Op(client, server, sizeIn, sizeOut, collection, request, reply)])
  {
    var inHeader := InboundHeader(client, server, collection, sizeIn, inTrailer, inGaps);
    var outHeader := OutboundHeader(server, client, sizeOut, outTrailer, outGaps);
    LayoutHasMarker([client, InMarker, server, collection, ShowInt(sizeIn)] + inTrailer, inGaps);
    LayoutHasMarker([server, OutMarker, client, ShowInt(sizeOut)] + outTrailer, outGaps);
    TwoBlocks(inHeader, request, outHeader, reply);
    InboundRoundTrip(client, server, collection, sizeIn, inTrailer, inGaps, request);
    OutboundRoundTrip(server, client, sizeOut, outTrailer, outGaps, reply);
    var q := Inbound(client, server, collection, sizeIn, request);
    var p := Outbound(client, server, sizeOut, reply);
    TwoParts([inHeader] + request, q, [outHeader] + reply, p);
    OneOp(q, p);
  }

  /** A request block, another header block and a reply block, cut after an empty leading block. */
  lemma ThreeBlocks(h1: string, p1: seq<string>, middle: seq<string>, h2: string, p2: seq<string>)
    requires IsHeader(h1) && IsHeader(h2) && PayloadLines(p1) && PayloadLines(p2) && HeaderBlock(middle)
    ensures Blocks([h1] + p1 + middle + [h2] + p2) == [[], [h1] + p1, middle, [h2] + p2]
  {
    var lines := [h1] + p1 + middle + [h2] + p2;
    var b1 := [h1] + p1;
    var b3 := [h2] + p2;
    var blocks := [[], b1, middle, b3];
    assert blocks[..3] == [[], b1, middle];
    assert blocks[..3][..2] == blocks[..2];
    assert blocks[..2][..1] == blocks[..1];
    assert blocks[..1][..0] == [];
    assert Flatten(blocks[..1]) == [];
    assert Flatten(blocks[..2]) == b1;
    assert Flatten(blocks[..3]) == b1 + middle;
    assert lines == b1 + middle + b3;
    assert b1[1..] == p1;
    assert b3[1..] == p2;
    BlocksUnique(lines, blocks);
  }

  lemma ThreeParts(b1: seq<string>, q: Part, middle: seq<string>, o: Part, b3: seq<string>, p: Part)
    requires PartFromBuffer(b1) == Parsed(q) && PartFromBuffer(middle) == Parsed(o)
    requires PartFromBuffer(b3) == Parsed(p)
    ensures PartsOf([[], b1, middle, b3]) == Success([q, o, p])
  {
    var blocks := [[], b1, middle, b3];
    assert blocks[..3] == [[], b1, middle];
    TwoParts(b1, q, middle, o);
    assert blocks[3] == b3;
    assert [q, o] + [p] == [q, o, p];
  }

  /** A part of another client between a request and its reply does not stop the match. */
  lemma ThreeOps(q: Part, o: Part, p: Part)
    requires q.Inbound? && p.client == q.client && o.client != q.client
    ensures OpsUpTo([q, o, p], 3) == [MakeOp(q, p)]
  {
    var parts := [q, o, p];
    assert parts[1].client != parts[0].client && parts[2].client == parts[0].client;
    assert FirstMatch(parts, 0) == Some(2);
    assert FirstMatch(parts, 1).None?;
    assert Matchable(parts, 0) && !Matchable(parts, 1) && !Matchable(parts, 2);
    assert [] + [MakeOp(q, p)] == [MakeOp(q, p)];
    assert OpsUpTo(parts, 1) == [MakeOp(q, p)];
    assert OpsUpTo(parts, 2) == [MakeOp(q, p)];
  }

  /**
   * A request whose reply comes after a block of another client: the capture
   * still yields exactly the one operation of the request and its reply.
   */
  lemma SeparatedExchange(client: string, server: string, collection: string, sizeIn: int, sizeOut: int,
                          inTrailer: seq<string>, inGaps: seq<string>, request: seq<string>,
                          middle: seq<string>, other: Part,
                          outTrailer: seq<string>, outGaps: seq<string>, reply: seq<string>)
    requires IsWord(client) && IsWord(server) && IsWord(collection)
    requires forall k :: 0 <= k < |inTrailer| ==> IsWord(inTrailer[k])
    requires forall k :: 0 <= k < |outTrailer| ==> IsWord(outTrailer[k])
    requires Separators([client, InMarker, server, collection, ShowInt(sizeIn)] + inTrailer, inGaps)
    requires Separators([server, OutMarker, client, ShowInt(sizeOut)] + outTrailer, outGaps)
    requires KeptPayload(request) && PayloadLines(request)
    requires KeptPayload(reply) && PayloadLines(reply)
    requires HeaderBlock(middle) && PartFromBuffer(middle) == Parsed(other) && other.client != client
    ensures Operations([InboundHeader(client, server, collection, sizeIn, inTrailer, inGaps)] + request + middle +
                       [OutboundHeader(server, client, sizeOut, outTrailer, outGaps)] + reply, None)
            == Success([Op(client, server, sizeIn, sizeOut, collection, request, reply)])
  {
    var inHeader := InboundHeader(client, server, collection, sizeIn, inTrailer, inGaps);
    var outHeader := OutboundHeader(server, client, sizeOut, outTrailer, outGaps);
    LayoutHasMarker([client, InMarker, server, collection, ShowInt(sizeIn)] + inTrailer, inGaps);
    LayoutHasMarker([server, OutMarker, client, ShowInt(sizeOut)] + outTrailer, outGaps);
    ThreeBlocks(inHeader, request, middle, outHeader, reply);
    InboundRoundTrip(client, server, collection, sizeIn, inTrailer, inGaps, request);
    OutboundRoundTrip(server, client, sizeOut, outTrailer, outGaps, reply);
    var q := Inbound(client, server, collection, sizeIn, request);
    var p := Outbound(client, server, sizeOut, reply);
    ThreeParts([inHeader] + request, q, middle, other, [outHeader] + reply, p);
    ThreeOps(q, other, p);
  }

  /**
   * A request with no later part of its client anywhere in the capture: no
   * operation, whatever the filter, and the request is reported unmatched.
   */
  lemma LoneRequest(client: string, server: string, collection: string, size: int,
                    trailer: seq<string>, gaps: seq<string>, request: seq<string>, filter: Option<string>)
    requires IsWord(client) && IsWord(server) && IsWord(collection)
    requires forall k :: 0 <= k < |trailer| ==> IsWord(trailer[k])
    requires Separators([client, InMarker, server, collection, ShowInt(size)] + trailer, gaps)
    requires KeptPayload(request) && PayloadLines(request)
    ensures var lines := [InboundHeader(client, server, collection, size, trailer, gaps)] + request;
            && PartsOf(Blocks(lines)) == Success([Inbound(client, server, collection, size, request)])
            && Operations(lines, filter) == Success([])
            && UnmatchedUpTo([Inbound(client, server, collection, size, request)], 1)
               == [Inbound(client, server, collection, size, request)]
  {
    var header := InboundHeader(client, server, collection, size, trailer, gaps);
    var q := Inbound(client, server, collection, size, request);
    LayoutHasMarker([client, InMarker, server, collection, ShowInt(size)] + trailer, gaps);
    OneBlock(header, request);
    InboundRoundTrip(client, server, collection, size, trailer, gaps, request);
    OnePart([header] + request, q);
    LoneOps(q);
    FilterNothing(filter);
  }

  lemma OneBlock(h: string, p: seq<string>)
    requires IsHeader(h) && PayloadLines(p)
    ensures Blocks([h] + p) == [[], [h] + p]
  {
    var lines := [h] + p;
    var blocks := [[], lines];
    assert blocks[..1] == [[]];
    assert blocks[..1][..0] == [];
    assert Flatten(blocks[..1]) == [];
    assert lines[1..] == p;
    BlocksUnique(lines, blocks);
  }

  lemma OnePart(b: seq<string>, q: Part)
    requires PartFromBuffer(b) == Parsed(q)
    ensures PartsOf([[], b]) == Success([q])
  {
    var blocks := [[], b];
    assert blocks[..1][..0] == [];
    assert PartFromBuffer(blocks[0]) == Skip;
    assert PartsOf(blocks[..1]) == Success([]);
    assert blocks[1] == b;
    assert [] + [q] == [q];
  }

  /** A request alone is not matched. */
  lemma LoneOps(q: Part)
    requires q.Inbound?
    ensures OpsUpTo([q], 1) == [] && UnmatchedUpTo([q], 1) == [q]
  {
    assert FirstMatch([q], 0) == None;
    assert [] + [q] == [q];
  }

  lemma FilterNothing(filter: Option<string>)
    ensures FilterCollection([], filter) == []
  {
    var kept := FilterCollection([], filter);
    assert multiset(kept) == multiset{};
  }

  lemma DistinctHead(s: seq<string>)
    requires Distinct(s) && |s| > 1
    ensures s[0] != s[1]
  {
  }

  /** The aggregation of a single operation is the one entry of its collection. */
  lemma SingleOpAggregation(op: Op, entries: seq<Entry>)
    requires IsAggregation([op], entries)
    ensures entries == [Entry(op.collection, 1, op.sizeIn, op.sizeOut)]
  {
    assert [op][0] == op;
    assert op.collection in KeysOf(entries);
    var ks := KeysOf(entries);
    forall k | 0 <= k < |entries| ensures ks[k] == op.collection {
      assert entries[k].collection in CollectionsOf([op]);
    }
    if |entries| > 1 {
      DistinctHead(ks);
      assert false;
    }
    assert [op][..0] == [];
    assert GroupSum([op], op.collection, One) == 1;
    assert GroupSum([op], op.collection, SizeIn) == op.sizeIn;
    assert GroupSum([op], op.collection, SizeOut) == op.sizeOut;
    assert Rollup([op], op.collection) == Entry(op.collection, 1, op.sizeIn, op.sizeOut);
  }
}
