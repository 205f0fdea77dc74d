/**
 * `merge_parts` (sniff_info.py): pairs every request part with the first later
 * part of the same client, whatever that part's direction, and builds one
 * operation per pair. The pairing is greedy and not exclusive: one later part
 * may complete several requests.
 */
module Matcher {
  import opened Wrappers
  import opened Parts

  /** A reconstructed request/response pair. */
  datatype Op = Op(client: string, server: string, sizeIn: int, sizeOut: int,
                   collection: string, dataIn: seq<string>, dataOut: seq<string>)

  /** The operation built from a request and the part that answers it. */
  function MakeOp(request: Part, reply: Part): (op: Op)
    requires request.Inbound?
  {
    Op(request.client, request.server, request.size, reply.size,
       request.collection, request.data, reply.data)
  }

  /** An operation keeps its whole request, and the size and payload of the part that answers it. */
  lemma MakeOpKeepsRequest(request: Part, reply: Part)
    requires request.Inbound?
    ensures var op := MakeOp(request, reply);
            && Inbound(op.client, op.server, op.collection, op.sizeIn, op.dataIn) == request
            && op.sizeOut == reply.size && op.dataOut == reply.data
  {
  }

  /** The first index at or after `from` whose part belongs to `client`. */
  function ScanFrom(parts: seq<Part>, client: string, from: nat): (r: Option<nat>)
    requires from <= |parts|
    ensures r.Some? ==> from <= r.value < |parts| && parts[r.value].client == client &&
                        forall m :: from <= m < r.value ==> parts[m].client != client
    ensures r.None? ==> forall m :: from <= m < |parts| ==> parts[m].client != client
    decreases |parts| - from
  {
    if from == |parts| then None
    else if parts[from].client == client then Some(from)
    else ScanFrom(parts, client, from + 1)
  }

  /** The first part after position `i` with the client of part `i`. */
  function FirstMatch(parts: seq<Part>, i: nat): (r: Option<nat>)
    requires i < |parts|
    ensures r.Some? ==> i < r.value < |parts| && parts[r.value].client == parts[i].client &&
                        forall m :: i < m < r.value ==> parts[m].client != parts[i].client
    ensures r.None? <==> forall m :: i < m < |parts| ==> parts[m].client != parts[i].client
  {
    ScanFrom(parts, parts[i].client, i + 1)
  }

  /** Some later part has the same client as part `i`. */
  ghost predicate HasLaterSameClient(parts: seq<Part>, i: nat)
    requires i < |parts|
  {
    exists j :: i < j < |parts| && parts[j].client == parts[i].client
  }

  /** Part `i` is a request that finds its match. */
  predicate Matchable(parts: seq<Part>, i: nat)
    requires i < |parts|
  {
    parts[i].Inbound? && FirstMatch(parts, i).Some?
  }

  /** The operations made from the parts before position `n`. */
  function OpsUpTo(parts: seq<Part>, n: nat): (r: seq<Op>)
    requires n <= |parts|
    ensures |r| <= n
  {
    if n == 0 then []
    else
      var i := n - 1;
      OpsUpTo(parts, i) +
      (if Matchable(parts, i) then [MakeOp(parts[i], parts[FirstMatch(parts, i).value])] else [])
  }

  /** The requests before position `n` that find no match. */
  function UnmatchedUpTo(parts: seq<Part>, n: nat): (r: seq<Part>)
    requires n <= |parts|
    ensures |r| <= n
    ensures forall k :: 0 <= k < |r| ==>
              exists i :: 0 <= i < n && parts[i].Inbound? && !Matchable(parts, i) && r[k] == parts[i]
  {
    if n == 0 then []
    else
      var i := n - 1;
      UnmatchedUpTo(parts, i) + (if parts[i].Inbound? && !Matchable(parts, i) then [parts[i]] else [])
  }

  /** The positions of the requests before `n` that find a match, in order. */
  function Sources(parts: seq<Part>, n: nat): seq<nat>
    requires n <= |parts|
  {
    if n == 0 then [] else Sources(parts, n - 1) + (if Matchable(parts, n - 1) then [n - 1] else [])
  }

  method MergeParts(parts: seq<Part>) returns (ops: seq<Op>, unmatched: seq<Part>)
    ensures ops == OpsUpTo(parts, |parts|)
    ensures unmatched == UnmatchedUpTo(parts, |parts|)
  {
    ops := [];
    unmatched := [];
    for i := 0 to |parts|
      invariant ops == OpsUpTo(parts, i)
      invariant unmatched == UnmatchedUpTo(parts, i)
    {
      var inPart := parts[i];
      if inPart.Outbound? {
        continue;
      }
      var found := false;
      var j := i + 1;
      while j < |parts|
        invariant i + 1 <= j <= |parts|
        invariant !found
        invariant forall m :: i < m < j ==> parts[m].client != inPart.client
      {
        if parts[j].client == inPart.client {
          found := true;
          break;
        }
        j := j + 1;
      }
      if found {
        assert FirstMatch(parts, i) == Some(j);
        var outPart := parts[j];
        ops := ops + [Op(inPart.client, inPart.server, inPart.size, outPart.size,
                         inPart.collection, inPart.data, outPart.data)];
      } else {
        unmatched := unmatched + [inPart];
      }
    }
  }

  /** A request finds a match exactly when some later part has its client. */
  lemma {:induction false} MatchableIff(parts: seq<Part>, i: nat)
    requires i < |parts|
    ensures Matchable(parts, i) <==> parts[i].Inbound? && HasLaterSameClient(parts, i)
  {
    if FirstMatch(parts, i).Some? {
      assert parts[FirstMatch(parts, i).value].client == parts[i].client;
    }
  }

  /**
   * Which parts become operations: the sources are strictly increasing, each
   * below `n`, and they are exactly the requests that some later part of the
   * same client follows.
   */
  lemma {:induction false} SourcesSpec(parts: seq<Part>, n: nat)
    requires n <= |parts|
    ensures forall a, b :: 0 <= a < b < |Sources(parts, n)| ==> Sources(parts, n)[a] < Sources(parts, n)[b]
    ensures forall k :: 0 <= k < |Sources(parts, n)| ==> Sources(parts, n)[k] < n
    ensures forall i :: 0 <= i < n ==>
              (i in Sources(parts, n) <==> parts[i].Inbound? && HasLaterSameClient(parts, i))
    decreases n
  {
    if n > 0 {
      SourcesSpec(parts, n - 1);
      MatchableIff(parts, n - 1);
      forall i | 0 <= i < n
        ensures Matchable(parts, i) <==> parts[i].Inbound? && HasLaterSameClient(parts, i)
      {
        MatchableIff(parts, i);
      }
    }
  }

  /**
   * Every operation pairs its source request (client, server, size in,
   * collection and request data) with the first later part of that client
   * (size out and reply data), in source order.
   */
  lemma {:induction false} OpsFromSources(parts: seq<Part>, n: nat)
    requires n <= |parts|
    ensures |OpsUpTo(parts, n)| == |Sources(parts, n)|
    ensures forall k :: 0 <= k < |OpsUpTo(parts, n)| ==>
              var i := Sources(parts, n)[k];
              i < |parts| && parts[i].Inbound? && FirstMatch(parts, i).Some? &&
              var j := FirstMatch(parts, i).value;
              OpsUpTo(parts, n)[k] == Op(parts[i].client, parts[i].server, parts[i].size, parts[j].size,
                                         parts[i].collection, parts[i].data, parts[j].data)
    decreases n
  {
    if n > 0 {
      OpsFromSources(parts, n - 1);
      SourcesSpec(parts, n);
    }
  }

  lemma MatchableStep(parts: seq<Part>, n: nat)
    requires 0 < n <= |parts|
    ensures |set i | 0 <= i < n && Matchable(parts, i)| ==
            |set i | 0 <= i < n - 1 && Matchable(parts, i)| + (if Matchable(parts, n - 1) then 1 else 0)
  {
    var m := n - 1;
    var u := set i | 0 <= i < m && Matchable(parts, i);
    var u' := set i | 0 <= i < n && Matchable(parts, i);
    SnocCount(u, u', m, Matchable(parts, m));
  }

  /** The number of operations is the number of requests followed by a same-client part. */
  lemma {:induction false} OpsCount(parts: seq<Part>, n: nat)
    requires n <= |parts|
    ensures |OpsUpTo(parts, n)| == |set i | 0 <= i < n && Matchable(parts, i)|
    decreases n
  {
    if n > 0 {
      OpsCount(parts, n - 1);
      MatchableStep(parts, n);
    }
  }

  /** The same count, stated with the later same-client part made explicit. */
  lemma OpsCountByClient(parts: seq<Part>)
    ensures |OpsUpTo(parts, |parts|)| ==
            |set i | 0 <= i < |parts| && parts[i].Inbound? && HasLaterSameClient(parts, i)|
  {
    OpsCount(parts, |parts|);
    forall i | 0 <= i < |parts|
      ensures Matchable(parts, i) <==> parts[i].Inbound? && HasLaterSameClient(parts, i)
    {
      MatchableIff(parts, i);
    }
    assert (set i | 0 <= i < |parts| && Matchable(parts, i)) ==
           (set i | 0 <= i < |parts| && parts[i].Inbound? && HasLaterSameClient(parts, i));
  }

  /** The number of unmatched notices is the number of requests no later part of the client follows. */
  lemma {:induction false} UnmatchedCount(parts: seq<Part>, n: nat)
    requires n <= |parts|
    ensures |UnmatchedUpTo(parts, n)| == |set i | 0 <= i < n && parts[i].Inbound? && !Matchable(parts, i)|
    decreases n
  {
    if n > 0 {
      UnmatchedCount(parts, n - 1);
      UnmatchedStep(parts, n);
    }
  }

  lemma UnmatchedStep(parts: seq<Part>, n: nat)
    requires 0 < n <= |parts|
    ensures |set i | 0 <= i < n && parts[i].Inbound? && !Matchable(parts, i)| ==
            |set i | 0 <= i < n - 1 && parts[i].Inbound? && !Matchable(parts, i)| +
            (if parts[n - 1].Inbound? && !Matchable(parts, n - 1) then 1 else 0)
  {
    var m := n - 1;
    var u := set i | 0 <= i < m && parts[i].Inbound? && !Matchable(parts, i);
    var u' := set i | 0 <= i < n && parts[i].Inbound? && !Matchable(parts, i);
    SnocCount(u, u', m, parts[m].Inbound? && !Matchable(parts, m));
  }

  /** A set of positions below `m + 1` grows by one exactly when it gains `m`. */
  lemma SnocCount(u: set<nat>, u': set<nat>, m: nat, b: bool)
    requires forall i :: i in u' <==> i in u || (b && i == m)
    requires m !in u
    ensures |u'| == |u| + (if b then 1 else 0)
  {
    if b {
      assert u' == u + {m};
    } else {
      assert u' == u;
    }
  }

  /** Every request is either matched or reported unmatched, never both. */
  lemma {:induction false} RequestsAccounted(parts: seq<Part>, n: nat)
    requires n <= |parts|
    ensures |OpsUpTo(parts, n)| + |UnmatchedUpTo(parts, n)| == |set i | 0 <= i < n && parts[i].Inbound?|
    ensures forall k :: 0 <= k < |UnmatchedUpTo(parts, n)| ==> UnmatchedUpTo(parts, n)[k].Inbound?
    decreases n
  {
    if n > 0 {
      RequestsAccounted(parts, n - 1);
      RequestsStep(parts, n);
    }
  }

  lemma RequestsStep(parts: seq<Part>, n: nat)
    requires 0 < n <= |parts|
    ensures |set i | 0 <= i < n && parts[i].Inbound?| ==
            |set i | 0 <= i < n - 1 && parts[i].Inbound?| + (if parts[n - 1].Inbound? then 1 else 0)
  {
    var m := n - 1;
    var r := set i | 0 <= i < m && parts[i].Inbound?;
    var r' := set i | 0 <= i < n && parts[i].Inbound?;
    SnocCount(r, r', m, parts[m].Inbound?);
  }
}
