/**
 * The block-splitting loop of `run` (sniff_info.py): lines are gathered into
 * a buffer, and every header line first flushes the buffer through
 * `part_from_buffer` and then starts a new one; the last buffer is flushed at
 * the end. A parse error aborts the whole run.
 */
module Splitter {
  import opened Wrappers
  import opened Parts

  /** After reading `lines`: the buffers flushed so far, and the buffer still open. */
  function Split(lines: seq<string>): (seq<seq<string>>, seq<string>) {
    if lines == [] then ([], [])
    else
      var (done, buffer) := Split(lines[..|lines| - 1]);
      var line := lines[|lines| - 1];
      if IsHeader(line) then (done + [buffer], [line]) else (done, buffer + [line])
  }

  /** Every buffer the loop hands to `part_from_buffer`, in order. */
  function Blocks(lines: seq<string>): (r: seq<seq<string>>)
    ensures Flatten(r) == lines
    ensures WellCut(r)
    ensures r == [] <==> lines == []
  {
    SplitInvariant(lines);
    var (done, buffer) := Split(lines);
    WellCutInit(done, buffer);
    assert (done + [buffer])[..|done|] == done;
    if buffer != [] then done + [buffer] else done
  }

  /** The lines of all blocks, one block after the other. */
  function Flatten(blocks: seq<seq<string>>): seq<string> {
    if blocks == [] then [] else Flatten(blocks[..|blocks| - 1]) + blocks[|blocks| - 1]
  }

  predicate HeaderFree(block: seq<string>) {
    forall m :: 0 <= m < |block| ==> !IsHeader(block[m])
  }

  /** A block that opens with a header line and holds no other. */
  predicate HeaderBlock(block: seq<string>) {
    block != [] && IsHeader(block[0]) && HeaderFree(block[1..])
  }

  /**
   * The shape of a cut: the first block holds the lines before the first
   * header (possibly none) and each later block is one header with its payload.
   */
  predicate WellCut(blocks: seq<seq<string>>) {
    && (|blocks| > 0 ==> HeaderFree(blocks[0]))
    && (forall k :: 0 < k < |blocks| ==> HeaderBlock(blocks[k]))
  }

  lemma {:induction false} SplitInvariant(lines: seq<string>)
    ensures Flatten(Split(lines).0) + Split(lines).1 == lines
    ensures WellCut(Split(lines).0 + [Split(lines).1])
    ensures lines != [] ==> Split(lines).1 != []
    decreases |lines|
  {
    if lines != [] {
      var init := lines[..|lines| - 1];
      var line := lines[|lines| - 1];
      SplitInvariant(init);
      var (done, buffer) := Split(init);
      assert init + [line] == lines;
      if IsHeader(line) {
        assert Split(lines) == (done + [buffer], [line]);
        assert Flatten(done + [buffer]) == Flatten(done) + buffer by {
          assert (done + [buffer])[..|done|] == done;
        }
        WellCutNewBlock(done + [buffer], line);
      } else {
        assert Split(lines) == (done, buffer + [line]);
        assert (Flatten(done) + buffer) + [line] == Flatten(done) + (buffer + [line]);
        WellCutExtend(done, buffer, line);
      }
    }
  }

  /** A header line after a non-empty cut opens a block of its own. */
  lemma WellCutNewBlock(bs: seq<seq<string>>, line: string)
    requires bs != [] && WellCut(bs) && IsHeader(line)
    ensures WellCut(bs + [[line]])
  {
    var cs := bs + [[line]];
    assert cs[..|cs| - 1] == bs;
    assert cs[|cs| - 1][1..] == [];
  }

  /** A plain line joins the last block of a cut. */
  lemma WellCutExtend(done: seq<seq<string>>, buffer: seq<string>, line: string)
    requires WellCut(done + [buffer]) && !IsHeader(line)
    ensures WellCut(done + [buffer + [line]])
  {
    var bs := done + [buffer + [line]];
    forall k | 0 < k < |bs| ensures HeaderBlock(bs[k]) {
      if k < |done| {
        assert bs[k] == (done + [buffer])[k];
      } else {
        assert (done + [buffer])[k] == buffer;
        assert (buffer + [line])[1..] == buffer[1..] + [line];
      }
    }
    if |done| == 0 {
      assert (done + [buffer])[0] == buffer;
    } else {
      assert bs[0] == (done + [buffer])[0];
    }
  }

  /** The blocks put back together are exactly the input lines. */
  lemma BlocksConcat(lines: seq<string>)
    ensures Flatten(Blocks(lines)) == lines
  {
    SplitInvariant(lines);
    var (done, buffer) := Split(lines);
    if buffer != [] {
      assert (done + [buffer])[..|done|] == done;
    } else {
      assert Flatten(done) + [] == Flatten(done);
    }
  }

  /** The first block has no header line; every later block is a header with its payload. */
  lemma BlocksWellCut(lines: seq<string>)
    ensures WellCut(Blocks(lines))
  {
    SplitInvariant(lines);
    var (done, buffer) := Split(lines);
    if buffer == [] {
      assert lines == [];
    }
  }

  lemma {:induction false} FlattenEmpty(blocks: seq<seq<string>>)
    requires WellCut(blocks) && |blocks| > 0 && Flatten(blocks) == []
    ensures blocks == [[]]
    decreases |blocks|
  {
    var init := blocks[..|blocks| - 1];
    if |blocks| > 1 {
      assert false;
    } else {
      assert init == [];
    }
  }

  lemma WellCutInit(blocks: seq<seq<string>>, last: seq<string>)
    requires WellCut(blocks + [last])
    ensures WellCut(blocks)
  {
    forall k | 0 < k < |blocks| ensures HeaderBlock(blocks[k]) {
      assert blocks[k] == (blocks + [last])[k];
    }
    if |blocks| > 0 {
      assert blocks[0] == (blocks + [last])[0];
    }
  }

  /** How one more line changes the cut. */
  lemma BlocksSnoc(lines: seq<string>, line: string)
    ensures IsHeader(line) ==>
              Blocks(lines + [line]) == (if lines == [] then [[]] else Blocks(lines)) + [[line]]
    ensures !IsHeader(line) && lines == [] ==> Blocks(lines + [line]) == [[line]]
    ensures !IsHeader(line) && lines != [] ==>
              |Blocks(lines)| > 0 &&
              Blocks(lines + [line]) == Blocks(lines)[..|Blocks(lines)| - 1] + [Blocks(lines)[|Blocks(lines)| - 1] + [line]]
  {
    var all := lines + [line];
    assert all[..|all| - 1] == lines;
    SplitInvariant(lines);
    var (done, buffer) := Split(lines);
    if lines != [] {
      assert (done + [buffer])[..|done|] == done;
    }
  }

  /** In a cut, a block that ends with a header line is that line alone, and is not the first block. */
  lemma HeaderEndsBlock(blocks: seq<seq<string>>, b: seq<string>)
    requires WellCut(blocks + [b])
    requires b != [] && IsHeader(b[|b| - 1])
    ensures b == [b[|b| - 1]] && |blocks| > 0
  {
    var all := blocks + [b];
    assert all[|all| - 1] == b;
    if |blocks| == 0 {
      assert false;
    }
    assert HeaderBlock(all[|all| - 1]);
    if |b| > 1 {
      assert false;
    }
  }

  /** Dropping the last line of a cut's last block, when it has two or more, leaves a cut. */
  lemma WellCutDropLine(blocks: seq<seq<string>>, b: seq<string>)
    requires WellCut(blocks + [b]) && |b| >= 2
    ensures WellCut(blocks + [b[..|b| - 1]])
  {
    var all := blocks + [b];
    var cs := blocks + [b[..|b| - 1]];
    forall k | 0 < k < |cs| ensures HeaderBlock(cs[k]) {
      if k < |blocks| {
        assert cs[k] == all[k];
      } else {
        assert HeaderBlock(all[k]);
        assert b[..|b| - 1][1..] == b[1..][..|b| - 2];
      }
    }
    if |blocks| == 0 {
      assert HeaderFree(all[0]);
    } else {
      assert cs[0] == all[0];
    }
  }

  /**
   * The cut is unique: any cut of the input with the shape above is the one
   * the loop makes. This pins down Blocks independently of the loop.
   */
  lemma {:induction false} BlocksUnique(lines: seq<string>, blocks: seq<seq<string>>)
    requires lines != []
    requires Flatten(blocks) == lines
    requires WellCut(blocks)
    ensures blocks == Blocks(lines)
    decreases |lines|
  {
    var init := lines[..|lines| - 1];
    var line := lines[|lines| - 1];
    assert init + [line] == lines;
    if |blocks| > 1 {
      LaterBlockHeader(blocks, |blocks| - 1);
    }
    LastBlock(lines, blocks);
    var bs := blocks[..|blocks| - 1];
    var b := blocks[|blocks| - 1];
    assert blocks == bs + [b];
    if IsHeader(line) {
      HeaderLast(init, line, bs, b);
      if init == [] {
        FlattenEmpty(bs);
      } else {
        BlocksUnique(init, bs);
      }
      HeaderCase(init, line, bs);
    } else if |b| == 1 {
      PlainLastAlone(init, line, bs, b);
      AloneCase(line);
    } else {
      PlainLast(init, line, bs, b);
      BlocksUnique(init, bs + [b[..|b| - 1]]);
      PlainCase(init, line, bs, b);
    }
  }

  lemma HeaderCase(init: seq<string>, line: string, bs: seq<seq<string>>)
    requires IsHeader(line)
    requires init == [] ==> bs == [[]]
    requires init != [] ==> bs == Blocks(init)
    ensures bs + [[line]] == Blocks(init + [line])
  {
    BlocksSnoc(init, line);
  }

  lemma AloneCase(line: string)
    requires !IsHeader(line)
    ensures [[line]] == Blocks([line])
  {
    BlocksSnoc([], line);
    assert [] + [line] == [line];
  }

  lemma PlainCase(init: seq<string>, line: string, bs: seq<seq<string>>, b: seq<string>)
    requires !IsHeader(line) && init != [] && |b| >= 2 && b == b[..|b| - 1] + [line]
    requires bs + [b[..|b| - 1]] == Blocks(init)
    ensures bs + [b] == Blocks(init + [line])
  {
    BlocksSnoc(init, line);
    assert Blocks(init)[..|Blocks(init)| - 1] == bs;
  }

  /** The last block of non-empty input, when it is not empty, ends with the last line. */
  lemma LastBlock(lines: seq<string>, blocks: seq<seq<string>>)
    requires lines != [] && Flatten(blocks) == lines
    requires |blocks| > 1 ==> blocks[|blocks| - 1] != []
    ensures |blocks| > 0
    ensures Flatten(blocks[..|blocks| - 1]) + blocks[|blocks| - 1] == lines
    ensures blocks[|blocks| - 1] != [] && blocks[|blocks| - 1][|blocks[|blocks| - 1]| - 1] == lines[|lines| - 1]
  {
    if blocks == [] {
      assert false;
    }
    var bs := blocks[..|blocks| - 1];
    var b := blocks[|blocks| - 1];
    assert Flatten(bs) + b == lines;
    if b == [] {
      assert false;
    }
    assert lines[|lines| - 1] == (Flatten(bs) + b)[|Flatten(bs)| + |b| - 1];
  }

  /** Every block of a cut after the first opens with a header line. */
  lemma LaterBlockHeader(blocks: seq<seq<string>>, k: nat)
    requires WellCut(blocks) && 0 < k < |blocks|
    ensures blocks[k] != [] && IsHeader(blocks[k][0])
  {
  }

  /** A header line closes the cut of the lines before it. */
  lemma HeaderLast(init: seq<string>, line: string, bs: seq<seq<string>>, b: seq<string>)
    requires IsHeader(line) && WellCut(bs + [b])
    requires b != [] && b[|b| - 1] == line && Flatten(bs) + b == init + [line]
    ensures b == [line] && |bs| > 0 && Flatten(bs) == init
  {
    HeaderEndsBlock(bs, b);
    assert Flatten(bs) + [line] == init + [line];
    assert Flatten(bs) == (Flatten(bs) + [line])[..|init|];
  }

  /** A plain line that forms a block of its own is the whole input. */
  lemma PlainLastAlone(init: seq<string>, line: string, bs: seq<seq<string>>, b: seq<string>)
    requires !IsHeader(line) && WellCut(bs + [b])
    requires b == [line] && Flatten(bs) + b == init + [line]
    ensures init == [] && bs == []
  {
    if |bs| > 0 {
      LaterBlockHeader(bs + [b], |bs|);
      assert false;
    }
    assert Flatten(bs) == [];
  }

  /** Dropping the last plain line of the last block leaves a cut of the lines before it. */
  lemma PlainLast(init: seq<string>, line: string, bs: seq<seq<string>>, b: seq<string>)
    requires WellCut(bs + [b]) && |b| >= 2
    requires b[|b| - 1] == line && Flatten(bs) + b == init + [line]
    ensures WellCut(bs + [b[..|b| - 1]]) && Flatten(bs + [b[..|b| - 1]]) == init
    ensures init != [] && b == b[..|b| - 1] + [line]
  {
    var b' := b[..|b| - 1];
    assert b == b' + [line];
    WellCutDropLine(bs, b);
    assert (bs + [b'])[..|bs|] == bs;
    assert Flatten(bs + [b']) == Flatten(bs) + b';
    assert (Flatten(bs) + b') + [line] == init + [line];
    assert Flatten(bs) + b' == ((Flatten(bs) + b') + [line])[..|init|];
  }

  /** The parts the flushed `blocks` yield, or the first parse error among them. */
  function PartsOf(blocks: seq<seq<string>>): (r: Result<seq<Part>, ParseError>)
    ensures r.Success? ==> |r.value| == ParsedCount(blocks)
    ensures r.Success? ==> forall j :: 0 <= j < |blocks| ==> !PartFromBuffer(blocks[j]).Failed?
  {
    if blocks == [] then Success([])
    else
      assert forall m :: 0 <= m < |blocks| - 1 ==> blocks[..|blocks| - 1][m] == blocks[m];
      match PartsOf(blocks[..|blocks| - 1])
      case Failure(e) => Failure(e)
      case Success(ps) =>
        match PartFromBuffer(blocks[|blocks| - 1])
        case Skip => Success(ps)
        case Parsed(p) => Success(ps + [p])
        case Failed(e) => Failure(e)
  }

  /** The number of blocks that yield a part. */
  function ParsedCount(blocks: seq<seq<string>>): nat {
    if blocks == [] then 0
    else ParsedCount(blocks[..|blocks| - 1]) + (if PartFromBuffer(blocks[|blocks| - 1]).Parsed? then 1 else 0)
  }

  /**
   * Without a parse error, each block that is not skipped yields exactly one
   * part, and the parts keep the order of their blocks.
   */
  lemma {:induction false} PartsInOrder(blocks: seq<seq<string>>)
    requires PartsOf(blocks).Success?
    ensures |PartsOf(blocks).value| == ParsedCount(blocks)
    ensures forall j :: 0 <= j < |blocks| && PartFromBuffer(blocks[j]).Parsed? ==>
              ParsedCount(blocks[..j]) < ParsedCount(blocks) &&
              PartsOf(blocks).value[ParsedCount(blocks[..j])] == PartFromBuffer(blocks[j]).part
    decreases |blocks|
  {
    if blocks != [] {
      var init := blocks[..|blocks| - 1];
      PartsInOrder(init);
      forall j | 0 <= j < |blocks| && PartFromBuffer(blocks[j]).Parsed?
        ensures ParsedCount(blocks[..j]) < ParsedCount(blocks)
        ensures PartsOf(blocks).value[ParsedCount(blocks[..j])] == PartFromBuffer(blocks[j]).part
      {
        if j < |blocks| - 1 {
          assert blocks[..j] == init[..j];
          assert blocks[j] == init[j];
        } else {
          assert blocks[..j] == init;
        }
      }
    }
  }

  /** The run fails exactly when some block fails, and with the first such block's error. */
  lemma {:induction false} PartsFailure(blocks: seq<seq<string>>)
    ensures PartsOf(blocks).Failure? <==>
            exists j :: 0 <= j < |blocks| && PartFromBuffer(blocks[j]).Failed?
    ensures PartsOf(blocks).Failure? ==>
            exists j :: 0 <= j < |blocks| && PartFromBuffer(blocks[j]) == Failed(PartsOf(blocks).error) &&
                        forall m :: 0 <= m < j ==> !PartFromBuffer(blocks[m]).Failed?
    decreases |blocks|
  {
    if blocks != [] {
      var init := blocks[..|blocks| - 1];
      PartsFailure(init);
      assert forall m :: 0 <= m < |init| ==> init[m] == blocks[m];
      if PartsOf(init).Success? && PartFromBuffer(blocks[|blocks| - 1]).Failed? {
        assert forall m :: 0 <= m < |blocks| - 1 ==> !PartFromBuffer(blocks[m]).Failed?;
      }
    }
  }

  lemma {:induction false} FailureSticks(blocks: seq<seq<string>>, more: seq<seq<string>>)
    requires blocks <= more
    requires PartsOf(blocks).Failure?
    ensures PartsOf(more) == PartsOf(blocks)
    decreases |more|
  {
    if |more| > |blocks| {
      var init := more[..|more| - 1];
      assert blocks <= init;
      FailureSticks(blocks, init);
    } else {
      assert more == blocks;
    }
  }

  lemma {:induction false} SplitDonePrefix(lines: seq<string>, j: nat)
    requires j <= |lines|
    ensures Split(lines[..j]).0 <= Blocks(lines)
    decreases |lines| - j
  {
    if j == |lines| {
      assert lines[..j] == lines;
    } else {
      SplitDonePrefix(lines, j + 1);
      assert lines[..j + 1][..j] == lines[..j];
    }
  }

  method CollectParts(lines: seq<string>) returns (r: Result<seq<Part>, ParseError>)
    ensures r == PartsOf(Blocks(lines))
  {
    var parts: seq<Part> := [];
    var buffer: seq<string> := [];
    ghost var done: seq<seq<string>> := [];
    for i := 0 to |lines|
      invariant Split(lines[..i]) == (done, buffer)
      invariant PartsOf(done) == Success(parts)
    {
      var line := lines[i];
      assert lines[..i + 1][..i] == lines[..i];
      assert Split(lines[..i + 1]) ==
        if IsHeader(line) then (done + [buffer], [line]) else (done, buffer + [line]);
      if IsHeader(line) {
        assert (done + [buffer])[..|done|] == done;
        match PartFromBuffer(buffer) {
          case Failed(e) =>
            done := done + [buffer];
            SplitDonePrefix(lines, i + 1);
            FailureSticks(done, Blocks(lines));
            return Failure(e);
          case Parsed(p) =>
            parts := parts + [p];
          case Skip =>
        }
        done := done + [buffer];
        buffer := [];
        assert buffer + [line] == [line];
      }
      buffer := buffer + [line];
    }
    assert lines[..|lines|] == lines;
    if buffer != [] {
      assert (done + [buffer])[..|done|] == done;
      match PartFromBuffer(buffer)
      case Failed(e) =>
        return Failure(e);
      case Parsed(p) =>
        parts := parts + [p];
      case Skip =>
    }
    r := Success(parts);
  }
}
