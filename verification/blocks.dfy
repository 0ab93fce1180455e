/*
 * Line blocks: the grouping that the résumé text extractor's loops perform.
 * A block starts at a line the caller recognises as a start line and runs
 * until the next start line; lines before the first start line belong to no
 * block.
 */
module Blocks {
  import opened Wrappers
  import opened Seqs

  datatype Block = Block(head: string, body: seq<string>)

  /** Number of lines before the first start line. */
  function BodyLength(lines: seq<string>, isStart: string -> bool): (n: nat)
    ensures n <= |lines|
    ensures forall i :: 0 <= i < n ==> !isStart(lines[i])
    ensures n < |lines| ==> isStart(lines[n])
  {
    if lines == [] || isStart(lines[0]) then 0 else 1 + BodyLength(lines[1..], isStart)
  }

  /** The blocks of `lines`, in order. */
  function Split(lines: seq<string>, isStart: string -> bool): (r: seq<Block>)
    ensures forall i :: 0 <= i < |r| ==> isStart(r[i].head)
    ensures forall i, j :: 0 <= i < |r| && 0 <= j < |r[i].body| ==> !isStart(r[i].body[j])
    decreases |lines|
  {
    if lines == [] then []
    else if !isStart(lines[0]) then Split(lines[1..], isStart)
    else
      var n := BodyLength(lines[1..], isStart);
      [Block(lines[0], lines[1..1 + n])] + Split(lines[1 + n..], isStart)
  }

  function Heads(blocks: seq<Block>): (r: seq<string>)
    ensures |r| == |blocks|
    ensures forall i :: 0 <= i < |blocks| ==> r[i] == blocks[i].head
  {
    seq(|blocks|, i requires 0 <= i < |blocks| => blocks[i].head)
  }

  lemma HeadsCons(b: Block, blocks: seq<Block>)
    ensures Heads([b] + blocks) == [b.head] + Heads(blocks)
  {
  }

  /** One record per block, in order. */
  function MapBlocks<T>(blocks: seq<Block>, f: Block -> T): (r: seq<T>)
    ensures |r| == |blocks|
    ensures forall i :: 0 <= i < |blocks| ==> r[i] == f(blocks[i])
  {
    seq(|blocks|, i requires 0 <= i < |blocks| => f(blocks[i]))
  }

  /** The record of a block depends only on the lines up to the next start line. */
  lemma SplitBlockMapped<T>(head: string, body: seq<string>, rest: seq<string>, isStart: string -> bool, f: Block -> T)
    requires isStart(head)
    requires forall i :: 0 <= i < |body| ==> !isStart(body[i])
    requires rest == [] || isStart(rest[0])
    ensures MapBlocks(Split([head] + body + rest, isStart), f)
      == [f(Block(head, body))] + MapBlocks(Split(rest, isStart), f)
  {
    SplitBlock(head, body, rest, isStart);
    MapBlocksCons(Block(head, body), Split(rest, isStart), f);
  }

  lemma MapBlocksCons<T>(b: Block, blocks: seq<Block>, f: Block -> T)
    ensures MapBlocks([b] + blocks, f) == [f(b)] + MapBlocks(blocks, f)
  {
    var lhs := MapBlocks([b] + blocks, f);
    var rhs := [f(b)] + MapBlocks(blocks, f);
    assert |lhs| == |rhs|;
    forall i | 0 <= i < |lhs| ensures lhs[i] == rhs[i] {
      if i > 0 {
        assert ([b] + blocks)[i] == blocks[i - 1];
      }
    }
  }

  /** Every block written out again: its head followed by its body. */
  function Flatten(blocks: seq<Block>): seq<string>
  {
    if blocks == [] then [] else [blocks[0].head] + blocks[0].body + Flatten(blocks[1..])
  }

  /** One unfolding of `Split` at a start line. */
  lemma SplitAtStart(lines: seq<string>, isStart: string -> bool)
    requires lines != [] && isStart(lines[0])
    ensures 1 + BodyLength(lines[1..], isStart) <= |lines|
    ensures Split(lines, isStart)
      == [Block(lines[0], lines[1..1 + BodyLength(lines[1..], isStart)])]
         + Split(lines[1 + BodyLength(lines[1..], isStart)..], isStart)
  {
  }

  /** The lines after a start line: its body, then the lines from the next start line on. */
  lemma BodyThenRest(lines: seq<string>, isStart: string -> bool)
    requires lines != []
    ensures var n := BodyLength(lines[1..], isStart);
      && lines[1..] == lines[1..1 + n] + lines[1 + n..]
      && (lines[1 + n..] == [] || isStart(lines[1 + n..][0]))
  {
    var n := BodyLength(lines[1..], isStart);
    assert lines[1..][n..] == lines[1 + n..];
  }

  /** The heads of the blocks are exactly the start lines, in order; so there is one block per start line. */
  lemma {:induction false} SplitHeads(lines: seq<string>, isStart: string -> bool)
    ensures Heads(Split(lines, isStart)) == Filter(isStart, lines)
    ensures |Split(lines, isStart)| == |Filter(isStart, lines)|
    decreases |lines|
  {
    if lines != [] {
      if !isStart(lines[0]) {
        SplitHeads(lines[1..], isStart);
        assert Split(lines, isStart) == Split(lines[1..], isStart);
        assert Filter(isStart, lines) == Filter(isStart, lines[1..]);
      } else {
        var n := BodyLength(lines[1..], isStart);
        var body := lines[1..1 + n];
        var rest := lines[1 + n..];
        assert Split(lines, isStart) == [Block(lines[0], body)] + Split(rest, isStart) by {
          SplitAtStart(lines, isStart);
        }
        assert Filter(isStart, lines) == [lines[0]] + Filter(isStart, rest) by {
          BodyThenRest(lines, isStart);
          NoStartFilter(body, rest, isStart);
          assert Filter(isStart, lines) == [lines[0]] + Filter(isStart, lines[1..]);
        }
        SplitHeads(rest, isStart);
        HeadsCons(Block(lines[0], body), Split(rest, isStart));
      }
    }
  }

  /** Lines that are not start lines contribute nothing to the filter. */
  lemma {:induction false} NoStartFilter(pre: seq<string>, rest: seq<string>, isStart: string -> bool)
    requires forall i :: 0 <= i < |pre| ==> !isStart(pre[i])
    ensures Filter(isStart, pre + rest) == Filter(isStart, rest)
    decreases |pre|
  {
    if pre != [] {
      var s := pre + rest;
      assert s[0] == pre[0] && !isStart(s[0]);
      assert s[1..] == pre[1..] + rest;
      NoStartFilter(pre[1..], rest, isStart);
    } else {
      assert pre + rest == rest;
    }
  }

  /** Lines before the first start line belong to no block. */
  lemma {:induction false} PreambleDropped(pre: seq<string>, lines: seq<string>, isStart: string -> bool)
    requires forall i :: 0 <= i < |pre| ==> !isStart(pre[i])
    ensures Split(pre + lines, isStart) == Split(lines, isStart)
    decreases |pre|
  {
    if pre != [] {
      var s := pre + lines;
      assert s[0] == pre[0] && !isStart(s[0]);
      assert s[1..] == pre[1..] + lines;
      PreambleDropped(pre[1..], lines, isStart);
    } else {
      assert pre + lines == lines;
    }
  }

  /** A block holds exactly the lines between its start line and the next one. */
  lemma {:induction false} SplitBlock(head: string, body: seq<string>, rest: seq<string>, isStart: string -> bool)
    requires isStart(head)
    requires forall i :: 0 <= i < |body| ==> !isStart(body[i])
    requires rest == [] || isStart(rest[0])
    ensures Split([head] + body + rest, isStart) == [Block(head, body)] + Split(rest, isStart)
  {
    var lines := [head] + body + rest;
    assert lines[1..] == body + rest;
    BodyLengthOf(body, rest, isStart);
    assert lines[1..1 + |body|] == body;
    assert lines[1 + |body|..] == rest;
  }

  lemma {:induction false} BodyLengthOf(body: seq<string>, rest: seq<string>, isStart: string -> bool)
    requires forall i :: 0 <= i < |body| ==> !isStart(body[i])
    requires rest == [] || isStart(rest[0])
    ensures BodyLength(body + rest, isStart) == |body|
    decreases |body|
  {
    if body != [] {
      assert (body + rest)[1..] == body[1..] + rest;
      BodyLengthOf(body[1..], rest, isStart);
    } else {
      assert body + rest == rest;
    }
  }

  lemma FlattenCons(b: Block, blocks: seq<Block>, rest: seq<string>)
    requires Flatten(blocks) == rest
    ensures Flatten([b] + blocks) == [b.head] + b.body + rest
  {
    assert ([b] + blocks)[1..] == blocks;
  }

  /** Nothing after the first start line is lost or reordered by the grouping. */
  lemma {:induction false} SplitLosesOnlyPreamble(lines: seq<string>, isStart: string -> bool)
    ensures Flatten(Split(lines, isStart)) == lines[BodyLength(lines, isStart)..]
    decreases |lines|
  {
    if lines != [] {
      if !isStart(lines[0]) {
        SplitLosesOnlyPreamble(lines[1..], isStart);
        var m := BodyLength(lines[1..], isStart);
        assert BodyLength(lines, isStart) == 1 + m;
        assert lines[1..][m..] == lines[1 + m..];
      } else {
        BodyThenRest(lines, isStart);
        var n := BodyLength(lines[1..], isStart);
        var body := lines[1..1 + n];
        var rest := lines[1 + n..];
        assert Flatten(Split(rest, isStart)) == rest by {
          SplitLosesOnlyPreamble(rest, isStart);
          assert BodyLength(rest, isStart) == 0;
          assert rest[0..] == rest;
        }
        assert Flatten(Split(lines, isStart)) == [lines[0]] + body + rest by {
          SplitAtStart(lines, isStart);
          FlattenCons(Block(lines[0], body), Split(rest, isStart), rest);
        }
        FirstThenSplit(lines, n);
        assert BodyLength(lines, isStart) == 0;
      }
    }
  }

  /*
   * Folding over the blocks, and the bookkeeping of a loop that builds them
   * one line at a time.
   */

  /** Feeds the blocks to `step`, in order. */
  function Fold<D>(d: D, blocks: seq<Block>, step: (D, Block) -> D): D
    decreases |blocks|
  {
    if blocks == [] then d else Fold(step(d, blocks[0]), blocks[1..], step)
  }

  /** A block-folding loop gives the same result as the fold over a block and the lines after it. */
  lemma FoldSplitBlock<D>(d: D, head: string, body: seq<string>, rest: seq<string>,
                          isStart: string -> bool, step: (D, Block) -> D)
    requires isStart(head)
    requires forall i :: 0 <= i < |body| ==> !isStart(body[i])
    requires rest == [] || isStart(rest[0])
    ensures Fold(d, Split([head] + body + rest, isStart), step)
      == Fold(step(d, Block(head, body)), Split(rest, isStart), step)
  {
    SplitBlock(head, body, rest, isStart);
    var blocks := [Block(head, body)] + Split(rest, isStart);
    assert blocks[1..] == Split(rest, isStart);
  }

  /** Feeds the block still being collected, if any. */
  function Close<D>(d: D, open: Option<Block>, step: (D, Block) -> D): D
  {
    if open.Some? then step(d, open.value) else d
  }

  /**
   * What a loop that has collected `open` so far still has to do with the
   * remaining lines: finish `open` with the lines up to the next start line,
   * then fold the later blocks.
   */
  function Continue<D>(d: D, open: Option<Block>, rest: seq<string>, isStart: string -> bool,
                       step: (D, Block) -> D): D
  {
    var n := BodyLength(rest, isStart);
    var finished := if open.Some? then Some(Block(open.value.head, open.value.body + rest[..n])) else None;
    Fold(Close(d, finished, step), Split(rest[n..], isStart), step)
  }

  lemma ContinueFromStart<D>(d: D, lines: seq<string>, isStart: string -> bool, step: (D, Block) -> D)
    ensures Continue(d, None, lines, isStart, step) == Fold(d, Split(lines, isStart), step)
  {
    var n := BodyLength(lines, isStart);
    assert Split(lines[n..], isStart) == Split(lines, isStart) by {
      PreambleDropped(lines[..n], lines[n..], isStart);
      assert lines[..n] + lines[n..] == lines;
    }
    assert Close(d, None, step) == d;
  }

  /** A line that is not a start line extends the open block. */
  lemma ContinueBodyLine<D>(d: D, open: Option<Block>, rest: seq<string>, isStart: string -> bool,
                            step: (D, Block) -> D)
    requires rest != [] && !isStart(rest[0])
    ensures var open' := if open.Some? then Some(Block(open.value.head, open.value.body + [rest[0]])) else None;
      Continue(d, open, rest, isStart, step) == Continue(d, open', rest[1..], isStart, step)
  {
    var n := BodyLength(rest, isStart);
    assert n == 1 + BodyLength(rest[1..], isStart);
    assert rest[n..] == rest[1..][n - 1..];
    if open.Some? {
      assert open.value.body + rest[..n] == open.value.body + [rest[0]] + rest[1..][..n - 1];
    }
  }

  /** A start line closes the open block and opens a new one. */
  lemma ContinueStartLine<D>(d: D, open: Option<Block>, rest: seq<string>, isStart: string -> bool,
                             step: (D, Block) -> D)
    requires rest != [] && isStart(rest[0])
    ensures Continue(d, open, rest, isStart, step)
      == Continue(Close(d, open, step), Some(Block(rest[0], [])), rest[1..], isStart, step)
  {
    assert BodyLength(rest, isStart) == 0;
    assert rest[..0] == [] && rest[0..] == rest;
    if open.Some? {
      assert open.value.body + rest[..0] == open.value.body;
    }
    var m := BodyLength(rest[1..], isStart);
    assert [] + rest[1..][..m] == rest[1..1 + m];
    assert rest[1 + m..] == rest[1..][m..];
    var blocks := Split(rest, isStart);
    assert blocks == [Block(rest[0], rest[1..1 + m])] + Split(rest[1 + m..], isStart);
    assert blocks[1..] == Split(rest[1 + m..], isStart);
  }

  lemma ContinueAtEnd<D>(d: D, open: Option<Block>, isStart: string -> bool, step: (D, Block) -> D)
    ensures Continue(d, open, [], isStart, step) == Close(d, open, step)
  {
    if open.Some? {
      assert open.value.body + [] == open.value.body;
    }
  }
}
