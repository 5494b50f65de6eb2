/** The dictionary block parser, the first loop of `SentenceMorpher.Create`
    (Mophology/SentenceMorpher.cs:28-43): the dictionary's lines are cut into
    blocks of consecutive lines that start with a letter, one block per lemma.

    The C# loop adds the list object `block` to `blocks` and then clears that
    same object ("And add new"), so with reference semantics every stored
    block would be one shared list. The comment states the intent, a fresh
    list per block; blocks are values here, which gives that intended
    behaviour. */
module BlockParser {
  import opened Text

  type Block = seq<string>

  /** A line that closes the current block: empty, or not starting with a letter. */
  predicate IsDelimiter(rt: Runtime, line: string)
  {
    |line| == 0 || !rt.isLetter(line[0])
  }

  predicate AllContent(rt: Runtime, lines: seq<string>)
  {
    forall k | 0 <= k < |lines| :: !IsDelimiter(rt, lines[k])
  }

  /** The length of the run of content lines that `lines` starts with. */
  function RunLength(rt: Runtime, lines: seq<string>): (n: nat)
    ensures n <= |lines|
    ensures forall k | 0 <= k < n :: !IsDelimiter(rt, lines[k])
    ensures n < |lines| ==> IsDelimiter(rt, lines[n])
  {
    if |lines| == 0 || IsDelimiter(rt, lines[0]) then 0
    else 1 + RunLength(rt, lines[1..])
  }

  /** The blocks of a dictionary: its maximal runs of content lines, in order.
      This is the reference the parsing loop is proved against. */
  function Blocks(rt: Runtime, lines: seq<string>): seq<Block>
    decreases |lines|
  {
    if |lines| == 0 then []
    else if IsDelimiter(rt, lines[0]) then Blocks(rt, lines[1..])
    else
      var n := RunLength(rt, lines);
      [lines[..n]] + Blocks(rt, lines[n..])
  }

  /** The content lines of a dictionary, in order. */
  function Content(rt: Runtime, lines: seq<string>): seq<string>
  {
    if |lines| == 0 then []
    else if IsDelimiter(rt, lines[0]) then Content(rt, lines[1..])
    else [lines[0]] + Content(rt, lines[1..])
  }

  function Flatten(bs: seq<Block>): seq<string>
  {
    if |bs| == 0 then [] else bs[0] + Flatten(bs[1..])
  }

  /** Every block is non-empty, each of its lines starts with a letter and
      is a line of the dictionary. */
  lemma {:induction false} BlocksWellFormed(rt: Runtime, lines: seq<string>)
    ensures forall j | 0 <= j < |Blocks(rt, lines)| ::
              && |Blocks(rt, lines)[j]| > 0 && AllContent(rt, Blocks(rt, lines)[j])
              && forall i | 0 <= i < |Blocks(rt, lines)[j]| :: Blocks(rt, lines)[j][i] in lines
    decreases |lines|
  {
    if |lines| > 0 {
      if IsDelimiter(rt, lines[0]) {
        BlocksWellFormed(rt, lines[1..]);
      } else {
        var n := RunLength(rt, lines);
        BlocksWellFormed(rt, lines[n..]);
      }
    }
  }

  lemma {:induction false} ContentAppend(rt: Runtime, a: seq<string>, b: seq<string>)
    ensures Content(rt, a + b) == Content(rt, a) + Content(rt, b)
  {
    if |a| > 0 {
      assert (a + b)[1..] == a[1..] + b;
      ContentAppend(rt, a[1..], b);
    } else {
      assert a + b == b;
    }
  }

  lemma {:induction false} ContentOfContent(rt: Runtime, a: seq<string>)
    requires AllContent(rt, a)
    ensures Content(rt, a) == a
  {
    if |a| > 0 {
      ContentOfContent(rt, a[1..]);
    }
  }

  /** The blocks, concatenated in order, are the dictionary with its
      delimiter lines taken out: no line is lost, none is duplicated. */
  lemma {:induction false} BlocksFlatten(rt: Runtime, lines: seq<string>)
    ensures Flatten(Blocks(rt, lines)) == Content(rt, lines)
    decreases |lines|
  {
    if |lines| > 0 {
      if IsDelimiter(rt, lines[0]) {
        BlocksFlatten(rt, lines[1..]);
      } else {
        var n := RunLength(rt, lines);
        BlocksFlatten(rt, lines[n..]);
        assert lines == lines[..n] + lines[n..];
        ContentAppend(rt, lines[..n], lines[n..]);
        ContentOfContent(rt, lines[..n]);
        assert ([lines[..n]] + Blocks(rt, lines[n..]))[1..] == Blocks(rt, lines[n..]);
      }
    }
  }

  /** A non-empty run of content lines is exactly one block. */
  lemma BlocksOfRun(rt: Runtime, lines: seq<string>)
    requires |lines| > 0 && AllContent(rt, lines)
    ensures Blocks(rt, lines) == [lines]
  {
    assert RunLength(rt, lines) == |lines|;
    assert lines[..|lines|] == lines;
  }

  /** A delimiter line cuts the dictionary into two independent halves; a run
      of delimiters is no different from one, so it never yields an empty block. */
  lemma {:induction false} BlocksSplit(rt: Runtime, xs: seq<string>, d: string, ys: seq<string>)
    requires IsDelimiter(rt, d)
    ensures Blocks(rt, xs + [d] + ys) == Blocks(rt, xs) + Blocks(rt, ys)
    decreases |xs|
  {
    var s := xs + [d] + ys;
    if |xs| == 0 {
      assert s[1..] == ys;
    } else if IsDelimiter(rt, xs[0]) {
      assert s[1..] == xs[1..] + [d] + ys;
      BlocksSplit(rt, xs[1..], d, ys);
    } else {
      var m := RunLength(rt, xs);
      RunBeforeDelimiter(rt, xs, d, ys);
      BlocksSplit(rt, xs[m..], d, ys);
      AppendAssoc([xs[..m]], Blocks(rt, xs[m..]), Blocks(rt, ys));
    }
  }

  /** A run at the start of `xs` is the same run in `xs + [d] + ys`. */
  lemma RunBeforeDelimiter(rt: Runtime, xs: seq<string>, d: string, ys: seq<string>)
    requires IsDelimiter(rt, d) && |xs| > 0 && !IsDelimiter(rt, xs[0])
    ensures var m := RunLength(rt, xs);
      Blocks(rt, xs + [d] + ys) == [xs[..m]] + Blocks(rt, xs[m..] + [d] + ys)
  {
    var s := xs + [d] + ys;
    var m := RunLength(rt, xs);
    assert s[m] == if m < |xs| then xs[m] else d;
    assert RunLength(rt, s) == m;
    assert s[..m] == xs[..m];
    assert s[m..] == xs[m..] + [d] + ys;
  }

  /** A run of content lines followed by a delimiter is one block, then the
      blocks of what follows the delimiter. */
  lemma BlocksAfterRun(rt: Runtime, run: seq<string>, rest: seq<string>)
    requires |run| > 0 && AllContent(rt, run)
    requires |rest| > 0 && IsDelimiter(rt, rest[0])
    ensures Blocks(rt, run + rest) == [run] + Blocks(rt, rest[1..])
  {
    var d, ys := rest[0], rest[1..];
    assert run + rest == run + [d] + ys by {
      assert rest == [d] + ys;
    }
    BlocksSplit(rt, run, d, ys);
    BlocksOfRun(rt, run);
  }

  /** One step of the line loop, for a delimiter line. */
  lemma BlocksStepDelimiter(rt: Runtime, block: Block, line: string, rest: seq<string>)
    requires AllContent(rt, block) && IsDelimiter(rt, line)
    ensures Blocks(rt, block + ([line] + rest))
         == (if block == [] then [] else [block]) + Blocks(rt, rest)
  {
    if block == [] {
      assert block + ([line] + rest) == [line] + rest;
      assert ([line] + rest)[1..] == rest;
    } else {
      BlocksAfterRun(rt, block, [line] + rest);
      assert ([line] + rest)[1..] == rest;
    }
  }

  /** The loop invariant of `SplitBlocks`: the blocks found so far, then the
      blocks of the open block followed by the lines not yet read, are the
      blocks of the whole dictionary. */
  ghost predicate Scanned(rt: Runtime, lines: seq<string>, i: nat, blocks: seq<Block>, block: Block)
  {
    && i <= |lines| && AllContent(rt, block)
    && blocks + Blocks(rt, block + lines[i..]) == Blocks(rt, lines)
  }

  lemma AppendAssoc<T>(a: seq<T>, b: seq<T>, c: seq<T>)
    ensures a + (b + c) == (a + b) + c
  {
  }

  lemma AppendEmpty<T>(a: seq<T>)
    ensures [] + a == a && a + [] == a
  {
  }

  lemma ScannedDelimiter(rt: Runtime, lines: seq<string>, i: nat, blocks: seq<Block>, block: Block)
    requires Scanned(rt, lines, i, blocks, block) && i < |lines| && IsDelimiter(rt, lines[i])
    ensures Scanned(rt, lines, i + 1, if block == [] then blocks else blocks + [block], [])
  {
    var line, rest := lines[i], lines[i + 1..];
    AppendEmpty(rest);
    assert Blocks(rt, block + lines[i..]) == (if block == [] then [] else [block]) + Blocks(rt, rest) by {
      assert lines[i..] == [line] + rest;
      BlocksStepDelimiter(rt, block, line, rest);
    }
    if block != [] {
      AppendAssoc(blocks, [block], Blocks(rt, rest));
    } else {
      AppendEmpty(Blocks(rt, rest));
    }
  }

  lemma ScannedContent(rt: Runtime, lines: seq<string>, i: nat, blocks: seq<Block>, block: Block)
    requires Scanned(rt, lines, i, blocks, block) && i < |lines| && !IsDelimiter(rt, lines[i])
    ensures Scanned(rt, lines, i + 1, blocks, block + [lines[i]])
  {
    assert block + lines[i..] == (block + [lines[i]]) + lines[i + 1..];
  }

  /** The line loop of `Create`: a delimiter closes a non-empty current block
      and is otherwise skipped; a content line joins the current block; the
      last block is flushed at the end. */
  method SplitBlocks(rt: Runtime, lines: seq<string>) returns (blocks: seq<Block>)
    ensures blocks == Blocks(rt, lines)
  {
    blocks := [];
    var block: Block := [];
    var i := 0;
    assert block + lines[i..] == lines;
    while i < |lines|
      invariant Scanned(rt, lines, i, blocks, block)
    {
      var line := lines[i];
      if |line| == 0 || !rt.isLetter(line[0]) {
        ScannedDelimiter(rt, lines, i, blocks, block);
        if block != [] {
          blocks := blocks + [block];
          block := [];
        }
      } else {
        ScannedContent(rt, lines, i, blocks, block);
        block := block + [line];
      }
      i := i + 1;
    }
    assert block + lines[i..] == block;
    if block != [] {
      BlocksOfRun(rt, block);
      blocks := blocks + [block];
    }
  }
}
