/**
 Finding the names of the parent decoders in a file of decoders, line by line. A line is what the patterns
 of the script see in it.
 */
module DecoderScan {
  datatype Line = Start(name: string) | Parent | End | Other

  /** A decoder element and the lines inside it. */
  datatype Block = Block(name: string, body: seq<Line>)

  /** How many lines there are before the first end. */
  function ToEnd(lines: seq<Line>): (n: nat)
    ensures n <= |lines| && (n < |lines| ==> lines[n] == End) && End !in lines[..n]
  {
    if lines == [] || lines[0] == End then 0
    else
      var n := ToEnd(lines[1..]);
      assert lines[..n + 1] == [lines[0]] + lines[1..][..n];
      n + 1
  }

  /** The structure of a file: from a start line to the next end line is a block, if there is one. */
  function Blocks(lines: seq<Line>): seq<Block>
    decreases |lines|
  {
    if lines == [] then []
    else if !lines[0].Start? then Blocks(lines[1..])
    else
      var n := ToEnd(lines[1..]);
      if n == |lines| - 1 then []
      else [Block(lines[0].name, lines[1..][..n])] + Blocks(lines[n + 2..])
  }

  function Parentless(blocks: seq<Block>): set<string> {
    set k | 0 <= k < |blocks| && Parent !in blocks[k].body :: blocks[k].name
  }

  lemma ParentlessStep(block: Block, blocks: seq<Block>)
    ensures Parentless([block] + blocks) == (if Parent in block.body then {} else {block.name}) + Parentless(blocks)
  {
    var all := [block] + blocks;
    assert forall k :: 0 <= k < |blocks| ==> all[k + 1] == blocks[k];
    assert all[0] == block;
    forall name | name in Parentless(blocks) ensures name in Parentless(all) {
      var k :| 0 <= k < |blocks| && Parent !in blocks[k].body && blocks[k].name == name;
      assert all[k + 1].name == name;
    }
  }

  /** What the rest of the file adds, inside a block whose first lines `seen` have been read. */
  ghost function Ahead(name: string, seen: seq<Line>, rest: seq<Line>): set<string> {
    var n := ToEnd(rest);
    if n == |rest| then {} else (if Parent in seen + rest[..n] then {} else {name}) + Parentless(Blocks(rest[n + 1..]))
  }

  lemma Opened(lines: seq<Line>)
    requires lines != [] && lines[0].Start?
    ensures Parentless(Blocks(lines)) == Ahead(lines[0].name, [], lines[1..])
  {
    var rest := lines[1..];
    var n := ToEnd(rest);
    if n < |rest| {
      assert rest[n + 1..] == lines[n + 2..] && [] + rest[..n] == rest[..n];
      ParentlessStep(Block(lines[0].name, rest[..n]), Blocks(lines[n + 2..]));
    }
  }

  lemma Inside(name: string, seen: seq<Line>, rest: seq<Line>)
    requires rest != [] && rest[0] != End
    ensures Ahead(name, seen, rest) == Ahead(name, seen + [rest[0]], rest[1..])
  {
    var n := ToEnd(rest);
    if n < |rest| {
      assert rest[n + 1..] == rest[1..][n..];
      assert seen + rest[..n] == seen + [rest[0]] + rest[1..][..n - 1];
    }
  }

  lemma Closed(name: string, seen: seq<Line>, rest: seq<Line>)
    requires rest != [] && rest[0] == End
    ensures Ahead(name, seen, rest) == (if Parent in seen then {} else {name}) + Parentless(Blocks(rest[1..]))
  {
    assert seen + rest[..0] == seen;
  }

  /** The loop of `get_parent_decoder_names` over one file. */
  method ParentDecoderNames(lines: seq<Line>) returns (names: set<string>)
    ensures names == Parentless(Blocks(lines))
  {
    hide Blocks, Parentless, Ahead;
    NoBlocks();
    var inside, parentFound, name := false, false, "";
    ghost var seen := [];
    names := {};
    var k := 0;
    assert lines[k..] == lines;
    while k < |lines|
      invariant 0 <= k <= |lines|
      invariant !inside ==> !parentFound && Parentless(Blocks(lines)) == names + Parentless(Blocks(lines[k..]))
      invariant inside ==> (parentFound <==> Parent in seen)
      invariant inside ==> Parentless(Blocks(lines)) == names + Ahead(name, seen, lines[k..])
    {
      var line := lines[k];
      assert lines[k..][1..] == lines[k + 1..];
      if !inside {
        if line.Start? {
          Opened(lines[k..]);
          inside, name, seen := true, line.name, [];
        } else {
          Skipped(lines[k..]);
        }
      } else if !parentFound && line == Parent {
        Inside(name, seen, lines[k..]);
        parentFound, seen := true, seen + [line];
      } else if line == End {
        Closed(name, seen, lines[k..]);
        if !parentFound {
          names := names + {name};
        } else {
          parentFound := false;
        }
        inside := false;
      } else {
        Inside(name, seen, lines[k..]);
        seen := seen + [line];
      }
      k := k + 1;
    }
    assert lines[k..] == [];
    AheadOfNothing(name, seen);
  }

  lemma NoBlocks()
    ensures Parentless(Blocks([])) == {}
  {
  }

  lemma AheadOfNothing(name: string, seen: seq<Line>)
    ensures Ahead(name, seen, []) == {}
  {
  }

  lemma Skipped(lines: seq<Line>)
    requires lines != [] && !lines[0].Start?
    ensures Blocks(lines) == Blocks(lines[1..])
  {
  }

  /** A file in which each block is preceded by lines that start none. */
  ghost function Printed(blocks: seq<Block>, between: seq<Line>): seq<Line> {
    if blocks == [] then between
    else between + [Start(blocks[0].name)] + blocks[0].body + [End] + Printed(blocks[1..], between)
  }

  lemma {:induction false} ToEndOf(body: seq<Line>, rest: seq<Line>)
    requires End !in body
    ensures ToEnd(body + [End] + rest) == |body|
  {
    var lines := body + [End] + rest;
    if body == [] {
      assert lines[0] == End;
    } else {
      assert lines[1..] == body[1..] + [End] + rest;
      ToEndOf(body[1..], rest);
    }
  }

  lemma NothingScanned()
    ensures Blocks([]) == []
  {
  }

  lemma OneBlock(name: string, body: seq<Line>, rest: seq<Line>)
    requires End !in body
    ensures Blocks([Start(name)] + body + [End] + rest) == [Block(name, body)] + Blocks(rest)
  {
    var lines := [Start(name)] + body + [End] + rest;
    ToEndOf(body, rest);
    assert lines[1..] == body + [End] + rest && lines[1..][..|body|] == body && lines[|body| + 2..] == rest;
  }

  lemma {:induction false} SkippedAll(between: seq<Line>, rest: seq<Line>)
    requires forall k :: 0 <= k < |between| ==> !between[k].Start?
    ensures Blocks(between + rest) == Blocks(rest)
  {
    if between == [] {
      assert between + rest == rest;
    } else {
      assert (between + rest)[1..] == between[1..] + rest;
      SkippedAll(between[1..], rest);
    }
  }

  /** Scanning a printed list of blocks finds those blocks, whatever the lines of one say about the next. */
  lemma {:induction false} PrintedIsScanned(blocks: seq<Block>, between: seq<Line>)
    requires forall k :: 0 <= k < |blocks| ==> End !in blocks[k].body
    requires forall k :: 0 <= k < |between| ==> !between[k].Start?
    ensures Blocks(Printed(blocks, between)) == blocks
    decreases |blocks|
  {
    hide Blocks;
    if blocks == [] {
      NothingScanned();
      SkippedAll(between, []);
      assert between + [] == between;
    } else {
      var block, rest := blocks[0], Printed(blocks[1..], between);
      var lines := [Start(block.name)] + block.body + [End] + rest;
      assert Printed(blocks, between) == between + lines;
      SkippedAll(between, lines);
      OneBlock(block.name, block.body, rest);
      PrintedIsScanned(blocks[1..], between);
      assert blocks == [block] + blocks[1..];
    }
  }

  /** The names found in a printed list are those of the blocks without a line that names a parent. */
  lemma NamesOfPrinted(blocks: seq<Block>, between: seq<Line>, name: string)
    requires forall k :: 0 <= k < |blocks| ==> End !in blocks[k].body
    requires forall k :: 0 <= k < |between| ==> !between[k].Start?
    ensures name in Parentless(Blocks(Printed(blocks, between)))
       <==> exists block :: block in blocks && block.name == name && Parent !in block.body
  {
    PrintedIsScanned(blocks, between);
  }
}
