/**
 * The inputs `ParseICal` rejects and the trees `Bytes` refuses: a line
 * without a colon inside a block, a `BEGIN` that no later `END` of the same
 * value closes, and therefore any block nested in one of its own type.
 */
module ParseErrors {
  import opened Results
  import opened GoText
  import opened Folding
  import opened ICalendar

  // ---------------------------------------------------------------------------
  // General rules

  /** The scan breaks on the first line that does not parse when no matching
      `END` comes before it. */
  lemma {:induction false} ScanBrokenAt(lines: seq<string>, from: nat, m: nat, value: string)
    requires from <= m < |lines| && ParseNode(lines[m]).Err?
    requires forall k :: from <= k < m ==> !IsEndOf(lines[k], value)
    ensures ScanEnd(lines, from, value) == Broken
    decreases m - from
  {
    if from < m && ParseNode(lines[from]).Ok? {
      ScanBrokenAt(lines, from + 1, m, value);
    }
  }

  /** The scan finds nothing when no later line is the matching `END`. */
  lemma {:induction false} ScanNeverFound(lines: seq<string>, from: nat, value: string)
    requires from <= |lines|
    requires forall k :: from <= k < |lines| ==> !IsEndOf(lines[k], value)
    ensures !ScanEnd(lines, from, value).Found?
    decreases |lines| - from
  {
    if from < |lines| && ParseNode(lines[from]).Ok? {
      ScanNeverFound(lines, from + 1, value);
    }
  }

  /** A line without a colon between a `BEGIN` and its `END` fails the whole
      parse, even when the line would never be read as a node. */
  lemma BrokenInsideBlock(lines: seq<string>, value: string, m: nat)
    requires lines != [] && IsBeginOf(lines[0], value)
    requires 1 <= m < |lines| && ParseNode(lines[m]).Err?
    requires forall k :: 1 <= k < m ==> !IsEndOf(lines[k], value)
    ensures ParseLines(lines) == Err(MalformedLine)
  {
    ScanBrokenAt(lines, 1, m, value);
    assert lines[0..] == lines;
    ParseBeginUnclosed(lines, 0, value);
  }

  /** A `BEGIN` at the front that no later `END` of its value follows fails
      with `MalformedLine`, not `UnterminatedBlock`, when the lines end with
      the empty line that text ending in a line break gives: the scan for the
      `END` parses that empty line. */
  lemma UnclosedBeginMalformed(lines: seq<string>, value: string)
    requires |lines| >= 2 && IsBeginOf(lines[0], value) && lines[|lines| - 1] == ""
    requires forall k :: 1 <= k < |lines| - 1 ==> !IsEndOf(lines[k], value)
    ensures ParseLines(lines) == Err(MalformedLine)
  {
    ParseNodeSpec("");
    BrokenInsideBlock(lines, value, |lines| - 1);
  }

  /** A `BEGIN` line that no later `END` of the same value follows makes the
      parse fail, however deep it sits. */
  lemma {:induction false} UnclosedBeginFails(lines: seq<string>, p: nat, value: string)
    requires p < |lines| && IsBeginOf(lines[p], value)
    requires forall k :: p < k < |lines| ==> !IsEndOf(lines[k], value)
    ensures ParseLines(lines).Err?
    decreases |lines|
  {
    if lines[0] == "" {
      assert p > 0 by {
        ParseNodeSpec(lines[0]);
      }
      UnclosedBeginFails(lines[1..], p - 1, value);
    } else if ParseNode(lines[0]).Ok? {
      var node := ParseNode(lines[0]).value;
      if p == 0 {
        ScanNeverFound(lines, 1, node.value);
      } else if node.name == Begin && ScanEnd(lines, 1, node.value).Found? {
        var j := ScanEnd(lines, 1, node.value).at;
        ScanEndSpec(lines, 1, node.value);
        if p < j {
          UnclosedBeginFails(lines[1..j], p - 1, value);
        } else if p > j {
          UnclosedBeginFails(lines[j + 1..], p - j - 1, value);
        } else {
          assert false;
        }
      } else if node.name != Begin && node.name != End {
        UnclosedBeginFails(lines[1..], p - 1, value);
      }
    }
  }

  /** A block nested inside a block of the same value is rejected: the outer
      `BEGIN` closes at the inner `END`, which leaves the inner `BEGIN`
      unclosed. */
  lemma SameTypeNestingRejected(lines: seq<string>, value: string, j: nat, p: nat)
    requires lines != [] && IsBeginOf(lines[0], value)
    requires 1 <= j < |lines| && ScanEnd(lines, 1, value) == Found(j)
    requires 1 <= p < j && IsBeginOf(lines[p], value)
    ensures ParseLines(lines).Err?
  {
    InnerBlockFails(lines, value, j, p);
    assert lines[0..] == lines;
    ParseNodeSpec(lines[0]);
    ParseBeginClosed(lines, 0, j, value);
  }

  /** The lines between the outer `BEGIN` and the `END` it closes at hold
      the inner `BEGIN` with nothing to close it. */
  lemma InnerBlockFails(lines: seq<string>, value: string, j: nat, p: nat)
    requires 1 <= p < j < |lines| && IsBeginOf(lines[p], value)
    requires ScanEnd(lines, 1, value) == Found(j)
    ensures ParseLines(lines[1..j]).Err?
  {
    ScanEndSpec(lines, 1, value);
    var inner := lines[1..j];
    assert inner[p - 1] == lines[p];
    forall k | p - 1 < k < |inner|
      ensures !IsEndOf(inner[k], value)
    {
      assert inner[k] == lines[k + 1];
    }
    UnclosedBeginFails(inner, p - 1, value);
  }

  /** Input made of empty lines only parses to the empty tree. */
  lemma {:induction false} BlankLinesParseEmpty(lines: seq<string>)
    requires forall k :: 0 <= k < |lines| ==> lines[k] == ""
    ensures ParseLines(lines) == Ok([])
    decreases |lines|
  {
    if lines != [] {
      BlankLinesParseEmpty(lines[1..]);
    }
  }

  /** Blank input is an empty calendar. */
  lemma BlankCalendar(n: nat)
    ensures ParseCalendar(LfTerminated(seq(n, _ => ""))) == Ok([])
  {
    var lines := seq(n, _ => "");
    DenormalizeLfTerminated(lines);
    BlankLinesParseEmpty(lines + [""]);
  }

  lemma EmptyCalendar()
    ensures ParseCalendar("") == Ok([])
  {
    assert LfTerminated([]) == "";
    BlankCalendar(0);
  }

  // ---------------------------------------------------------------------------
  // The rejected inputs of ical_test.go

  /** Text without a backslash is its own unescaped value. */
  lemma {:induction false} UnescapeLiteral(v: string)
    requires '\\' !in v
    ensures Unescape(v) == v
    decreases |v|
  {
    if v != [] {
      assert v[0] != '\\';
      assert forall c :: c in v[1..] ==> c in v;
      UnescapeLiteral(v[1..]);
    }
  }

  /** The concrete line `name:value` with plain text on both sides. */
  lemma PlainLine(name: string, value: string, line: string)
    requires ':' !in name && '\\' !in value && line == name + ":" + value
    ensures ParseNode(line) == Ok(Node(name, value, []))
  {
    ParseNameValue(name, value);
    UnescapeLiteral(value);
  }

  /** A line that folds as is: no line break and no leading space. */
  predicate PlainWord(l: string) {
    CR !in l && LF !in l && l != [] && l[0] != ' '
  }

  /** Calendars of one to four LF-ended plain lines are read as those lines
      and a final empty line. */
  lemma LfCalendar(ls: seq<string>, buf: string)
    requires Foldable(ls) && buf == LfTerminated(ls)
    ensures ParseCalendar(buf) == CheckRoots(ParseLines(ls + [""]))
  {
    DenormalizeLfTerminated(ls);
  }

  lemma LfCons(l: string, rest: seq<string>, whole: seq<string>)
    requires whole == [l] + rest
    ensures LfTerminated(whole) == l + "\n" + LfTerminated(rest)
  {
    assert whole[0] == l && whole[1..] == rest;
  }

  lemma LfCalendar1(a: string, buf: string)
    requires PlainWord(a) && buf == a + "\n"
    ensures ParseCalendar(buf) == CheckRoots(ParseLines([a, ""]))
  {
    LfCons(a, [], [a]);
    assert LfTerminated([]) == [];
    assert [a] + [""] == [a, ""];
    LfCalendar([a], buf);
  }

  lemma LfCalendar2(a: string, b: string, buf: string)
    requires PlainWord(a) && PlainWord(b) && buf == a + "\n" + b + "\n"
    ensures ParseCalendar(buf) == CheckRoots(ParseLines([a, b, ""]))
  {
    var tail := b + "\n";
    LfCalendar1(b, tail);
    LfCons(b, [], [b]);
    assert LfTerminated([]) == [];
    LfCons(a, [b], [a, b]);
    Reassociate(a + "\n", b, "\n", buf, tail);
    assert [a, b] + [""] == [a, b, ""];
    LfCalendar([a, b], buf);
  }

  lemma LfCalendar3(a: string, b: string, c: string, buf: string)
    requires PlainWord(a) && PlainWord(b) && PlainWord(c) && buf == a + "\n" + b + "\n" + c + "\n"
    ensures ParseCalendar(buf) == CheckRoots(ParseLines([a, b, c, ""]))
  {
    var tail := b + "\n" + c + "\n";
    LfTail2(b, c, tail);
    LfCons(a, [b, c], [a, b, c]);
    LfGlue3(a, b, c, buf, tail);
    assert [a, b, c] + [""] == [a, b, c, ""];
    LfCalendar([a, b, c], buf);
  }

  lemma LfCalendar4(a: string, b: string, c: string, d: string, buf: string)
    requires PlainWord(a) && PlainWord(b) && PlainWord(c) && PlainWord(d)
    requires buf == a + "\n" + b + "\n" + c + "\n" + d + "\n"
    ensures ParseCalendar(buf) == CheckRoots(ParseLines([a, b, c, d, ""]))
  {
    var tail := b + "\n" + c + "\n" + d + "\n";
    var tail2 := c + "\n" + d + "\n";
    LfTail2(c, d, tail2);
    LfCons(b, [c, d], [b, c, d]);
    LfGlue3(b, c, d, tail, tail2);
    LfCons(a, [b, c, d], [a, b, c, d]);
    LfGlue4(a, b, c, d, buf, tail);
    assert [a, b, c, d] + [""] == [a, b, c, d, ""];
    LfCalendar([a, b, c, d], buf);
  }

  lemma LfTail2(b: string, c: string, tail: string)
    requires tail == b + "\n" + c + "\n"
    ensures LfTerminated([b, c]) == tail
  {
    LfCons(c, [], [c]);
    assert LfTerminated([]) == [];
    LfCons(b, [c], [b, c]);
  }

  /** The first LF-ended line in front of the LF-ended rest. */
  lemma LfGlue3(a: string, b: string, c: string, whole: string, tail: string)
    requires whole == a + "\n" + b + "\n" + c + "\n" && tail == b + "\n" + c + "\n"
    ensures whole == a + "\n" + tail
  {
  }

  lemma LfGlue4(a: string, b: string, c: string, d: string, whole: string, tail: string)
    requires whole == a + "\n" + b + "\n" + c + "\n" + d + "\n"
    requires tail == b + "\n" + c + "\n" + d + "\n"
    ensures whole == a + "\n" + tail
  {
  }

  // The lines of the rejected inputs, one fact per literal.

  lemma BareWordMalformed()
    ensures "ASDFGH" != "" && ParseNode("ASDFGH").Err?
  {
    ParseNodeSpec("ASDFGH");
  }

  lemma BeginWordLine()
    ensures ParseNode("BEGIN:ASDFGH") == Ok(Node(Begin, "ASDFGH", []))
  {
    PlainLine(Begin, "ASDFGH", "BEGIN:ASDFGH");
  }

  lemma BeginLongerWordLine()
    ensures ParseNode("BEGIN:ASDFGHA") == Ok(Node(Begin, "ASDFGHA", []))
  {
    PlainLine(Begin, "ASDFGHA", "BEGIN:ASDFGHA");
  }

  lemma LeafWordLine()
    ensures ParseNode("ASDFGH:ASDFGH") == Ok(Node("ASDFGH", "ASDFGH", []))
  {
    PlainLine("ASDFGH", "ASDFGH", "ASDFGH:ASDFGH");
  }

  lemma EndWordLine()
    ensures ParseNode("END:ASDFGH") == Ok(Node(End, "ASDFGH", []))
  {
    PlainLine(End, "ASDFGH", "END:ASDFGH");
  }

  lemma WordsPlain()
    ensures PlainWord("ASDFGH") && PlainWord("ASDFGH:ASDFGH")
    ensures PlainWord("BEGIN:ASDFGH") && PlainWord("BEGIN:ASDFGHA")
    ensures PlainWord("END:ASDFGH") && PlainWord("END:ASDFGHA")
  {
  }

  /** A bare word after a node (ical_test.go line 24). */
  lemma RejectsBareLine()
    ensures ParseCalendar("ASDFGH:ASDFGH" + "\n" + "ASDFGH" + "\n") == Err(MalformedLine)
  {
    var a, b := "ASDFGH:ASDFGH", "ASDFGH";
    LeafWordLine();
    BareWordMalformed();
    ParseLeafThenMalformed(a, b);
    WordsPlain();
    LfCalendar2(a, b, "ASDFGH:ASDFGH" + "\n" + "ASDFGH" + "\n");
  }

  lemma ParseLeafThenMalformed(a: string, b: string)
    requires ParseNode(a).Ok? && ParseNode(a).value.name != Begin && ParseNode(a).value.name != End
    requires b != "" && ParseNode(b).Err?
    ensures ParseLines([a, b, ""]) == Err(MalformedLine)
  {
    var lines := [a, b, ""];
    ParseNodeSpec(a);
    ParseMalformed(lines, 1);
    ParseLeaf(lines, 0);
    assert lines[0..] == lines;
  }

  /** A bare word inside a block (line 25). */
  lemma RejectsBareLineInBlock()
    ensures ParseCalendar("BEGIN:ASDFGH" + "\n" + "ASDFGH" + "\n" + "END:ASDFGH" + "\n") == Err(MalformedLine)
  {
    var a, b, c := "BEGIN:ASDFGH", "ASDFGH", "END:ASDFGH";
    BeginWordLine();
    BareWordMalformed();
    ParseBlockWithBareLine(a, b, c, "ASDFGH");
    WordsPlain();
    LfCalendar3(a, b, c, "BEGIN:ASDFGH" + "\n" + "ASDFGH" + "\n" + "END:ASDFGH" + "\n");
  }

  lemma ParseBlockWithBareLine(a: string, b: string, c: string, value: string)
    requires ParseNode(a) == Ok(Node(Begin, value, [])) && ParseNode(b).Err?
    ensures ParseLines([a, b, c, ""]) == Err(MalformedLine)
  {
    BrokenInsideBlock([a, b, c, ""], value, 1);
  }

  /** A block closed by an `END` of another value: the scan passes the
      `END:Y` and breaks on the final empty line. */
  lemma BeginThenOtherEnd()
    ensures ParseCalendar("BEGIN:X" + "\n" + "END:Y" + "\n") == Err(MalformedLine)
  {
    var a, b := "BEGIN:X", "END:Y";
    BeginXLine();
    EndYLine();
    ParseBeginOtherEnd(a, b, "X");
    OtherWordsPlain();
    LfCalendar2(a, b, "BEGIN:X" + "\n" + "END:Y" + "\n");
  }

  lemma BeginXLine()
    ensures ParseNode("BEGIN:X") == Ok(Node(Begin, "X", []))
  {
    PlainLine(Begin, "X", "BEGIN:X");
  }

  lemma OtherWordsPlain()
    ensures PlainWord("BEGIN:X") && PlainWord("END:Y")
  {
  }

  lemma EndYLine()
    ensures ParseNode("END:Y") == Ok(Node(End, "Y", []))
  {
    PlainLine(End, "Y", "END:Y");
  }

  lemma ParseBeginOtherEnd(a: string, b: string, value: string)
    requires ParseNode(a) == Ok(Node(Begin, value, []))
    requires ParseNode(b).Ok? && ParseNode(b).value.name == End && ParseNode(b).value.value != value
    ensures ParseLines([a, b, ""]) == Err(MalformedLine)
  {
    UnclosedBeginMalformed([a, b, ""], value);
  }

  /** A block nested in one of its own type (line 26). */
  lemma RejectsSameTypeNesting()
    ensures ParseCalendar("BEGIN:ASDFGH" + "\n" + "BEGIN:ASDFGH" + "\n" + "END:ASDFGH" + "\n" + "END:ASDFGH" + "\n")
         == Err(UnterminatedBlock)
  {
    var a, c := "BEGIN:ASDFGH", "END:ASDFGH";
    BeginWordLine();
    EndWordLine();
    ParseNesting(a, a, c, c, "ASDFGH", "ASDFGH");
    WordsPlain();
    LfCalendar4(a, a, c, c, "BEGIN:ASDFGH" + "\n" + "BEGIN:ASDFGH" + "\n" + "END:ASDFGH" + "\n" + "END:ASDFGH" + "\n");
  }

  /** Two blocks that cross (line 27). */
  lemma RejectsCrossingBlocks()
    ensures ParseCalendar("BEGIN:ASDFGH" + "\n" + "BEGIN:ASDFGHA" + "\n" + "END:ASDFGH" + "\n" + "END:ASDFGHA" + "\n")
         == Err(UnterminatedBlock)
  {
    var a, b, c, d := "BEGIN:ASDFGH", "BEGIN:ASDFGHA", "END:ASDFGH", "END:ASDFGHA";
    BeginWordLine();
    BeginLongerWordLine();
    EndWordLine();
    ParseNesting(a, b, c, d, "ASDFGH", "ASDFGHA");
    WordsPlain();
    LfCalendar4(a, b, c, d, "BEGIN:ASDFGH" + "\n" + "BEGIN:ASDFGHA" + "\n" + "END:ASDFGH" + "\n" + "END:ASDFGHA" + "\n");
  }

  /** The outer block closes at the first `END` of its value, which leaves
      the second `BEGIN` without its `END`. */
  lemma ParseNesting(a: string, b: string, c: string, d: string, outer: string, inner: string)
    requires ParseNode(a) == Ok(Node(Begin, outer, []))
    requires ParseNode(b) == Ok(Node(Begin, inner, []))
    requires ParseNode(c) == Ok(Node(End, outer, []))
    ensures ParseLines([a, b, c, d, ""]) == Err(UnterminatedBlock)
  {
    var lines := [a, b, c, d, ""];
    ParseNodeSpec(a);
    ParseNodeSpec(b);
    ScanSkip(lines, 1, outer);
    ScanFoundAt(lines, 2, outer);
    var body := lines[1..2];
    assert body == [b];
    assert ScanEnd(body, 1, inner) == Missing;
    assert body[0..] == body;
    ParseBeginUnclosed(body, 0, inner);
    assert lines[0..] == lines;
    ParseBeginClosed(lines, 0, 2, outer);
  }

  lemma ScanSkip(lines: seq<string>, from: nat, value: string)
    requires from < |lines| && ParseNode(lines[from]).Ok? && !IsEndOf(lines[from], value)
    ensures ScanEnd(lines, from, value) == ScanEnd(lines, from + 1, value)
  {
  }

  lemma ScanFoundAt(lines: seq<string>, from: nat, value: string)
    requires from < |lines| && IsEndOf(lines[from], value)
    ensures ScanEnd(lines, from, value) == Found(from)
  {
  }

  /** A stray `END` (line 28). */
  lemma RejectsStrayEnd()
    ensures ParseCalendar("END:ASDFGH" + "\n") == Err(NestingMismatch)
  {
    var a := "END:ASDFGH";
    EndWordLine();
    ParseStrayEndLine(a);
    WordsPlain();
    LfCalendar1(a, "END:ASDFGH" + "\n");
  }

  lemma ParseStrayEndLine(a: string)
    requires ParseNode(a) == Ok(Node(End, "ASDFGH", []))
    ensures ParseLines([a, ""]) == Err(NestingMismatch)
  {
    ParseNodeSpec(a);
    ParseStrayEnd([a, ""], 0);
    assert [a, ""][0..] == [a, ""];
  }

  /** A well-formed block that is not a calendar at the root (line 29). */
  lemma RejectsOtherRoot()
    ensures ParseCalendar("BEGIN:ASDFGH" + "\n" + "ASDFGH:ASDFGH" + "\n" + "END:ASDFGH" + "\n") == Err(UnexpectedRootObject)
  {
    var a, b, c := "BEGIN:ASDFGH", "ASDFGH:ASDFGH", "END:ASDFGH";
    var leaf := Node("ASDFGH", "ASDFGH", []);
    BeginWordLine();
    LeafWordLine();
    EndWordLine();
    ParseSingleBlock(a, b, c, "ASDFGH", leaf);
    var tree := [Node(Begin, "ASDFGH", [leaf])];
    assert tree[0].value != Calendar;
    WordsPlain();
    LfCalendar3(a, b, c, "BEGIN:ASDFGH" + "\n" + "ASDFGH:ASDFGH" + "\n" + "END:ASDFGH" + "\n");
  }

  /** A block around one leaf. */
  lemma ParseSingleBlock(a: string, b: string, c: string, value: string, leaf: Node)
    requires ParseNode(a) == Ok(Node(Begin, value, []))
    requires ParseNode(b) == Ok(leaf) && leaf.name != Begin && leaf.name != End
    requires ParseNode(c) == Ok(Node(End, value, []))
    ensures ParseLines([a, b, c, ""]) == Ok([Node(Begin, value, [leaf])])
  {
    var lines := [a, b, c, ""];
    ParseNodeSpec(a);
    ScanSkip(lines, 1, value);
    ScanFoundAt(lines, 2, value);
    assert lines[0..] == lines && lines[1..2] == [b] && lines[3..] == [""];
    ParseBeginClosed(lines, 0, 2, value);
    OneLeaf(b, leaf);
    assert ParseLines([""]) == Ok([]);
    assert [Node(Begin, value, [leaf])] + [] == [Node(Begin, value, [leaf])];
  }

  lemma OneLeaf(b: string, leaf: Node)
    requires ParseNode(b) == Ok(leaf) && leaf.name != Begin && leaf.name != End
    ensures ParseLines([b]) == Ok([leaf])
  {
    ParseNodeSpec(b);
    ParseLeaf([b], 0);
    assert [b][0..] == [b] && [b][1..] == [];
    assert [leaf] + [] == [leaf];
  }

  // ---------------------------------------------------------------------------
  // The trees `Bytes` refuses (ical_test.go, InvalidAST)

  lemma RefusesEndNode()
    ensures !Encodable([Node(End, "TEST", [])])
  {
    assert [Node(End, "TEST", [])][0].name == End;
  }

  lemma RefusesChildrenOfLeaf()
    ensures !Encodable([Node("ASD", "TEST", [Node("ASD", "FGH", [])])])
  {
    var t := [Node("ASD", "TEST", [Node("ASD", "FGH", [])])];
    assert t[0].name != Begin && t[0].inner != [];
  }
}
