/**
 * What parsing and encoding promise about each other: a parsed tree never
 * makes `encode` panic, encoding a parsed tree gives back the non-empty
 * logical lines it came from, and parsing an encoded tree gives back the
 * tree.
 */
module RoundTrip {
  import opened Results
  import opened GoText
  import opened Folding
  import opened ICalendar

  // ---------------------------------------------------------------------------
  // Parse output is encodable

  lemma EncodableCons(node: Node, rest: seq<Node>)
    requires node.name != End && (node.name != Begin ==> node.inner == [])
    requires Encodable(node.inner) && Encodable(rest)
    ensures Encodable([node] + rest)
  {
    var all := [node] + rest;
    forall i | 0 <= i < |all|
      ensures all[i].name != End && (all[i].name != Begin ==> all[i].inner == []) && Encodable(all[i].inner)
    {
      if i > 0 {
        assert all[i] == rest[i - 1];
      }
    }
  }

  /** `parse` never yields an `END` node or children under a node other than
      `BEGIN`, so `Bytes` never panics on a parsed tree. */
  lemma {:induction false} ParsedEncodable(lines: seq<string>)
    ensures ParseLines(lines).Ok? ==> Encodable(ParseLines(lines).value)
    decreases |lines|
  {
    if lines != [] && lines[0] == "" {
      ParsedEncodable(lines[1..]);
    } else if lines != [] && ParseNode(lines[0]).Ok? {
      var node := ParseNode(lines[0]).value;
      if node.name == Begin && ScanEnd(lines, 1, node.value).Found? {
        var j := ScanEnd(lines, 1, node.value).at;
        ParsedEncodable(lines[1..j]);
        ParsedEncodable(lines[j + 1..]);
        var inner, rest := ParseLines(lines[1..j]), ParseLines(lines[j + 1..]);
        if inner.Ok? && rest.Ok? {
          EncodableCons(Node(Begin, node.value, inner.value), rest.value);
        }
      } else if node.name != Begin && node.name != End {
        ParsedEncodable(lines[1..]);
        if ParseLines(lines[1..]).Ok? {
          EncodableCons(node, ParseLines(lines[1..]).value);
        }
      }
    }
  }

  // ---------------------------------------------------------------------------
  // How many lines encode writes

  /** The number of nodes of a forest, at every depth. */
  function NodeCount(nodes: seq<Node>): nat
    decreases nodes
  {
    if nodes == [] then 0 else 1 + NodeCount(nodes[0].inner) + NodeCount(nodes[1..])
  }

  /** The number of `BEGIN` nodes of a forest, at every depth. */
  function BlockCount(nodes: seq<Node>): nat
    decreases nodes
  {
    if nodes == [] then 0
    else (if nodes[0].name == Begin then 1 else 0) + BlockCount(nodes[0].inner) + BlockCount(nodes[1..])
  }

  /** `encode` writes one line per node and one closing line per block. */
  lemma {:induction false} EncodeLinesCount(nodes: seq<Node>)
    requires Encodable(nodes)
    ensures |EncodeLines(nodes)| == NodeCount(nodes) + BlockCount(nodes)
    decreases nodes
  {
    if nodes != [] {
      var node := nodes[0];
      EncodableChild(nodes, 0);
      assert Encodable(nodes[1..]) by {
        forall i | 0 <= i < |nodes[1..]|
          ensures nodes[1..][i] == nodes[i + 1]
        {
        }
      }
      EncodeLinesCount(node.inner);
      EncodeLinesCount(nodes[1..]);
      if node.name != Begin {
        assert node.inner == [];
      }
    }
  }

  // ---------------------------------------------------------------------------
  // Encoding a parsed tree gives back its lines

  /** The logical lines `parse` does not skip. */
  function NonBlank(lines: seq<string>): (r: seq<string>)
    ensures forall l :: l in r ==> l in lines && l != ""
    decreases |lines|
  {
    if lines == [] then []
    else (if lines[0] == "" then [] else [lines[0]]) + NonBlank(lines[1..])
  }

  lemma {:induction false} NonBlankAppend(a: seq<string>, b: seq<string>)
    ensures NonBlank(a + b) == NonBlank(a) + NonBlank(b)
    decreases |a|
  {
    if a == [] {
      assert a + b == b;
    } else {
      assert (a + b)[1..] == a[1..] + b;
      NonBlankAppend(a[1..], b);
    }
  }

  /** The empty line has no colon and does not parse. */
  lemma EmptyMalformed()
    ensures ParseNode("").Err?
  {
  }

  /** The non-empty lines of a block: its `BEGIN` line, those of its inner
      lines, its `END` line, then those of what follows. */
  lemma NonBlankBlock(lines: seq<string>, j: nat)
    requires 1 <= j < |lines| && lines[0] != "" && lines[j] != ""
    ensures NonBlank(lines) == [lines[0]] + NonBlank(lines[1..j]) + [lines[j]] + NonBlank(lines[j + 1..])
  {
    var tail, after := lines[1..], lines[j..];
    assert tail == lines[1..j] + after;
    NonBlankAppend(lines[1..j], after);
    assert after[1..] == lines[j + 1..];
    assert NonBlank(after) == [lines[j]] + NonBlank(lines[j + 1..]);
    Reassociate([lines[0]], NonBlank(lines[1..j]), [lines[j]] + NonBlank(lines[j + 1..]), NonBlank(lines), NonBlank(tail));
  }

  /** Every line that parses is written back exactly by `encodeNode`. */
  predicate AllRoundTrip(lines: seq<string>) {
    forall l :: l in lines ==> LineRoundTrips(l)
  }

  lemma AllRoundTripSlice(lines: seq<string>, i: nat, j: nat)
    requires i <= j <= |lines| && AllRoundTrip(lines)
    ensures AllRoundTrip(lines[i..j])
  {
    assert forall l :: l in lines[i..j] ==> l in lines;
  }

  /** The encoded block of a parsed `BEGIN` line equals its source lines. */
  lemma EncodeParsedBlock(lines: seq<string>, j: nat, inner: seq<Node>, rest: seq<Node>)
    requires 1 <= j < |lines| && lines[0] != "" && AllRoundTrip(lines)
    requires ParseNode(lines[0]).Ok? && ParseNode(lines[0]).value.name == Begin
    requires IsEndOf(lines[j], ParseNode(lines[0]).value.value)
    requires EncodeLines(inner) == NonBlank(lines[1..j]) && EncodeLines(rest) == NonBlank(lines[j + 1..])
    ensures EncodeLines([Node(Begin, ParseNode(lines[0]).value.value, inner)] + rest) == NonBlank(lines)
  {
    var v := ParseNode(lines[0]).value.value;
    var block := Node(Begin, v, inner);
    assert lines[0] in lines && lines[j] in lines;
    LineRoundTrip(lines[0]);
    LineRoundTrip(lines[j]);
    assert EncodeNode(block) == lines[0];
    assert EndLine(v) == lines[j];
    EmptyMalformed();
    NonBlankBlock(lines, j);
    assert ([block] + rest)[1..] == rest;
  }

  /** Encoding what `parse` returns gives back the non-empty lines it read,
      when every line that parses is one `encodeNode` writes back exactly. */
  lemma {:induction false} EncodeOfParse(lines: seq<string>)
    requires AllRoundTrip(lines) && ParseLines(lines).Ok?
    ensures EncodeLines(ParseLines(lines).value) == NonBlank(lines)
    decreases |lines|
  {
    if lines != [] {
      AllRoundTripSlice(lines, 1, |lines|);
      if lines[0] == "" {
        EncodeOfParse(lines[1..]);
      } else {
        var node := ParseNode(lines[0]).value;
        if node.name == Begin {
          var j := ScanEnd(lines, 1, node.value).at;
          ScanEndSpec(lines, 1, node.value);
          AllRoundTripSlice(lines, 1, j);
          AllRoundTripSlice(lines, j + 1, |lines|);
          EncodeOfParse(lines[1..j]);
          EncodeOfParse(lines[j + 1..]);
          EncodeParsedBlock(lines, j, ParseLines(lines[1..j]).value, ParseLines(lines[j + 1..]).value);
        } else {
          EncodeOfParse(lines[1..]);
          assert lines[0] in lines;
          LineRoundTrip(lines[0]);
          assert ([node] + ParseLines(lines[1..]).value)[1..] == ParseLines(lines[1..]).value;
        }
      }
    }
  }

  // ---------------------------------------------------------------------------
  // Parsing an encoded tree gives back the tree

  /** The values of all `BEGIN` nodes in a forest, at any depth. */
  function Blocks(nodes: seq<Node>): set<string>
    decreases nodes
  {
    if nodes == [] then {} else TreeBlocks(nodes[0]) + Blocks(nodes[1..])
  }

  function TreeBlocks(node: Node): set<string>
    decreases node
  {
    if node.name == Begin then {node.value} + Blocks(node.inner) else {}
  }

  /** A forest that `encode` writes as lines `parse` reads back unchanged. */
  predicate WellFormed(nodes: seq<Node>)
    decreases nodes
  {
    forall i :: 0 <= i < |nodes| ==> WellFormedNode(nodes[i])
  }

  /** A node whose own line holds no colon in the name, no line break and no
      leading space, whose value survives escaping, that is no `END` node,
      and that holds children only as a `BEGIN` block which no inner block of
      the same value closes early. */
  predicate WellFormedNode(node: Node)
    decreases node
  {
    && ':' !in node.name && CR !in node.name && LF !in node.name
    && (node.name != [] ==> node.name[0] != ' ')
    && SafeValue(node.value)
    && node.name != End
    && (node.name != Begin ==> node.inner == [])
    && (node.name == Begin ==> node.value !in Blocks(node.inner))
    && WellFormed(node.inner)
  }

  /** A line `encode` writes for a forest whose blocks are `blocks`: it can be
      folded, it parses, and its `END` lines close one of those blocks. */
  predicate EncodedLine(line: string, blocks: set<string>) {
    && CR !in line && LF !in line && line != [] && line[0] != ' '
    && ParseNode(line).Ok?
    && (ParseNode(line).value.name == End ==> ParseNode(line).value.value in blocks)
  }

  lemma WellFormedTail(nodes: seq<Node>)
    requires nodes != [] && WellFormed(nodes)
    ensures WellFormedNode(nodes[0]) && WellFormed(nodes[1..])
  {
    assert forall i :: 0 <= i < |nodes[1..]| ==> nodes[1..][i] == nodes[i + 1];
  }

  /** The line of a well-formed node. */
  lemma NodeLine(node: Node, blocks: set<string>)
    requires WellFormedNode(node)
    ensures EncodedLine(EncodeNode(node), blocks)
    ensures ParseNode(EncodeNode(node)) == Ok(Node(node.name, node.value, []))
  {
    NodeRoundTrip(node);
    var line := EncodeNode(node);
    if node.name == [] {
      assert line[0] == ':';
    } else {
      assert line[0] == node.name[0];
    }
  }

  /** The closing line of a block. */
  lemma EndLineParses(value: string, blocks: set<string>)
    requires SafeValue(value) && value in blocks
    ensures EncodedLine(EndLine(value), blocks)
    ensures IsEndOf(EndLine(value), value)
  {
    NodeRoundTrip(Node(End, value, []));
    assert EndLine(value)[0] == 'E';
  }

  /** Every line encoded from a well-formed forest parses, can be folded, and
      closes only blocks of that forest. */
  lemma {:induction false} EncodedLinesGood(nodes: seq<Node>)
    requires WellFormed(nodes)
    ensures forall l :: l in EncodeLines(nodes) ==> EncodedLine(l, Blocks(nodes))
    decreases nodes
  {
    if nodes != [] {
      WellFormedTail(nodes);
      EncodedTreeGood(nodes[0]);
      EncodedLinesGood(nodes[1..]);
    }
  }

  lemma {:induction false} EncodedTreeGood(node: Node)
    requires WellFormedNode(node)
    ensures forall l :: l in EncodeTree(node) ==> EncodedLine(l, TreeBlocks(node))
    decreases node
  {
    NodeLine(node, TreeBlocks(node));
    if node.name == Begin {
      EncodedLinesGood(node.inner);
      EndLineParses(node.value, TreeBlocks(node));
    }
  }

  /** The scan passes lines that parse and are not the matching `END`, and
      stops at the first one that is. */
  lemma {:induction false} ScanSkips(lines: seq<string>, from: nat, stop: nat, value: string)
    requires from <= stop < |lines| && IsEndOf(lines[stop], value)
    requires forall m :: from <= m < stop ==> ParseNode(lines[m]).Ok? && !IsEndOf(lines[m], value)
    ensures ScanEnd(lines, from, value) == Found(stop)
    decreases stop - from
  {
    if from < stop {
      assert ParseNode(lines[from]).Ok? && !IsEndOf(lines[from], value);
      ScanSkips(lines, from + 1, stop, value);
    } else {
      assert ParseNode(lines[stop]).Ok?;
    }
  }

  lemma CombineCons(node: Node, nodes: seq<Node>, r: Result<seq<Node>, ParseError>)
    ensures Prepend(node, Combine(nodes, r)) == Combine([node] + nodes, r)
  {
    if r.Ok? {
      assert [node] + (nodes + r.value) == [node] + nodes + r.value;
    }
  }

  /** Parsing the encoded lines of a forest in front of more lines yields
      the forest in front of what those lines parse to. */
  lemma {:induction false} ParseOfEncode(nodes: seq<Node>, rest: seq<string>)
    requires WellFormed(nodes)
    ensures ParseLines(EncodeLines(nodes) + rest) == Combine(nodes, ParseLines(rest))
    decreases nodes
  {
    if nodes == [] {
      assert EncodeLines(nodes) + rest == rest;
      if ParseLines(rest).Ok? {
        assert nodes + ParseLines(rest).value == ParseLines(rest).value;
      }
    } else {
      WellFormedTail(nodes);
      var more := EncodeLines(nodes[1..]) + rest;
      ParseOfEncode(nodes[1..], rest);
      ParseOfTree(nodes[0], more);
      var tree := EncodeTree(nodes[0]);
      assert EncodeLines(nodes) == tree + EncodeLines(nodes[1..]);
      Reassociate(tree, EncodeLines(nodes[1..]), rest, tree + more, more);
      assert [nodes[0]] + nodes[1..] == nodes;
      CombineCons(nodes[0], nodes[1..], ParseLines(rest));
    }
  }

  lemma {:induction false} ParseOfTree(node: Node, rest: seq<string>)
    requires WellFormedNode(node)
    ensures ParseLines(EncodeTree(node) + rest) == Prepend(node, ParseLines(rest))
    decreases node
  {
    var lines := EncodeTree(node) + rest;
    NodeLine(node, {});
    if node.name == Begin {
      var inner := EncodeLines(node.inner);
      var stop := 1 + |inner|;
      ParseOfEncode(node.inner, []);
      ParseBlockOf(node, inner, rest, lines, ParseLines(inner + []));
    } else {
      assert lines[0] == EncodeNode(node) && lines[1..] == rest;
    }
  }

  /** The block case of `ParseOfTree`, once the inner lines are known to
      parse to the inner nodes. */
  lemma ParseBlockOf(node: Node, inner: seq<string>, rest: seq<string>, lines: seq<string>,
                     parsedInner: Result<seq<Node>, ParseError>)
    requires WellFormedNode(node) && node.name == Begin && inner == EncodeLines(node.inner)
    requires lines == [EncodeNode(node)] + inner + [EndLine(node.value)] + rest
    requires parsedInner == ParseLines(inner + []) && parsedInner == Combine(node.inner, ParseLines([]))
    ensures ParseLines(lines) == Prepend(node, ParseLines(rest))
  {
    var stop := 1 + |inner|;
    NodeLine(node, {});
    BlockScan(node, inner, rest, lines);
    OpenBlock(lines, node.value, stop);
    assert inner + [] == inner;
    assert node.inner + [] == node.inner;
  }

  /** A `BEGIN` line whose scan finds its `END` at `stop`. */
  lemma OpenBlock(lines: seq<string>, value: string, stop: nat)
    requires lines != [] && lines[0] != "" && ParseNode(lines[0]) == Ok(Node(Begin, value, []))
    requires 1 <= stop < |lines| && ScanEnd(lines, 1, value) == Found(stop)
    ensures ParseLines(lines) == Close(value, ParseLines(lines[1..stop]), ParseLines(lines[stop + 1..]))
  {
  }

  /** In the lines of an encoded block the scan stops at the synthesised
      `END` line, right after the inner lines. */
  lemma BlockScan(node: Node, inner: seq<string>, rest: seq<string>, lines: seq<string>)
    requires WellFormedNode(node) && node.name == Begin && inner == EncodeLines(node.inner)
    requires lines == [EncodeNode(node)] + inner + [EndLine(node.value)] + rest
    ensures ScanEnd(lines, 1, node.value) == Found(1 + |inner|)
    ensures lines[1..1 + |inner|] == inner && lines[2 + |inner|..] == rest
  {
    var stop := 1 + |inner|;
    BlockLayout(EncodeNode(node), inner, EndLine(node.value), rest, lines);
    EncodedLinesGood(node.inner);
    EndLineParses(node.value, {node.value});
    forall m | 1 <= m < stop
      ensures ParseNode(lines[m]).Ok? && !IsEndOf(lines[m], node.value)
    {
      assert lines[m] in inner;
    }
    ScanSkips(lines, 1, stop, node.value);
  }

  /** Where the parts of a block's lines sit, stated on opaque values. */
  lemma BlockLayout<T>(first: T, inner: seq<T>, last: T, rest: seq<T>, lines: seq<T>)
    requires lines == [first] + inner + [last] + rest
    ensures |lines| == |inner| + 2 + |rest|
    ensures lines[1..1 + |inner|] == inner && lines[1 + |inner|] == last && lines[2 + |inner|..] == rest
    ensures forall m :: 1 <= m < 1 + |inner| ==> lines[m] == inner[m - 1]
  {
  }

  // ---------------------------------------------------------------------------
  // Whole calendars

  lemma {:induction false} WellFormedEncodable(nodes: seq<Node>)
    requires WellFormed(nodes)
    ensures Encodable(nodes)
    decreases nodes
  {
    forall i | 0 <= i < |nodes|
      ensures nodes[i].name != End && (nodes[i].name != Begin ==> nodes[i].inner == [])
      ensures Encodable(nodes[i].inner)
    {
      assert WellFormedNode(nodes[i]);
      WellFormedEncodable(nodes[i].inner);
    }
  }

  lemma EncodedFoldable(nodes: seq<Node>)
    requires WellFormed(nodes)
    ensures Foldable(EncodeLines(nodes))
  {
    EncodedLinesGood(nodes);
  }

  /** `ParseICal(Bytes(t)) == t` for a well-formed calendar: folding,
      unfolding, parsing and the root check give back the tree. */
  lemma CalendarRoundTrip(nodes: seq<Node>)
    requires WellFormed(nodes) && CalendarRoots(nodes)
    ensures Encodable(nodes) && ParseCalendar(ToBytes(nodes)) == Ok(nodes)
  {
    WellFormedEncodable(nodes);
    EncodedFoldable(nodes);
    DenormalizeFolded(EncodeLines(nodes));
    ParseOfEncode(nodes, [""]);
    assert ParseLines([""]) == Ok([]);
    assert nodes + [] == nodes;
  }

  /** `Bytes(ParseICal(buf))` for a calendar already in the folded form
      `Bytes` writes, with no two-character `\r` in a value: the same
      folded lines, without the empty ones. */
  lemma BytesOfParsed(lines: seq<string>)
    requires Foldable(lines) && AllRoundTrip(lines)
    requires ParseCalendar(Folded(lines)).Ok?
    ensures var t := ParseCalendar(Folded(lines)).value;
      Encodable(t) && ToBytes(t) == Folded(NonBlank(lines))
  {
    DenormalizeFolded(lines);
    var parsed := ParseLines(lines + [""]);
    assert parsed.Ok?;
    ParsedEncodable(lines + [""]);
    AllRoundTripAppendEmpty(lines);
    EncodeOfParse(lines + [""]);
    NonBlankAppend(lines, [""]);
    assert NonBlank([""]) == [];
    assert NonBlank(lines) + [] == NonBlank(lines);
  }

  lemma AllRoundTripAppendEmpty(lines: seq<string>)
    requires AllRoundTrip(lines)
    ensures AllRoundTrip(lines + [""])
  {
    assert ParseNode("").Err?;
  }
}
