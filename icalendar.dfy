/**
 * The iCalendar tree of ical.go: a calendar is a sequence of nodes, one per
 * logical `Name:Value` line, where a `BEGIN` node holds the lines up to its
 * matching `END` as its inner nodes. `ParseICal` builds the tree from raw
 * text, `Bytes` writes it back.
 */
module ICalendar {
  import opened Results
  import opened GoText
  import opened Folding

  const Begin: string := "BEGIN"
  const End: string := "END"
  const Calendar: string := "VCALENDAR"

  /** One logical line; `inner` is only used by `BEGIN` nodes. */
  datatype Node = Node(name: string, value: string, inner: seq<Node>)
  {
    /** `NamePrefix`: whether the name starts with `prefix` (for names such
        as `DTEND;TZID=...`). */
    predicate NamePrefix(prefix: string): (b: bool)
      ensures b <==> |prefix| <= |name| && forall i :: 0 <= i < |prefix| ==> name[i] == prefix[i]
    {
      HasPrefix(name, prefix)
    }
  }

  /** The kinds of error `ParseICal` reports. */
  datatype ParseError =
    | MalformedLine         // a line without a colon
    | UnterminatedBlock     // a BEGIN without a later END of the same value
    | NestingMismatch       // an END that closes no BEGIN
    | UnexpectedRootObject  // a root node other than BEGIN:VCALENDAR

  // ---------------------------------------------------------------------------
  // Values

  /** The value unescaper of `parseNode`, one left-to-right pass: the two
      characters `\r` are deleted, the two characters `\n` become a line feed,
      everything else is copied. */
  function Unescape(v: string): (r: string)
    ensures |r| <= |v|
    ensures CR in r ==> CR in v
    decreases |v|
  {
    if v == [] then []
    else if |v| >= 2 && v[0] == '\\' && v[1] == 'r' then Unescape(v[2..])
    else if |v| >= 2 && v[0] == '\\' && v[1] == 'n' then [LF] + Unescape(v[2..])
    else [v[0]] + Unescape(v[1..])
  }

  /** The value escaper of `encodeNode`: CR is dropped and LF becomes the two
      characters `\n`; the result holds no line break. */
  function Escape(v: string): (r: string)
    ensures CR !in r && LF !in r
    decreases |v|
  {
    if v == [] then []
    else (if v[0] == CR then [] else if v[0] == LF then "\\n" else [v[0]]) + Escape(v[1..])
  }

  /** A value that survives escaping and unescaping: no CR, and no backslash
      that would be read back as the start of `\r` or `\n`. */
  predicate SafeValue(v: string) {
    CR !in v && forall i :: 0 <= i < |v| - 1 && v[i] == '\\' ==> v[i + 1] != 'r' && v[i + 1] != 'n'
  }

  /** Escaped text that unescaping and escaping again reproduce: no line
      break and no two-character `\r`. */
  predicate EscapedForm(e: string) {
    CR !in e && LF !in e && forall i :: 0 <= i < |e| - 1 && e[i] == '\\' ==> e[i + 1] != 'r'
  }

  lemma SafeValueTail(v: string)
    requires v != [] && SafeValue(v)
    ensures SafeValue(v[1..])
  {
    assert forall x :: x in v[1..] ==> x in v;
    forall i | 0 <= i < |v[1..]| - 1 && v[1..][i] == '\\'
      ensures v[1..][i + 1] != 'r' && v[1..][i + 1] != 'n'
    {
      assert v[i + 1] == '\\';
    }
  }

  lemma EscapedFormTail(e: string, n: nat)
    requires n <= |e| && EscapedForm(e)
    ensures EscapedForm(e[n..])
  {
    assert forall x :: x in e[n..] ==> x in e;
    forall i | 0 <= i < |e[n..]| - 1 && e[n..][i] == '\\' ensures e[n..][i + 1] != 'r' {
      assert e[n + i] == '\\';
    }
  }

  /** The escaped form of a value never starts with `r` or `n` unless the value does. */
  lemma EscapeHead(v: string)
    requires v != [] && v[0] != CR
    ensures Escape(v) != [] && Escape(v)[0] == (if v[0] == LF then '\\' else v[0])
  {
  }

  lemma UnescapeNewline(tail: string)
    ensures Unescape("\\n" + tail) == [LF] + Unescape(tail)
  {
    assert ("\\n" + tail)[2..] == tail;
  }

  lemma UnescapePlain(x: char, tail: string)
    requires x == '\\' && tail != [] ==> tail[0] != 'r' && tail[0] != 'n'
    ensures Unescape([x] + tail) == [x] + Unescape(tail)
  {
    assert ([x] + tail)[1..] == tail;
  }

  /** Unescaping undoes escaping on safe values. */
  lemma {:induction false} UnescapeEscape(v: string)
    requires SafeValue(v)
    ensures Unescape(Escape(v)) == v
    decreases |v|
  {
    if v != [] {
      SafeValueTail(v);
      UnescapeEscape(v[1..]);
      var tail := Escape(v[1..]);
      assert v[0] in v;
      if v[0] == LF {
        assert Escape(v) == "\\n" + tail;
        UnescapeNewline(tail);
      } else {
        assert Escape(v) == [v[0]] + tail;
        if v[0] == '\\' && v[1..] != [] {
          assert v[1] in v;
          EscapeHead(v[1..]);
        }
        UnescapePlain(v[0], tail);
      }
      assert v == [v[0]] + v[1..];
    }
  }

  lemma EscapeCons(x: char, u: string)
    ensures Escape([x] + u) == (if x == CR then [] else if x == LF then "\\n" else [x]) + Escape(u)
  {
    assert ([x] + u)[1..] == u;
  }

  /** Escaping undoes unescaping on text already in escaped form. */
  lemma {:induction false} EscapeUnescape(e: string)
    requires EscapedForm(e)
    ensures Escape(Unescape(e)) == e
    decreases |e|
  {
    if e != [] {
      assert e[0] in e;
      if |e| >= 2 && e[0] == '\\' && e[1] == 'n' {
        EscapedFormTail(e, 2);
        EscapeUnescape(e[2..]);
        assert Unescape(e) == [LF] + Unescape(e[2..]);
        EscapeCons(LF, Unescape(e[2..]));
        assert e == "\\n" + e[2..];
      } else {
        assert !(|e| >= 2 && e[0] == '\\' && e[1] == 'r');
        EscapedFormTail(e, 1);
        EscapeUnescape(e[1..]);
        assert Unescape(e) == [e[0]] + Unescape(e[1..]);
        EscapeCons(e[0], Unescape(e[1..]));
        assert e == [e[0]] + e[1..];
      }
    }
  }

  // ---------------------------------------------------------------------------
  // Lines

  /** `parseNode`: splits a logical line at its first colon into name and
      unescaped value; a line without a colon is malformed. `ParseNodeSpec`
      states where the split falls. */
  function ParseNode(line: string): (r: Result<Node, ParseError>)
    ensures r.Ok? ==> r.value.inner == []
    ensures r.Err? ==> r.error == MalformedLine
  {
    var k := Index(line, ":");
    if k < 0 then Err(MalformedLine)
    else Ok(Node(line[..k], Unescape(line[k + 1..]), []))
  }

  /** A line parses exactly when it holds a colon; the name is the text before
      the first colon and the value is the unescaped text after it. */
  lemma ParseNodeSpec(line: string)
    ensures ParseNode(line).Ok? <==> ':' in line
    ensures ParseNode(line).Ok? ==> var n := ParseNode(line).value;
      && ':' !in n.name
      && |n.name| < |line| && line[..|n.name|] == n.name && line[|n.name|] == ':'
      && n.value == Unescape(line[|n.name| + 1..])
  {
    IndexOfChar(line, ':');
    assert [':'] == ":";
  }

  /** `encodeNode`: `Name:Value` with the value escaped. */
  function EncodeNode(node: Node): (line: string)
    ensures |line| > |node.name| && line[..|node.name|] == node.name && line[|node.name|] == ':'
    ensures CR !in node.name && LF !in node.name ==> CR !in line && LF !in line
  {
    node.name + ":" + Escape(node.value)
  }

  /** The synthesised closing line of a block. */
  function EndLine(value: string): string {
    EncodeNode(Node(End, value, []))
  }

  /** The value part of a line that parses. */
  predicate LineRoundTrips(line: string) {
    match ParseNode(line)
    case Err(_) => true
    case Ok(n) => EscapedForm(line[|n.name| + 1..])
  }

  /** The line `Name:Value` with a colon-free name parses to that name. */
  lemma ParseNameValue(name: string, value: string)
    requires ':' !in name
    ensures var r := ParseNode(name + ":" + value);
      r.Ok? && r.value.name == name && r.value.value == Unescape(value)
  {
    var line := name + ":" + value;
    assert line[..|name|] == name;
    IndexOfFirst(line, ':', |name|);
    assert [':'] == ":";
    assert line[|name| + 1..] == value;
  }

  /** Parsing an encoded node gives back its name and value. */
  lemma NodeRoundTrip(node: Node)
    requires ':' !in node.name && SafeValue(node.value)
    ensures ParseNode(EncodeNode(node)) == Ok(Node(node.name, node.value, []))
  {
    ParseNameValue(node.name, Escape(node.value));
    UnescapeEscape(node.value);
  }

  /** Encoding a parsed line gives back the line. */
  lemma LineRoundTrip(line: string)
    requires ParseNode(line).Ok? && LineRoundTrips(line)
    ensures EncodeNode(ParseNode(line).value) == line
  {
    var n := ParseNode(line).value;
    ParseNodeSpec(line);
    EscapeUnescape(line[|n.name| + 1..]);
    Reassemble(line, |n.name|, n.name, Escape(n.value));
  }

  /** A line cut around the colon at `k` is its name, the colon and the rest. */
  lemma Reassemble(line: string, k: nat, name: string, rest: string)
    requires k < |line| && line[k] == ':' && line[..k] == name && rest == line[k + 1..]
    ensures name + ":" + rest == line
  {
    assert line == line[..k] + [line[k]] + line[k + 1..];
  }

  // ---------------------------------------------------------------------------
  // Blocks

  /** The line parses to `END:value`. */
  predicate IsEndOf(line: string, value: string) {
    var r := ParseNode(line); r.Ok? && r.value.name == End && r.value.value == value
  }

  /** The line parses to `BEGIN:value`. */
  predicate IsBeginOf(line: string, value: string) {
    var r := ParseNode(line); r.Ok? && r.value.name == Begin && r.value.value == value
  }

  /** What the forward scan of `parse` for the end of a block meets first. */
  datatype EndScan =
    | Found(at: nat)  // the first `END` line with the block's value
    | Broken          // a line that does not parse, before any such END
    | Missing         // neither

  /** The inner loop of `parse`: from position `from` on, every line is
      parsed until one is `END:value`. `ScanEndSpec` states what it finds. */
  function ScanEnd(lines: seq<string>, from: nat, value: string): (s: EndScan)
    requires from <= |lines|
    ensures s.Found? ==> from <= s.at < |lines|
    decreases |lines| - from
  {
    if from == |lines| then Missing
    else if ParseNode(lines[from]).Err? then Broken
    else if IsEndOf(lines[from], value) then Found(from)
    else ScanEnd(lines, from + 1, value)
  }

  /** Line `m` does not parse, and no line from `from` up to it is `END:value`. */
  predicate FirstBroken(lines: seq<string>, from: nat, m: nat, value: string) {
    from <= m < |lines| && ParseNode(lines[m]).Err?
    && forall m' :: from <= m' < m ==> !IsEndOf(lines[m'], value)
  }

  /** The scan stops at the first line that does not parse or that is the
      matching `END`; every line before it parses and is not that `END`. */
  lemma ScanEndSpec(lines: seq<string>, from: nat, value: string)
    requires from <= |lines|
    ensures var s := ScanEnd(lines, from, value);
      && (s.Found? ==> IsEndOf(lines[s.at], value))
      && (s.Found? ==> forall m :: from <= m < s.at ==> ParseNode(lines[m]).Ok? && !IsEndOf(lines[m], value))
      && (s.Missing? ==> forall m :: from <= m < |lines| ==> ParseNode(lines[m]).Ok? && !IsEndOf(lines[m], value))
      && (s.Broken? ==> exists m :: FirstBroken(lines, from, m, value))
  {
    ScanPasses(lines, from, value);
    ScanBroken(lines, from, value);
  }

  /** The lines the scan passes over all parse and none is the matching `END`;
      a found line is that `END`. */
  lemma {:induction false} ScanPasses(lines: seq<string>, from: nat, value: string)
    requires from <= |lines|
    ensures var s := ScanEnd(lines, from, value);
      var stop := if s.Found? then s.at else |lines|;
      && (s.Found? ==> IsEndOf(lines[s.at], value))
      && (!s.Broken? ==> forall m :: from <= m < stop ==> ParseNode(lines[m]).Ok? && !IsEndOf(lines[m], value))
    decreases |lines| - from
  {
    if from < |lines| && ParseNode(lines[from]).Ok? && !IsEndOf(lines[from], value) {
      ScanPasses(lines, from + 1, value);
    }
  }

  /** A broken scan met a line that does not parse before any matching `END`. */
  lemma {:induction false} ScanBroken(lines: seq<string>, from: nat, value: string)
    requires from <= |lines|
    ensures ScanEnd(lines, from, value).Broken? ==> exists m :: FirstBroken(lines, from, m, value)
    decreases |lines| - from
  {
    if from < |lines| && ParseNode(lines[from]).Ok? && !IsEndOf(lines[from], value) {
      ScanBroken(lines, from + 1, value);
      if ScanEnd(lines, from + 1, value).Broken? {
        var m :| FirstBroken(lines, from + 1, m, value);
        assert FirstBroken(lines, from, m, value);
      }
    } else if from < |lines| && ParseNode(lines[from]).Err? {
      assert FirstBroken(lines, from, from, value);
    }
  }

  function Prepend(node: Node, r: Result<seq<Node>, ParseError>): Result<seq<Node>, ParseError> {
    match r
    case Ok(nodes) => Ok([node] + nodes)
    case Err(e) => Err(e)
  }

  function Combine(nodes: seq<Node>, r: Result<seq<Node>, ParseError>): Result<seq<Node>, ParseError> {
    match r
    case Ok(more) => Ok(nodes + more)
    case Err(e) => Err(e)
  }

  /** A closed block: the `BEGIN` node with the parsed inner lines in front
      of the rest, unless the inner lines fail. */
  function Close(value: string, inner: Result<seq<Node>, ParseError>, rest: Result<seq<Node>, ParseError>)
    : Result<seq<Node>, ParseError>
  {
    match inner
    case Err(e) => Err(e)
    case Ok(nodes) => Prepend(Node(Begin, value, nodes), rest)
  }

  /** What `parse` returns for a sequence of logical lines, read from the
      front: empty lines are skipped, a `BEGIN` line takes the lines up to
      the first matching `END` as its inner nodes, a stray `END` is a nesting
      error, and the first error met wins. */
  function ParseLines(lines: seq<string>): (r: Result<seq<Node>, ParseError>)
    decreases |lines|
  {
    if lines == [] then Ok([])
    else if lines[0] == "" then ParseLines(lines[1..])
    else match ParseNode(lines[0])
      case Err(e) => Err(e)
      case Ok(node) =>
        if node.name == Begin then
          match ScanEnd(lines, 1, node.value)
          case Broken => Err(MalformedLine)
          case Missing => Err(UnterminatedBlock)
          case Found(j) =>
            Close(node.value, ParseLines(lines[1..j]), ParseLines(lines[j + 1..]))
        else if node.name == End then Err(NestingMismatch)
        else Prepend(node, ParseLines(lines[1..]))
  }

  lemma CombinePrepend(nodes: seq<Node>, node: Node, r: Result<seq<Node>, ParseError>)
    ensures Combine(nodes, Prepend(node, r)) == Combine(nodes + [node], r)
  {
    if r.Ok? {
      assert nodes + ([node] + r.value) == nodes + [node] + r.value;
    }
  }

  /** One node more is done: the node read from `lines[start..last]` joins
      the finished ones and the loop goes on at `next`. */
  lemma Advance(lines: seq<string>, nodes: seq<Node>, node: Node, grown: seq<Node>,
                start: nat, last: nat, next: nat)
    requires start <= last < |lines| && next == last + 1 && grown == nodes + [node]
    requires ParseLines(lines) == Combine(nodes, ParseLines(lines[start..]))
    requires ParseLines(lines[start..]) == Prepend(node, ParseLines(lines[last + 1..]))
    ensures ParseLines(lines) == Combine(grown, ParseLines(lines[next..]))
  {
    CombinePrepend(nodes, node, ParseLines(lines[next..]));
  }

  lemma ParseBlank(lines: seq<string>, i: nat)
    requires i < |lines| && lines[i] == ""
    ensures ParseLines(lines[i..]) == ParseLines(lines[i + 1..])
  {
    assert lines[i..][1..] == lines[i + 1..];
  }

  lemma ParseMalformed(lines: seq<string>, i: nat)
    requires i < |lines| && lines[i] != "" && ParseNode(lines[i]).Err?
    ensures ParseLines(lines[i..]) == Err(MalformedLine)
  {
    assert lines[i..][0] == lines[i];
  }

  lemma ParseStrayEnd(lines: seq<string>, i: nat)
    requires i < |lines| && lines[i] != "" && ParseNode(lines[i]).Ok? && ParseNode(lines[i]).value.name == End
    ensures ParseLines(lines[i..]) == Err(NestingMismatch)
  {
    assert lines[i..][0] == lines[i];
  }

  lemma ParseLeaf(lines: seq<string>, i: nat)
    requires i < |lines| && lines[i] != "" && ParseNode(lines[i]).Ok?
    requires ParseNode(lines[i]).value.name != End && ParseNode(lines[i]).value.name != Begin
    ensures ParseLines(lines[i..]) == Prepend(ParseNode(lines[i]).value, ParseLines(lines[i + 1..]))
  {
    assert lines[i..][0] == lines[i];
    assert lines[i..][1..] == lines[i + 1..];
  }

  /** One step of the end scan, at absolute position `j`. */
  lemma ScanStep(lines: seq<string>, i: nat, j: nat, value: string)
    requires i < j < |lines|
    ensures ParseNode(lines[j]).Err? ==> ScanEnd(lines[i..], j - i, value) == Broken
    ensures ParseNode(lines[j]).Ok? && IsEndOf(lines[j], value) ==> ScanEnd(lines[i..], j - i, value) == Found(j - i)
    ensures ParseNode(lines[j]).Ok? && !IsEndOf(lines[j], value)
      ==> ScanEnd(lines[i..], j - i, value) == ScanEnd(lines[i..], j - i + 1, value)
  {
    assert lines[i..][j - i] == lines[j];
  }

  /** A `BEGIN` line whose scan does not find its `END`. */
  lemma ParseBeginUnclosed(lines: seq<string>, i: nat, value: string)
    requires i < |lines| && lines[i] != "" && IsBeginOf(lines[i], value)
    ensures ScanEnd(lines[i..], 1, value) == Broken ==> ParseLines(lines[i..]) == Err(MalformedLine)
    ensures ScanEnd(lines[i..], 1, value) == Missing ==> ParseLines(lines[i..]) == Err(UnterminatedBlock)
  {
    assert lines[i..][0] == lines[i];
  }

  /** A `BEGIN` line whose scan finds its `END` at `j`. */
  lemma ParseBeginClosed(lines: seq<string>, i: nat, j: nat, value: string)
    requires i < j < |lines| && lines[i] != "" && IsBeginOf(lines[i], value)
    requires ScanEnd(lines[i..], 1, value) == Found(j - i)
    ensures ParseLines(lines[i..]) == Close(value, ParseLines(lines[i + 1..j]), ParseLines(lines[j + 1..]))
  {
    assert lines[i..][0] == lines[i];
    assert lines[i..][1..j - i] == lines[i + 1..j];
    assert lines[i..][j - i + 1..] == lines[j + 1..];
  }

  /** The inner loop of `parse`: scans the lines after the `BEGIN` line at
      `i`, parsing each, until one is `END:value`. */
  method FindEnd(lines: seq<string>, i: nat, value: string) returns (s: EndScan)
    requires i < |lines|
    ensures s == ScanEnd(lines[i..], 1, value)
    ensures s.Found? ==> i + s.at < |lines|
  {
    var j := i + 1;
    while j < |lines|
      invariant i + 1 <= j <= |lines|
      invariant ScanEnd(lines[i..], 1, value) == ScanEnd(lines[i..], j - i, value)
    {
      ScanStep(lines, i, j, value);
      var tmp := ParseNode(lines[j]);
      if tmp.Err? {
        return Broken;
      } else if tmp.value.name == End && tmp.value.value == value {
        return Found(j - i);
      }
      j := j + 1;
    }
    assert lines[i..][|lines| - i..] == [];
    return Missing;
  }

  /** `parse`: an index loop over the lines. Empty lines are skipped; every
      other line starts a node, which `ParseEntry` reads, and the cursor then
      moves past the last line that node used. */
  method Parse(lines: seq<string>) returns (r: Result<seq<Node>, ParseError>)
    ensures r == ParseLines(lines)
    decreases |lines|, 2
  {
    var nodes: seq<Node> := [];
    var i := 0;
    assert lines[0..] == lines;
    assert ParseLines(lines).Ok? ==> [] + ParseLines(lines).value == ParseLines(lines).value;
    while i < |lines|
      invariant 0 <= i <= |lines|
      invariant ParseLines(lines) == Combine(nodes, ParseLines(lines[i..]))
    {
      if lines[i] == "" {
        ParseBlank(lines, i);
        i := i + 1;
        continue;
      }
      var failure, node, last := ParseEntry(lines, i);
      if failure.Some? {
        return Err(failure.value);
      }
      ghost var start, done := i, nodes;
      nodes := nodes + [node];
      i := last + 1;
      Advance(lines, done, node, nodes, start, last, i);
    }
    assert lines[i..] == [];
    assert nodes + [] == nodes;
    return Ok(nodes);
  }

  /** The body of `parse`'s loop for the non-empty line at `i`: the line is
      parsed; a `BEGIN` line becomes a block, a stray `END` line is a nesting
      error and any other line is a leaf. `last` is the last line the node
      uses, where the cursor of the loop stands afterwards. */
  method ParseEntry(lines: seq<string>, i: nat) returns (failure: Option<ParseError>, node: Node, last: nat)
    requires i < |lines| && lines[i] != ""
    ensures failure.Some? ==> ParseLines(lines[i..]) == Err(failure.value)
    ensures failure.None? ==> i <= last < |lines|
    ensures failure.None? ==> ParseLines(lines[i..]) == Prepend(node, ParseLines(lines[last + 1..]))
    decreases |lines|, 1
  {
    var parsed := ParseNode(lines[i]);
    if parsed.Err? {
      ParseMalformed(lines, i);
      return Some(parsed.error), Node(Begin, "", []), i;
    }
    node := parsed.value;
    if node.name == Begin {
      failure, node, last := ParseBlock(lines, i, node.value);
    } else if node.name == End {
      ParseStrayEnd(lines, i);
      return Some(NestingMismatch), node, i;
    } else {
      ParseLeaf(lines, i);
      return None, node, i;
    }
  }

  /** The `BEGIN` branch of `parse`'s loop: the scan for the matching `END`
      and the recursive parse of the lines in between. */
  method ParseBlock(lines: seq<string>, i: nat, value: string)
    returns (failure: Option<ParseError>, node: Node, j: nat)
    requires i < |lines| && lines[i] != "" && IsBeginOf(lines[i], value)
    ensures failure.Some? ==> ParseLines(lines[i..]) == Err(failure.value)
    ensures failure.None? ==> i < j < |lines|
    ensures failure.None? ==> ParseLines(lines[i..]) == Prepend(node, ParseLines(lines[j + 1..]))
    decreases |lines|, 0
  {
    var scan := FindEnd(lines, i, value);
    ParseBeginUnclosed(lines, i, value);
    if scan.Broken? {
      return Some(MalformedLine), Node(Begin, value, []), i;
    } else if scan.Missing? {
      return Some(UnterminatedBlock), Node(Begin, value, []), i;
    }
    j := i + scan.at;
    ParseBeginClosed(lines, i, j, value);
    var inner := Parse(lines[i + 1..j]);
    if inner.Err? {
      return Some(inner.error), Node(Begin, value, []), i;
    }
    return None, Node(Begin, value, inner.value), j;
  }

  /** Every root node is `BEGIN:VCALENDAR`. */
  predicate CalendarRoots(nodes: seq<Node>) {
    forall i :: 0 <= i < |nodes| ==> nodes[i].name == Begin && nodes[i].value == Calendar
  }

  /** The root check of `ParseICal` on the result of `parse`. */
  function CheckRoots(parsed: Result<seq<Node>, ParseError>): (r: Result<seq<Node>, ParseError>)
    ensures r.Ok? <==> parsed.Ok? && CalendarRoots(parsed.value)
    ensures r.Ok? ==> r == parsed
    ensures parsed.Err? ==> r == parsed
    ensures parsed.Ok? && !CalendarRoots(parsed.value) ==> r == Err(UnexpectedRootObject)
  {
    match parsed
    case Err(e) => Err(e)
    case Ok(nodes) => if CalendarRoots(nodes) then Ok(nodes) else Err(UnexpectedRootObject)
  }

  /** `ParseICal` on raw text: the parse of its logical lines, accepted only
      when every root is a calendar. */
  function ParseCalendar(buf: string): Result<seq<Node>, ParseError> {
    CheckRoots(ParseLines(Denormalize(buf)))
  }

  /** `ParseICal`: parses the logical lines, then checks the roots one by one. */
  method ParseICal(buf: string) returns (r: Result<seq<Node>, ParseError>)
    ensures r == ParseCalendar(buf)
  {
    var parsed := Parse(Denormalize(buf));
    r := CheckEachRoot(parsed);
  }

  /** The loop of `ParseICal` over the root nodes. */
  method CheckEachRoot(parsed: Result<seq<Node>, ParseError>) returns (r: Result<seq<Node>, ParseError>)
    ensures r == CheckRoots(parsed)
  {
    if parsed.Err? {
      return Err(parsed.error);
    }
    var nodes := parsed.value;
    for k := 0 to |nodes|
      invariant forall m :: 0 <= m < k ==> nodes[m].name == Begin && nodes[m].value == Calendar
    {
      if nodes[k].name != Begin || nodes[k].value != Calendar {
        return Err(UnexpectedRootObject);
      }
    }
    return Ok(nodes);
  }

  // ---------------------------------------------------------------------------
  // Encoding

  /** The lines `encode` writes for a sequence of nodes. */
  function EncodeLines(nodes: seq<Node>): (r: seq<string>)
    ensures |r| >= |nodes|
    decreases nodes
  {
    if nodes == [] then [] else EncodeTree(nodes[0]) + EncodeLines(nodes[1..])
  }

  /** The lines of one node: its own line, and for a `BEGIN` node the lines
      of its inner nodes followed by the synthesised `END` line. */
  function EncodeTree(node: Node): (r: seq<string>)
    ensures r != [] && r[0] == EncodeNode(node)
    decreases node
  {
    if node.name == Begin then [EncodeNode(node)] + EncodeLines(node.inner) + [EndLine(node.value)]
    else [EncodeNode(node)]
  }

  /** The trees `encode` accepts without panicking: no `END` node, and no
      children under a node other than `BEGIN`. */
  predicate Encodable(nodes: seq<Node>)
    decreases nodes
  {
    forall i :: 0 <= i < |nodes| ==>
      && nodes[i].name != End
      && (nodes[i].name != Begin ==> nodes[i].inner == [])
      && Encodable(nodes[i].inner)
  }

  lemma {:induction false} EncodeLinesAppend(a: seq<Node>, b: seq<Node>)
    ensures EncodeLines(a + b) == EncodeLines(a) + EncodeLines(b)
    decreases |a|
  {
    if a == [] {
      assert a + b == b;
    } else {
      assert (a + b)[1..] == a[1..] + b;
      EncodeLinesAppend(a[1..], b);
    }
  }

  lemma EncodeLinesStep(nodes: seq<Node>, k: nat)
    requires k < |nodes|
    ensures EncodeLines(nodes[..k + 1]) == EncodeLines(nodes[..k]) + EncodeTree(nodes[k])
  {
    assert nodes[..k + 1] == nodes[..k] + [nodes[k]];
    EncodeLinesAppend(nodes[..k], [nodes[k]]);
    assert EncodeLines([nodes[k]]) == EncodeTree(nodes[k]) + EncodeLines([]);
  }

  lemma EncodableChild(nodes: seq<Node>, k: nat)
    requires k < |nodes| && Encodable(nodes)
    ensures Encodable(nodes[k].inner)
  {
  }

  lemma EncodeBlock(before: seq<string>, node: Node, inner: seq<string>)
    requires node.name == Begin && inner == EncodeLines(node.inner)
    ensures before + [EncodeNode(node)] + inner + [EndLine(node.value)] == before + EncodeTree(node)
  {
  }

  /** `encode`: appends each node's line, and for a `BEGIN` node the
      recursively encoded inner lines and the closing `END` line. */
  method Encode(nodes: seq<Node>) returns (lines: seq<string>)
    requires Encodable(nodes)
    ensures lines == EncodeLines(nodes)
    decreases nodes
  {
    lines := [];
    for k := 0 to |nodes|
      invariant lines == EncodeLines(nodes[..k])
    {
      var node := nodes[k];
      EncodeLinesStep(nodes, k);
      ghost var before := lines;
      lines := lines + [EncodeNode(node)];
      if node.name == Begin {
        EncodableChild(nodes, k);
        var inner := Encode(node.inner);
        lines := lines + inner;
        lines := lines + [EncodeNode(Node(End, node.value, []))];
        EncodeBlock(before, node, inner);
      }
    }
    assert nodes[..|nodes|] == nodes;
  }

  /** The bytes `Bytes` returns for a tree. */
  function ToBytes(nodes: seq<Node>): string
    requires Encodable(nodes)
  {
    Folded(EncodeLines(nodes))
  }

  /** A parsed calendar; main.go rewrites its nodes in place. */
  class ICal {
    var nodes: seq<Node>

    constructor (nodes: seq<Node>)
      ensures this.nodes == nodes
    {
      this.nodes := nodes;
    }

    /** `Bytes`: encodes the tree and folds the lines. */
    method Bytes() returns (buf: string)
      requires Encodable(nodes)
      ensures buf == ToBytes(nodes)
    {
      var lines := Encode(nodes);
      buf := Renormalize(lines);
    }
  }
}
