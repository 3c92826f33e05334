/**
 * The two tree rewrites main.go applies to a parsed calendar before writing
 * it out again: `setRefreshTime` sets the refresh interval a client should
 * use, and `addDurations` replaces the end of every event by a DURATION read
 * from a `Calendar::Duration=...` tag in its description.
 *
 * The regular expression `durationRe`, `time.ParseDuration` and the `%#v`
 * quoting of `fmt` are library code; they are the fields of a `Library`
 * value the operations take.
 */
module Proxy {
  import opened Results
  import opened GoText
  import opened Duration
  import opened ICalendar
  import opened RoundTrip

  const Ttl: string := "X-PUBLISHED-TTL"
  const RefreshInterval: string := "REFRESH-INTERVAL"
  const Event: string := "VEVENT"
  const Description: string := "DESCRIPTION"
  const DtEnd: string := "DTEND"
  const DurationName: string := "DURATION"
  /** The duration of an event whose description gives none. */
  const DefaultDuration: string := "PT1H"
  const WarningPrefix: string := "\n\nwarning: trello-calendar-proxy: parse duration: "

  /** The library calls the rewrites make. */
  datatype Library = Library(
    // `durationRe.FindAllStringSubmatch(desc, -1)`: the first group of every match
    submatches: string -> seq<string>,
    // `durationRe.ReplaceAllString(desc, "")`
    strip: string -> string,
    // `time.ParseDuration`: nanoseconds, or the text of its error
    parseGo: string -> Result<int, string>,
    // `%#v` of a string: the Go-quoted text
    quote: string -> string)

  /** The errors of `parseDuration`. */
  datatype DurationProblem =
    | NotFound                             // `errDurationNotFound`
    | Invalid(text: string, cause: string) // the tag does not give a usable duration
    | Multiple                             // more than one tag

  /** The text `%v` writes for the error. */
  function ProblemText(lib: Library, p: DurationProblem): string {
    match p
    case NotFound => "duration not specified in event description"
    case Invalid(text, cause) => "invalid duration " + lib.quote(text) + ": " + cause
    case Multiple => "multiple durations specified"
  }

  // ---------------------------------------------------------------------------
  // parseDuration

  /** What `parseDuration` returns for a description. */
  function DurationFor(lib: Library, desc: string): (r: Result<string, DurationProblem>)
    ensures r == Err(NotFound) <==> |lib.submatches(desc)| == 0
    ensures r == Err(Multiple) <==> |lib.submatches(desc)| > 1
  {
    var m := lib.submatches(desc);
    if |m| == 0 then Err(NotFound)
    else if |m| == 1 then
      match lib.parseGo(m[0])
      case Err(cause) => Err(Invalid(m[0], cause))
      case Ok(t) =>
        match FormatDuration(t)
        case Err(e) => Err(Invalid(m[0], ErrorText(e)))
        case Ok(d) => Ok(d)
    else Err(Multiple)
  }

  /** `parseDuration`: a case split on the number of tags. */
  method ParseDuration(lib: Library, desc: string) returns (r: Result<string, DurationProblem>)
    ensures r == DurationFor(lib, desc)
  {
    var m := lib.submatches(desc);
    if |m| == 0 {
      return Err(NotFound);
    } else if |m| == 1 {
      var dur := lib.parseGo(m[0]);
      if dur.Err? {
        return Err(Invalid(m[0], dur.error));
      }
      var idur := ICalDuration(dur.value);
      if idur.Err? {
        return Err(Invalid(m[0], ErrorText(idur.error)));
      }
      return Ok(idur.value);
    } else {
      return Err(Multiple);
    }
  }

  /** No tag is the not-found error, several tags the multiple error, and one
      tag the formatted duration it gives, or an error naming the tag. */
  lemma DurationForCases(lib: Library, desc: string)
    ensures var m := lib.submatches(desc); var r := DurationFor(lib, desc);
      && (|m| == 0 <==> r == Err(NotFound))
      && (|m| > 1 <==> r == Err(Multiple))
      && (|m| == 1 ==>
            && (r.Ok? <==> lib.parseGo(m[0]).Ok? && FormatDuration(lib.parseGo(m[0]).value).Ok?)
            && (r.Ok? ==> r.value == FormatDuration(lib.parseGo(m[0]).value).value)
            && (r.Err? ==> r.error.Invalid? && r.error.text == m[0]))
  {
  }

  /** A found duration is never empty: it is what `ICalDuration` writes for
      an accepted span. */
  lemma FoundDurationWritten(lib: Library, desc: string)
    requires DurationFor(lib, desc).Ok?
    ensures var d := DurationFor(lib, desc).value;
      && d != "" && 'P' in d
      && exists t :: FormatDuration(t) == Ok(d)
  {
    var t := lib.parseGo(lib.submatches(desc)[0]).value;
    assert FormatDuration(t) == Ok(DurationFor(lib, desc).value);
    RenderHasP(Decompose(t));
  }

  lemma RenderHasP(p: Parts)
    ensures 'P' in Render(p)
  {
    RenderLetters(p);
  }

  // ---------------------------------------------------------------------------
  // setRefreshTime

  function RefreshNode(node: Node, value: string): Node {
    if node.name == Ttl || node.name == RefreshInterval then node.(value := value) else node
  }

  function RefreshChildren(children: seq<Node>, value: string): seq<Node> {
    seq(|children|, i requires 0 <= i < |children| => RefreshNode(children[i], value))
  }

  function RefreshCalendar(calendar: Node, value: string): Node {
    calendar.(inner := RefreshChildren(calendar.inner, value))
  }

  /** The forest `setRefreshTime` leaves behind. */
  function Refreshed(calendars: seq<Node>, value: string): (r: seq<Node>)
    ensures |r| == |calendars|
    ensures forall i :: 0 <= i < |r| ==>
      r[i].name == calendars[i].name && r[i].value == calendars[i].value && |r[i].inner| == |calendars[i].inner|
  {
    seq(|calendars|, i requires 0 <= i < |calendars| => RefreshCalendar(calendars[i], value))
  }

  /** `setRefreshTime`: every direct child of a root named exactly
      `X-PUBLISHED-TTL` or `REFRESH-INTERVAL` takes the formatted duration;
      a span `ICalDuration` refuses is a panic. */
  method SetRefreshTime(ical: ICal, dur: int)
    requires FormatDuration(dur).Ok?
    modifies ical
    ensures ical.nodes == Refreshed(old(ical.nodes), FormatDuration(dur).value)
  {
    var r := ICalDuration(dur);
    var idur := r.value;
    ghost var calendars := ical.nodes;
    for k := 0 to |ical.nodes|
      invariant |ical.nodes| == |calendars|
      invariant forall m :: 0 <= m < k ==> ical.nodes[m] == RefreshCalendar(calendars[m], idur)
      invariant forall m :: k <= m < |calendars| ==> ical.nodes[m] == calendars[m]
    {
      var calendar := ical.nodes[k];
      var inner := calendar.inner;
      for j := 0 to |inner|
        invariant |inner| == |calendar.inner|
        invariant forall m :: 0 <= m < j ==> inner[m] == RefreshNode(calendar.inner[m], idur)
        invariant forall m :: j <= m < |inner| ==> inner[m] == calendar.inner[m]
      {
        var node := inner[j];
        if node.name == Ttl || node.name == RefreshInterval {
          inner := inner[j := node.(value := idur)];
        }
      }
      assert inner == RefreshCalendar(calendar, idur).inner;
      ical.nodes := ical.nodes[k := calendar.(inner := inner)];
    }
  }

  /** Only the values of the direct children named `X-PUBLISHED-TTL` or
      `REFRESH-INTERVAL` change, and they become the given value. */
  lemma RefreshedChanges(calendars: seq<Node>, value: string, i: int, j: int)
    requires 0 <= i < |calendars| && 0 <= j < |calendars[i].inner|
    ensures var r := Refreshed(calendars, value);
      && |r| == |calendars|
      && r[i].name == calendars[i].name && r[i].value == calendars[i].value
      && |r[i].inner| == |calendars[i].inner|
      && r[i].inner[j].name == calendars[i].inner[j].name
      && r[i].inner[j].inner == calendars[i].inner[j].inner
      && (calendars[i].inner[j].name in {Ttl, RefreshInterval} ==> r[i].inner[j].value == value)
      && (calendars[i].inner[j].name !in {Ttl, RefreshInterval} ==> r[i].inner[j].value == calendars[i].inner[j].value)
  {
  }

  /** Setting the refresh time twice is setting it once. */
  lemma RefreshedIdempotent(calendars: seq<Node>, value: string)
    ensures Refreshed(Refreshed(calendars, value), value) == Refreshed(calendars, value)
  {
    var once := Refreshed(calendars, value);
    forall i | 0 <= i < |calendars|
      ensures RefreshCalendar(once[i], value) == once[i]
    {
      assert RefreshCalendar(once[i], value).inner == once[i].inner;
    }
  }

  /** The rewrite keeps a forest encodable: no name and no child list changes. */
  lemma RefreshedEncodable(calendars: seq<Node>, value: string)
    requires Encodable(calendars)
    ensures Encodable(Refreshed(calendars, value))
    ensures CalendarRoots(calendars) ==> CalendarRoots(Refreshed(calendars, value))
  {
    var r := Refreshed(calendars, value);
    forall i | 0 <= i < |r|
      ensures Encodable(r[i].inner)
    {
      var children := calendars[i].inner;
      assert Encodable(children);
      forall j | 0 <= j < |r[i].inner|
        ensures r[i].inner[j].name != End
        ensures r[i].inner[j].name != Begin ==> r[i].inner[j].inner == []
        ensures Encodable(r[i].inner[j].inner)
      {
        assert r[i].inner[j] == RefreshNode(children[j], value);
      }
    }
  }

  /** What `ICalDuration` writes is a value `encode` writes unchanged: no
      carriage return and no backslash. */
  lemma RenderSafe(p: Parts)
    ensures CR !in Render(p) && '\\' !in Render(p)
    ensures SafeValue(Render(p))
  {
    forall c | c == CR || c == '\\'
      ensures c !in Render(p)
    {
      NoLetterInNumeral(Itoa(p.days), c);
      NoLetterInNumeral(Itoa(p.hours), c);
      NoLetterInNumeral(Itoa(p.minutes), c);
      NoLetterInNumeral(Itoa(p.seconds), c);
      assert c !in TimeUnits(p);
    }
  }

  /** The blocks are those of the children before: no `BEGIN` node changes. */
  lemma {:induction false} RefreshKeepsBlocks(children: seq<Node>, value: string)
    ensures Blocks(RefreshChildren(children, value)) == Blocks(children)
    decreases |children|
  {
    if children != [] {
      var r := RefreshChildren(children, value);
      assert r[1..] == RefreshChildren(children[1..], value);
      RefreshKeepsBlocks(children[1..], value);
      assert TreeBlocks(r[0]) == TreeBlocks(children[0]);
    }
  }

  /** With a value `encode` writes unchanged, a forest `encode` and `parse`
      agree on stays one. */
  lemma RefreshedWellFormed(calendars: seq<Node>, value: string)
    requires WellFormed(calendars) && SafeValue(value)
    ensures WellFormed(Refreshed(calendars, value))
  {
    var r := Refreshed(calendars, value);
    forall i | 0 <= i < |r|
      ensures WellFormedNode(r[i])
    {
      var children := calendars[i].inner;
      assert WellFormedNode(calendars[i]);
      assert WellFormed(children);
      RefreshKeepsBlocks(children, value);
      forall j | 0 <= j < |children|
        ensures WellFormedNode(r[i].inner[j])
      {
        assert WellFormedNode(children[j]);
      }
      assert WellFormed(r[i].inner);
    }
  }

  /** A calendar that round-trips through `Bytes` and `ParseICal` still does
      after `setRefreshTime`. */
  lemma RefreshedRoundTrip(calendars: seq<Node>, dur: int)
    requires WellFormed(calendars) && CalendarRoots(calendars) && FormatDuration(dur).Ok?
    ensures var r := Refreshed(calendars, FormatDuration(dur).value);
      Encodable(r) && ParseCalendar(ToBytes(r)) == Ok(r)
  {
    var value := FormatDuration(dur).value;
    RenderSafe(Decompose(dur));
    RefreshedWellFormed(calendars, value);
    WellFormedEncodable(calendars);
    RefreshedEncodable(calendars, value);
    CalendarRoundTrip(Refreshed(calendars, value));
  }

  // ---------------------------------------------------------------------------
  // addDurations

  predicate IsEvent(node: Node) {
    node.name == Begin && node.value == Event
  }

  /** Whether `addDurations` keeps an event's child: neither `DTEND...` nor
      `DURATION...`. */
  predicate Kept(node: Node) {
    !node.NamePrefix(DtEnd) && !node.NamePrefix(DurationName)
  }

  /** The duration `parseDuration` hands back: empty on an error. */
  function FoundDuration(lib: Library, desc: string): string {
    var r := DurationFor(lib, desc);
    if r.Ok? then r.value else ""
  }

  /** A description with the warning for a tag that cannot be used. */
  function Warned(lib: Library, desc: string): string {
    var r := DurationFor(lib, desc);
    if r.Err? && r.error != NotFound then desc + WarningPrefix + ProblemText(lib, r.error) else desc
  }

  /** A child after `addDurations` has looked at it: a `DESCRIPTION` loses
      its tags and takes the warning. */
  function Rewrite(lib: Library, node: Node): Node {
    if node.name == Description then node.(value := lib.strip(Warned(lib, node.value))) else node
  }

  /** The children `addDurations` keeps, rewritten, in their order. */
  function KeptChildren(lib: Library, children: seq<Node>): seq<Node>
    decreases |children|
  {
    if children == [] then []
    else
      var last := children[|children| - 1];
      KeptChildren(lib, children[..|children| - 1]) + (if Kept(last) then [Rewrite(lib, last)] else [])
  }

  /** The duration of the last `DESCRIPTION`, empty when there is none. */
  function LastDuration(lib: Library, children: seq<Node>): string
    decreases |children|
  {
    if children == [] then ""
    else
      var last := children[|children| - 1];
      if last.name == Description then FoundDuration(lib, last.value)
      else LastDuration(lib, children[..|children| - 1])
  }

  function EventDuration(lib: Library, children: seq<Node>): string {
    var d := LastDuration(lib, children);
    if d == "" then DefaultDuration else d
  }

  /** An event after `addDurations`. */
  function WithDuration(lib: Library, event: Node): (r: Node)
    ensures r.name == event.name && r.value == event.value
    ensures r.inner != [] && r.inner[|r.inner| - 1].name == DurationName
  {
    event.(inner := KeptChildren(lib, event.inner) + [Node(DurationName, EventDuration(lib, event.inner), [])])
  }

  function AddToCalendar(lib: Library, calendar: Node): Node {
    calendar.(inner := seq(|calendar.inner|, i requires 0 <= i < |calendar.inner| =>
      if IsEvent(calendar.inner[i]) then WithDuration(lib, calendar.inner[i]) else calendar.inner[i]))
  }

  /** The forest `addDurations` leaves behind. */
  function WithDurations(lib: Library, calendars: seq<Node>): (r: seq<Node>)
    ensures |r| == |calendars|
    ensures forall i :: 0 <= i < |r| ==>
      r[i].name == calendars[i].name && r[i].value == calendars[i].value && |r[i].inner| == |calendars[i].inner|
  {
    seq(|calendars|, i requires 0 <= i < |calendars| => AddToCalendar(lib, calendars[i]))
  }

  /** `addDurations`: every event directly under a root gets a DURATION. */
  method AddDurations(lib: Library, ical: ICal)
    modifies ical
    ensures ical.nodes == WithDurations(lib, old(ical.nodes))
  {
    ghost var calendars := ical.nodes;
    for k := 0 to |ical.nodes|
      invariant |ical.nodes| == |calendars|
      invariant forall m :: 0 <= m < k ==> ical.nodes[m] == AddToCalendar(lib, calendars[m])
      invariant forall m :: k <= m < |calendars| ==> ical.nodes[m] == calendars[m]
    {
      var calendar := ical.nodes[k];
      var inner := calendar.inner;
      ghost var before := ical.nodes;
      for j := 0 to |inner|
        invariant |inner| == |calendar.inner|
        invariant ical.nodes == before
        invariant forall m :: 0 <= m < j ==> inner[m] == AddToCalendar(lib, calendar).inner[m]
        invariant forall m :: j <= m < |inner| ==> inner[m] == calendar.inner[m]
      {
        var node := inner[j];
        if node.name == Begin && node.value == Event {
          node := RewriteEvent(lib, node);
          inner := inner[j := node];
        }
      }
      assert inner == AddToCalendar(lib, calendar).inner;
      ical.nodes := ical.nodes[k := calendar.(inner := inner)];
    }
  }

  /** One more child of the event, as the loop of `addDurations` takes it. */
  lemma EventStep(lib: Library, children: seq<Node>, j: nat)
    requires j < |children|
    ensures KeptChildren(lib, children[..j + 1])
      == KeptChildren(lib, children[..j]) + (if Kept(children[j]) then [Rewrite(lib, children[j])] else [])
    ensures LastDuration(lib, children[..j + 1])
      == if children[j].name == Description then FoundDuration(lib, children[j].value) else LastDuration(lib, children[..j])
  {
    assert children[..j + 1][..j] == children[..j];
  }

  /** The body of `addDurations` for one event: the loop over its children,
      then the DURATION node. */
  method RewriteEvent(lib: Library, event: Node) returns (r: Node)
    ensures r == WithDuration(lib, event)
  {
    var children := event.inner;
    var newInner: seq<Node> := [];
    var idur := "";
    for j := 0 to |children|
      invariant newInner == KeptChildren(lib, children[..j])
      invariant idur == LastDuration(lib, children[..j])
    {
      var innerNode := children[j];
      EventStep(lib, children, j);
      if innerNode.name == Description {
        var found := ParseDuration(lib, innerNode.value);
        idur := if found.Ok? then found.value else "";
        var value := innerNode.value;
        if found.Err? && found.error != NotFound {
          value := value + WarningPrefix + ProblemText(lib, found.error);
        }
        innerNode := innerNode.(value := lib.strip(value));
      }
      if !innerNode.NamePrefix(DtEnd) && !innerNode.NamePrefix(DurationName) {
        newInner := newInner + [innerNode];
      }
    }
    assert children[..|children|] == children;
    if idur == "" {
      idur := DefaultDuration;
    }
    newInner := newInner + [Node(DurationName, idur, [])];
    return event.(inner := newInner);
  }

  // Properties of addDurations

  /** The kept children of two runs of children are those of each, in order. */
  lemma {:induction false} KeptChildrenAppend(lib: Library, a: seq<Node>, b: seq<Node>)
    ensures KeptChildren(lib, a + b) == KeptChildren(lib, a) + KeptChildren(lib, b)
    decreases |b|
  {
    if b == [] {
      assert a + b == a;
    } else {
      var front := b[..|b| - 1];
      var last := b[|b| - 1];
      assert (a + b)[..|a + b| - 1] == a + front;
      KeptChildrenAppend(lib, a, front);
    }
  }

  /** One child is kept, rewritten, exactly when its name starts with neither
      `DTEND` nor `DURATION`. */
  lemma KeptChild(lib: Library, node: Node)
    ensures KeptChildren(lib, [node]) == if Kept(node) then [Rewrite(lib, node)] else []
  {
    assert [node][..0] == [];
  }

  /** Only a `DESCRIPTION` is rewritten, and only its value changes: the tags
      are stripped, after the warning when the tag could not be used for a
      reason other than there being none. */
  lemma RewriteValue(lib: Library, node: Node)
    ensures var r := Rewrite(lib, node); var found := DurationFor(lib, node.value);
      && r.name == node.name && r.inner == node.inner
      && (node.name != Description ==> r == node)
      && (node.name == Description && found.Err? && found.error != NotFound ==>
            r.value == lib.strip(node.value + WarningPrefix + ProblemText(lib, found.error)))
      && (node.name == Description && (found.Ok? || found.error == NotFound) ==>
            r.value == lib.strip(node.value))
  {
  }

  /** No kept child starts with `DTEND` or `DURATION`, and each is a child of
      the event, rewritten. */
  lemma {:induction false} KeptChildrenFrom(lib: Library, children: seq<Node>)
    ensures forall x :: x in KeptChildren(lib, children) ==> Kept(x)
    ensures forall x :: x in KeptChildren(lib, children) ==> exists y :: y in children && x == Rewrite(lib, y)
    ensures |KeptChildren(lib, children)| <= |children|
    decreases |children|
  {
    if children != [] {
      var front := children[..|children| - 1];
      var last := children[|children| - 1];
      KeptChildrenFrom(lib, front);
      forall x | x in KeptChildren(lib, children)
        ensures exists y :: y in children && x == Rewrite(lib, y)
      {
        if x in KeptChildren(lib, front) {
          var y :| y in front && x == Rewrite(lib, y);
          assert y in children;
        } else {
          assert x == Rewrite(lib, last);
        }
      }
    }
  }

  /** Children that are all kept and hold no description are kept as they are. */
  lemma {:induction false} KeptChildrenUnchanged(lib: Library, children: seq<Node>)
    requires forall i :: 0 <= i < |children| ==> Kept(children[i]) && children[i].name != Description
    ensures KeptChildren(lib, children) == children
    decreases |children|
  {
    if children != [] {
      var front := children[..|children| - 1];
      KeptChildrenUnchanged(lib, front);
      assert front + [children[|children| - 1]] == children;
    }
  }

  /** Without a `DESCRIPTION` the event lasts an hour. */
  lemma {:induction false} NoDescriptionDefault(lib: Library, children: seq<Node>)
    requires forall i :: 0 <= i < |children| ==> children[i].name != Description
    ensures LastDuration(lib, children) == ""
    ensures EventDuration(lib, children) == DefaultDuration
    decreases |children|
  {
    if children != [] {
      NoDescriptionDefault(lib, children[..|children| - 1]);
    }
  }

  /** The last `DESCRIPTION` decides: its duration when it gives one, else an
      hour, whatever the descriptions before it give. */
  lemma {:induction false} LastDescriptionWins(lib: Library, before: seq<Node>, desc: Node, after: seq<Node>)
    requires desc.name == Description
    requires forall i :: 0 <= i < |after| ==> after[i].name != Description
    ensures var found := DurationFor(lib, desc.value);
      EventDuration(lib, before + [desc] + after) == if found.Ok? then found.value else DefaultDuration
    decreases |after|
  {
    var found := DurationFor(lib, desc.value);
    if found.Ok? {
      FoundDurationWritten(lib, desc.value);
    }
    if after == [] {
      var all := before + [desc] + after;
      assert all[|all| - 1] == desc;
    } else {
      var all := before + [desc] + after;
      var front := after[..|after| - 1];
      assert all[..|all| - 1] == before + [desc] + front;
      LastDescriptionWins(lib, before, desc, front);
    }
  }

  /** An event keeps its name and value; its children are the kept ones,
      then one DURATION node, the only child whose name starts with `DTEND`
      or `DURATION`. */
  lemma WithDurationShape(lib: Library, event: Node)
    ensures var r := WithDuration(lib, event); var n := |r.inner|;
      && r.name == event.name && r.value == event.value
      && n >= 1
      && r.inner[n - 1] == Node(DurationName, EventDuration(lib, event.inner), [])
      && !Kept(r.inner[n - 1])
      && (forall i :: 0 <= i < n - 1 ==> Kept(r.inner[i]))
      && r.inner[..n - 1] == KeptChildren(lib, event.inner)
  {
    var r := WithDuration(lib, event);
    var kept := KeptChildren(lib, event.inner);
    KeptChildrenFrom(lib, event.inner);
    assert r.inner[..|r.inner| - 1] == kept;
    forall i | 0 <= i < |r.inner| - 1
      ensures Kept(r.inner[i])
    {
      assert r.inner[i] == kept[i];
      assert kept[i] in kept;
    }
    assert r.inner[|r.inner| - 1].NamePrefix(DurationName);
  }

  /** Only the events directly under a root change: the roots keep their
      names, values and number of children, and every other child, with all
      that is below it, is left as it was. */
  lemma WithDurationsScope(lib: Library, calendars: seq<Node>, i: int, j: int)
    requires 0 <= i < |calendars| && 0 <= j < |calendars[i].inner|
    ensures var r := WithDurations(lib, calendars); var child := calendars[i].inner[j];
      && |r| == |calendars|
      && r[i].name == calendars[i].name && r[i].value == calendars[i].value
      && |r[i].inner| == |calendars[i].inner|
      && (IsEvent(child) ==> r[i].inner[j] == WithDuration(lib, child))
      && (!IsEvent(child) ==> r[i].inner[j] == child)
  {
  }

  /** The rewrite keeps a forest encodable: the new and the rewritten nodes
      are leaves that are neither `BEGIN` nor `END`. */
  lemma WithDurationsEncodable(lib: Library, calendars: seq<Node>)
    requires Encodable(calendars)
    ensures Encodable(WithDurations(lib, calendars))
    ensures CalendarRoots(calendars) ==> CalendarRoots(WithDurations(lib, calendars))
  {
    var r := WithDurations(lib, calendars);
    forall i | 0 <= i < |r|
      ensures Encodable(r[i].inner)
    {
      var children := calendars[i].inner;
      assert Encodable(children);
      forall j | 0 <= j < |children|
        ensures r[i].inner[j].name != End
        ensures r[i].inner[j].name != Begin ==> r[i].inner[j].inner == []
        ensures Encodable(r[i].inner[j].inner)
      {
        if IsEvent(children[j]) {
          EventEncodable(lib, children[j]);
        }
      }
    }
  }

  lemma EventEncodable(lib: Library, event: Node)
    requires Encodable(event.inner)
    ensures Encodable(WithDuration(lib, event).inner)
  {
    var kept := KeptChildren(lib, event.inner);
    var all := WithDuration(lib, event).inner;
    KeptChildrenFrom(lib, event.inner);
    forall k | 0 <= k < |all|
      ensures all[k].name != End
      ensures all[k].name != Begin ==> all[k].inner == []
      ensures Encodable(all[k].inner)
    {
      if k < |kept| {
        assert all[k] == kept[k];
        assert kept[k] in kept;
        var y :| y in event.inner && kept[k] == Rewrite(lib, y);
        var m :| 0 <= m < |event.inner| && event.inner[m] == y;
      } else {
        assert Encodable(all[k].inner);
      }
    }
  }
}
