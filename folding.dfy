/**
 * The line layer of ical.go: `denormalize` turns raw calendar text into
 * logical lines (canonical CRLF endings, continuation lines unfolded as in
 * section 3.1 of RFC 5545, split on CRLF) and `renormalize` turns logical
 * lines back into text folded at 75 bytes with CRLF endings.
 */
module Folding {
  import opened GoText

  /** Width of the first physical line of a folded line. */
  const FoldWidth: nat := 75
  /** What starts every continuation line. */
  const Indent: string := " "
  /** A line break followed by the indent: what `denormalize` removes. */
  const FoldMarker: string := "\r\n "
  /** Bytes per continuation line after the indent. */
  const ChunkWidth: nat := 74

  // ---------------------------------------------------------------------------
  // denormalize

  /** Steps 1 and 2 of `denormalize`: CRLF becomes LF, then every LF becomes CRLF. */
  function CanonicalEndings(buf: string): string {
    ReplaceAll(ReplaceAll(buf, CRLF, "\n"), "\n", CRLF)
  }

  /** Step 3: every CRLF followed by a space is deleted. A tab is not unfolded. */
  function Unfold(buf: string): string {
    ReplaceAll(buf, FoldMarker, "")
  }

  /** `denormalize`: the logical lines of a raw calendar. */
  function Denormalize(buf: string): (lines: seq<string>)
    ensures |lines| >= 1
  {
    Split(Unfold(CanonicalEndings(buf)), CRLF)
  }

  /** Every LF after the first character directly follows a CR. */
  ghost predicate LfGuarded(s: string) {
    forall i :: 0 < i < |s| && s[i] == LF ==> s[i - 1] == CR
  }

  /** Turning every LF into CRLF leaves no LF without its CR. */
  lemma {:induction false} CrlfEndingsGuarded(s: string)
    ensures var r := ReplaceAll(s, "\n", CRLF); LfGuarded(r) && (r != [] ==> r[0] != LF)
    decreases |s|
  {
    if |s| >= 1 {
      var tail := ReplaceAll(s[1..], "\n", CRLF);
      CrlfEndingsGuarded(s[1..]);
      var r := ReplaceAll(s, "\n", CRLF);
      if s[..1] == "\n" {
        assert r == CRLF + tail;
        forall i | 0 < i < |r| && r[i] == LF ensures r[i - 1] == CR {
          if i >= 3 { assert r[i] == tail[i - 2] && r[i - 1] == tail[i - 3]; }
        }
      } else {
        assert s[0] != LF;
        assert r == [s[0]] + tail;
        forall i | 0 < i < |r| && r[i] == LF ensures r[i - 1] == CR {
          if i >= 2 { assert r[i] == tail[i - 1] && r[i - 1] == tail[i - 2]; }
        }
      }
    }
  }

  /** Unfolding keeps every LF behind its CR and never exposes a leading LF. */
  lemma {:induction false} UnfoldGuarded(s: string)
    requires LfGuarded(s)
    ensures var r := Unfold(s); LfGuarded(r) && (r != [] && r[0] == LF ==> s != [] && s[0] == LF)
    decreases |s|
  {
    if |s| >= |FoldMarker| {
      var r := Unfold(s);
      if s[..3] == FoldMarker {
        assert LfGuarded(s[3..]);
        UnfoldGuarded(s[3..]);
        assert r == Unfold(s[3..]);
        assert s[2] == FoldMarker[2] == ' ';
        assert s[3..] != [] ==> s[3] != LF;
      } else {
        assert LfGuarded(s[1..]);
        UnfoldGuarded(s[1..]);
        var tail := Unfold(s[1..]);
        assert r == [s[0]] + tail;
        forall i | 0 < i < |r| && r[i] == LF ensures r[i - 1] == CR {
          if i >= 2 { assert r[i] == tail[i - 1] && r[i - 1] == tail[i - 2]; }
          else { assert tail[0] == LF && s[1] == LF; }
        }
      }
    }
  }

  /** Splitting guarded text on CRLF leaves no LF in any piece. */
  lemma {:induction false} SplitGuarded(s: string)
    requires LfGuarded(s) && (s != [] ==> s[0] != LF)
    ensures forall l :: l in Split(s, CRLF) ==> LF !in l
    decreases |s|
  {
    var k := Index(s, CRLF);
    IndexSpec(s, CRLF);
    var head := if k < 0 then s else s[..k];
    forall i | 0 <= i < |head| ensures head[i] != LF {
      assert head[i] == s[i];
      if i > 0 {
        assert !OccursAt(s, CRLF, i - 1);
        assert s[i - 1..i + 1] == [s[i - 1], s[i]];
      }
    }
    if k >= 0 {
      var rest := s[k + 2..];
      assert s[k..k + 2] == CRLF;
      assert LfGuarded(rest);
      assert s[k + 1] == CRLF[1] == LF;
      assert rest != [] ==> rest[0] == s[k + 2];
      SplitGuarded(rest);
      assert Split(s, CRLF) == [head] + Split(rest, CRLF);
    }
  }

  /** No logical line returned by `denormalize` contains a line feed. */
  lemma DenormalizeNoLf(buf: string)
    ensures forall l :: l in Denormalize(buf) ==> LF !in l
  {
    var canonical := CanonicalEndings(buf);
    CrlfEndingsGuarded(ReplaceAll(buf, CRLF, "\n"));
    UnfoldGuarded(canonical);
    SplitGuarded(Unfold(canonical));
  }

  /** Unfolding deletes every CRLF-and-space found scanning left to right:
      the text is the pieces between them, none of which holds one. */
  lemma UnfoldRemovesFolds(buf: string)
    ensures Unfold(buf) == Join(Split(buf, FoldMarker), "")
    ensures forall p :: p in Split(buf, FoldMarker) ==> Index(p, FoldMarker) < 0
  {
    ReplaceAllSplit(buf, FoldMarker, "");
    SplitPiecesFree(buf, FoldMarker);
  }

  /** Unfolding keeps a final CRLF. */
  lemma {:induction false} UnfoldKeepsFinalCrlf(s: string)
    requires |s| >= 2 && s[|s| - 2..] == CRLF
    ensures var r := Unfold(s); |r| >= 2 && r[|r| - 2..] == CRLF
    decreases |s|
  {
    if |s| >= 3 {
      if s[..3] == FoldMarker {
        assert |s| >= 5 by {
          assert s[2] == ' ' && s[|s| - 2] == CR && s[|s| - 1] == LF;
        }
        assert s[3..][|s[3..]| - 2..] == s[|s| - 2..];
        UnfoldKeepsFinalCrlf(s[3..]);
      } else {
        assert s[1..][|s[1..]| - 2..] == s[|s| - 2..];
        UnfoldKeepsFinalCrlf(s[1..]);
        var tail := Unfold(s[1..]);
        assert Unfold(s) == [s[0]] + tail;
        assert Unfold(s)[|Unfold(s)| - 2..] == tail[|tail| - 2..];
      }
    }
  }

  /** Text ending in CRLF splits into pieces whose last one is empty. */
  lemma {:induction false} SplitFinalEmpty(s: string)
    requires |s| >= 2 && s[|s| - 2..] == CRLF
    ensures var pieces := Split(s, CRLF); pieces[|pieces| - 1] == ""
    decreases |s|
  {
    assert OccursAt(s, CRLF, |s| - 2);
    IndexSpec(s, CRLF);
    var k := Index(s, CRLF);
    var rest := s[k + 2..];
    FinalCrlfRest(s, k);
    assert Split(s, CRLF) == [s[..k]] + Split(rest, CRLF);
    if rest != [] {
      SplitFinalEmpty(rest);
    }
  }

  /** After the first CRLF of a text that ends in CRLF, either nothing is left
      or the rest ends in CRLF too. */
  lemma FinalCrlfRest(s: string, k: nat)
    requires |s| >= 2 && s[|s| - 2..] == CRLF && OccursAt(s, CRLF, k)
    ensures k + 2 == |s| || (k + 4 <= |s| && s[k + 2..][|s| - k - 4..] == CRLF)
  {
    assert s[k + 1] == s[k..k + 2][1];
    assert s[|s| - 2] == s[|s| - 2..][0];
    if k + 2 < |s| {
      assert s[k + 2..][|s| - k - 4..] == s[|s| - 2..];
    }
  }

  /** Input that ends in a line feed still ends in CRLF after steps 1 and 2. */
  lemma CanonicalEndingsFinalCrlf(buf: string)
    requires buf != [] && buf[|buf| - 1] == LF
    ensures var r := CanonicalEndings(buf); |r| >= 2 && r[|r| - 2..] == CRLF
  {
    var lf := ReplaceAll(buf, CRLF, "\n");
    ReplaceAllKeepsLast(buf, CRLF, "\n", LF);
    var r := ReplaceAll(lf, "\n", CRLF);
    ReplaceAllKeepsLast(lf, "\n", CRLF, LF);
    CrlfEndingsGuarded(lf);
    assert |r| >= 2 && r[|r| - 2] == CR;
  }

  /** Input that ends in a line feed yields a final empty logical line. */
  lemma DenormalizeFinalEmpty(buf: string)
    requires buf != [] && buf[|buf| - 1] == LF
    ensures var lines := Denormalize(buf); lines[|lines| - 1] == ""
  {
    CanonicalEndingsFinalCrlf(buf);
    UnfoldKeepsFinalCrlf(CanonicalEndings(buf));
    SplitFinalEmpty(Unfold(CanonicalEndings(buf)));
  }

  // ---------------------------------------------------------------------------
  // renormalize

  /** The text `renormalize` writes after the first 75 bytes of a long line:
      every run of 74 bytes is preceded by CRLF and the indent. */
  function Continuation(c: string): string
    decreases |c|
  {
    if c == [] then []
    else if |c| <= ChunkWidth then FoldMarker + c
    else FoldMarker + c[..ChunkWidth] + Continuation(c[ChunkWidth..])
  }

  /** The folded form of one logical line, CRLF-terminated. */
  function FoldLine(line: string): (r: string)
    ensures var k := if |line| <= FoldWidth then |line| else FoldWidth;
      |r| >= k + 2 && r[..k] == line[..k] && r[|r| - 2..] == CRLF
  {
    if |line| <= FoldWidth then line + CRLF
    else line[..FoldWidth] + Continuation(line[FoldWidth..]) + CRLF
  }

  /** The text `renormalize` produces for a sequence of logical lines. */
  function Folded(lines: seq<string>): (r: string)
    ensures lines != [] ==> |r| >= 2 && r[|r| - 2..] == CRLF
    decreases |lines|
  {
    if lines == [] then [] else FoldLine(lines[0]) + Folded(lines[1..])
  }

  /** The continuation grows one byte at a time, starting a new indented line
      at every multiple of 74. */
  lemma {:induction false} ContinuationSnoc(c: string, x: char)
    ensures Continuation(c + [x])
         == Continuation(c) + (if |c| % ChunkWidth == 0 then FoldMarker else []) + [x]
    decreases |c|
  {
    var w := ChunkWidth;
    var cx := c + [x];
    var m: string := if |c| % w == 0 then FoldMarker else [];
    if c == [] {
      assert cx == [x];
    } else if |c| < w {
      assert Continuation(cx) == FoldMarker + cx;
      assert Continuation(c) == FoldMarker + c;
    } else {
      var tail := c[w..];
      assert cx[..w] == c[..w];
      assert cx[w..] == tail + [x];
      var head := FoldMarker + c[..w];
      assert Continuation(cx) == head + Continuation(tail + [x]);
      if |c| == w {
        assert tail == [] && c[..w] == c;
        assert Continuation(tail + [x]) == FoldMarker + [x];
        assert Continuation(c) == head + [];
        SnocGlue(head, [], m, [x], Continuation(cx), Continuation(tail + [x]), Continuation(c));
      } else {
        ModuloShift(|c|);
        ContinuationSnoc(tail, x);
        assert Continuation(c) == head + Continuation(tail);
        SnocGlue(head, Continuation(tail), m, [x], Continuation(cx), Continuation(tail + [x]), Continuation(c));
      }
    }
  }

  lemma SnocGlue(head: string, t: string, m: string, x: string, whole: string, inner: string, cont: string)
    requires whole == head + inner && inner == t + m + x && cont == head + t
    ensures whole == cont + m + x
  {
  }

  lemma ModuloShift(n: nat)
    requires n >= ChunkWidth
    ensures (n - ChunkWidth) % ChunkWidth == n % ChunkWidth
  {
  }

  lemma {:induction false} FoldedSnoc(lines: seq<string>, line: string)
    ensures Folded(lines + [line]) == Folded(lines) + FoldLine(line)
    decreases |lines|
  {
    if lines == [] {
      assert Folded([line]) == FoldLine(line) + Folded([]);
    } else {
      assert (lines + [line])[1..] == lines[1..] + [line];
      FoldedSnoc(lines[1..], line);
    }
  }

  /** One more byte of a long line's tail, in the form the inner loop of
      `renormalize` writes it. */
  lemma ContinuationStep(start: string, rest: string, i: nat)
    requires i < |rest|
    ensures start + Continuation(rest[..i + 1])
         == start + Continuation(rest[..i]) + (if i % ChunkWidth == 0 then CRLF + Indent else []) + [rest[i]]
  {
    assert rest[..i + 1] == rest[..i] + [rest[i]];
    ContinuationSnoc(rest[..i], rest[i]);
  }

  /** One more line, in the form the outer loop of `renormalize` writes it. */
  lemma FoldedStep(lines: seq<string>, k: nat)
    requires k < |lines|
    ensures Folded(lines[..k + 1]) == Folded(lines[..k]) + FoldLine(lines[k])
  {
    assert lines[..k + 1] == lines[..k] + [lines[k]];
    FoldedSnoc(lines[..k], lines[k]);
  }

  lemma FoldLongLine(line: string, start: string, head: string, body: string, buf: string)
    requires |line| > FoldWidth && head == start + line[..FoldWidth]
    requires body == head + Continuation(line[FoldWidth..]) && buf == body + CRLF
    ensures buf == start + FoldLine(line)
  {
  }

  /** `renormalize`: writes each logical line into the buffer, folded at 75
      bytes, every physical line ending in CRLF. */
  method Renormalize(lines: seq<string>) returns (buf: string)
    ensures buf == Folded(lines)
  {
    buf := [];
    for k := 0 to |lines|
      invariant buf == Folded(lines[..k])
    {
      var line := lines[k];
      FoldedStep(lines, k);
      ghost var before := buf;
      if |line| <= FoldWidth {
        buf := buf + line + CRLF;
        AppendGlue(before, line, CRLF, buf);
        continue;
      }
      buf := buf + line[..FoldWidth];
      ghost var head := buf;
      buf := WriteContinuation(buf, line[FoldWidth..]);
      ghost var body := buf;
      buf := buf + CRLF;
      FoldLongLine(line, before, head, body, buf);
    }
    assert lines[..|lines|] == lines;
  }

  /** The inner loop of `renormalize` over the bytes after the first 75: a
      line break and the indent before every run of 74. */
  method WriteContinuation(start: string, rest: string) returns (buf: string)
    ensures buf == start + Continuation(rest)
  {
    buf := start;
    for i := 0 to |rest|
      invariant buf == start + Continuation(rest[..i])
    {
      ContinuationStep(start, rest, i);
      if i % ChunkWidth == 0 {
        buf := buf + CRLF + Indent;
      }
      buf := buf + [rest[i]];
    }
    assert rest[..|rest|] == rest;
  }

  /** Glue for text written in two pieces, stated on opaque values. */
  lemma AppendGlue(a: string, b: string, u: string, whole: string)
    requires whole == a + b + u
    ensures whole == a + (b + u)
  {
  }

  // ---------------------------------------------------------------------------
  // Physical lines of the folded text

  /** The physical lines after the first 75 bytes of a long line. */
  function ContinuationLines(c: string): seq<string>
    decreases |c|
  {
    if c == [] then []
    else if |c| <= ChunkWidth then [Indent + c]
    else [Indent + c[..ChunkWidth]] + ContinuationLines(c[ChunkWidth..])
  }

  /** The physical lines of one logical line. */
  function PhysicalLines(line: string): seq<string> {
    if |line| <= FoldWidth then [line]
    else [line[..FoldWidth]] + ContinuationLines(line[FoldWidth..])
  }

  function AllPhysicalLines(lines: seq<string>): seq<string>
    decreases |lines|
  {
    if lines == [] then [] else PhysicalLines(lines[0]) + AllPhysicalLines(lines[1..])
  }

  lemma {:induction false} ContinuationLinesBounded(c: string)
    ensures forall p :: p in ContinuationLines(c) ==> 1 <= |p| <= FoldWidth && p[0] == ' '
    decreases |c|
  {
    if |c| > ChunkWidth {
      ContinuationLinesBounded(c[ChunkWidth..]);
    }
  }

  lemma {:induction false} AllPhysicalLinesBounded(lines: seq<string>)
    ensures forall p :: p in AllPhysicalLines(lines) ==> |p| <= FoldWidth
    decreases |lines|
  {
    if lines != [] {
      if |lines[0]| > FoldWidth {
        ContinuationLinesBounded(lines[0][FoldWidth..]);
      }
      AllPhysicalLinesBounded(lines[1..]);
    }
  }

  /** A character missing from a text is missing from both halves of a cut. */
  lemma AbsentFromSlices(c: string, i: nat, x: char)
    requires i <= |c| && x !in c
    ensures x !in c[..i] && x !in c[i..]
  {
    assert c == c[..i] + c[i..];
  }

  /** The last, at most 74-byte, run of a long line's tail. */
  lemma SplitContinuationLast(t: string, c: string, rest: string)
    requires LF !in t && LF !in c && 0 < |c| <= ChunkWidth
    ensures Split(t + Continuation(c) + CRLF + rest, CRLF) == [t, Indent + c] + Split(rest, CRLF)
  {
    var line := Indent + c;
    assert FoldMarker == CRLF + Indent;
    assert Continuation(c) == FoldMarker + c;
    MarkerLine(c, line, Continuation(c));
    var whole := t + Continuation(c) + CRLF + rest;
    var mid := line + CRLF + rest;
    SeparatorGlue(t, Continuation(c), line, CRLF, rest, whole);
    SplitAfterLine(t, mid);
    SplitAfterLine(line, rest);
    PairGlue(t, line, Split(rest, CRLF), Split(whole, CRLF), Split(mid, CRLF));
  }

  /** Glue for two pieces split off in turn, stated on opaque values. */
  lemma PairGlue<T>(a: T, b: T, x: seq<T>, p: seq<T>, q: seq<T>)
    requires p == [a] + q && q == [b] + x
    ensures p == [a, b] + x
  {
  }

  lemma MarkerLine(c: string, line: string, cont: string)
    requires line == Indent + c && cont == FoldMarker + c
    ensures cont == CRLF + line
  {
    assert FoldMarker == CRLF + Indent;
  }

  /** Glue that exposes a separator, stated on opaque values. */
  lemma SeparatorGlue(t: string, cont: string, line: string, sep: string, rest: string, whole: string)
    requires cont == sep + line && whole == t + cont + sep + rest
    ensures whole == t + sep + (line + sep + rest)
  {
  }

  /** A long tail: its first 74-byte run is the first continuation line. */
  lemma SplitContinuationFirst(t: string, c: string, rest: string)
    requires LF !in t && |c| > ChunkWidth
    ensures Split(t + Continuation(c) + CRLF + rest, CRLF)
         == [t] + Split((Indent + c[..ChunkWidth]) + Continuation(c[ChunkWidth..]) + CRLF + rest, CRLF)
  {
    var chunk := Indent + c[..ChunkWidth];
    var after := chunk + Continuation(c[ChunkWidth..]) + CRLF + rest;
    assert Continuation(c) == CRLF + chunk + Continuation(c[ChunkWidth..]);
    assert t + Continuation(c) + CRLF + rest == t + CRLF + after;
    SplitAfterLine(t, after);
  }

  lemma {:induction false} SplitContinuation(t: string, c: string, rest: string)
    requires LF !in t && LF !in c
    ensures Split(t + Continuation(c) + CRLF + rest, CRLF) == [t] + ContinuationLines(c) + Split(rest, CRLF)
    decreases |c|
  {
    if c == [] {
      assert t + Continuation(c) + CRLF + rest == t + CRLF + rest;
      SplitAfterLine(t, rest);
    } else if |c| <= ChunkWidth {
      SplitContinuationLast(t, c, rest);
    } else {
      AbsentFromSlices(c, ChunkWidth, LF);
      SplitContinuationFirst(t, c, rest);
      SplitContinuation(Indent + c[..ChunkWidth], c[ChunkWidth..], rest);
    }
  }

  /** The physical lines of one folded line, followed by whatever comes next. */
  lemma SplitFoldLine(l: string, rest: string)
    requires LF !in l
    ensures Split(FoldLine(l) + rest, CRLF) == PhysicalLines(l) + Split(rest, CRLF)
  {
    if |l| <= FoldWidth {
      SplitAfterLine(l, rest);
    } else {
      AbsentFromSlices(l, FoldWidth, LF);
      SplitContinuation(l[..FoldWidth], l[FoldWidth..], rest);
      assert FoldLine(l) + rest == l[..FoldWidth] + Continuation(l[FoldWidth..]) + CRLF + rest;
    }
  }

  /** Splitting folded text at CRLF yields the physical lines and a final
      empty piece. */
  lemma {:induction false} SplitFolded(lines: seq<string>)
    requires forall l :: l in lines ==> LF !in l
    ensures Split(Folded(lines), CRLF) == AllPhysicalLines(lines) + [""]
    decreases |lines|
  {
    if lines == [] {
      assert Split([], CRLF) == [[]];
    } else {
      assert lines[0] in lines;
      assert forall m :: m in lines[1..] ==> m in lines;
      SplitFolded(lines[1..]);
      SplitFoldLine(lines[0], Folded(lines[1..]));
      Reassociate(PhysicalLines(lines[0]), AllPhysicalLines(lines[1..]), [""],
                  Split(Folded(lines), CRLF), Split(Folded(lines[1..]), CRLF));
    }
  }

  /** Every physical line of `renormalize`'s output is at most 75 bytes, and
      a line of at most 75 bytes is written as it is. */
  lemma RenormalizeBounded(lines: seq<string>)
    requires forall l :: l in lines ==> LF !in l
    ensures Split(Folded(lines), CRLF) == AllPhysicalLines(lines) + [""]
    ensures forall p :: p in Split(Folded(lines), CRLF) ==> |p| <= FoldWidth
  {
    SplitFolded(lines);
    AllPhysicalLinesBounded(lines);
  }

  // ---------------------------------------------------------------------------
  // denormalize undoes renormalize

  /** Text in which every CR is followed by LF and every LF follows a CR. */
  predicate CrlfOnly(s: string)
    decreases |s|
  {
    if s == [] then true
    else if s[0] == CR then |s| >= 2 && s[1] == LF && CrlfOnly(s[2..])
    else s[0] != LF && CrlfOnly(s[1..])
  }

  /** Line endings that are already CRLF are left alone by steps 1 and 2. */
  lemma {:induction false} CanonicalEndingsFixed(s: string)
    requires CrlfOnly(s)
    ensures CanonicalEndings(s) == s
    decreases |s|
  {
    if s != [] {
      if s[0] == CR {
        var rest := s[2..];
        assert s == CRLF + rest;
        ReplaceAllFront(rest, CRLF, "\n");
        ReplaceAllFront(ReplaceAll(rest, CRLF, "\n"), "\n", CRLF);
        CanonicalEndingsFixed(rest);
      } else {
        var rest := s[1..];
        assert s == [s[0]] + rest;
        ReplaceAllSkip([s[0]], rest, CRLF, "\n");
        ReplaceAllSkip([s[0]], ReplaceAll(rest, CRLF, "\n"), "\n", CRLF);
        CanonicalEndingsFixed(rest);
      }
    }
  }

  lemma {:induction false} CrlfOnlyAppend(a: string, b: string)
    requires CrlfOnly(a) && CrlfOnly(b)
    ensures CrlfOnly(a + b)
    decreases |a|
  {
    if a != [] {
      if a[0] == CR {
        assert (a + b)[2..] == a[2..] + b;
        CrlfOnlyAppend(a[2..], b);
      } else {
        assert (a + b)[1..] == a[1..] + b;
        CrlfOnlyAppend(a[1..], b);
      }
    } else {
      assert a + b == b;
    }
  }

  lemma {:induction false} CrlfOnlyPlain(t: string)
    requires CR !in t && LF !in t
    ensures CrlfOnly(t)
    decreases |t|
  {
    if t != [] {
      assert forall x :: x in t[1..] ==> x in t;
      CrlfOnlyPlain(t[1..]);
    }
  }

  lemma CrlfOnlyLineEnd(t: string)
    requires CR !in t && LF !in t
    ensures CrlfOnly(t + CRLF)
  {
    CrlfOnlyPlain(t);
    assert CrlfOnly(CRLF) by { assert CRLF[2..] == []; }
    CrlfOnlyAppend(t, CRLF);
  }

  lemma CrlfOnlyBreak(x: string)
    requires CrlfOnly(x)
    ensures CrlfOnly(CRLF + x)
  {
    assert (CRLF + x)[2..] == x;
  }

  lemma {:induction false} ContinuationCrlfOnly(c: string)
    requires CR !in c && LF !in c
    ensures CrlfOnly(Continuation(c) + CRLF)
    decreases |c|
  {
    if c == [] {
      CrlfOnlyBreak([]);
      assert Continuation(c) + CRLF == CRLF + [];
    } else {
      var n := if |c| <= ChunkWidth then |c| else ChunkWidth;
      ContinuationHead(c, n);
      AbsentFromSlices(c, n, CR);
      AbsentFromSlices(c, n, LF);
      var t := Continuation(c[n..]);
      ContinuationCrlfOnly(c[n..]);
      CrlfOnlyPlain(Indent + c[..n]);
      CrlfOnlyAppend(Indent + c[..n], t + CRLF);
      CrlfOnlyBreak(Indent + c[..n] + (t + CRLF));
      MarkerGlue(c[..n], t, Continuation(c));
    }
  }

  lemma MarkerGlue(chunk: string, t: string, whole: string)
    requires whole == FoldMarker + chunk + t
    ensures whole + CRLF == CRLF + (Indent + chunk + (t + CRLF))
  {
    assert FoldMarker == CRLF + Indent;
  }

  /** Lines `renormalize` can fold so that `denormalize` restores them: no line
      break inside a line, and no leading space that unfolding would swallow. */
  predicate Foldable(lines: seq<string>) {
    forall l :: l in lines ==> CR !in l && LF !in l && (l != [] ==> l[0] != ' ')
  }

  lemma FoldLineCrlfOnly(l: string)
    requires CR !in l && LF !in l
    ensures CrlfOnly(FoldLine(l))
  {
    if |l| <= FoldWidth {
      CrlfOnlyLineEnd(l);
    } else {
      AbsentFromSlices(l, FoldWidth, CR);
      AbsentFromSlices(l, FoldWidth, LF);
      CrlfOnlyPlain(l[..FoldWidth]);
      ContinuationCrlfOnly(l[FoldWidth..]);
      CrlfOnlyAppend(l[..FoldWidth], Continuation(l[FoldWidth..]) + CRLF);
      assert FoldLine(l) == l[..FoldWidth] + (Continuation(l[FoldWidth..]) + CRLF);
    }
  }

  lemma {:induction false} FoldedCrlfOnly(lines: seq<string>)
    requires Foldable(lines)
    ensures CrlfOnly(Folded(lines))
    decreases |lines|
  {
    if lines != [] {
      assert lines[0] in lines;
      assert forall m :: m in lines[1..] ==> m in lines;
      FoldedCrlfOnly(lines[1..]);
      FoldLineCrlfOnly(lines[0]);
      CrlfOnlyAppend(FoldLine(lines[0]), Folded(lines[1..]));
    }
  }

  /** The logical lines, each followed by CRLF. */
  function Terminated(lines: seq<string>): string
    decreases |lines|
  {
    if lines == [] then [] else lines[0] + CRLF + Terminated(lines[1..])
  }

  /** A line break that is not followed by a space stays. */
  lemma UnfoldLineEnd(rest: string)
    requires rest == [] || rest[0] != ' '
    ensures Unfold(CRLF + rest) == CRLF + Unfold(rest)
  {
    if rest == [] {
      assert CRLF + rest == CRLF;
    } else {
      var s := CRLF + rest;
      assert s[..3][2] == rest[0];
      ReplaceAllMiss(s, FoldMarker, "");
      assert s[1..] == [LF] + rest;
      ReplaceAllHead([LF] + rest, FoldMarker, "");
      assert ([LF] + rest)[1..] == rest;
      Reassociate([CR], [LF], Unfold(rest), Unfold(s), Unfold([LF] + rest));
      assert [CR] + [LF] == CRLF;
    }
  }

  /** A non-empty tail starts with the marker and its first run. */
  lemma ContinuationHead(c: string, n: nat)
    requires c != [] && n == (if |c| <= ChunkWidth then |c| else ChunkWidth)
    ensures Continuation(c) == FoldMarker + c[..n] + Continuation(c[n..])
  {
    if |c| <= ChunkWidth {
      ContinuationShort(c);
    }
  }

  lemma ContinuationShort(c: string)
    requires c != [] && |c| <= ChunkWidth
    ensures Continuation(c) == FoldMarker + c[..|c|] + Continuation(c[|c|..])
  {
    assert c[..|c|] == c;
    assert c[|c|..] == [];
    assert Continuation([]) == [];
  }

  lemma ContinuationFirst(c: string, n: nat, rest: string)
    requires c != [] && n == (if |c| <= ChunkWidth then |c| else ChunkWidth)
    ensures Continuation(c) + CRLF + rest == FoldMarker + (c[..n] + (Continuation(c[n..]) + CRLF + rest))
  {
    ContinuationHead(c, n);
    Regroup(FoldMarker, c[..n], Continuation(c[n..]), CRLF, rest);
  }

  lemma Regroup(a: string, b: string, c: string, d: string, e: string)
    ensures a + b + c + d + e == a + (b + (c + d + e))
  {
  }

  /** Unfolding removes the marker in front of the first run of a tail. */
  lemma UnfoldContinuationFirst(c: string, rest: string, n: nat)
    requires CR !in c && c != [] && n == (if |c| <= ChunkWidth then |c| else ChunkWidth)
    ensures Unfold(Continuation(c) + CRLF + rest) == c[..n] + Unfold(Continuation(c[n..]) + CRLF + rest)
  {
    AbsentFromSlices(c, n, CR);
    ContinuationFirst(c, n, rest);
    UnfoldMarker(c[..n], Continuation(c[n..]) + CRLF + rest);
  }

  lemma UnfoldMarker(chunk: string, after: string)
    requires CR !in chunk
    ensures Unfold(FoldMarker + (chunk + after)) == chunk + Unfold(after)
  {
    ReplaceAllFront(chunk + after, FoldMarker, "");
    ReplaceAllSkip(chunk, after, FoldMarker, "");
  }

  lemma {:induction false} UnfoldContinuation(c: string, rest: string)
    requires CR !in c
    requires rest == [] || rest[0] != ' '
    ensures Unfold(Continuation(c) + CRLF + rest) == c + CRLF + Unfold(rest)
    decreases |c|
  {
    if c == [] {
      assert Continuation(c) + CRLF + rest == CRLF + rest;
      UnfoldLineEnd(rest);
    } else {
      var n := if |c| <= ChunkWidth then |c| else ChunkWidth;
      UnfoldContinuationFirst(c, rest, n);
      AbsentFromSlices(c, n, CR);
      UnfoldContinuation(c[n..], rest);
      Rejoin(c, n, Unfold(rest), Unfold(Continuation(c)     + CRLF + rest),
                                 Unfold(Continuation(c[n..]) + CRLF + rest));
    }
  }

  /** Glue for the inductive step above, stated on opaque values. */
  lemma Rejoin(c: string, n: nat, u: string, whole: string, tail: string)
    requires n <= |c|
    requires whole == c[..n] + tail && tail == c[n..] + CRLF + u
    ensures whole == c + CRLF + u
  {
    assert c == c[..n] + c[n..];
  }

  /** Unfolding one folded line gives back the line and its CRLF. */
  lemma UnfoldFoldLine(l: string, rest: string)
    requires CR !in l
    requires rest == [] || rest[0] != ' '
    ensures Unfold(FoldLine(l) + rest) == l + CRLF + Unfold(rest)
  {
    if |l| <= FoldWidth {
      UnfoldShortLine(l, rest);
    } else {
      UnfoldLongLine(l, rest);
    }
  }

  lemma UnfoldShortLine(l: string, rest: string)
    requires CR !in l && |l| <= FoldWidth
    requires rest == [] || rest[0] != ' '
    ensures Unfold(FoldLine(l) + rest) == l + CRLF + Unfold(rest)
  {
    assert FoldLine(l) + rest == l + (CRLF + rest);
    ReplaceAllSkip(l, CRLF + rest, FoldMarker, "");
    UnfoldLineEnd(rest);
    Reassociate(l, CRLF, Unfold(rest), Unfold(FoldLine(l) + rest), Unfold(CRLF + rest));
  }

  lemma UnfoldLongLine(l: string, rest: string)
    requires CR !in l && |l| > FoldWidth
    requires rest == [] || rest[0] != ' '
    ensures Unfold(FoldLine(l) + rest) == l + CRLF + Unfold(rest)
  {
    AbsentFromSlices(l, FoldWidth, CR);
    var after := Continuation(l[FoldWidth..]) + CRLF + rest;
    assert FoldLine(l) + rest == l[..FoldWidth] + after;
    ReplaceAllSkip(l[..FoldWidth], after, FoldMarker, "");
    UnfoldContinuation(l[FoldWidth..], rest);
    Rejoin(l, FoldWidth, Unfold(rest), Unfold(FoldLine(l) + rest), Unfold(after));
  }

  /** Folded text never starts with the indent. */
  lemma FoldedStart(lines: seq<string>)
    requires Foldable(lines)
    ensures Folded(lines) == [] || Folded(lines)[0] != ' '
  {
    if lines != [] {
      var n := lines[0];
      assert n in lines;
      if |n| <= FoldWidth {
        assert Folded(lines)[0] == (if n == [] then CR else n[0]);
      } else {
        assert Folded(lines)[0] == n[0];
      }
    }
  }

  lemma {:induction false} UnfoldFolded(lines: seq<string>)
    requires Foldable(lines)
    ensures Unfold(Folded(lines)) == Terminated(lines)
    decreases |lines|
  {
    if lines == [] {
      assert Unfold([]) == [];
    } else {
      assert lines[0] in lines;
      assert forall m :: m in lines[1..] ==> m in lines;
      UnfoldFolded(lines[1..]);
      FoldedStart(lines[1..]);
      UnfoldFoldLine(lines[0], Folded(lines[1..]));
    }
  }

  lemma {:induction false} SplitTerminated(lines: seq<string>)
    requires forall l :: l in lines ==> CR !in l
    ensures Split(Terminated(lines), CRLF) == lines + [""]
    decreases |lines|
  {
    if lines == [] {
      assert Split([], CRLF) == [[]];
    } else {
      assert forall m :: m in lines[1..] ==> m in lines;
      SplitTerminated(lines[1..]);
      assert Terminated(lines) == lines[0] + CRLF + Terminated(lines[1..]);
      SplitAfter(lines[0], Terminated(lines[1..]), CRLF);
      ConsGlue(lines, [""], Split(Terminated(lines), CRLF), Split(Terminated(lines[1..]), CRLF));
    }
  }

  /** `denormalize` undoes `renormalize`: the folded output of lines without
      line breaks and leading spaces reads back as the same lines followed by
      the empty line after the final CRLF. */
  lemma DenormalizeFolded(lines: seq<string>)
    requires Foldable(lines)
    ensures Denormalize(Folded(lines)) == lines + [""]
  {
    FoldedCrlfOnly(lines);
    CanonicalEndingsFixed(Folded(lines));
    UnfoldFolded(lines);
    SplitTerminated(lines);
  }

  // ---------------------------------------------------------------------------
  // Input with bare LF line endings

  /** Lines each ended by a bare LF, as a calendar written on Unix. */
  function LfTerminated(lines: seq<string>): string
    decreases |lines|
  {
    if lines == [] then [] else lines[0] + "\n" + LfTerminated(lines[1..])
  }

  lemma {:induction false} LfTerminatedNoCr(lines: seq<string>)
    requires forall l :: l in lines ==> CR !in l
    ensures CR !in LfTerminated(lines)
    decreases |lines|
  {
    if lines != [] {
      assert lines[0] in lines;
      assert forall m :: m in lines[1..] ==> m in lines;
      LfTerminatedNoCr(lines[1..]);
    }
  }

  /** Text without CR holds no CRLF to rewrite. */
  lemma NoCrFixed(s: string, rep: string)
    requires CR !in s
    ensures ReplaceAll(s, CRLF, rep) == s
  {
    ReplaceAllSkip(s, [], CRLF, rep);
    assert s + [] == s;
  }

  /** Step 2 of `denormalize` turns every bare LF into CRLF. */
  lemma {:induction false} LfToCrlf(lines: seq<string>)
    requires forall l :: l in lines ==> LF !in l
    ensures ReplaceAll(LfTerminated(lines), "\n", CRLF) == Terminated(lines)
    decreases |lines|
  {
    if lines != [] {
      var l, rest := lines[0], lines[1..];
      var tail := LfTerminated(rest);
      assert l in lines;
      assert forall m :: m in rest ==> m in lines;
      LfToCrlf(rest);
      LfTerminatedCons(lines);
      ReplaceAllSkip(l, "\n" + tail, "\n", CRLF);
      ReplaceAllFront(tail, "\n", CRLF);
      TerminatedCons(lines);
    }
  }

  lemma LfTerminatedCons(lines: seq<string>)
    requires lines != []
    ensures LfTerminated(lines) == lines[0] + ("\n" + LfTerminated(lines[1..]))
  {
  }

  lemma LfCanonical(lines: seq<string>)
    requires Foldable(lines)
    ensures CanonicalEndings(LfTerminated(lines)) == Terminated(lines)
  {
    LfTerminatedNoCr(lines);
    NoCrFixed(LfTerminated(lines), "\n");
    LfToCrlf(lines);
  }

  /** Lines without line breaks and leading spaces hold nothing to unfold. */
  lemma {:induction false} UnfoldTerminated(lines: seq<string>)
    requires Foldable(lines)
    ensures Unfold(Terminated(lines)) == Terminated(lines)
    decreases |lines|
  {
    if lines == [] {
      assert Unfold([]) == [];
    } else {
      var l, tail := lines[0], Terminated(lines[1..]);
      assert l in lines;
      assert forall m :: m in lines[1..] ==> m in lines;
      UnfoldTerminated(lines[1..]);
      TerminatedCons(lines);
      assert FoldMarker[0] == CR;
      ReplaceAllSkip(l, CRLF + tail, FoldMarker, "");
      TerminatedStart(lines[1..]);
      UnfoldLineEnd(tail);
      Reassociate(l, CRLF, tail, Unfold(Terminated(lines)), Unfold(CRLF + tail));
    }
  }

  lemma TerminatedCons(lines: seq<string>)
    requires lines != []
    ensures Terminated(lines) == lines[0] + (CRLF + Terminated(lines[1..]))
  {
  }

  lemma TerminatedStart(lines: seq<string>)
    requires Foldable(lines)
    ensures Terminated(lines) == [] || Terminated(lines)[0] != ' '
  {
    if lines != [] {
      assert lines[0] in lines;
      assert Terminated(lines)[0] == (if lines[0] == [] then CR else lines[0][0]);
    }
  }

  /** `denormalize` reads LF-ended lines without line breaks and leading
      spaces back as the same lines followed by the final empty line. */
  lemma DenormalizeLfTerminated(lines: seq<string>)
    requires Foldable(lines)
    ensures Denormalize(LfTerminated(lines)) == lines + [""]
  {
    LfCanonical(lines);
    UnfoldTerminated(lines);
    SplitTerminated(lines);
  }
}
