/** The success-or-error value that stands for Go's `(value, error)` return pairs. */
module Results {

  datatype Result<T, E> = Ok(value: T) | Err(error: E)

  datatype Option<T> = None | Some(value: T)
}

/**
 * Models of the Go standard-library text routines that the iCalendar core
 * calls: `strings.SplitN(line, ":", 2)` through the search `Index`,
 * `strings.Split` (with `Join`, its inverse), `bytes.ReplaceAll`,
 * `strings.HasPrefix` and `strconv.Itoa`. Text is a sequence of characters and
 * every character stands for one byte (the core only handles ASCII).
 */
module GoText {

  const CR: char := '\r'
  const LF: char := '\n'
  const CRLF: string := "\r\n"

  /** `pat` occurs in `s` starting at position `i`. */
  predicate OccursAt(s: string, pat: string, i: nat) {
    i + |pat| <= |s| && s[i..i + |pat|] == pat
  }

  lemma OccursAtShift(s: string, pat: string, i: nat)
    requires |s| >= 1
    ensures OccursAt(s[1..], pat, i) <==> OccursAt(s, pat, i + 1)
  {
    if i + |pat| <= |s[1..]| {
      assert s[1..][i..i + |pat|] == s[i + 1..i + 1 + |pat|];
    }
  }

  /** `strings.Index`: the first position at which `pat` occurs in `s`, or -1.
      `IndexSpec` states what the position means. */
  function Index(s: string, pat: string): (k: int)
    requires pat != []
    ensures -1 <= k && (k >= 0 ==> k + |pat| <= |s|)
    decreases |s|
  {
    if |s| < |pat| then -1
    else if s[..|pat|] == pat then 0
    else
      var k := Index(s[1..], pat);
      if k < 0 then -1 else k + 1
  }

  /** `Index` finds the leftmost occurrence, and -1 means there is none. */
  lemma {:induction false} IndexSpec(s: string, pat: string)
    requires pat != []
    ensures var k := Index(s, pat);
      && (k >= 0 ==> OccursAt(s, pat, k))
      && (k >= 0 ==> forall i: nat :: i < k ==> !OccursAt(s, pat, i))
      && (k < 0 ==> forall i: nat :: !OccursAt(s, pat, i))
    decreases |s|
  {
    if |s| >= |pat| && s[..|pat|] != pat {
      IndexSpec(s[1..], pat);
      forall i: nat | i >= 1 ensures OccursAt(s, pat, i) <==> OccursAt(s[1..], pat, i - 1) {
        OccursAtShift(s, pat, i - 1);
      }
      assert !OccursAt(s, pat, 0);
    }
  }

  /** A single-character pattern occurs exactly where that character stands. */
  lemma IndexOfChar(s: string, c: char)
    ensures Index(s, [c]) >= 0 <==> c in s
    ensures Index(s, [c]) >= 0 ==> s[Index(s, [c])] == c && c !in s[..Index(s, [c])]
  {
    var k := Index(s, [c]);
    IndexSpec(s, [c]);
    if c in s {
      var i :| 0 <= i < |s| && s[i] == c;
      assert s[i..i + 1] == [c];
      assert OccursAt(s, [c], i);
    }
    if k >= 0 {
      assert s[k..k + 1] == [c];
      assert s[k] == c;
      forall i | 0 <= i < k ensures s[..k][i] != c {
        assert !OccursAt(s, [c], i);
        assert s[i..i + 1] == [s[i]];
      }
    }
  }

  /** `strings.Split` with a non-empty separator: the pieces between successive
      leftmost occurrences of `sep`; text without `sep` is a single piece. */
  function Split(s: string, sep: string): (pieces: seq<string>)
    requires sep != []
    ensures |pieces| >= 1
    decreases |s|
  {
    var k := Index(s, sep);
    if k < 0 then [s] else [s[..k]] + Split(s[k + |sep|..], sep)
  }

  /** `strings.Join`, the inverse of `Split`. */
  function Join(pieces: seq<string>, sep: string): string
    decreases |pieces|
  {
    if pieces == [] then []
    else if |pieces| == 1 then pieces[0]
    else pieces[0] + sep + Join(pieces[1..], sep)
  }

  /** The text before the first occurrence of `sep` does not contain `sep`. */
  lemma IndexPrefixFree(s: string, sep: string)
    requires sep != [] && Index(s, sep) >= 0
    ensures Index(s[..Index(s, sep)], sep) < 0
  {
    var k := Index(s, sep);
    var t := s[..k];
    IndexSpec(s, sep);
    IndexSpec(t, sep);
    forall i: nat | i < k ensures !OccursAt(t, sep, i) {
      assert !OccursAt(s, sep, i);
      if i + |sep| <= |t| {
        assert t[i..i + |sep|] == s[i..i + |sep|];
      }
    }
  }

  lemma SliceAround(s: string, k: nat, n: nat)
    requires k + n <= |s|
    ensures s == s[..k] + s[k..k + n] + s[k + n..]
  {
  }

  lemma JoinCons(p: string, pieces: seq<string>, sep: string)
    requires pieces != []
    ensures Join([p] + pieces, sep) == p + sep + Join(pieces, sep)
  {
    assert ([p] + pieces)[1..] == pieces;
  }

  /** The first occurrence of a character is where `Index` finds it. */
  lemma IndexOfFirst(s: string, c: char, i: nat)
    requires i < |s| && s[i] == c && c !in s[..i]
    ensures Index(s, [c]) == i
  {
    IndexSpec(s, [c]);
    assert s[i..i + 1] == [c];
    assert OccursAt(s, [c], i);
    var k := Index(s, [c]);
    assert s[k..k + 1] == [c];
  }

  /** Text with an occurrence of `sep` is the text before it, `sep` and the
      text after it. */
  lemma IndexCut(s: string, sep: string)
    requires sep != [] && Index(s, sep) >= 0
    ensures s == s[..Index(s, sep)] + sep + s[Index(s, sep) + |sep|..]
  {
    var k := Index(s, sep);
    IndexSpec(s, sep);
    assert s[k..k + |sep|] == sep;
    SliceAround(s, k, |sep|);
  }

  /** Splitting and joining again gives back the original text. */
  lemma {:induction false} SplitJoin(s: string, sep: string)
    requires sep != []
    ensures Join(Split(s, sep), sep) == s
    decreases |s|
  {
    var k := Index(s, sep);
    if k >= 0 {
      var head := s[..k];
      var rest := s[k + |sep|..];
      var pieces := Split(rest, sep);
      assert Split(s, sep) == [head] + pieces;
      SplitJoin(rest, sep);
      JoinCons(head, pieces, sep);
      IndexCut(s, sep);
    } else {
      assert Split(s, sep) == [s];
    }
  }

  /** No piece of a split contains the separator. */
  lemma {:induction false} SplitPiecesFree(s: string, sep: string)
    requires sep != []
    ensures forall p :: p in Split(s, sep) ==> Index(p, sep) < 0
    decreases |s|
  {
    var k := Index(s, sep);
    if k >= 0 {
      var rest := s[k + |sep|..];
      SplitPiecesFree(rest, sep);
      IndexPrefixFree(s, sep);
      assert Split(s, sep) == [s[..k]] + Split(rest, sep);
    }
  }

  /** Text without the first character of `sep` in front of `sep` is the first
      piece of the split. */
  lemma SplitAfter(t: string, s: string, sep: string)
    requires sep != [] && sep[0] !in t
    ensures Split(t + sep + s, sep) == [t] + Split(s, sep)
  {
    var whole := t + sep + s;
    assert whole[|t|..|t| + |sep|] == sep;
    assert OccursAt(whole, sep, |t|);
    IndexSpec(whole, sep);
    forall i: nat | i < |t| ensures !OccursAt(whole, sep, i) {
      assert whole[i] == t[i];
    }
    var k := Index(whole, sep);
    assert k == |t|;
    assert whole[..k] == t;
    assert whole[k + |sep|..] == s;
  }

  /** A prefix with no LF is the first piece of a split at CRLF: every CRLF
      holds an LF, and the prefix's last character is followed by CR. */
  lemma SplitAfterLine(t: string, s: string)
    requires LF !in t
    ensures Split(t + CRLF + s, CRLF) == [t] + Split(s, CRLF)
  {
    var whole := t + CRLF + s;
    assert whole[|t|..|t| + 2] == CRLF;
    assert OccursAt(whole, CRLF, |t|);
    IndexSpec(whole, CRLF);
    forall i: nat | i < |t| ensures !OccursAt(whole, CRLF, i) {
      if i + 1 < |t| {
        assert whole[i + 1] == t[i + 1];
      } else {
        assert whole[i + 1] == CR;
      }
    }
    var k := Index(whole, CRLF);
    assert k == |t|;
    assert whole[..k] == t;
    assert whole[k + 2..] == s;
  }

  /** `bytes.ReplaceAll` / `strings.ReplaceAll` with a non-empty pattern: every
      leftmost non-overlapping occurrence of `pat` becomes `rep`. */
  function ReplaceAll(s: string, pat: string, rep: string): (r: string)
    requires pat != []
    ensures |rep| <= |pat| ==> |r| <= |s|
    decreases |s|
  {
    if |s| < |pat| then s
    else if s[..|pat|] == pat then rep + ReplaceAll(s[|pat|..], pat, rep)
    else [s[0]] + ReplaceAll(s[1..], pat, rep)
  }

  /** A first character that cannot start `pat` is copied. */
  lemma ReplaceAllHead(s: string, pat: string, rep: string)
    requires pat != [] && s != [] && s[0] != pat[0]
    ensures ReplaceAll(s, pat, rep) == [s[0]] + ReplaceAll(s[1..], pat, rep)
  {
    if |s| >= |pat| {
      assert s[..|pat|][0] != pat[0];
    }
  }

  /** A text that does not start with `pat` keeps its first character. */
  lemma ReplaceAllMiss(s: string, pat: string, rep: string)
    requires pat != [] && s != [] && !HasPrefix(s, pat)
    ensures ReplaceAll(s, pat, rep) == [s[0]] + ReplaceAll(s[1..], pat, rep)
  {
  }

  /** Glue that regroups a concatenation, stated on opaque values. */
  lemma Reassociate<T>(a: seq<T>, b: seq<T>, u: seq<T>, whole: seq<T>, mid: seq<T>)
    requires whole == a + mid && mid == b + u
    ensures whole == a + b + u
  {
  }

  /** Text that cannot start an occurrence of `pat` passes through unchanged. */
  lemma {:induction false} ReplaceAllSkip(t: string, s: string, pat: string, rep: string)
    requires pat != [] && pat[0] !in t
    ensures ReplaceAll(t + s, pat, rep) == t + ReplaceAll(s, pat, rep)
    decreases |t|
  {
    if t == [] {
      assert t + s == s;
    } else {
      assert t[0] in t;
      assert (t + s)[0] == t[0];
      ReplaceAllHead(t + s, pat, rep);
      assert (t + s)[1..] == t[1..] + s;
      assert forall c :: c in t[1..] ==> c in t;
      ReplaceAllSkip(t[1..], s, pat, rep);
      ConsGlue(t, ReplaceAll(s, pat, rep), ReplaceAll(t + s, pat, rep), ReplaceAll(t[1..] + s, pat, rep));
    }
  }

  /** Glue for a step that handles the first character of `t`. */
  lemma ConsGlue<T>(t: seq<T>, u: seq<T>, whole: seq<T>, tail: seq<T>)
    requires t != [] && whole == [t[0]] + tail && tail == t[1..] + u
    ensures whole == t + u
  {
    assert [t[0]] + t[1..] == t;
  }

  /** An occurrence of `pat` at the front is replaced. */
  lemma ReplaceAllFront(s: string, pat: string, rep: string)
    requires pat != []
    ensures ReplaceAll(pat + s, pat, rep) == rep + ReplaceAll(s, pat, rep)
  {
    assert (pat + s)[..|pat|] == pat;
    assert (pat + s)[|pat|..] == s;
  }

  /** Replacing in a joined text: when no piece contains the first character of
      `pat`, every separator `pat` is replaced and nothing else changes. */
  lemma {:induction false} ReplaceAllJoin(pieces: seq<string>, pat: string, rep: string)
    requires pat != []
    requires forall p :: p in pieces ==> pat[0] !in p
    ensures ReplaceAll(Join(pieces, pat), pat, rep) == Join(pieces, rep)
    decreases |pieces|
  {
    if |pieces| == 1 {
      ReplaceAllSkip(pieces[0], [], pat, rep);
      assert pieces[0] + [] == pieces[0];
    } else if |pieces| > 1 {
      var head := pieces[0];
      var tail := pieces[1..];
      var rest := Join(tail, pat);
      assert pieces == [head] + tail;
      JoinCons(head, tail, pat);
      JoinCons(head, tail, rep);
      assert Join(pieces, pat) == head + (pat + rest);
      ReplaceAllSkip(head, pat + rest, pat, rep);
      ReplaceAllFront(rest, pat, rep);
      assert forall p :: p in tail ==> p in pieces;
      ReplaceAllJoin(tail, pat, rep);
      Reassociate(head, rep, Join(tail, rep), ReplaceAll(Join(pieces, pat), pat, rep), rep + Join(tail, rep));
    }
  }

  /** Text in front of the first position where `pat` may occur is copied. */
  lemma {:induction false} ReplaceAllCopies(s: string, pat: string, rep: string, k: nat)
    requires pat != [] && k <= |s|
    requires forall i: nat :: i < k ==> !OccursAt(s, pat, i)
    ensures ReplaceAll(s, pat, rep) == s[..k] + ReplaceAll(s[k..], pat, rep)
    decreases k
  {
    if k == 0 {
      assert s[..0] + ReplaceAll(s[0..], pat, rep) == ReplaceAll(s, pat, rep);
    } else if |s| < |pat| {
      assert ReplaceAll(s[k..], pat, rep) == s[k..];
      assert s[..k] + s[k..] == s;
    } else {
      assert !OccursAt(s, pat, 0);
      var tail := s[1..];
      assert ReplaceAll(s, pat, rep) == [s[0]] + ReplaceAll(tail, pat, rep);
      forall i: nat | i < k - 1 ensures !OccursAt(tail, pat, i) {
        OccursAtShift(s, pat, i);
      }
      ReplaceAllCopies(tail, pat, rep, k - 1);
      assert tail[..k - 1] == s[1..k] && tail[k - 1..] == s[k..];
      assert [s[0]] + s[1..k] == s[..k];
      Reassociate([s[0]], s[1..k], ReplaceAll(s[k..], pat, rep),
                  ReplaceAll(s, pat, rep), ReplaceAll(tail, pat, rep));
    }
  }

  /** `ReplaceAll` is splitting on `pat` and joining with `rep`: every
      occurrence `Split` finds, and nothing else, is replaced. */
  lemma {:induction false} ReplaceAllSplit(s: string, pat: string, rep: string)
    requires pat != []
    ensures ReplaceAll(s, pat, rep) == Join(Split(s, pat), rep)
    decreases |s|
  {
    var k := Index(s, pat);
    IndexSpec(s, pat);
    if k < 0 {
      ReplaceAllCopies(s, pat, rep, |s|);
      assert s[..|s|] == s && ReplaceAll(s[|s|..], pat, rep) == [];
      assert Split(s, pat) == [s];
    } else {
      var rest := s[k + |pat|..];
      ReplaceAllCopies(s, pat, rep, k);
      var at := s[k..];
      assert at[..|pat|] == pat && at[|pat|..] == rest;
      assert ReplaceAll(at, pat, rep) == rep + ReplaceAll(rest, pat, rep);
      ReplaceAllSplit(rest, pat, rep);
      assert Split(s, pat) == [s[..k]] + Split(rest, pat);
      JoinCons(s[..k], Split(rest, pat), rep);
    }
  }

  /** When `s`, `pat` and `rep` all end with the character `c`, so does the
      result of the replacement. */
  lemma {:induction false} ReplaceAllKeepsLast(s: string, pat: string, rep: string, c: char)
    requires pat != [] && pat[|pat| - 1] == c
    requires rep != [] && rep[|rep| - 1] == c
    requires s != [] && s[|s| - 1] == c
    ensures var r := ReplaceAll(s, pat, rep); r != [] && r[|r| - 1] == c
    decreases |s|
  {
    if |s| >= |pat| {
      if s[..|pat|] == pat {
        if |s| > |pat| {
          ReplaceAllKeepsLast(s[|pat|..], pat, rep, c);
        }
      } else if |s| > 1 {
        ReplaceAllKeepsLast(s[1..], pat, rep, c);
      }
    }
  }

  /** `strings.HasPrefix`. */
  predicate HasPrefix(s: string, prefix: string): (b: bool)
    ensures b <==> |prefix| <= |s| && prefix + s[|prefix|..] == s
  {
    |prefix| <= |s| && s[..|prefix|] == prefix
  }

  predicate IsDigit(c: char) {
    '0' <= c <= '9'
  }

  predicate AllDigits(s: string) {
    forall i :: 0 <= i < |s| ==> IsDigit(s[i])
  }

  function DigitChar(d: nat): (c: char)
    requires d < 10
    ensures IsDigit(c)
  {
    (d + '0' as int) as char
  }

  /** `strconv.Itoa` for the non-negative values the core formats. */
  function Itoa(n: nat): (s: string)
    ensures |s| >= 1 && AllDigits(s)
    ensures s[0] == '0' <==> n == 0
    decreases n
  {
    if n < 10 then [DigitChar(n)] else Itoa(n / 10) + [DigitChar(n % 10)]
  }

  /** The value of a decimal numeral, the reference reading of `Itoa`'s output. */
  function DecimalValue(s: string): nat
    requires AllDigits(s)
    decreases |s|
  {
    if s == [] then 0
    else 10 * DecimalValue(s[..|s| - 1]) + (s[|s| - 1] as int - '0' as int)
  }

  /** `Itoa` writes the decimal numeral of its argument. */
  lemma {:induction false} ItoaValue(n: nat)
    ensures DecimalValue(Itoa(n)) == n
    decreases n
  {
    var s := Itoa(n);
    if n >= 10 {
      ItoaValue(n / 10);
      assert s[..|s| - 1] == Itoa(n / 10);
    } else {
      assert s[..0] == [];
    }
  }
}
