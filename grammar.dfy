/**
 * The grammar of one line of `git blame` output (BLAME_LINE_REGEX in
 * src/file_blame.rs).  A line has the shape
 *
 *   sha[gap] (author<pad>timestamp<pad>line) contents
 *
 * where the gap is any text without `(` (under the regex's `x` flag the
 * space written inside `(?: [^(]+)?` is not part of the pattern).
 * `Decompose` does what the regex's leftmost-first, greedy matching does:
 * the sha group takes up to 40 digits of the leading hex run, the gap runs
 * to the space before the first `(`, and the author is the LONGEST prefix
 * after that `(` that lets the rest of the line match.  `FormatLine` is the
 * inverse; the two are proved to round-trip.
 */
module BlameGrammar {
  import opened Wrappers

  datatype CharClass = Hex | Digit | Space

  /** `[0-9a-f]`, `\d` (ASCII digits only) and `[\ ]`. */
  predicate InClass(c: char, k: CharClass) {
    match k
    case Hex => '0' <= c <= '9' || 'a' <= c <= 'f'
    case Digit => '0' <= c <= '9'
    case Space => c == ' '
  }

  predicate AllIn(s: string, k: CharClass) {
    forall i :: 0 <= i < |s| ==> InClass(s[i], k)
  }

  function Spaces(n: nat): (s: string)
    ensures |s| == n && AllIn(s, Space)
  {
    if n == 0 then [] else [' '] + Spaces(n - 1)
  }

  /** Length of the longest prefix of `s` made of characters of class `k`. */
  function Span(s: string, k: CharClass): (n: nat)
    ensures n <= |s|
    ensures AllIn(s[..n], k)
    ensures n < |s| ==> !InClass(s[n], k)
  {
    if |s| > 0 && InClass(s[0], k) then 1 + Span(s[1..], k) else 0
  }

  /** Index of the first occurrence of `c` in `s`. */
  function IndexOf(s: string, c: char): (r: Option<nat>)
    ensures r.None? <==> c !in s
    ensures r.Some? ==> r.value < |s| && s[r.value] == c && c !in s[..r.value]
  {
    if |s| == 0 then None
    else if s[0] == c then Some(0)
    else
      match IndexOf(s[1..], c)
      case None => None
      case Some(i) =>
        assert s[..i + 1] == [s[0]] + s[1..][..i];
        Some(i + 1)
  }

  /** `DDDD-DD-DD DD:DD:DD ±DDDD`, position by position. */
  predicate TimestampCharOk(i: nat, c: char) {
    if i == 4 || i == 7 then c == '-'
    else if i == 10 || i == 19 then c == ' '
    else if i == 13 || i == 16 then c == ':'
    else if i == 20 then c == '+' || c == '-'
    else InClass(c, Digit)
  }

  predicate IsTimestamp(t: string) {
    |t| == 25 && forall i :: 0 <= i < 25 ==> TimestampCharOk(i, t[i])
  }

  /** `[^ ].*[^ ]`: at least two characters, no space at either end, and no
      line break in between (`.` does not match a newline). */
  predicate IsAuthor(a: string) {
    && |a| >= 2
    && a[0] != ' '
    && a[|a| - 1] != ' '
    && forall i :: 0 < i < |a| - 1 ==> a[i] != '\n'
  }

  /** `(\^?[0-9a-f]{4,40})`: the first capture group, boundary marker included. */
  predicate IsShaField(s: string) {
    var h := if |s| > 0 && s[0] == '^' then s[1..] else s;
    4 <= |h| <= 40 && AllIn(h, Hex)
  }

  /** Everything after the author: padding, timestamp, padding, line number,
      `) ` and the contents. */
  datatype Tail = Tail(authorPad: nat, timestamp: string, linePad: nat, lineNumber: string, contents: string)

  function FormatTail(x: Tail): string {
    Spaces(x.authorPad) + x.timestamp + Spaces(x.linePad) + x.lineNumber + ") " + x.contents
  }

  predicate TailOk(x: Tail) {
    && x.authorPad > 0
    && IsTimestamp(x.timestamp)
    && x.linePad > 0
    && |x.lineNumber| > 0
    && AllIn(x.lineNumber, Digit)
    && '\n' !in x.contents
  }

  /** Matches `[\ ]+ (timestamp) [\ ]+ (\d+) \) [\ ] (.*) $` against `t`.
      Each greedy repetition is followed by a character it cannot absorb, so
      taking the longest run is the only way to match. */
  function DecomposeTail(t: string): Option<Tail>
  {
    var a := Span(t, Space);
    if a == 0 || |t| < a + 25 || !IsTimestamp(t[a..a + 25]) then None
    else
      var u := t[a + 25..];
      var b := Span(u, Space);
      if b == 0 then None
      else
        var v := u[b..];
        var d := Span(v, Digit);
        if d == 0 || |v| < d + 2 || v[d] != ')' || v[d + 1] != ' ' || '\n' in v[d + 2..] then None
        else
          Some(Tail(a, t[a..a + 25], b, v[..d], v[d + 2..]))
  }

  /** What `DecomposeTail` accepts is exactly a formatted, well-formed tail. */
  lemma DecomposeTailSound(t: string)
    requires DecomposeTail(t).Some?
    ensures TailOk(DecomposeTail(t).value) && FormatTail(DecomposeTail(t).value) == t
  {
    var a := Span(t, Space);
    var u := t[a + 25..];
    var b := Span(u, Space);
    var v := u[b..];
    var d := Span(v, Digit);
    var x := DecomposeTail(t).value;
    assert x == Tail(a, t[a..a + 25], b, v[..d], v[d + 2..]);
    RunOfSpaces(t, a);
    RunOfSpaces(u, b);
    TailPieces(t, a, u, b, v, d);
    assert FormatTail(x) == t[..a] + t[a..a + 25] + u[..b] + v[..d] + ") " + v[d + 2..];
  }

  lemma RunOfSpaces(s: string, n: nat)
    requires n <= |s|
    requires AllIn(s[..n], Space)
    ensures s[..n] == Spaces(n)
  {
    forall i | 0 <= i < n ensures s[..n][i] == Spaces(n)[i] {
      assert InClass(s[..n][i], Space);
    }
  }

  lemma TailPieces(t: string, a: nat, u: string, b: nat, v: string, d: nat)
    requires a + 25 <= |t| && u == t[a + 25..]
    requires b <= |u| && v == u[b..]
    requires d + 2 <= |v| && v[d] == ')' && v[d + 1] == ' '
    ensures t == t[..a] + t[a..a + 25] + u[..b] + v[..d] + ") " + v[d + 2..]
  {
    var w := v[d + 2..];
    assert v[d..] == ") " + w;
    SplitSeq(v, d);
    SplitSeq(u, b);
    SplitSeq(t, a + 25);
    assert t[..a + 25] == t[..a] + t[a..a + 25];
    Concat6(t[..a], t[a..a + 25], u[..b], v[..d], ") ", w);
  }

  lemma Concat6(p1: string, p2: string, p3: string, p4: string, p5: string, p6: string)
    ensures (p1 + p2) + (p3 + (p4 + (p5 + p6))) == p1 + p2 + p3 + p4 + p5 + p6
  {
  }

  lemma {:induction false} SpanOfPrefix(p: string, s: string, k: CharClass)
    requires AllIn(p, k)
    requires |s| > 0 && !InClass(s[0], k)
    ensures Span(p + s, k) == |p|
  {
    if |p| > 0 {
      assert (p + s)[1..] == p[1..] + s;
      SpanOfPrefix(p[1..], s, k);
    }
  }

  lemma {:induction false} TailRoundTrip(x: Tail)
    requires TailOk(x)
    ensures DecomposeTail(FormatTail(x)) == Some(x)
  {
    var a, b, d := x.authorPad, x.linePad, |x.lineNumber|;
    var v := x.lineNumber + (") " + x.contents);
    var u := Spaces(b) + v;
    var t := FormatTail(x);
    TailRegroup(x);
    TailFirstRun(a, x.timestamp, u);
    TailSecondRun(x, u, v);
    TailDigits(x, v);
    DecomposeTailAccepts(t, a, u, b, v, d);
  }

  lemma TailFirstRun(a: nat, ts: string, u: string)
    requires a > 0 && |ts| == 25 && InClass(ts[0], Digit)
    ensures Span(Spaces(a) + (ts + u), Space) == a
    ensures (Spaces(a) + (ts + u))[a..a + 25] == ts && (Spaces(a) + (ts + u))[a + 25..] == u
  {
    assert ts[0] == (ts + u)[0];
    SpanOfPrefix(Spaces(a), ts + u, Space);
    assert (Spaces(a) + (ts + u))[a..] == ts + u;
  }

  /** `FormatTail`, grouped from the right. */
  lemma TailRegroup(x: Tail)
    ensures FormatTail(x) == Spaces(x.authorPad) + (x.timestamp + (Spaces(x.linePad) + (x.lineNumber + (") " + x.contents))))
  {
  }

  lemma TailSecondRun(x: Tail, u: string, v: string)
    requires |x.lineNumber| > 0 && InClass(x.lineNumber[0], Digit)
    requires v == x.lineNumber + (") " + x.contents) && u == Spaces(x.linePad) + v
    ensures Span(u, Space) == x.linePad && u[x.linePad..] == v
  {
    assert x.lineNumber[0] == v[0];
    SpanOfPrefix(Spaces(x.linePad), v, Space);
  }

  lemma TailDigits(x: Tail, v: string)
    requires AllIn(x.lineNumber, Digit)
    requires v == x.lineNumber + (") " + x.contents)
    ensures Span(v, Digit) == |x.lineNumber| && v[..|x.lineNumber|] == x.lineNumber
    ensures v[|x.lineNumber|] == ')' && v[|x.lineNumber| + 1] == ' ' && v[|x.lineNumber| + 2..] == x.contents
  {
    SpanOfPrefix(x.lineNumber, ") " + x.contents, Digit);
  }

  /** The successful path through `DecomposeTail`, given the three runs. */
  lemma DecomposeTailAccepts(t: string, a: nat, u: string, b: nat, v: string, d: nat)
    requires Span(t, Space) == a > 0 && a + 25 <= |t| && IsTimestamp(t[a..a + 25])
    requires u == t[a + 25..] && Span(u, Space) == b > 0
    requires v == u[b..] && Span(v, Digit) == d > 0
    requires d + 2 <= |v| && v[d] == ')' && v[d + 1] == ' ' && '\n' !in v[d + 2..]
    ensures DecomposeTail(t) == Some(Tail(a, t[a..a + 25], b, v[..d], v[d + 2..]))
  {
  }

  /** The author group can end at `k`: the text before `k` is an author and
      the text from `k` on matches the rest of the pattern. */
  predicate SplitsAt(body: string, k: nat)
    requires k <= |body|
  {
    IsAuthor(body[..k]) && DecomposeTail(body[k..]).Some?
  }

  datatype Body = Body(author: string, tail: Tail)

  /** The greedy author group: the longest author, at most `k` characters,
      after which the rest of the pattern matches. */
  function SearchAuthor(body: string, k: nat): Option<Body>
    requires k <= |body|
    decreases k
  {
    if k < 2 then None
    else if SplitsAt(body, k) then Some(Body(body[..k], DecomposeTail(body[k..]).value))
    else SearchAuthor(body, k - 1)
  }

  /** What the search returns is a split point at most `k`, with the
      author before it and the matched tail after it. */
  lemma {:induction false} SearchAuthorSound(body: string, k: nat)
    requires k <= |body|
    ensures
      var r := SearchAuthor(body, k);
      r.Some? ==>
        var n := |r.value.author|;
        && n <= k && SplitsAt(body, n)
        && r.value.author == body[..n]
        && DecomposeTail(body[n..]) == Some(r.value.tail)
    decreases k
  {
    if k >= 2 && !SplitsAt(body, k) {
      SearchAuthorSound(body, k - 1);
    }
  }

  /** The search is greedy and complete: no split point up to `k` lies
      beyond the author it returns, and when it returns nothing there is no
      split point up to `k` at all. */
  lemma {:induction false} SearchAuthorLongest(body: string, k: nat, j: nat)
    requires j <= k <= |body|
    requires SearchAuthor(body, k).Some? ==> |SearchAuthor(body, k).value.author| < j
    ensures !SplitsAt(body, j)
    decreases k
  {
    if k < 2 {
      assert |body[..j]| < 2;
    } else if j < k && !SplitsAt(body, k) {
      SearchAuthorLongest(body, k - 1, j);
    }
  }

  /** The fields of one blame line, as the regex sees them.  `shaField` is
      the first capture group and so keeps a boundary `^`.  `gap` is what the
      optional group `(?:[^(]+)?` takes between the sha and ` (`: under the
      `x` flag the space written at the start of that group is not part of
      the pattern, so the gap is any text without `(`.  In `git blame`
      output it is a space and the file name, when `git` prints one. */
  datatype LineLayout = LineLayout(shaField: string, gap: Option<string>, author: string, tail: Tail)

  /** 1 when `s` starts with the boundary marker `^`, else 0. */
  function MarkerLen(s: string): (m: nat)
    ensures m <= |s| && (m == 1 <==> |s| > 0 && s[0] == '^')
  {
    if |s| > 0 && s[0] == '^' then 1 else 0
  }

  function GapText(g: Option<string>): string {
    match g
    case None => ""
    case Some(text) => text
  }

  function FormatLine(l: LineLayout): string {
    l.shaField + GapText(l.gap) + " (" + l.author + FormatTail(l.tail)
  }

  /** The sha group and the gap: the gap is non-empty and has no `(`, and it
      starts with a hex digit only when the sha already holds the 40 digits
      the group can take. */
  predicate PrefixOk(sha: string, g: Option<string>) {
    && IsShaField(sha)
    && (g.Some? ==>
          && |g.value| > 0 && '(' !in g.value
          && (InClass(g.value[0], Hex) ==> |sha| - MarkerLen(sha) == 40))
  }

  predicate WellFormed(l: LineLayout) {
    && PrefixOk(l.shaField, l.gap)
    && IsAuthor(l.author)
    && TailOk(l.tail)
  }

  /** Matches BLAME_LINE_REGEX against `line`; `None` where the source's
      `captures(..).unwrap()` panics.  The greedy sha group takes up to 40
      digits of the leading hex run.  Giving digits back to the gap never
      lets a failed match succeed: the first `(` after the sha, and the
      character before it, stay the same. */
  function Decompose(line: string): Option<LineLayout> {
    var start := MarkerLen(line);
    var n := Span(line[start..], Hex);
    if n < 4 then None
    else
      var k := if n > 40 then 40 else n;
      DecomposeRest(line[..start + k], line[start + k..])
  }

  /** The gap and ` (`: the `(` is the first one after the sha, the
      character before it is a space, and the gap is what comes before that
      space. */
  function DecomposeRest(sha: string, rest: string): Option<LineLayout> {
    match IndexOf(rest, '(')
    case None => None
    case Some(p) =>
      if p == 0 || rest[p - 1] != ' ' then None
      else DecomposeBody(sha, if p == 1 then None else Some(rest[..p - 1]), rest[p + 1..])
  }

  /** The author (greedy) and everything after it. */
  function DecomposeBody(sha: string, g: Option<string>, body: string): Option<LineLayout> {
    match SearchAuthor(body, |body|)
    case None => None
    case Some(found) => Some(LineLayout(sha, g, found.author, found.tail))
  }

  /** Whatever the matcher accepts is a well-formed layout that formats back
      to the line. */
  lemma DecomposeSound(line: string)
    ensures Decompose(line).Some? ==> WellFormed(Decompose(line).value) && FormatLine(Decompose(line).value) == line
  {
    var start := MarkerLen(line);
    var n := Span(line[start..], Hex);
    if n >= 4 {
      var k := if n > 40 then 40 else n;
      ShaFieldOk(line, start, n, k);
      SplitSeq(line, start + k);
      DecomposeRestSound(line[..start + k], line[start + k..]);
    }
  }

  lemma DecomposeRestSound(sha: string, rest: string)
    requires IsShaField(sha)
    requires |rest| > 0 && InClass(rest[0], Hex) ==> |sha| - MarkerLen(sha) == 40
    ensures var r := DecomposeRest(sha, rest);
      r.Some? ==> WellFormed(r.value) && FormatLine(r.value) == sha + rest
  {
    match IndexOf(rest, '(')
    case None =>
    case Some(p) =>
      if p > 0 && rest[p - 1] == ' ' {
        var g := if p == 1 then None else Some(rest[..p - 1]);
        var body := rest[p + 1..];
        assert DecomposeRest(sha, rest) == DecomposeBody(sha, g, body);
        GapShape(rest, p, body, g);
        DecomposeBodySound(sha, g, body);
        Regroup3(sha, GapText(g), " (", body, rest);
      }
  }

  lemma DecomposeBodySound(sha: string, g: Option<string>, body: string)
    requires PrefixOk(sha, g)
    ensures var r := DecomposeBody(sha, g, body);
      r.Some? ==> WellFormed(r.value) && FormatLine(r.value) == sha + GapText(g) + " (" + body
  {
    SearchAuthorSound(body, |body|);
    match SearchAuthor(body, |body|)
    case None =>
    case Some(found) =>
      BodySound(body, found);
      Regroup(sha + GapText(g) + " (", found.author, FormatTail(found.tail), body);
  }

  lemma Regroup(a: string, b: string, c: string, bc: string)
    requires bc == b + c
    ensures a + bc == a + b + c
  {
  }

  lemma Regroup3(a: string, b1: string, b2: string, c: string, bc: string)
    requires bc == b1 + b2 + c
    ensures a + bc == a + b1 + b2 + c
  {
  }

  lemma BodySound(body: string, found: Body)
    requires |found.author| <= |body| && found.author == body[..|found.author|]
    requires DecomposeTail(body[|found.author|..]) == Some(found.tail)
    ensures body == found.author + FormatTail(found.tail) && TailOk(found.tail)
  {
    DecomposeTailSound(body[|found.author|..]);
    SplitSeq(body, |found.author|);
  }

  lemma SplitSeq(s: string, k: nat)
    requires k <= |s|
    ensures s == s[..k] + s[k..]
  {
  }

  /** The first `k` digits of the hex run, with the marker, form a sha
      field; when the group stopped short of 40 digits, the run ended there. */
  lemma ShaFieldOk(line: string, start: nat, n: nat, k: nat)
    requires start == MarkerLen(line) && n == Span(line[start..], Hex) && 4 <= n
    requires k == if n > 40 then 40 else n
    ensures start + k <= |line|
    ensures IsShaField(line[..start + k]) && MarkerLen(line[..start + k]) == start
    ensures k < 40 && start + k < |line| ==> !InClass(line[start + k], Hex)
  {
    var sha := line[..start + k];
    assert sha[start..] == line[start..][..n][..k];
    if start == 0 {
      assert InClass(line[start..][..n][0], Hex);
    }
    if k < 40 && start + k < |line| {
      assert line[start + k] == line[start..][n];
    }
  }

  lemma GapShape(rest: string, p: nat, body: string, g: Option<string>)
    requires 1 <= p < |rest| && '(' !in rest[..p] && rest[p] == '(' && rest[p - 1] == ' '
    requires body == rest[p + 1..]
    requires g == if p == 1 then None else Some(rest[..p - 1])
    ensures rest == GapText(g) + " (" + body
    ensures g.Some? ==> |g.value| > 0 && '(' !in g.value && g.value[0] == rest[0]
  {
    assert rest[..p + 1] == rest[..p - 1] + " (";
    if p != 1 {
      var text := rest[..p - 1];
      forall i | 0 <= i < |text| ensures text[i] != '(' {
        assert text[i] == rest[..p][i];
      }
    } else {
      assert rest[..p - 1] == GapText(g);
    }
    assert rest == rest[..p + 1] + body;
  }

  // ---------------------------------------------------------------------
  // The inverse direction: formatting a layout and matching it again.
  // ---------------------------------------------------------------------

  /** The contents hold, at position `i`, text that the tail pattern would
      match if a space preceded it. */
  predicate TailFollowsAt(c: string, i: nat)
    requires i <= |c|
  {
    DecomposeTail([' '] + c[i..]).Some?
  }

  /** The contents give the greedy author group nothing to stretch over: no
      `<spaces>timestamp<spaces>digits) ` inside them. */
  predicate NoEmbeddedTail(c: string) {
    forall i :: 0 <= i <= |c| ==> !TailFollowsAt(c, i)
  }

  lemma SpanIs(s: string, n: nat, k: CharClass)
    requires n < |s| && AllIn(s[..n], k) && !InClass(s[n], k)
    ensures Span(s, k) == n
  {
    SplitSeq(s, n);
    SpanOfPrefix(s[..n], s[n..], k);
  }

  /** Position by position, what `FormatTail(x)` holds. */
  lemma TailIndex(x: Tail, k: nat)
    requires |x.timestamp| == 25 && k < |FormatTail(x)|
    ensures
      var a, b, L := x.authorPad, x.linePad, |x.lineNumber|;
      var P := a + 25 + b + L;
      FormatTail(x)[k] ==
        if k < a then ' '
        else if k < a + 25 then x.timestamp[k - a]
        else if k < a + 25 + b then ' '
        else if k < P then x.lineNumber[k - a - 25 - b]
        else if k == P then ')'
        else if k == P + 1 then ' '
        else x.contents[k - P - 2]
  {
    var a, b := x.authorPad, x.linePad;
    assert FormatTail(x) == Spaces(a) + (x.timestamp + (Spaces(b) + (x.lineNumber + (") " + x.contents))));
    assert k < a ==> InClass(Spaces(a)[k], Space);
    assert a + 25 <= k < a + 25 + b ==> InClass(Spaces(b)[k - a - 25], Space);
  }

  /** A tail can only start at a space, and needs a timestamp right after
      the first run of spaces. */
  lemma TailNeedsTimestamp(s: string)
    requires DecomposeTail(s).Some?
    ensures |s| > 0 && s[0] == ' '
    ensures Span(s, Space) + 25 <= |s| && IsTimestamp(s[Span(s, Space)..Span(s, Space) + 25])
  {
  }

  /** Without a timestamp right after its first run of spaces, a string is
      not a tail. */
  lemma NoTimestampAfterSpaces(s: string, b: nat)
    requires Span(s, Space) == b
    requires b == 0 || |s| < b + 25 || !IsTimestamp(s[b..b + 25])
    ensures DecomposeTail(s).None?
  {
  }

  /** Inside the timestamp, after its date or its time, no tail can start. */
  lemma NoTailInTimestamp(x: Tail, m: nat)
    requires TailOk(x) && x.authorPad < m < x.authorPad + 25
    ensures DecomposeTail(FormatTail(x)[m..]).None?
  {
    var T := FormatTail(x);
    var a := x.authorPad;
    var s := T[m..];
    TailIndex(x, m);
    if s[0] != ' ' {
      NoTimestampAfterSpaces(s, 0);
    } else {
      assert m - a == 10 || m - a == 19 by {
        assert TimestampCharOk(m - a, x.timestamp[m - a]);
      }
      TailIndex(x, m + 1);
      assert s[1] == x.timestamp[m - a + 1];
      assert TimestampCharOk(m - a + 1, s[1]);
      assert s[..1] == [' '];
      SpanIs(s, 1, Space);
      if |s| >= 26 {
        var ts := s[1..26];
        if m - a == 10 {
          TailIndex(x, m + 3);
          assert ts[2] == x.timestamp[13];
          assert !TimestampCharOk(2, ts[2]);
        } else {
          assert !TimestampCharOk(0, ts[0]);
        }
      }
      NoTimestampAfterSpaces(s, 1);
    }
  }

  /** Right after the timestamp, the line number stands where a second
      timestamp would have to be. */
  lemma NoTailAfterTimestamp(x: Tail)
    requires TailOk(x)
    ensures DecomposeTail(FormatTail(x)[x.authorPad + 25..]).None?
  {
    var u := Spaces(x.linePad) + (x.lineNumber + (") " + x.contents));
    TailRegroup(x);
    assert TimestampCharOk(0, x.timestamp[0]);
    TailFirstRun(x.authorPad, x.timestamp, u);
    NoTailAtLineNumber(x.linePad, x.lineNumber, x.contents);
  }

  /** Padding followed by a line number and `)` holds no timestamp: the
      25 characters after the padding reach a `)` or a fifth digit where the
      timestamp has its first `-`. */
  lemma NoTailAtLineNumber(b: nat, n: string, c: string)
    requires b > 0 && |n| > 0 && AllIn(n, Digit)
    ensures DecomposeTail(Spaces(b) + (n + (") " + c))).None?
  {
    var w := n + (") " + c);
    var s := Spaces(b) + w;
    assert w[0] == n[0];
    SpanOfPrefix(Spaces(b), w, Space);
    if b + 25 <= |s| {
      var ts := s[b..b + 25];
      assert ts == w[..25];
      if |n| >= 5 {
        assert ts[4] == n[4];
        assert !TimestampCharOk(4, ts[4]);
      } else {
        assert w[|n|] == ')';
        assert ts[|n|] == ')';
        assert !TimestampCharOk(|n|, ts[|n|]);
      }
    }
    NoTimestampAfterSpaces(s, b);
  }

  /** From the closing parenthesis on, a tail would have to lie inside the
      contents. */
  lemma NoTailInContents(x: Tail, m: nat)
    requires TailOk(x) && NoEmbeddedTail(x.contents)
    requires x.authorPad + 25 + x.linePad + |x.lineNumber| < m < |FormatTail(x)|
    requires FormatTail(x)[m] == ' '
    ensures DecomposeTail(FormatTail(x)[m..]).None?
  {
    var P := x.authorPad + 25 + x.linePad + |x.lineNumber|;
    var c := x.contents;
    var T := FormatTail(x);
    assert T == (Spaces(x.authorPad) + x.timestamp + Spaces(x.linePad) + x.lineNumber + ")") + (" " + c);
    assert T[P + 1..] == [' '] + c;
    var i := m - P - 1;
    assert T[m..] == [' '] + c[i..] by {
      if m > P + 1 {
        assert T[m..] == c[m - P - 2..];
        assert c[m - P - 2] == ' ';
      }
    }
    assert !TailFollowsAt(c, i);
  }

  /** No position past the real author can end the author group. */
  lemma NoTailInside(x: Tail, m: nat)
    requires TailOk(x) && NoEmbeddedTail(x.contents)
    requires 1 <= m <= |FormatTail(x)| && FormatTail(x)[m - 1] != ' '
    ensures DecomposeTail(FormatTail(x)[m..]).None?
  {
    var a, b, L := x.authorPad, x.linePad, |x.lineNumber|;
    var P := a + 25 + b + L;
    var T := FormatTail(x);
    TailIndex(x, m - 1);
    if m < |T| && T[m] == ' ' {
      TailIndex(x, m);
      assert a < m;
      if m < a + 25 {
        NoTailInTimestamp(x, m);
      } else if m == a + 25 {
        NoTailAfterTimestamp(x);
      } else {
        assert AllIn(x.lineNumber, Digit);
        assert P < m;
        NoTailInContents(x, m);
      }
    }
  }

  /** A split point with no later one is the one the search returns. */
  lemma SearchAuthorFinds(body: string, k: nat, n: nat)
    requires n <= k <= |body| && SplitsAt(body, n)
    requires forall j :: n < j <= k ==> !SplitsAt(body, j)
    ensures SearchAuthor(body, k) == Some(Body(body[..n], DecomposeTail(body[n..]).value))
  {
    SearchAuthorSound(body, k);
    var r := SearchAuthor(body, k);
    if r.None? || |r.value.author| < n {
      SearchAuthorLongest(body, k, n);
    }
    assert |r.value.author| == n;
  }

  /** In `author + FormatTail(x)` the greedy author group stops exactly at
      the end of `author`. */
  lemma AuthorIsLongest(author: string, x: Tail)
    requires IsAuthor(author) && TailOk(x) && NoEmbeddedTail(x.contents)
    ensures
      var body := author + FormatTail(x);
      SearchAuthor(body, |body|) == Some(Body(author, x))
  {
    var body := author + FormatTail(x);
    var n := |author|;
    assert body[..n] == author;
    assert body[n..] == FormatTail(x);
    TailRoundTrip(x);
    forall j | n < j <= |body| ensures !SplitsAt(body, j) {
      NoSplitInTail(author, x, j);
    }
    SearchAuthorFinds(body, |body|, n);
  }

  /** No point inside the tail splits `author + FormatTail(x)`. */
  lemma NoSplitInTail(author: string, x: Tail, j: nat)
    requires TailOk(x) && NoEmbeddedTail(x.contents)
    requires |author| < j <= |author + FormatTail(x)|
    ensures !SplitsAt(author + FormatTail(x), j)
  {
    var body := author + FormatTail(x);
    var m := j - |author|;
    assert body[j..] == FormatTail(x)[m..];
    if IsAuthor(body[..j]) {
      assert body[..j][j - 1] == FormatTail(x)[m - 1];
      NoTailInside(x, m);
    }
  }

  lemma IndexOfIs(s: string, c: char, p: nat)
    requires p < |s| && s[p] == c && c !in s[..p]
    ensures IndexOf(s, c) == Some(p)
  {
    assert c in s;
    var q := IndexOf(s, c).value;
    assert forall j :: 0 <= j < p ==> s[j] != c by {
      forall j | 0 <= j < p ensures s[j] != c {
        assert s[j] == s[..p][j];
      }
    }
    assert forall j :: 0 <= j < q ==> s[j] != c by {
      forall j | 0 <= j < q ensures s[j] != c {
        assert s[j] == s[..q][j];
      }
    }
  }

  /** A run of class `k` at the front of `p + s` is at least `p`. */
  lemma {:induction false} SpanAtLeast(p: string, s: string, k: CharClass)
    requires AllIn(p, k)
    ensures Span(p + s, k) >= |p|
  {
    if |p| > 0 {
      assert (p + s)[1..] == p[1..] + s;
      SpanAtLeast(p[1..], s, k);
    }
  }

  /** The sha group takes back exactly the sha: the hex run stops where the
      gap or ` (` begins, or, when the gap starts with a hex digit, runs past
      the 40 digits the group can take. */
  lemma ShaSpan(sha: string, rest: string)
    requires IsShaField(sha) && |rest| > 0
    requires InClass(rest[0], Hex) ==> |sha| - MarkerLen(sha) == 40
    ensures (sha + rest)[MarkerLen(sha)..] == sha[MarkerLen(sha)..] + rest
    ensures var n := Span((sha + rest)[MarkerLen(sha)..], Hex);
      4 <= n && (if n > 40 then 40 else n) == |sha| - MarkerLen(sha)
  {
    var start := MarkerLen(sha);
    if InClass(rest[0], Hex) {
      SpanAtLeast(sha[start..], rest, Hex);
    } else {
      SpanOfPrefix(sha[start..], rest, Hex);
    }
  }

  lemma DecomposeBodyFormat(l: LineLayout)
    requires WellFormed(l) && NoEmbeddedTail(l.tail.contents)
    ensures DecomposeBody(l.shaField, l.gap, l.author + FormatTail(l.tail)) == Some(l)
  {
    AuthorIsLongest(l.author, l.tail);
  }

  lemma DecomposeRestFormat(l: LineLayout)
    requires WellFormed(l) && NoEmbeddedTail(l.tail.contents)
    ensures DecomposeRest(l.shaField, GapText(l.gap) + " (" + (l.author + FormatTail(l.tail))) == Some(l)
  {
    DecomposeRestOf(l.shaField, l.gap, l.author + FormatTail(l.tail));
    DecomposeBodyFormat(l);
  }

  /** After the sha, a gap without `(` and ` (` hand the body on. */
  lemma DecomposeRestOf(sha: string, g: Option<string>, body: string)
    requires g.Some? ==> |g.value| > 0 && '(' !in g.value
    ensures DecomposeRest(sha, GapText(g) + " (" + body) == DecomposeBody(sha, g, body)
  {
    var rest := GapText(g) + " (" + body;
    var p := |GapText(g)| + 1;
    GapSplit(GapText(g), body);
    IndexOfIs(rest, '(', p);
  }

  /** Where the pieces of `text + " (" + body` sit. */
  lemma GapSplit(text: string, body: string)
    requires '(' !in text
    ensures var rest := text + " (" + body; var p := |text| + 1;
      && rest[p] == '(' && '(' !in rest[..p] && rest[p - 1] == ' '
      && rest[..p - 1] == text && rest[p + 1..] == body
  {
    var rest := text + " (" + body;
    var p := |text| + 1;
    assert rest[..p] == text + " ";
  }

  /** Formatting a well-formed layout and matching the regex against the
      result gives the layout back, provided the contents do not themselves
      look like the end of a blame header. */
  lemma {:induction false} DecomposeFormat(l: LineLayout)
    requires WellFormed(l) && NoEmbeddedTail(l.tail.contents)
    ensures Decompose(FormatLine(l)) == Some(l)
  {
    var rest := GapText(l.gap) + " (" + (l.author + FormatTail(l.tail));
    var line := l.shaField + rest;
    Regroup(l.shaField + GapText(l.gap) + " (", l.author, FormatTail(l.tail), l.author + FormatTail(l.tail));
    Regroup3(l.shaField, GapText(l.gap), " (", l.author + FormatTail(l.tail), rest);
    assert line == FormatLine(l);
    assert rest[0] == (if l.gap.Some? then l.gap.value[0] else ' ');
    ShaSpan(l.shaField, rest);
    var start := MarkerLen(l.shaField);
    var k := |l.shaField| - start;
    assert line[0] == l.shaField[0];
    assert line[..start + k] == l.shaField;
    assert line[start + k..] == rest;
    DecomposeAt(line, start, Span(line[start..], Hex), k);
    DecomposeRestFormat(l);
  }

  /** A hex run of an accepted length hands the rest of the line on. */
  lemma DecomposeAt(line: string, start: nat, n: nat, k: nat)
    requires start == MarkerLen(line) && n == Span(line[start..], Hex) && 4 <= n
    requires k == if n > 40 then 40 else n
    ensures start + k <= |line|
    ensures Decompose(line) == DecomposeRest(line[..start + k], line[start + k..])
  {
  }

  /** Contents without a closing parenthesis can never be mistaken for the
      end of a header. */
  lemma NoParenNoEmbeddedTail(c: string)
    requires ')' !in c
    ensures NoEmbeddedTail(c)
  {
    forall i | 0 <= i <= |c| ensures !TailFollowsAt(c, i) {
      var s := [' '] + c[i..];
      if DecomposeTail(s).Some? {
        DecomposeTailSound(s);
        var x := DecomposeTail(s).value;
        TailIndex(x, x.authorPad + 25 + x.linePad + |x.lineNumber|);
        assert false;
      }
    }
  }

  /** The round trip for contents without a closing parenthesis. */
  lemma DecomposeFormatNoParen(l: LineLayout, line: string)
    requires WellFormed(l) && ')' !in l.tail.contents && FormatLine(l) == line
    ensures Decompose(line) == Some(l)
  {
    NoParenNoEmbeddedTail(l.tail.contents);
    DecomposeFormat(l);
  }

  /** The line from the source's own comment above the regex. */
  lemma ExampleLine(line: string)
    requires line == "1e1d1c3c" + " (" + "John Doe"
      + (" " + "2019-01-01 12:00:00 -0400" + " " + "142" + ") " + "This is the code")
    ensures Decompose(line)
      == Some(LineLayout("1e1d1c3c", None, "John Doe",
           Tail(1, "2019-01-01 12:00:00 -0400", 1, "142", "This is the code")))
  {
    var l := LineLayout("1e1d1c3c", None, "John Doe",
      Tail(1, "2019-01-01 12:00:00 -0400", 1, "142", "This is the code"));
    ExampleLineOk();
    ExampleLineText(l, line);
    DecomposeFormatNoParen(l, line);
  }

  lemma ExampleLineTimestamp()
    ensures IsTimestamp("2019-01-01 12:00:00 -0400")
  {
  }

  lemma ExampleBoundaryTimestamp()
    ensures IsTimestamp("2021-12-31 23:59:59 +0100")
  {
  }

  lemma ExampleLineOk()
    ensures WellFormed(LineLayout("1e1d1c3c", None, "John Doe",
      Tail(1, "2019-01-01 12:00:00 -0400", 1, "142", "This is the code")))
    ensures ')' !in "This is the code"
  {
    assert IsShaField("1e1d1c3c");
    assert IsAuthor("John Doe");
    ExampleLineTimestamp();
    assert AllIn("142", Digit);
    PlainText("This is the code");
  }

  /** Letters and spaces only: no line break and no parenthesis. */
  lemma PlainText(s: string)
    requires forall i :: 0 <= i < |s| ==> s[i] == ' ' || 'a' <= s[i] <= 'z' || 'A' <= s[i] <= 'Z'
    ensures '\n' !in s && ')' !in s
  {
  }

  lemma ExampleLineText(l: LineLayout, line: string)
    requires line == "1e1d1c3c" + " (" + "John Doe"
      + (" " + "2019-01-01 12:00:00 -0400" + " " + "142" + ") " + "This is the code")
    requires l == LineLayout("1e1d1c3c", None, "John Doe",
      Tail(1, "2019-01-01 12:00:00 -0400", 1, "142", "This is the code"))
    ensures FormatLine(l) == line
  {
    assert Spaces(1) == " ";
    assert "1e1d1c3c" + GapText(None) == "1e1d1c3c";
  }

  /** A boundary commit keeps its `^` in the first group; the space and
      file name `git` prints after it fill the gap, and a wider padding is
      picked up as well. */
  lemma ExampleBoundaryLine(line: string)
    requires line == "^4bd7a2f" + " src/main.rs" + " (" + "Jane Roe"
      + ("  " + "2021-12-31 23:59:59 +0100" + "  " + "7" + ") " + "}")
    ensures Decompose(line)
      == Some(LineLayout("^4bd7a2f", Some(" src/main.rs"), "Jane Roe",
           Tail(2, "2021-12-31 23:59:59 +0100", 2, "7", "}")))
  {
    var l := LineLayout("^4bd7a2f", Some(" src/main.rs"), "Jane Roe",
      Tail(2, "2021-12-31 23:59:59 +0100", 2, "7", "}"));
    ExampleBoundaryOk();
    ExampleBoundaryText(l, line);
    DecomposeFormatNoParen(l, line);
  }

  lemma ExampleBoundaryOk()
    ensures WellFormed(LineLayout("^4bd7a2f", Some(" src/main.rs"), "Jane Roe",
      Tail(2, "2021-12-31 23:59:59 +0100", 2, "7", "}")))
    ensures ')' !in "}"
  {
    assert IsShaField("^4bd7a2f");
    assert '(' !in " src/main.rs";
    assert IsAuthor("Jane Roe");
    ExampleBoundaryTimestamp();
    assert AllIn("7", Digit);
  }

  lemma ExampleBoundaryText(l: LineLayout, line: string)
    requires line == "^4bd7a2f" + " src/main.rs" + " (" + "Jane Roe"
      + ("  " + "2021-12-31 23:59:59 +0100" + "  " + "7" + ") " + "}")
    requires l == LineLayout("^4bd7a2f", Some(" src/main.rs"), "Jane Roe",
      Tail(2, "2021-12-31 23:59:59 +0100", 2, "7", "}"))
    ensures FormatLine(l) == line
  {
    assert Spaces(2) == "  " by {
      assert Spaces(1) == " ";
    }
  }

  /** Text glued to the sha, with no space before it, also fills the gap:
      the sha group stops at the first character that is not a hex digit. */
  lemma ExampleGluedLine(line: string)
    requires line == "1e1d1c3c" + "z" + " (" + "John Doe"
      + (" " + "2019-01-01 12:00:00 -0400" + " " + "142" + ") " + "x")
    ensures Decompose(line)
      == Some(LineLayout("1e1d1c3c", Some("z"), "John Doe",
           Tail(1, "2019-01-01 12:00:00 -0400", 1, "142", "x")))
  {
    var l := LineLayout("1e1d1c3c", Some("z"), "John Doe",
      Tail(1, "2019-01-01 12:00:00 -0400", 1, "142", "x"));
    ExampleGluedOk();
    ExampleGluedText(l, line);
    DecomposeFormatNoParen(l, line);
  }

  lemma ExampleGluedOk()
    ensures WellFormed(LineLayout("1e1d1c3c", Some("z"), "John Doe",
      Tail(1, "2019-01-01 12:00:00 -0400", 1, "142", "x")))
    ensures ')' !in "x"
  {
    assert IsShaField("1e1d1c3c");
    assert !InClass('z', Hex);
    assert IsAuthor("John Doe");
    ExampleLineTimestamp();
    assert AllIn("142", Digit);
  }

  lemma ExampleGluedText(l: LineLayout, line: string)
    requires line == "1e1d1c3c" + "z" + " (" + "John Doe"
      + (" " + "2019-01-01 12:00:00 -0400" + " " + "142" + ") " + "x")
    requires l == LineLayout("1e1d1c3c", Some("z"), "John Doe",
      Tail(1, "2019-01-01 12:00:00 -0400", 1, "142", "x"))
    ensures FormatLine(l) == line
  {
    assert Spaces(1) == " ";
  }
}
