/** The text primitives of Go's standard library that the listing and version
    parsers rely on: `strings.Index`, `strings.SplitN`, `bytes.IndexByte`,
    `bufio.ScanLines`, and decimal digit runs. The program never calls
    `strings.Join`; `Join` is here only as the inverse of `SplitN`, for the
    round-trip lemmas. Go strings
    are byte strings; here they are sequences of characters, which agrees with
    the byte-level behaviour for the ASCII separators (", ", "\n", "\r") that
    the program searches for. */
module Strings {
  import opened Wrappers

  // ---------------------------------------------------------------------
  // Searching

  /** `sep` occurs in `s` starting at position `i`. */
  predicate OccursAt(s: string, sep: string, i: nat) {
    i + |sep| <= |s| && s[i..i + |sep|] == sep
  }

  predicate Contains(s: string, sep: string) {
    exists i: nat :: i <= |s| && OccursAt(s, sep, i)
  }

  /** The leftmost occurrence of `sep` in `s` at or after `from`. */
  function IndexFrom(s: string, sep: string, from: nat): (r: Option<nat>)
    requires from <= |s|
    ensures r.Some? ==> from <= r.value && OccursAt(s, sep, r.value)
    ensures r.Some? ==> forall j: nat :: from <= j < r.value ==> !OccursAt(s, sep, j)
    ensures r.None? ==> forall j: nat :: from <= j ==> !OccursAt(s, sep, j)
    decreases |s| - from
  {
    if from + |sep| > |s| then None
    else if s[from..from + |sep|] == sep then Some(from)
    else IndexFrom(s, sep, from + 1)
  }

  /** strings.Index: the leftmost occurrence of `sep` in `s`, if any. */
  function Index(s: string, sep: string): (r: Option<nat>)
    ensures r.Some? ==> OccursAt(s, sep, r.value)
    ensures r.Some? ==> forall j: nat :: j < r.value ==> !OccursAt(s, sep, j)
    ensures r.None? <==> !Contains(s, sep)
  {
    IndexFrom(s, sep, 0)
  }

  /** bytes.IndexByte: the position of the first `c` in `s`, if any. */
  function IndexByte(s: string, c: char): (r: Option<nat>)
    ensures r.Some? ==> r.value < |s| && s[r.value] == c && c !in s[..r.value]
    ensures r.None? <==> c !in s
  {
    if s == [] then None
    else if s[0] == c then Some(0)
    else match IndexByte(s[1..], c)
      case None => None
      case Some(k) =>
        assert s[..k + 1] == [s[0]] + s[1..][..k];
        Some(k + 1)
  }

  // ---------------------------------------------------------------------
  // Bounded splitting

  /** strings.Join. */
  function Join(pieces: seq<string>, sep: string): string {
    if |pieces| == 0 then ""
    else if |pieces| == 1 then pieces[0]
    else pieces[0] + sep + Join(pieces[1..], sep)
  }

  /** No occurrence of `sep` starts inside `piece`, not even one that runs on
      into a `sep` written right after it: cutting `piece + sep + rest` at the
      leftmost `sep` cuts exactly after `piece`. */
  predicate SepFree(piece: string, sep: string) {
    forall j: nat :: j < |piece| ==> !OccursAt(piece + sep, sep, j)
  }

  /** strings.SplitN(s, sep, n) for n >= 0 and a non-empty separator: the
      first n - 1 leftmost occurrences of `sep` cut `s`; whatever follows the
      last cut is kept whole, separators included. */
  function SplitN(s: string, sep: string, n: nat): (r: seq<string>)
    requires sep != []
    ensures n == 0 <==> r == []
    ensures |r| <= n
    decreases n
  {
    if n == 0 then []
    else if n == 1 then [s]
    else match Index(s, sep)
      case None => [s]
      case Some(m) => [s[..m]] + SplitN(s[m + |sep|..], sep, n - 1)
  }

  /** The pieces of SplitN join back to the input. */
  lemma {:induction false} SplitNJoins(s: string, sep: string, n: nat)
    requires sep != [] && n > 0
    ensures Join(SplitN(s, sep, n), sep) == s
    decreases n
  {
    if n > 1 && Index(s, sep).Some? {
      var k, m: nat := Index(s, sep).value, n - 1;
      var rest := s[k + |sep|..];
      SplitNStep(s, sep, n, m);
      SplitNJoins(rest, sep, m);
      JoinCons(s[..k], SplitN(rest, sep, m), sep);
      assert s == s[..k] + sep + rest;
    }
  }

  /** Every cut is at the leftmost remaining separator: each piece before the
      last is SepFree. */
  lemma {:induction false} SplitNCutsLeftmost(s: string, sep: string, n: nat)
    requires sep != []
    ensures forall i :: 0 <= i < |SplitN(s, sep, n)| - 1 ==> SepFree(SplitN(s, sep, n)[i], sep)
    decreases n
  {
    if n > 1 && Index(s, sep).Some? {
      var k, m: nat := Index(s, sep).value, n - 1;
      var rest := SplitN(s[k + |sep|..], sep, m);
      SplitNStep(s, sep, n, m);
      SplitNCutsLeftmost(s[k + |sep|..], sep, m);
      LeftmostCutIsSepFree(s, sep, k);
      var r := SplitN(s, sep, n);
      assert r == [s[..k]] + rest;
      forall i | 0 <= i < |r| - 1
        ensures SepFree(r[i], sep)
      {
        if i > 0 {
          assert r[i] == rest[i - 1];
        }
      }
    }
  }

  /** When fewer than n pieces come back, the last one holds no separator. */
  lemma {:induction false} SplitNLastWhole(s: string, sep: string, n: nat)
    requires sep != []
    ensures 0 < |SplitN(s, sep, n)| < n ==> !Contains(SplitN(s, sep, n)[|SplitN(s, sep, n)| - 1], sep)
    decreases n
  {
    if n > 1 && Index(s, sep).Some? {
      var k, m: nat := Index(s, sep).value, n - 1;
      var rest := SplitN(s[k + |sep|..], sep, m);
      SplitNStep(s, sep, n, m);
      SplitNLastWhole(s[k + |sep|..], sep, m);
      var r := SplitN(s, sep, n);
      assert r == [s[..k]] + rest;
      assert r[|r| - 1] == rest[|rest| - 1];
    }
  }

  /** One cut of SplitN, with the remaining count named `m`. */
  lemma SplitNStep(s: string, sep: string, n: nat, m: nat)
    requires sep != [] && n > 1 && m == n - 1 && Index(s, sep).Some?
    ensures SplitN(s, sep, n) == [s[..Index(s, sep).value]] + SplitN(s[Index(s, sep).value + |sep|..], sep, m)
  {
  }

  lemma JoinCons(piece: string, rest: seq<string>, sep: string)
    requires rest != []
    ensures Join([piece] + rest, sep) == piece + sep + Join(rest, sep)
  {
    assert ([piece] + rest)[1..] == rest;
  }

  lemma LeftmostCutIsSepFree(s: string, sep: string, m: nat)
    requires OccursAt(s, sep, m)
    requires forall j: nat :: j < m ==> !OccursAt(s, sep, j)
    ensures SepFree(s[..m], sep)
  {
    assert s[..m] + sep == s[..m + |sep|];
    forall j: nat | j < m
      ensures !OccursAt(s[..m] + sep, sep, j)
    {
      assert (s[..m] + sep)[j..j + |sep|] == s[j..j + |sep|];
      assert !OccursAt(s, sep, j);
    }
  }

  /** A piece that is SepFree contains no separator of its own. */
  lemma SepFreeHasNoSep(piece: string, sep: string)
    requires sep != [] && SepFree(piece, sep)
    ensures !Contains(piece, sep)
  {
    forall j: nat | j <= |piece| && OccursAt(piece, sep, j)
      ensures false
    {
      assert (piece + sep)[j..j + |sep|] == piece[j..j + |sep|];
      assert OccursAt(piece + sep, sep, j);
    }
  }

  /** The leftmost separator in `p + sep + tail` is the one right after a
      SepFree `p`. */
  lemma IndexAfterSepFree(p: string, sep: string, tail: string)
    requires SepFree(p, sep)
    ensures Index(p + sep + tail, sep) == Some(|p|)
  {
    var s := p + sep + tail;
    assert s[|p|..|p| + |sep|] == sep;
    forall j: nat | j < |p|
      ensures !OccursAt(s, sep, j)
    {
      assert !OccursAt(p + sep, sep, j);
      assert s[j..j + |sep|] == (p + sep)[j..j + |sep|];
    }
    assert OccursAt(s, sep, |p|);
    assert Contains(s, sep);
    var r := Index(s, sep);
    assert r.value <= |p|;
  }

  /** SplitN inverts Join: pieces that are SepFree (and a last piece free of
      separators whenever fewer than n pieces are asked back) come back
      unchanged. */
  lemma {:induction false} SplitNOfJoin(pieces: seq<string>, sep: string, n: nat)
    requires sep != [] && 0 < |pieces| <= n
    requires forall i :: 0 <= i < |pieces| - 1 ==> SepFree(pieces[i], sep)
    requires |pieces| < n ==> !Contains(pieces[|pieces| - 1], sep)
    ensures SplitN(Join(pieces, sep), sep, n) == pieces
    decreases |pieces|, 1
  {
    if |pieces| == 1 {
      assert Join(pieces, sep) == pieces[0];
      SplitNOfSingle(pieces[0], sep, n);
      ConsTail(pieces);
    } else {
      var p, tail := pieces[0], Join(pieces[1..], sep);
      assert SepFree(p, sep);
      var m: nat := n - 1;
      calc {
        SplitN(Join(pieces, sep), sep, n);
        { assert Join(pieces, sep) == p + sep + tail; }
        SplitN(p + sep + tail, sep, n);
        { SplitNCons(p, tail, sep, n, m); }
        [p] + SplitN(tail, sep, m);
        { SplitNOfJoinTail(pieces, sep, n, m); }
        [p] + pieces[1..];
        { ConsTail(pieces); }
        pieces;
      }
    }
  }

  /** The induction step of SplitNOfJoin, kept apart so that the recursive
      call's preconditions are checked in a small context. */
  lemma {:induction false} SplitNOfJoinTail(pieces: seq<string>, sep: string, n: nat, m: nat)
    requires sep != [] && 1 < |pieces| <= n && m == n - 1
    requires forall i :: 0 <= i < |pieces| - 1 ==> SepFree(pieces[i], sep)
    requires |pieces| < n ==> !Contains(pieces[|pieces| - 1], sep)
    ensures SplitN(Join(pieces[1..], sep), sep, m) == pieces[1..]
    decreases |pieces|, 0
  {
    var rest := pieces[1..];
    assert rest[|rest| - 1] == pieces[|pieces| - 1];
    forall i | 0 <= i < |rest| - 1
      ensures SepFree(rest[i], sep)
    {
      assert rest[i] == pieces[i + 1];
    }
    SplitNOfJoin(rest, sep, m);
  }

  lemma SplitNOfSingle(piece: string, sep: string, n: nat)
    requires sep != [] && n > 0
    requires n > 1 ==> !Contains(piece, sep)
    ensures SplitN(piece, sep, n) == [piece]
  {
    if n > 1 {
      assert Index(piece, sep).None?;
    }
  }

  /** A SepFree first piece is cut off at the separator after it. */
  lemma SplitNCons(p: string, tail: string, sep: string, n: nat, m: nat)
    requires sep != [] && n > 1 && m == n - 1 && SepFree(p, sep)
    ensures SplitN(p + sep + tail, sep, n) == [p] + SplitN(tail, sep, m)
  {
    var s := p + sep + tail;
    IndexAfterSepFree(p, sep, tail);
    assert s[..|p|] == p;
    assert s[|p| + |sep|..] == tail;
  }

  lemma ConsTail<T>(xs: seq<T>)
    requires xs != []
    ensures [xs[0]] + xs[1..] == xs
  {
  }

  /** For a two-character separator whose characters differ (such as ", "),
      a piece is SepFree exactly when it contains no separator. */
  lemma UnborderedSepFree(piece: string, sep: string)
    requires |sep| == 2 && sep[0] != sep[1]
    requires !Contains(piece, sep)
    ensures SepFree(piece, sep)
  {
    forall j: nat | j < |piece|
      ensures !OccursAt(piece + sep, sep, j)
    {
      if j + 2 <= |piece| {
        assert (piece + sep)[j..j + 2] == piece[j..j + 2];
        assert !OccursAt(piece, sep, j);
      } else {
        assert (piece + sep)[j..j + 2][1] == sep[0];
      }
    }
  }

  // ---------------------------------------------------------------------
  // Line scanning

  /** bufio's dropCR: one trailing carriage return is removed. */
  function DropCR(s: string): (r: string)
    ensures s != [] && s[|s| - 1] == '\r' ==> s == r + "\r"
    ensures s == [] || s[|s| - 1] != '\r' ==> r == s
    ensures forall c :: c in r ==> c in s
  {
    if |s| > 0 && s[|s| - 1] == '\r' then s[..|s| - 1] else s
  }

  /** A line that ScanLines can hand back verbatim: no newline inside and
      no carriage return at the end. */
  predicate IsLine(l: string) {
    '\n' !in l && (l == [] || l[|l| - 1] != '\r')
  }

  /** The lines a bufio.Scanner with bufio.ScanLines yields: the input is cut
      at every "\n", a trailing "\r" is dropped from each line, a last line
      without "\n" still counts, and empty input yields no lines. */
  function ScanLines(data: string): (lines: seq<string>)
    ensures forall i :: 0 <= i < |lines| ==> '\n' !in lines[i]
    ensures lines == [] <==> data == []
    decreases |data|
  {
    if data == [] then []
    else match IndexByte(data, '\n')
      case Some(i) =>
        var line, rest := DropCR(data[..i]), ScanLines(data[i + 1..]);
        assert '\n' !in line;
        [line] + rest
      case None => [DropCR(data)]
  }

  /** One line per newline, plus one for a last line left unterminated. */
  lemma {:induction false} ScanLinesCount(data: string)
    ensures |ScanLines(data)| == multiset(data)['\n'] + (if data != [] && data[|data| - 1] != '\n' then 1 else 0)
    decreases |data|
  {
    if data != [] {
      match IndexByte(data, '\n')
      case Some(i) =>
        NewlinesAfterFirst(data, i);
        ScanLinesCount(data[i + 1..]);
      case None =>
        assert '\n' !in multiset(data);
    }
  }

  lemma NewlinesAfterFirst(data: string, i: nat)
    requires i < |data| && data[i] == '\n' && '\n' !in data[..i]
    ensures multiset(data)['\n'] == 1 + multiset(data[i + 1..])['\n']
    ensures data[i + 1..] != [] ==> data[|data| - 1] == data[i + 1..][|data| - i - 2]
  {
    assert data == data[..i] + [data[i]] + data[i + 1..];
    assert '\n' !in multiset(data[..i]);
  }

  /** One scanning step: the text up to the first newline, less one
      trailing carriage return, is the first line. */
  lemma ScanLinesStep(head: string, rest: string)
    requires '\n' !in head
    ensures ScanLines(head + "\n" + rest) == [DropCR(head)] + ScanLines(rest)
  {
    var data := head + "\n" + rest;
    IndexByteAfter(head, '\n', rest);
    assert data[..|head|] == head;
    assert data[|head| + 1..] == rest;
  }

  /** Consuming one terminated line: "\n" and "\r\n" both end it. */
  lemma ScanLinesCons(line: string, eol: string, rest: string)
    requires IsLine(line)
    requires eol == "\n" || eol == "\r\n"
    ensures ScanLines(line + eol + rest) == [line] + ScanLines(rest)
  {
    var head := if eol == "\n" then line else line + "\r";
    assert line + eol + rest == head + "\n" + rest;
    assert DropCR(head) == line;
    ScanLinesStep(head, rest);
  }

  /** The first `c` in `head + [c] + rest` is the one after `head`. */
  lemma {:induction false} IndexByteAfter(head: string, c: char, rest: string)
    requires c !in head
    ensures IndexByte(head + [c] + rest, c) == Some(|head|)
    decreases |head|
  {
    if head != [] {
      assert (head + [c] + rest)[1..] == head[1..] + [c] + rest;
      IndexByteAfter(head[1..], c, rest);
    }
  }

  /** Newline-terminated lines, as `git branch --format` writes them. */
  function Unlines(lines: seq<string>): string {
    if lines == [] then "" else lines[0] + "\n" + Unlines(lines[1..])
  }

  /** Scanning newline-terminated lines and then more text yields those
      lines followed by the lines of the text. */
  lemma {:induction false} ScanLinesOfUnlinesThen(lines: seq<string>, rest: string)
    requires forall i :: 0 <= i < |lines| ==> IsLine(lines[i])
    ensures ScanLines(Unlines(lines) + rest) == lines + ScanLines(rest)
    decreases |lines|
  {
    if lines == [] {
      assert Unlines(lines) + rest == rest;
    } else {
      var tail := lines[1..];
      assert forall i :: 0 <= i < |tail| ==> IsLine(tail[i]) by {
        forall i | 0 <= i < |tail| ensures IsLine(tail[i]) {
          assert tail[i] == lines[i + 1];
        }
      }
      var later := ScanLines(Unlines(tail) + rest);
      ScanLinesOfUnlinesThen(tail, rest);
      assert later == tail + ScanLines(rest);
      ScanLinesFirst(lines, rest);
      assert ScanLines(Unlines(lines) + rest) == [lines[0]] + later;
      ConsAppend(lines, ScanLines(rest));
    }
  }

  lemma AppendAssoc<T>(a: seq<T>, b: seq<T>, c: seq<T>)
    ensures (a + b) + c == a + (b + c)
  {
  }

  lemma ConsAppend<T>(xs: seq<T>, ys: seq<T>)
    requires xs != []
    ensures [xs[0]] + (xs[1..] + ys) == xs + ys
  {
  }

  lemma ScanLinesFirst(lines: seq<string>, rest: string)
    requires lines != [] && IsLine(lines[0])
    ensures ScanLines(Unlines(lines) + rest) == [lines[0]] + ScanLines(Unlines(lines[1..]) + rest)
  {
    assert Unlines(lines) + rest == lines[0] + "\n" + (Unlines(lines[1..]) + rest);
    ScanLinesCons(lines[0], "\n", Unlines(lines[1..]) + rest);
  }

  /** ScanLines inverts Unlines. */
  lemma ScanLinesOfUnlines(lines: seq<string>)
    requires forall i :: 0 <= i < |lines| ==> IsLine(lines[i])
    ensures ScanLines(Unlines(lines)) == lines
  {
    ScanLinesOfUnlinesThen(lines, "");
    assert Unlines(lines) + "" == Unlines(lines);
  }

  /** A last line without a newline loses one trailing carriage return, as
      a terminated line does. */
  lemma ScanLinesLastDropsCR(lines: seq<string>, last: string)
    requires forall i :: 0 <= i < |lines| ==> IsLine(lines[i])
    requires '\n' !in last && last != []
    ensures ScanLines(Unlines(lines) + last) == lines + [DropCR(last)]
  {
    ScanLinesOfUnlinesThen(lines, last);
    assert IndexByte(last, '\n').None?;
  }

  /** A final line that lacks its newline is still scanned. */
  lemma ScanLinesUnterminated(lines: seq<string>, last: string)
    requires forall i :: 0 <= i < |lines| ==> IsLine(lines[i])
    requires IsLine(last) && last != []
    ensures ScanLines(Unlines(lines) + last) == lines + [last]
  {
    ScanLinesOfUnlinesThen(lines, last);
    assert IndexByte(last, '\n').None?;
    assert DropCR(last) == last;
  }

  // ---------------------------------------------------------------------
  // Decimal numbers

  predicate IsDigit(c: char) {
    '0' <= c <= '9'
  }

  predicate AllDigits(s: string) {
    forall i :: 0 <= i < |s| ==> IsDigit(s[i])
  }

  /** The number a run of decimal digits denotes (leading zeros allowed). */
  function DigitsValue(ds: string): nat
    requires AllDigits(ds)
  {
    if ds == [] then 0
    else DigitsValue(ds[..|ds| - 1]) * 10 + (ds[|ds| - 1] as int - '0' as int)
  }

  function Digit(d: nat): (c: char)
    requires d < 10
    ensures IsDigit(c) && c as int - '0' as int == d
  {
    ('0' as int + d) as char
  }

  /** The canonical decimal spelling of `n`, as fmt's %d prints it. */
  function Dec(n: nat): (s: string)
    ensures s != [] && AllDigits(s)
    ensures DigitsValue(s) == n
  {
    if n < 10 then [Digit(n)]
    else
      var s := Dec(n / 10) + [Digit(n % 10)];
      assert s[..|s| - 1] == Dec(n / 10);
      s
  }

  /** The length of the run of digits that starts `s`. */
  function DigitRun(s: string): (k: nat)
    ensures k <= |s| && AllDigits(s[..k])
    ensures k == |s| || !IsDigit(s[k])
  {
    if s == [] || !IsDigit(s[0]) then 0
    else
      var k := 1 + DigitRun(s[1..]);
      assert s[..k] == [s[0]] + s[1..][..k - 1];
      k
  }

  /** The digit run of `ds + t` is exactly `ds` when `t` does not go on
      with a digit. */
  lemma {:induction false} DigitRunOfDigits(ds: string, t: string)
    requires AllDigits(ds)
    requires t == [] || !IsDigit(t[0])
    ensures DigitRun(ds + t) == |ds|
    decreases |ds|
  {
    if ds != [] {
      assert (ds + t)[1..] == ds[1..] + t;
      DigitRunOfDigits(ds[1..], t);
    }
  }
}
