/**
 * The selection parser of scut: the character-class check on a selection such
 * as `1-2,7-15`, and its expansion into the array of requested columns.
 */
module Selection {

  /** An ASCII decimal digit (codes 48 to 57). */
  predicate IsDigit(c: char) {
    '0' <= c <= '9'
  }

  function DigitValue(c: char): nat
    requires IsDigit(c)
  {
    c as int - '0' as int
  }

  /** A character a selection may hold between its first and last character. */
  predicate IsSelectionChar(c: char) {
    IsDigit(c) || c == ',' || c == '-'
  }

  /**
   * A selection that passes validation: non-empty, starting and ending with a
   * digit, and made of digits, commas and hyphens in between.
   */
  predicate ValidSelection(sel: string) {
    |sel| > 0 && IsDigit(sel[0]) && IsDigit(sel[|sel| - 1]) &&
    forall k :: 0 < k < |sel| - 1 ==> IsSelectionChar(sel[k])
  }

  /** Returns 0 when the selection is valid and 2 otherwise. */
  method ValidateSelection(sel: string) returns (code: int)
    ensures code == 0 || code == 2
    ensures code == 0 <==> ValidSelection(sel)
  {
    if |sel| == 0 || !IsDigit(sel[0]) {
      return 2;
    }
    var i := 1;
    while i < |sel| - 1
      invariant 1 <= i <= |sel|
      invariant forall k :: 0 < k < i ==> IsSelectionChar(sel[k])
    {
      if !IsSelectionChar(sel[i]) {
        return 2;
      }
      i := i + 1;
    }
    if !IsDigit(sel[|sel| - 1]) {
      return 2;
    }
    return 0;
  }

  lemma ValidSelectionChars(sel: string)
    requires ValidSelection(sel)
    ensures forall k :: 0 <= k < |sel| ==> IsSelectionChar(sel[k])
  {
  }

  // ---------------------------------------------------------------------------
  // Numbers

  /** The decimal value of a string of digits. */
  function DigitsValue(ds: seq<char>): nat
    requires forall k :: 0 <= k < |ds| ==> IsDigit(ds[k])
  {
    if ds == [] then 0 else DigitsValue(ds[..|ds| - 1]) * 10 + DigitValue(ds[|ds| - 1])
  }

  /** The longest run of digits at the front of `s`. */
  function LeadingDigits(s: seq<char>): (ds: seq<char>)
    ensures |ds| <= |s| && ds == s[..|ds|]
    ensures forall k :: 0 <= k < |ds| ==> IsDigit(ds[k])
    ensures |ds| < |s| ==> !IsDigit(s[|ds|])
  {
    if s != [] && IsDigit(s[0]) then [s[0]] + LeadingDigits(s[1..]) else []
  }

  /**
   * The C library's `atoi` on the digit buffer of the parser: the value of the
   * digits at the front of the buffer (the buffer never starts with a sign or
   * a blank when it is read).
   */
  function Atoi(s: seq<char>): nat {
    DigitsValue(LeadingDigits(s))
  }

  lemma {:induction false} LeadingDigitsOfRun(s: seq<char>, n: nat)
    requires n <= |s|
    requires forall k :: 0 <= k < n ==> IsDigit(s[k])
    requires n < |s| ==> !IsDigit(s[n])
    ensures LeadingDigits(s) == s[..n]
  {
    if n > 0 {
      LeadingDigitsOfRun(s[1..], n - 1);
      assert s[..n] == [s[0]] + s[1..][..n - 1];
    }
  }

  /** The value of the first `len` digits of the parser's digit buffer. */
  function BufferValue(curr: seq<char>, len: nat): nat
    requires len <= 2 <= |curr|
    requires forall k :: 0 <= k < len ==> IsDigit(curr[k])
  {
    if len == 0 then 0
    else if len == 1 then DigitValue(curr[0])
    else DigitValue(curr[0]) * 10 + DigitValue(curr[1])
  }

  /**
   * The parser's digit buffer `char curr[3]`: `len` digits written at its front,
   * worth `n`, then a blank or the terminator.
   */
  predicate DigitBuffer(curr: seq<char>, len: nat, n: nat) {
    |curr| == 3 && curr[2] == '\0' && len <= 2 && (len <= 1 ==> curr[1] == ' ') &&
    (forall k :: 0 <= k < len ==> IsDigit(curr[k])) && n == BufferValue(curr, len)
  }

  /** Reading the digit buffer with `atoi` gives the value of the digits written to it. */
  lemma AtoiOfBuffer(curr: seq<char>, len: nat, n: nat)
    requires DigitBuffer(curr, len, n) && len >= 1
    ensures Atoi(curr) == n
  {
    LeadingDigitsOfRun(curr, len);
    assert curr[..1][..0] == [];
    assert DigitsValue(curr[..1]) == DigitValue(curr[0]);
    if len == 2 {
      assert curr[..2][..1] == curr[..1];
      assert DigitsValue(curr[..2]) == DigitsValue(curr[..1]) * 10 + DigitValue(curr[1]);
    }
  }

  /** Writing one more digit to a buffer holding at most one. */
  lemma PushDigit(curr: seq<char>, len: nat, n: nat, c: char)
    requires DigitBuffer(curr, len, n) && len <= 1 && IsDigit(c)
    ensures DigitBuffer(curr[len := c], len + 1, n * 10 + DigitValue(c))
  {
  }

  /** The number of digits immediately before index `i` of `s`. */
  function DigitsBefore(s: seq<char>, i: nat): (n: nat)
    requires i <= |s|
    ensures n <= i
  {
    if i == 0 || !IsDigit(s[i - 1]) then 0 else DigitsBefore(s, i - 1) + 1
  }

  /** Every number in the selection has at most two digits. */
  predicate ShortNumbers(sel: string) {
    forall i :: 0 <= i <= |sel| ==> DigitsBefore(sel, i) <= 2
  }

  // ---------------------------------------------------------------------------
  // Ranges

  /** The integers a, a+1, ..., b (empty when a > b). */
  function Range(a: int, b: int): seq<int>
    decreases b - a
  {
    if a > b then [] else [a] + Range(a + 1, b)
  }

  lemma {:induction false} RangeAt(a: int, b: int)
    ensures |Range(a, b)| == if a <= b then b - a + 1 else 0
    ensures forall k :: 0 <= k < |Range(a, b)| ==> Range(a, b)[k] == a + k
    decreases b - a
  {
    if a <= b {
      RangeAt(a + 1, b);
    }
  }

  /**
   * Writes a, a+1, ..., b into `cols` from index `colInd` on and returns the
   * index of the first entry it did not write.
   */
  method AddRange(cols: array<int>, colInd: nat, a: int, b: int) returns (next: nat)
    requires colInd + |Range(a, b)| <= cols.Length
    modifies cols
    ensures next == colInd + |Range(a, b)|
    ensures cols[..colInd] == old(cols[..colInd])
    ensures cols[colInd..next] == Range(a, b)
    ensures cols[next..] == old(cols[next..])
  {
    RangeAt(a, b);
    var j := colInd;
    var i := a;
    while i <= b
      invariant a <= i <= b + 1 || (a > b && i == a)
      invariant j == colInd + (if a <= b then i - a else 0)
      invariant j <= cols.Length
      invariant cols[..colInd] == old(cols[..colInd])
      invariant cols[colInd..j] == Range(a, b)[..j - colInd]
      invariant cols[j..] == old(cols[j..])
    {
      cols[j] := i;
      j := j + 1;
      i := i + 1;
    }
    next := j;
  }

  // ---------------------------------------------------------------------------
  // The scanner, as a function

  /**
   * The scanner's state between two characters: the value of the number being
   * read (0 when none), the pending start of a range (-1 when none), and the
   * columns expanded so far.
   */
  datatype Scan = Scan(n: nat, prev: int, out: seq<int>)

  const Start := Scan(0, -1, [])

  /** The columns of a finished term ending in `n`: a run when a start is pending, else `n` alone. */
  function TermColumns(prev: int, n: nat): seq<int> {
    if prev != -1 then Range(prev, n) else [n]
  }

  /**
   * A number has just been read and `next` follows it: a comma closes the term,
   * a hyphen records the start of a range unless one is already pending, and
   * anything else leaves the number open.
   */
  function Close(st: Scan, next: char): Scan {
    if next == ',' then Scan(0, -1, st.out + TermColumns(st.prev, st.n))
    else if next == '-' then
      Scan(0, if st.prev == -1 then st.n else st.prev, st.out)
    else st
  }

  function Step(st: Scan, c: char, next: char): Scan {
    if IsDigit(c) then Close(st.(n := st.n * 10 + DigitValue(c)), next) else st
  }

  /** The character after the first of `s`, or the string terminator. */
  function Lookahead(s: seq<char>): char {
    if |s| > 1 then s[1] else '\0'
  }

  /** Scans `s` from state `st`. */
  function Run(s: seq<char>, st: Scan): Scan {
    if s == [] then st else Run(s[1..], Step(st, s[0], Lookahead(s)))
  }

  /** The last term, flushed once the whole selection is read. */
  function Finish(st: Scan): seq<int> {
    st.out + TermColumns(st.prev, st.n)
  }

  /** The columns a selection expands to, in the order the scanner produces them. */
  function Parse(sel: string): seq<int> {
    Finish(Run(sel, Start))
  }

  lemma {:induction false} RunExtends(s: seq<char>, st: Scan)
    ensures st.out <= Run(s, st).out
    ensures st.out <= Finish(Run(s, st))
  {
    if s != [] {
      RunExtends(s[1..], Step(st, s[0], Lookahead(s)));
    }
  }

  lemma RunUnfold(sel: string, i: nat, st: Scan)
    requires i < |sel|
    ensures Run(sel[i..], st) ==
            Run(sel[i + 1..], Step(st, sel[i], if i + 1 < |sel| then sel[i + 1] else '\0'))
  {
    assert sel[i..][1..] == sel[i + 1..];
  }

  // ---------------------------------------------------------------------------
  // The scanner, on the array

  /**
   * Writes the columns of a finished term ending in `n` into `cols` from index
   * `colInd` on, and returns the index of the first entry it did not write.
   */
  method FlushTerm(cols: array<int>, colInd: nat, prev: int, n: nat) returns (next: nat)
    requires colInd + |TermColumns(prev, n)| <= cols.Length
    modifies cols
    ensures next == colInd + |TermColumns(prev, n)|
    ensures cols[..next] == old(cols[..colInd]) + TermColumns(prev, n)
    ensures forall k :: next <= k < cols.Length ==> cols[k] == old(cols[k])
  {
    if prev != -1 {
      next := FlushRange(cols, colInd, prev, n);
    } else {
      ghost var before := cols[..colInd];
      cols[colInd] := n;
      next := colInd + 1;
      assert cols[..colInd] == before;
      assert cols[..next] == cols[..colInd] + [n];
    }
  }

  /** The range case of `FlushTerm`: the run from `prev` to `n` goes in at `colInd`. */
  method FlushRange(cols: array<int>, colInd: nat, prev: int, n: nat) returns (next: nat)
    requires colInd + |Range(prev, n)| <= cols.Length
    modifies cols
    ensures next == colInd + |Range(prev, n)|
    ensures cols[..next] == old(cols[..colInd]) + Range(prev, n)
    ensures forall k :: next <= k < cols.Length ==> cols[k] == old(cols[k])
  {
    ghost var before := cols[..colInd];
    next := AddRange(cols, colInd, prev, n);
    assert cols[..next] == cols[..colInd] + cols[colInd..next];
    forall k | next <= k < cols.Length
      ensures cols[k] == old(cols[k])
    {
      assert cols[k] == cols[next..][k - next];
      assert old(cols[k]) == old(cols[next..])[k - next];
    }
  }

  /**
   * One digit `c` of the selection, followed by `next`: the digit goes into the
   * buffer, then a comma writes the finished term into `cols` and a hyphen
   * records the start of a range unless one is already pending; after either,
   * the buffer is emptied.
   */
  method ScanDigit(cols: array<int>, colInd: nat, prev: int, curr: seq<char>, currInd: nat,
                   ghost n: nat, c: char, next: char)
    returns (newInd: nat, newPrev: int, newCurr: seq<char>, newCurrInd: nat)
    requires IsDigit(c) && DigitBuffer(curr, currInd, n) && currInd <= 1
    requires colInd <= cols.Length
    requires next == ',' ==> colInd + |TermColumns(prev, n * 10 + DigitValue(c))| <= cols.Length
    modifies cols
    ensures var st := Step(Scan(n, prev, old(cols[..colInd])), c, next);
      newInd == |st.out| <= cols.Length && cols[..newInd] == st.out && newPrev == st.prev &&
      DigitBuffer(newCurr, newCurrInd, st.n)
    ensures newCurrInd == if next == ',' || next == '-' then 0 else currInd + 1
    ensures forall k :: newInd <= k < cols.Length ==> cols[k] == old(cols[k])
  {
    PushDigit(curr, currInd, n, c);
    newCurr := curr[currInd := c];
    newCurrInd := currInd + 1;
    AtoiOfBuffer(newCurr, newCurrInd, n * 10 + DigitValue(c));
    newInd, newPrev := colInd, prev;
    if next == ',' {
      newInd := FlushTerm(cols, colInd, prev, Atoi(newCurr));
      newPrev := -1;
      newCurr := newCurr[1 := ' '];
      newCurrInd := 0;
    } else if next == '-' {
      if prev == -1 {
        newPrev := Atoi(newCurr);
      }
      newCurr := newCurr[1 := ' '];
      newCurrInd := 0;
    }
  }

  /**
   * Expands a validated selection into `cols`: the expansion fills a prefix of
   * the array, and the entries after it keep their old values (the caller's
   * zero sentinel).
   */
  method GetCols(cols: array<int>, sel: string)
    requires ValidSelection(sel) && ShortNumbers(sel)
    requires |Parse(sel)| < cols.Length
    modifies cols
    ensures cols[..|Parse(sel)|] == Parse(sel)
    ensures forall k :: |Parse(sel)| <= k < cols.Length ==> cols[k] == old(cols[k])
  {
    ValidSelectionChars(sel);
    var colInd: nat := 0;
    var currInd: nat := 0;
    var curr: seq<char> := [' ', ' ', '\0'];
    var prev: int := -1;
    ghost var st := Start;
    var i := 0;
    while i < |sel|
      invariant 0 <= i <= |sel|
      invariant currInd == (if i < |sel| && !IsDigit(sel[i]) then 0 else DigitsBefore(sel, i))
      invariant DigitBuffer(curr, currInd, st.n) && prev == st.prev
      invariant colInd == |st.out| <= cols.Length && cols[..colInd] == st.out
      invariant forall k :: colInd <= k < cols.Length ==> cols[k] == old(cols[k])
      invariant Run(sel[i..], st) == Run(sel, Start)
    {
      var next := if i + 1 < |sel| then sel[i + 1] else '\0';
      RunUnfold(sel, i, st);
      if IsDigit(sel[i]) {
        assert DigitsBefore(sel, i + 1) <= 2;
        if next == ',' {
          RunExtends(sel[i + 1..], Step(st, sel[i], next));
        }
        colInd, prev, curr, currInd := ScanDigit(cols, colInd, prev, curr, currInd, st.n, sel[i], next);
      }
      st := Step(st, sel[i], next);
      i := i + 1;
    }
    assert sel[|sel|..] == [];
    assert Run(sel, Start) == st;
    assert DigitsBefore(sel, |sel|) >= 1;
    AtoiOfBuffer(curr, currInd, st.n);
    colInd := FlushTerm(cols, colInd, prev, Atoi(curr));
  }

  // ---------------------------------------------------------------------------
  // Selections as a user writes them

  /** One term of a selection: a single column `a`, or the run `a-b`. */
  datatype Term = Single(a: nat) | Span(a: nat, b: nat)

  /** The columns one term stands for. */
  function Columns(t: Term): seq<int> {
    match t
    case Single(a) => [a]
    case Span(a, b) => Range(a, b)
  }

  /** The columns a list of terms stands for: each term's columns, left to right. */
  function Expand(ts: seq<Term>): seq<int> {
    if ts == [] then [] else Columns(ts[0]) + Expand(ts[1..])
  }

  /** Every number of the terms fits the parser's two-digit buffer. */
  predicate TwoDigitTerms(ts: seq<Term>) {
    forall k :: 0 <= k < |ts| ==> ts[k].a < 100 && (ts[k].Span? ==> ts[k].b < 100)
  }

  function DigitChar(d: nat): (c: char)
    requires d < 10
    ensures IsDigit(c) && DigitValue(c) == d
  {
    ('0' as int + d) as char
  }

  /** The decimal text of a number below 100, without leading zeros. */
  function NumberText(v: nat): (s: string)
    requires v < 100
    ensures 1 <= |s| <= 2 && forall k :: 0 <= k < |s| ==> IsDigit(s[k])
  {
    if v < 10 then [DigitChar(v)] else [DigitChar(v / 10), DigitChar(v % 10)]
  }

  function TermText(t: Term): string
    requires t.a < 100 && (t.Span? ==> t.b < 100)
  {
    match t
    case Single(a) => NumberText(a)
    case Span(a, b) => NumberText(a) + "-" + NumberText(b)
  }

  /** The selection text of a non-empty list of terms: the terms joined by commas. */
  function Text(ts: seq<Term>): string
    requires |ts| > 0 && TwoDigitTerms(ts)
  {
    if |ts| == 1 then TermText(ts[0]) else TermText(ts[0]) + "," + Text(ts[1..])
  }

  /** The first character of `s`, or the string terminator. */
  function Peek(s: seq<char>): char {
    if |s| > 0 then s[0] else '\0'
  }

  /** Scanning a character that is not a digit changes nothing. */
  lemma RunSkip(c: char, rest: seq<char>, st: Scan)
    requires !IsDigit(c)
    ensures Run([c] + rest, st) == Run(rest, st)
  {
    assert ([c] + rest)[1..] == rest;
  }

  /** Scanning a number leaves its value in the state and closes it on the character that follows. */
  lemma RunNumber(v: nat, rest: seq<char>, st: Scan)
    requires v < 100 && st.n == 0
    requires rest == [] || !IsDigit(rest[0])
    ensures Run(NumberText(v) + rest, st) == Run(rest, Close(st.(n := v), Peek(rest)))
  {
    if v < 10 {
      assert NumberText(v) + rest == [DigitChar(v)] + rest;
      RunDigit(DigitChar(v), rest, st);
    } else {
      var d1, d2 := DigitChar(v / 10), DigitChar(v % 10);
      assert NumberText(v) + rest == [d1] + ([d2] + rest);
      RunDigit(d1, [d2] + rest, st);
      var st1 := st.(n := v / 10);
      assert Close(st1, Peek([d2] + rest)) == st1;
      RunDigit(d2, rest, st1);
      assert (v / 10) * 10 + v % 10 == v;
    }
  }

  /** A digit goes into the number being read, and the character after it may close that number. */
  lemma RunDigit(c: char, rest: seq<char>, st: Scan)
    requires IsDigit(c)
    ensures Run([c] + rest, st) == Run(rest, Close(st.(n := st.n * 10 + DigitValue(c)), Peek(rest)))
  {
    assert ([c] + rest)[1..] == rest;
    assert Lookahead([c] + rest) == Peek(rest);
  }

  /** A term followed by a comma adds its columns and leaves no number or range pending. */
  lemma RunTermThenComma(t: Term, more: string, out: seq<int>)
    requires t.a < 100 && (t.Span? ==> t.b < 100)
    ensures Run(TermText(t) + "," + more, Scan(0, -1, out)) == Run(more, Scan(0, -1, out + Columns(t)))
  {
    var rest := "," + more;
    match t
    case Single(a) =>
      assert TermText(t) + "," + more == NumberText(a) + rest;
      RunNumber(a, rest, Scan(0, -1, out));
      RunSkip(',', more, Scan(0, -1, out + [a]));
    case Span(a, b) =>
      assert TermText(t) + "," + more == NumberText(a) + ("-" + (NumberText(b) + rest));
      RunNumber(a, "-" + (NumberText(b) + rest), Scan(0, -1, out));
      RunSkip('-', NumberText(b) + rest, Scan(0, a, out));
      RunNumber(b, rest, Scan(0, a, out));
      RunSkip(',', more, Scan(0, -1, out + Range(a, b)));
  }

  /** The last term is flushed at the end of the selection. */
  lemma RunLastTerm(t: Term, out: seq<int>)
    requires t.a < 100 && (t.Span? ==> t.b < 100)
    ensures Finish(Run(TermText(t), Scan(0, -1, out))) == out + Columns(t)
  {
    match t
    case Single(a) =>
      assert TermText(t) == NumberText(a) + [];
      RunNumber(a, [], Scan(0, -1, out));
    case Span(a, b) =>
      assert TermText(t) == NumberText(a) + ("-" + (NumberText(b) + []));
      RunNumber(a, "-" + (NumberText(b) + []), Scan(0, -1, out));
      RunSkip('-', NumberText(b) + [], Scan(0, a, out));
      RunNumber(b, [], Scan(0, a, out));
  }

  lemma {:induction false} RunText(ts: seq<Term>, out: seq<int>)
    requires |ts| > 0 && TwoDigitTerms(ts)
    ensures Finish(Run(Text(ts), Scan(0, -1, out))) == out + Expand(ts)
    decreases |ts|
  {
    if |ts| == 1 {
      RunLastTerm(ts[0], out);
      assert Expand(ts) == Columns(ts[0]) + Expand([]);
    } else {
      RunTermThenComma(ts[0], Text(ts[1..]), out);
      RunText(ts[1..], out + Columns(ts[0]));
    }
  }

  /**
   * Parsing the text of a list of terms gives every term's columns in order:
   * `a` gives a, and `a-b` gives a, a+1, ..., b.
   */
  lemma ParseText(ts: seq<Term>)
    requires |ts| > 0 && TwoDigitTerms(ts)
    ensures Parse(Text(ts)) == Expand(ts)
  {
    RunText(ts, []);
  }

  lemma {:induction false} DigitsBeforePrefix(x: seq<char>, y: seq<char>, i: nat)
    requires i <= |x|
    ensures DigitsBefore(x + y, i) == DigitsBefore(x, i)
  {
    if i > 0 && IsDigit(x[i - 1]) {
      DigitsBeforePrefix(x, y, i - 1);
    }
  }

  lemma {:induction false} DigitsBeforeAfter(x: seq<char>, c: char, y: seq<char>, j: nat)
    requires !IsDigit(c) && j <= |y|
    ensures DigitsBefore(x + [c] + y, |x| + 1 + j) == DigitsBefore(y, j)
  {
    if j > 0 && IsDigit(y[j - 1]) {
      DigitsBeforeAfter(x, c, y, j - 1);
    }
  }

  /** Joining two selections with a separator keeps every number at most two digits long. */
  lemma ShortJoin(x: seq<char>, c: char, y: seq<char>)
    requires ShortNumbers(x) && ShortNumbers(y) && !IsDigit(c)
    ensures ShortNumbers(x + [c] + y)
  {
    var s := x + [c] + y;
    forall i | 0 <= i <= |s|
      ensures DigitsBefore(s, i) <= 2
    {
      if i <= |x| {
        assert s == x + ([c] + y);
        DigitsBeforePrefix(x, [c] + y, i);
      } else {
        DigitsBeforeAfter(x, c, y, i - |x| - 1);
      }
    }
  }

  lemma TermTextAccepted(t: Term)
    requires t.a < 100 && (t.Span? ==> t.b < 100)
    ensures IsDigit(TermText(t)[0]) && IsDigit(TermText(t)[|TermText(t)| - 1])
    ensures forall k :: 0 <= k < |TermText(t)| ==> IsSelectionChar(TermText(t)[k])
    ensures ShortNumbers(TermText(t))
  {
    if t.Span? {
      ShortJoin(NumberText(t.a), '-', NumberText(t.b));
    }
  }

  /** The text of every non-empty list of two-digit terms is a selection the parser accepts. */
  lemma {:induction false} TextAccepted(ts: seq<Term>)
    requires |ts| > 0 && TwoDigitTerms(ts)
    ensures ValidSelection(Text(ts)) && ShortNumbers(Text(ts))
    ensures forall k :: 0 <= k < |Text(ts)| ==> IsSelectionChar(Text(ts)[k])
    decreases |ts|
  {
    TermTextAccepted(ts[0]);
    if |ts| > 1 {
      TextAccepted(ts[1..]);
      ShortJoin(TermText(ts[0]), ',', Text(ts[1..]));
      SelectionCharsJoined(TermText(ts[0]), Text(ts[1..]));
    }
  }

  /** Two texts of selection characters joined by a comma are one. */
  lemma SelectionCharsJoined(x: string, y: string)
    requires forall k :: 0 <= k < |x| ==> IsSelectionChar(x[k])
    requires forall k :: 0 <= k < |y| ==> IsSelectionChar(y[k])
    ensures forall k :: 0 <= k < |x + "," + y| ==> IsSelectionChar((x + "," + y)[k])
  {
    var s := x + "," + y;
    forall k | 0 <= k < |s|
      ensures IsSelectionChar(s[k])
    {
      if k < |x| {
        assert s[k] == x[k];
      } else if k > |x| {
        assert s[k] == y[k - |x| - 1];
      }
    }
  }
}
