/**
 * The per-line extractor of scut: it walks one line of input and emits the
 * requested columns, where a column is one character (`-l`), a field split on
 * blanks (`-w`) or a field split on commas (`-c`).
 */
module Extraction {

  /** The three column modes, chosen by the flags `-l`, `-w` and `-c`. */
  datatype Mode = Chars | Whitespace | Comma

  /** The character that ends a field in the two field modes. */
  function Delimiter(mode: Mode): char
    requires mode != Chars
  {
    if mode == Whitespace then ' ' else ','
  }

  // ---------------------------------------------------------------------------
  // The column array and the line buffer

  /** The columns an array of requested columns asks for: its entries before the first 0. */
  function Requested(cols: seq<int>): (cs: seq<int>)
    ensures |cs| <= |cols| && cs == cols[..|cs|]
    ensures forall k :: 0 <= k < |cs| ==> cs[k] != 0
    ensures |cs| < |cols| ==> cols[|cs|] == 0
  {
    if cols == [] || cols[0] == 0 then [] else [cols[0]] + Requested(cols[1..])
  }

  /** Columns that name real positions, each once, in increasing order. */
  predicate Ascending(cs: seq<int>) {
    (forall k :: 0 <= k < |cs| ==> cs[k] > 0) &&
    (forall a, b :: 0 <= a < b < |cs| ==> cs[a] < cs[b])
  }

  /** The part of a line buffer the extractor reads: everything before the first newline or terminator. */
  function Scanned(line: string): (s: string)
    ensures |s| <= |line| && s == line[..|s|]
    ensures forall k :: 0 <= k < |s| ==> s[k] != '\n' && s[k] != '\0'
    ensures |s| < |line| ==> line[|s|] == '\n' || line[|s|] == '\0'
  {
    if line == [] || line[0] == '\n' || line[0] == '\0' then [] else [line[0]] + Scanned(line[1..])
  }

  /** Text holding neither a newline nor a string terminator. */
  predicate LineText(s: string) {
    forall k :: 0 <= k < |s| ==> s[k] != '\n' && s[k] != '\0'
  }

  /** The scanned part of a buffer is the text before its newline or terminator. */
  lemma {:induction false} ScannedLine(s: string, rest: string)
    requires LineText(s) && (rest == [] || rest[0] == '\n' || rest[0] == '\0')
    ensures Scanned(s + rest) == s
    decreases |s|
  {
    if s == [] {
      assert s + rest == rest;
    } else {
      assert (s + rest)[1..] == s[1..] + rest;
      ScannedLine(s[1..], rest);
    }
  }

  // ---------------------------------------------------------------------------
  // Character columns (-l)

  /**
   * What the k-th requested column contributes in `-l` mode: the character at
   * that 1-based position, followed by one blank when another column is
   * requested after it; nothing when the line is shorter.
   */
  function CharPiece(s: string, cs: seq<int>, k: nat): string
    requires k < |cs|
  {
    if 0 < cs[k] <= |s| then [s[cs[k] - 1]] + (if k + 1 < |cs| then " " else "") else ""
  }

  /** The contributions of the first k requested columns, in order. */
  function CharsUpTo(s: string, cs: seq<int>, k: nat): string
    requires k <= |cs|
  {
    if k == 0 then "" else CharsUpTo(s, cs, k - 1) + CharPiece(s, cs, k - 1)
  }

  /** The output of `-l` mode for the scanned line `s`. */
  function SelectChars(s: string, cs: seq<int>): string {
    CharsUpTo(s, cs, |cs|)
  }

  /** The character a requested column names is printed, with a blank after it unless the column is the last one. */
  lemma CharTaken(s: string, cs: seq<int>, j: nat)
    requires j < |cs| && 0 < cs[j] <= |s|
    ensures j + 1 < |cs| ==> CharsUpTo(s, cs, j + 1) == CharsUpTo(s, cs, j) + [s[cs[j] - 1]] + " "
    ensures j + 1 == |cs| ==> CharsUpTo(s, cs, j + 1) == CharsUpTo(s, cs, j) + [s[cs[j] - 1]]
  {
    var before := CharsUpTo(s, cs, j);
    var c := s[cs[j] - 1];
    if j + 1 < |cs| {
      assert CharPiece(s, cs, j) == [c] + " ";
      assert before + ([c] + " ") == before + [c] + " ";
    }
  }

  /** Earlier columns are smaller. */
  lemma AscendingAt(cs: seq<int>, a: nat, b: nat)
    requires Ascending(cs) && a <= b < |cs|
    ensures 0 < cs[a] <= cs[b]
  {
    if a < b {
      assert cs[a] < cs[b];
    }
  }

  /** Columns past the end of the line add nothing. */
  lemma {:induction false} CharsTail(s: string, cs: seq<int>, j: nat)
    requires j <= |cs| && Ascending(cs)
    requires j < |cs| ==> cs[j] > |s|
    ensures SelectChars(s, cs) == CharsUpTo(s, cs, j)
    decreases |cs| - j
  {
    if j < |cs| {
      CharSkipped(s, cs, j, j);
      if j + 1 < |cs| {
        AscendingAt(cs, j, j + 1);
      }
      CharsTail(s, cs, j + 1);
    }
  }

  /** A column after one past the end of the line adds nothing. */
  lemma CharSkipped(s: string, cs: seq<int>, j: nat, m: nat)
    requires Ascending(cs) && j <= m < |cs| && cs[j] > |s|
    ensures CharsUpTo(s, cs, m + 1) == CharsUpTo(s, cs, m)
  {
    AscendingAt(cs, j, m);
    var prev := CharsUpTo(s, cs, m);
    assert CharPiece(s, cs, m) == "";
    assert prev + "" == prev;
  }

  // ---------------------------------------------------------------------------
  // Fields (-w and -c)

  /** Adds `c` to the last field. */
  function ExtendLast(fs: seq<string>, c: char): (r: seq<string>)
    requires |fs| > 0
    ensures |r| == |fs| && r[..|fs| - 1] == fs[..|fs| - 1] && r[|fs| - 1] == fs[|fs| - 1] + [c]
  {
    fs[..|fs| - 1] + [fs[|fs| - 1] + [c]]
  }

  /**
   * Splits `s` into fields the way the extractor walks it, continuing the
   * fields `fs` read so far: a delimiter closes the current field, and the
   * character right after it always belongs to the next field, even when it
   * is a delimiter too.
   */
  function SplitFrom(s: string, d: char, fs: seq<string>): (r: seq<string>)
    requires |fs| > 0
    ensures |r| >= |fs|
  {
    if s == [] then fs
    else if s[0] == d then
      if |s| == 1 then fs + [[]] else SplitFrom(s[2..], d, fs + [[s[1]]])
    else SplitFrom(s[1..], d, ExtendLast(fs, s[0]))
  }

  /** The fields of the scanned line `s`, numbered from 1. */
  function Fields(s: string, d: char): seq<string> {
    SplitFrom(s, d, [[]])
  }

  /**
   * Every delimiter that closes a field is followed by another character of
   * the line, so the walk never steps over the end of the line.
   */
  predicate Closed(s: string, d: char)
    decreases |s|
  {
    s == [] || if s[0] == d then |s| >= 2 && Closed(s[2..], d) else Closed(s[1..], d)
  }

  /** Fields joined back together with the delimiter. */
  function Join(fs: seq<string>, d: char): string {
    if |fs| == 0 then ""
    else if |fs| == 1 then fs[0]
    else Join(fs[..|fs| - 1], d) + [d] + fs[|fs| - 1]
  }

  lemma JoinAppend(fs: seq<string>, x: string, d: char)
    requires |fs| > 0
    ensures Join(fs + [x], d) == Join(fs, d) + [d] + x
  {
    assert (fs + [x])[..|fs|] == fs;
  }

  lemma JoinExtendLast(fs: seq<string>, c: char, d: char)
    requires |fs| > 0
    ensures Join(ExtendLast(fs, c), d) == Join(fs, d) + [c]
  {
    var r := ExtendLast(fs, c);
    if |fs| > 1 {
      assert r[..|r| - 1] == fs[..|fs| - 1];
    }
  }

  lemma {:induction false} SplitFromJoin(s: string, d: char, fs: seq<string>)
    requires |fs| > 0
    ensures Join(SplitFrom(s, d, fs), d) == Join(fs, d) + s
    decreases |s|
  {
    if s == [] {
    } else if s[0] == d {
      if |s| == 1 {
        JoinAppend(fs, [], d);
      } else {
        JoinAppend(fs, [s[1]], d);
        SplitFromJoin(s[2..], d, fs + [[s[1]]]);
        assert s == [d, s[1]] + s[2..];
      }
    } else {
      JoinExtendLast(fs, s[0], d);
      SplitFromJoin(s[1..], d, ExtendLast(fs, s[0]));
      assert s == [s[0]] + s[1..];
    }
  }

  /** Joining the fields with the delimiter gives back the line: no character is lost or added. */
  lemma FieldsJoin(s: string, d: char)
    ensures Join(Fields(s, d), d) == s
  {
    SplitFromJoin(s, d, [[]]);
  }

  /** Fields no delimiter can split: none holds the delimiter, and all but the first are non-empty. */
  predicate Plain(fs: seq<string>, d: char) {
    (forall a :: 0 <= a < |fs| ==> NoDelimiter(fs[a], d)) &&
    (forall a :: 0 < a < |fs| ==> |fs[a]| > 0)
  }

  predicate NoDelimiter(w: string, d: char) {
    forall k :: 0 <= k < |w| ==> w[k] != d
  }

  lemma {:induction false} ClosedPlain(w: string, d: char)
    requires NoDelimiter(w, d)
    ensures Closed(w, d)
    decreases |w|
  {
    if w != [] {
      ClosedPlain(w[1..], d);
    }
  }

  lemma {:induction false} ClosedAppend(x: string, y: string, d: char)
    requires Closed(x, d) && Closed(y, d)
    ensures Closed(x + y, d)
    decreases |x|
  {
    if x == [] {
      assert x + y == y;
    } else if x[0] == d {
      assert (x + y)[2..] == x[2..] + y;
      ClosedAppend(x[2..], y, d);
    } else {
      assert (x + y)[1..] == x[1..] + y;
      ClosedAppend(x[1..], y, d);
    }
  }

  /** Text without a delimiter all goes to the last field. */
  lemma {:induction false} SplitFromPlain(w: string, d: char, fs: seq<string>)
    requires |fs| > 0 && NoDelimiter(w, d)
    ensures SplitFrom(w, d, fs) == fs[..|fs| - 1] + [fs[|fs| - 1] + w]
    decreases |w|
  {
    if w == [] {
      assert fs[|fs| - 1] + w == fs[|fs| - 1];
    } else {
      var fs' := ExtendLast(fs, w[0]);
      SplitFromPlain(w[1..], d, fs');
      assert fs'[|fs| - 1] + w[1..] == fs[|fs| - 1] + w;
    }
  }

  /** The walk over `x + y` reads `x` first, when no delimiter of `x` reaches past its end. */
  lemma {:induction false} SplitFromAppend(x: string, y: string, d: char, fs: seq<string>)
    requires |fs| > 0 && Closed(x, d)
    ensures SplitFrom(x + y, d, fs) == SplitFrom(y, d, SplitFrom(x, d, fs))
    decreases |x|
  {
    if x == [] {
      assert x + y == y;
    } else if x[0] == d {
      assert (x + y)[2..] == x[2..] + y;
      SplitFromAppend(x[2..], y, d, fs + [[x[1]]]);
    } else {
      assert (x + y)[1..] == x[1..] + y;
      SplitFromAppend(x[1..], y, d, ExtendLast(fs, x[0]));
    }
  }

  /**
   * Splitting undoes joining for fields no delimiter can split: the line made
   * of such fields is walked without stepping past its end and gives back
   * exactly those fields.
   */
  lemma {:induction false} FieldsOfJoin(fs: seq<string>, d: char)
    requires |fs| > 0 && Plain(fs, d)
    ensures Closed(Join(fs, d), d) && Fields(Join(fs, d), d) == fs
  {
    var n := |fs|;
    var p, x := fs[..n - 1], fs[n - 1];
    PlainParts(fs, d);
    if n == 1 {
      FieldsOfOne(x, d);
      assert [x] == fs;
    } else {
      FieldsOfJoin(p, d);
      FieldsOfJoinStep(p, x, d);
      assert p + [x] == fs;
    }
  }

  lemma FieldsOfOne(x: string, d: char)
    requires NoDelimiter(x, d)
    ensures Closed(x, d) && Fields(x, d) == [x]
  {
    ClosedPlain(x, d);
    SplitFromPlain(x, d, [[]]);
    assert [] + x == x;
  }

  lemma FieldsOfJoinStep(p: seq<string>, x: string, d: char)
    requires |p| > 0 && |x| > 0 && NoDelimiter(x, d)
    requires Closed(Join(p, d), d) && Fields(Join(p, d), d) == p
    ensures Closed(Join(p + [x], d), d) && Fields(Join(p + [x], d), d) == p + [x]
  {
    var tail := [d] + x;
    JoinAppend(p, x, d);
    assert Join(p + [x], d) == Join(p, d) + tail;
    DelimThenPlain(x, d, p);
    ClosedAppend(Join(p, d), tail, d);
    SplitFromAppend(Join(p, d), tail, d, [[]]);
  }

  lemma PlainParts(fs: seq<string>, d: char)
    requires |fs| > 0 && Plain(fs, d)
    ensures Plain(fs[..|fs| - 1], d) && NoDelimiter(fs[|fs| - 1], d)
    ensures |fs| > 1 ==> |fs[|fs| - 1]| > 0
  {
  }

  /** A delimiter followed by a non-empty text without delimiters adds that text as one more field. */
  lemma DelimThenPlain(x: string, d: char, fs: seq<string>)
    requires |fs| > 0 && |x| > 0 && NoDelimiter(x, d)
    ensures Closed([d] + x, d) && SplitFrom([d] + x, d, fs) == fs + [x]
  {
    var tail := [d] + x;
    assert tail[2..] == x[1..];
    ClosedPlain(x[1..], d);
    SplitFromPlain(x[1..], d, fs + [[x[0]]]);
    assert [x[0]] + x[1..] == x;
    assert (fs + [[x[0]]])[..|fs|] == fs;
  }

  /** The first field holds no delimiter; any later field can hold one only as its first character. */
  predicate FieldShape(fs: seq<string>, d: char) {
    forall a, b :: 0 <= a < |fs| && 0 <= b < |fs[a]| && (a == 0 || b > 0) ==> fs[a][b] != d
  }

  lemma {:induction false} SplitFromShape(s: string, d: char, fs: seq<string>)
    requires |fs| > 0 && FieldShape(fs, d)
    ensures FieldShape(SplitFrom(s, d, fs), d)
    decreases |s|
  {
    if s == [] {
    } else if s[0] == d {
      if |s| > 1 {
        SplitFromShape(s[2..], d, fs + [[s[1]]]);
      }
    } else {
      SplitFromShape(s[1..], d, ExtendLast(fs, s[0]));
    }
  }

  /**
   * Fields are split on the delimiter: the first field holds none, and two
   * delimiters in a row make the second one the first character of the next
   * field instead of leaving an empty field.
   */
  lemma FieldsShape(s: string, d: char)
    ensures FieldShape(Fields(s, d), d)
  {
    SplitFromShape(s, d, [[]]);
  }

  /**
   * What the k-th requested column contributes in a field mode: that field,
   * followed by one blank when another column is requested after it and the
   * field was closed by a delimiter; nothing when the line has fewer fields.
   */
  function FieldPiece(fs: seq<string>, cs: seq<int>, k: nat): string
    requires k < |cs|
  {
    if 0 < cs[k] <= |fs| then fs[cs[k] - 1] + (if k + 1 < |cs| && cs[k] < |fs| then " " else "")
    else ""
  }

  function FieldsUpTo(fs: seq<string>, cs: seq<int>, k: nat): string
    requires k <= |cs|
  {
    if k == 0 then "" else FieldsUpTo(fs, cs, k - 1) + FieldPiece(fs, cs, k - 1)
  }

  /** The output of a field mode for the fields `fs` of a line. */
  function SelectFields(fs: seq<string>, cs: seq<int>): string {
    FieldsUpTo(fs, cs, |cs|)
  }

  /** `fs'` has at least as many fields as `fs`, and the same ones before the last field of `fs`. */
  predicate SameBefore(fs: seq<string>, fs': seq<string>) {
    0 < |fs| <= |fs'| && forall m :: 0 <= m < |fs| - 1 ==> fs'[m] == fs[m]
  }

  /**
   * The output for requested fields that are all closed (before the last field
   * of `fs`) stays the same while the walk goes on to extend `fs`.
   */
  lemma FieldsStable(fs: seq<string>, fs': seq<string>, cs: seq<int>, k: nat)
    requires SameBefore(fs, fs')
    requires k <= |cs| && forall m :: 0 <= m < k ==> 0 < cs[m] < |fs|
    ensures FieldsUpTo(fs', cs, k) == FieldsUpTo(fs, cs, k)
  {
    var i := 0;
    while i < k
      invariant i <= k && FieldsUpTo(fs', cs, i) == FieldsUpTo(fs, cs, i)
    {
      FieldsStableStep(fs, fs', cs, i);
      i := i + 1;
    }
  }

  lemma FieldsStableStep(fs: seq<string>, fs': seq<string>, cs: seq<int>, i: nat)
    requires SameBefore(fs, fs')
    requires i < |cs| && 0 < cs[i] < |fs|
    requires FieldsUpTo(fs', cs, i) == FieldsUpTo(fs, cs, i)
    ensures FieldsUpTo(fs', cs, i + 1) == FieldsUpTo(fs, cs, i + 1)
  {
    FieldPieceStable(fs, fs', cs, i);
  }

  lemma FieldPieceStable(fs: seq<string>, fs': seq<string>, cs: seq<int>, m: nat)
    requires SameBefore(fs, fs')
    requires m < |cs| && 0 < cs[m] < |fs|
    ensures FieldPiece(fs', cs, m) == FieldPiece(fs, cs, m)
  {
    assert fs'[cs[m] - 1] == fs[cs[m] - 1];
  }

  /** Requested fields past the last one add nothing. */
  lemma {:induction false} FieldsTail(fs: seq<string>, cs: seq<int>, j: nat, k: nat)
    requires j <= k <= |cs|
    requires forall m :: j <= m < |cs| ==> cs[m] > |fs|
    ensures FieldsUpTo(fs, cs, k) == FieldsUpTo(fs, cs, j)
  {
    if k > j {
      FieldsTail(fs, cs, j, k - 1);
      assert FieldPiece(fs, cs, k - 1) == "";
    }
  }

  /**
   * Where the field walk stands in the requested columns: `j` is the column it
   * waits for or is printing, every column before it names an earlier field,
   * and it only moves on past a column that is not the last one.
   */
  predicate Progress(fs: seq<string>, cs: seq<int>, j: nat) {
    |fs| > 0 && j <= |cs| && (|cs| > 0 ==> j < |cs|) &&
    (forall k :: 0 <= k < j ==> 0 < cs[k] < |fs|) &&
    (j + 1 < |cs| ==> cs[j] >= |fs|)
  }

  /** How many requested columns the walk has begun to print. */
  function Started(fs: seq<string>, cs: seq<int>, j: nat): (u: nat)
    requires j <= |cs|
    ensures j <= u <= |cs|
  {
    if j < |cs| && cs[j] <= |fs| then j + 1 else j
  }

  /** What the walk has printed once it has read the fields `fs`. */
  function Emitted(fs: seq<string>, cs: seq<int>, j: nat): string
    requires j <= |cs|
  {
    FieldsUpTo(fs, cs, Started(fs, cs, j))
  }

  /**
   * A character that is not a delimiter joins the current field, and is
   * printed exactly when the walk waits at that field.
   */
  lemma ExtendStep(fs: seq<string>, cs: seq<int>, j: nat, c: char)
    requires Ascending(cs) && Progress(fs, cs, j)
    ensures Progress(ExtendLast(fs, c), cs, j)
    ensures j < |cs| && cs[j] == |fs| ==> Emitted(ExtendLast(fs, c), cs, j) == Emitted(fs, cs, j) + [c]
    ensures !(j < |cs| && cs[j] == |fs|) ==> Emitted(ExtendLast(fs, c), cs, j) == Emitted(fs, cs, j)
  {
    var fs' := ExtendLast(fs, c);
    ExtendKeeps(fs, c);
    assert Progress(fs', cs, j);
    FieldsStable(fs, fs', cs, j);
    if j < |cs| && cs[j] == |fs| {
      ExtendOpenField(fs, cs, j, c);
    } else if j < |cs| && 0 < cs[j] < |fs| {
      assert Started(fs, cs, j) == j + 1 && Started(fs', cs, j) == j + 1;
      FieldsStableStep(fs, fs', cs, j);
    } else {
      assert Started(fs', cs, j) == Started(fs, cs, j) == j;
    }
  }

  /** Extending the last field keeps the fields before it. */
  lemma ExtendKeeps(fs: seq<string>, c: char)
    requires |fs| > 0
    ensures SameBefore(fs, ExtendLast(fs, c))
  {
    var fs' := ExtendLast(fs, c);
    forall m | 0 <= m < |fs| - 1
      ensures fs'[m] == fs[m]
    {
      assert fs'[m] == fs'[..|fs| - 1][m];
    }
  }

  /** The character that extends the requested field the walk is in is printed. */
  lemma ExtendOpenField(fs: seq<string>, cs: seq<int>, j: nat, c: char)
    requires Progress(fs, cs, j) && j < |cs| && cs[j] == |fs|
    ensures Emitted(ExtendLast(fs, c), cs, j) == Emitted(fs, cs, j) + [c]
  {
    var fs' := ExtendLast(fs, c);
    var before := FieldsUpTo(fs, cs, j);
    var last := fs[|fs| - 1];
    OpenFieldEmitted(fs, cs, j);
    ExtendedField(fs, cs, j, c);
    assert Started(fs', cs, j) == j + 1;
    assert before + (last + [c]) == before + last + [c];
  }

  lemma ExtendedField(fs: seq<string>, cs: seq<int>, j: nat, c: char)
    requires Progress(fs, cs, j) && j < |cs| && cs[j] == |fs|
    ensures FieldsUpTo(ExtendLast(fs, c), cs, j + 1) == FieldsUpTo(fs, cs, j) + (fs[|fs| - 1] + [c])
  {
    var fs' := ExtendLast(fs, c);
    ExtendKeeps(fs, c);
    FieldsStable(fs, fs', cs, j);
    assert FieldPiece(fs', cs, j) == fs[|fs| - 1] + [c];
  }

  /**
   * A delimiter followed by `x`, when the field it closes is not a requested
   * one, or is the last requested one: no blank, and `x` starts the next field
   * and is printed when that field is the one the walk waits for.
   */
  lemma DelimPasses(fs: seq<string>, cs: seq<int>, j: nat, x: char)
    requires Ascending(cs) && Progress(fs, cs, j)
    requires !(j < |cs| && cs[j] == |fs| && j + 1 < |cs|)
    ensures Progress(fs + [[x]], cs, j)
    ensures j < |cs| && cs[j] == |fs| + 1 ==> Emitted(fs + [[x]], cs, j) == Emitted(fs, cs, j) + [x]
    ensures !(j < |cs| && cs[j] == |fs| + 1) ==> Emitted(fs + [[x]], cs, j) == Emitted(fs, cs, j)
  {
    var fs' := fs + [[x]];
    DelimProgress(fs, cs, j, x);
    var before := FieldsUpTo(fs, cs, j);
    assert SameBefore(fs, fs');
    FieldsStable(fs, fs', cs, j);
    assert FieldsUpTo(fs', cs, j) == before;
    if j < |cs| && cs[j] == |fs| + 1 {
      assert Started(fs, cs, j) == j && Started(fs', cs, j) == j + 1;
      assert FieldPiece(fs', cs, j) == [x];
      assert Emitted(fs', cs, j) == before + [x];
    } else if j < |cs| && 0 < cs[j] <= |fs| {
      assert Started(fs, cs, j) == j + 1 && Started(fs', cs, j) == j + 1;
      assert fs'[cs[j] - 1] == fs[cs[j] - 1];
      assert cs[j] < |fs| || j + 1 == |cs|;
      assert FieldPiece(fs', cs, j) == FieldPiece(fs, cs, j);
      assert Emitted(fs', cs, j) == before + FieldPiece(fs, cs, j);
    } else {
      assert Started(fs', cs, j) == Started(fs, cs, j) == j;
    }
  }

  /** A delimiter outside the last requested field keeps the walk at the same requested column. */
  lemma DelimProgress(fs: seq<string>, cs: seq<int>, j: nat, x: char)
    requires Progress(fs, cs, j)
    requires !(j < |cs| && cs[j] == |fs| && j + 1 < |cs|)
    ensures Progress(fs + [[x]], cs, j)
  {
  }

  /**
   * A delimiter followed by `x` after a requested field that is not the last
   * requested one: a blank closes that field, and `x` starts the next field
   * and is printed when that field is the next requested one.
   */
  lemma DelimClosesRequested(fs: seq<string>, cs: seq<int>, j: nat, x: char)
    requires Ascending(cs) && Progress(fs, cs, j)
    requires j + 1 < |cs| && cs[j] == |fs|
    ensures Progress(fs + [[x]], cs, j + 1)
    ensures cs[j + 1] == |fs| + 1 ==> Emitted(fs + [[x]], cs, j + 1) == Emitted(fs, cs, j) + " " + [x]
    ensures cs[j + 1] != |fs| + 1 ==> Emitted(fs + [[x]], cs, j + 1) == Emitted(fs, cs, j) + " "
  {
    var fs' := fs + [[x]];
    ClosedProgress(fs, cs, j, x);
    ClosedWithBlank(fs, cs, j, x);
    if cs[j + 1] == |fs| + 1 {
      NextFieldOpens(fs, cs, j, x);
    } else {
      NextFieldWaits(fs, cs, j, x);
    }
  }

  /** The new field is requested next: its first character is printed at once. */
  lemma NextFieldOpens(fs: seq<string>, cs: seq<int>, j: nat, x: char)
    requires j + 1 < |cs| && cs[j + 1] == |fs| + 1
    ensures Emitted(fs + [[x]], cs, j + 1) == FieldsUpTo(fs + [[x]], cs, j + 1) + [x]
  {
    var fs' := fs + [[x]];
    assert Started(fs', cs, j + 1) == j + 2;
    assert FieldPiece(fs', cs, j + 1) == [x];
  }

  /** The new field is not requested next: nothing more is printed yet. */
  lemma NextFieldWaits(fs: seq<string>, cs: seq<int>, j: nat, x: char)
    requires Ascending(cs) && j + 1 < |cs| && cs[j] == |fs| && cs[j + 1] != |fs| + 1
    ensures Emitted(fs + [[x]], cs, j + 1) == FieldsUpTo(fs + [[x]], cs, j + 1)
  {
    assert cs[j] < cs[j + 1];
    assert Started(fs + [[x]], cs, j + 1) == j + 1;
  }

  /** Closing a requested field moves the walk on to the next requested column. */
  lemma ClosedProgress(fs: seq<string>, cs: seq<int>, j: nat, x: char)
    requires Ascending(cs) && Progress(fs, cs, j)
    requires j + 1 < |cs| && cs[j] == |fs|
    ensures Progress(fs + [[x]], cs, j + 1)
  {
    assert cs[j] < cs[j + 1];
  }

  /** The requested field the delimiter closes is printed with a blank after it. */
  lemma ClosedWithBlank(fs: seq<string>, cs: seq<int>, j: nat, x: char)
    requires Progress(fs, cs, j)
    requires j + 1 < |cs| && cs[j] == |fs|
    ensures FieldsUpTo(fs + [[x]], cs, j + 1) == Emitted(fs, cs, j) + " "
  {
    var before := FieldsUpTo(fs, cs, j);
    var last := fs[|fs| - 1];
    OpenFieldEmitted(fs, cs, j);
    BlankAfterField(fs, cs, j, x);
    assert before + (last + " ") == before + last + " ";
  }

  /** While the walk is inside the requested last field read so far, that field is printed. */
  lemma OpenFieldEmitted(fs: seq<string>, cs: seq<int>, j: nat)
    requires Progress(fs, cs, j)
    requires j < |cs| && cs[j] == |fs|
    ensures Emitted(fs, cs, j) == FieldsUpTo(fs, cs, j) + fs[|fs| - 1]
  {
    assert Started(fs, cs, j) == j + 1;
    assert FieldPiece(fs, cs, j) == fs[|fs| - 1] by {
      assert !(cs[j] < |fs|);
    }
  }

  /** Once another field follows it, a requested field that is not the last requested one gets its blank. */
  lemma BlankAfterField(fs: seq<string>, cs: seq<int>, j: nat, x: char)
    requires Progress(fs, cs, j)
    requires j + 1 < |cs| && cs[j] == |fs|
    ensures FieldsUpTo(fs + [[x]], cs, j + 1) == FieldsUpTo(fs, cs, j) + (fs[|fs| - 1] + " ")
  {
    var fs' := fs + [[x]];
    assert SameBefore(fs, fs');
    FieldsStable(fs, fs', cs, j);
    assert FieldPiece(fs', cs, j) == fs[|fs| - 1] + " " by {
      assert fs'[cs[j] - 1] == fs[|fs| - 1];
      assert cs[j] < |fs'|;
    }
  }

  /** Once the whole line is read, the walk has printed the selected fields. */
  lemma EmittedAll(fs: seq<string>, cs: seq<int>, j: nat)
    requires Ascending(cs) && Progress(fs, cs, j)
    ensures Emitted(fs, cs, j) == SelectFields(fs, cs)
  {
    FieldsTail(fs, cs, Started(fs, cs, j), |cs|);
  }

  /**
   * The text the field walk reads from a line buffer: the scanned line and,
   * when the line ends with a delimiter that closes a field, the newline after
   * it too, which the walk takes as the first character of the next field.
   */
  function Walked(line: string, d: char): (t: string)
    ensures Closed(Scanned(line), d) ==> t == Scanned(line)
    ensures !Closed(Scanned(line), d) ==> t == Scanned(line) + "\n"
  {
    var s := Scanned(line);
    if Closed(s, d) then s else s + "\n"
  }

  /**
   * A line buffer the field walk stays inside: either no delimiter is left
   * without a character after it, or the line ends with its newline, as every
   * line but the last of a file does.
   */
  predicate FieldLine(line: string, d: char) {
    Closed(Scanned(line), d) || line == Scanned(line) + "\n"
  }

  lemma {:induction false} ClosedWithNewline(s: string, d: char)
    requires d != '\n' && !Closed(s, d)
    ensures Closed(s + "\n", d)
    decreases |s|
  {
    var t := s + "\n";
    if s[0] == d {
      if |s| >= 2 {
        assert t[2..] == s[2..] + "\n";
        ClosedWithNewline(s[2..], d);
      } else {
        assert t[2..] == [];
      }
    } else {
      assert t[1..] == s[1..] + "\n";
      ClosedWithNewline(s[1..], d);
    }
  }

  /**
   * The field walk stands at position `i` of the walked text `t` of the
   * scanned line `s` with the fields `fs` read so far, and reading on from
   * there completes the fields of `t`.
   */
  predicate WalkAt(s: string, t: string, d: char, i: nat, fs: seq<string>) {
    |fs| > 0 && i <= |t| && (i <= |s| ==> (Closed(s[i..], d) <==> Closed(s, d))) &&
    Closed(t[i..], d) && SplitFrom(t[i..], d, fs) == Fields(t, d)
  }

  lemma WalkStart(line: string, d: char)
    requires d != '\n' && FieldLine(line, d)
    ensures WalkAt(Scanned(line), Walked(line, d), d, 0, [[]])
    ensures |Walked(line, d)| <= |line| && Walked(line, d) == line[..|Walked(line, d)|]
  {
    var s := Scanned(line);
    if !Closed(s, d) {
      ClosedWithNewline(s, d);
    }
  }

  /**
   * The walk goes on exactly while there is walked text left, and reads it
   * from the line buffer.
   */
  lemma WalkGoesOn(line: string, d: char, s: string, t: string, i: nat, fs: seq<string>)
    requires d != '\n' && FieldLine(line, d) && s == Scanned(line) && t == Walked(line, d)
    requires WalkAt(s, t, d, i, fs)
    ensures (i < |line| && line[i] != '\n' && line[i] != '\0') <==> i < |t|
    ensures i < |t| ==> line[i] == t[i]
    ensures i + 1 < |t| ==> line[i + 1] == t[i + 1]
  {
    WalkStart(line, d);
  }

  /** One step of the field walk, stated on the line buffer the method reads. */
  lemma WalkAdvance(line: string, d: char, s: string, t: string, i: nat, fs: seq<string>)
    requires d != '\n' && FieldLine(line, d) && s == Scanned(line) && t == Walked(line, d)
    requires WalkAt(s, t, d, i, fs)
    requires i < |line| && line[i] != '\n' && line[i] != '\0'
    ensures line[i] == d ==> i + 1 < |line| && WalkAt(s, t, d, i + 2, fs + [[line[i + 1]]])
    ensures line[i] != d ==> WalkAt(s, t, d, i + 1, ExtendLast(fs, line[i]))
  {
    WalkGoesOn(line, d, s, t, i, fs);
    WalkStep(s, t, d, i, fs);
    var next := WalkNext(t, d, i, fs);
    if line[i] == d {
      assert t[i] == d && i + 1 < |t|;
      assert next == (i + 2, fs + [[line[i + 1]]]);
    } else {
      assert next == (i + 1, ExtendLast(fs, line[i]));
    }
  }

  /**
   * One step of the walk from position `i`: a delimiter takes the character
   * after it along into a new field, any other character extends the current
   * field.
   */
  function WalkNext(t: string, d: char, i: nat, fs: seq<string>): (nat, seq<string>)
    requires i < |t| && |fs| > 0
  {
    if t[i] == d && i + 1 < |t| then (i + 2, fs + [[t[i + 1]]]) else (i + 1, ExtendLast(fs, t[i]))
  }

  lemma WalkStep(s: string, t: string, d: char, i: nat, fs: seq<string>)
    requires WalkAt(s, t, d, i, fs) && i < |t|
    requires t == s || (t == s + "\n" && !Closed(s, d))
    ensures i < |s| && (t[i] == d ==> i + 1 < |t|)
    ensures WalkAt(s, t, d, WalkNext(t, d, i, fs).0, WalkNext(t, d, i, fs).1)
  {
    var r := t[i..];
    if t[i] == d {
      assert r[2..] == t[i + 2..];
      if i + 1 < |s| {
        assert s[i..][2..] == s[i + 2..];
      }
    } else {
      assert r[1..] == t[i + 1..];
      assert s[i..][1..] == s[i + 1..];
    }
  }

  /** The output line scut prints for one input line: the selection, then one newline. */
  function Output(line: string, mode: Mode, cs: seq<int>): string {
    (if mode == Chars then SelectChars(Scanned(line), cs)
     else SelectFields(Fields(Walked(line, Delimiter(mode)), Delimiter(mode)), cs)) + "\n"
  }

  /** The output of a field mode for a line whose scanned text closes every field it opens. */
  lemma ClosedOutput(line: string, mode: Mode, cs: seq<int>)
    requires mode != Chars && Closed(Scanned(line), Delimiter(mode))
    ensures Output(line, mode, cs) == SelectFields(Fields(Scanned(line), Delimiter(mode)), cs) + "\n"
  {
  }

  /** No piece of `fs` holds the character `c`. */
  predicate NoneHold(fs: seq<string>, c: char) {
    forall k :: 0 <= k < |fs| ==> NoDelimiter(fs[k], c)
  }

  lemma NoDelimiterJoined(a: string, b: string, c: char)
    requires NoDelimiter(a, c) && NoDelimiter(b, c)
    ensures NoDelimiter(a + b, c)
  {
    forall k | 0 <= k < |a + b|
      ensures (a + b)[k] != c
    {
      if k >= |a| {
        assert (a + b)[k] == b[k - |a|];
      }
    }
  }

  /** The `-l` output of a line without newlines has none either. */
  lemma {:induction false} CharsWithout(s: string, cs: seq<int>, k: nat, c: char)
    requires k <= |cs| && NoDelimiter(s, c) && c != ' '
    ensures NoDelimiter(CharsUpTo(s, cs, k), c)
    decreases k
  {
    if k > 0 {
      CharsWithout(s, cs, k - 1, c);
      NoDelimiterJoined(CharsUpTo(s, cs, k - 1), CharPiece(s, cs, k - 1), c);
    }
  }

  /** Splitting never makes up a character: fields of a text without `c` are without `c`. */
  lemma {:induction false} SplitFromWithout(s: string, d: char, fs: seq<string>, c: char)
    requires |fs| > 0 && NoDelimiter(s, c) && NoneHold(fs, c)
    ensures NoneHold(SplitFrom(s, d, fs), c)
    decreases |s|
  {
    if s == [] {
    } else if s[0] == d {
      if |s| > 1 {
        assert NoDelimiter(s[2..], c);
        SplitFromWithout(s[2..], d, fs + [[s[1]]], c);
      }
    } else {
      var e := ExtendLast(fs, s[0]);
      assert NoDelimiter(e[|fs| - 1], c);
      assert NoDelimiter(s[1..], c);
      SplitFromWithout(s[1..], d, e, c);
    }
  }

  /** The field output for fields without `c` is without `c`. */
  lemma {:induction false} FieldsWithout(fs: seq<string>, cs: seq<int>, k: nat, c: char)
    requires k <= |cs| && NoneHold(fs, c) && c != ' '
    ensures NoDelimiter(FieldsUpTo(fs, cs, k), c)
    decreases k
  {
    if k > 0 {
      FieldsWithout(fs, cs, k - 1, c);
      var p := FieldPiece(fs, cs, k - 1);
      if 0 < cs[k - 1] <= |fs| {
        NoDelimiterJoined(fs[cs[k - 1] - 1], if k < |cs| && cs[k - 1] < |fs| then " " else "", c);
      }
      NoDelimiterJoined(FieldsUpTo(fs, cs, k - 1), p, c);
    }
  }

  /**
   * Each line buffer gives exactly one newline, at the end of its output,
   * unless a field mode's line ends in a delimiter that only the newline
   * follows: that newline is then the last field's content.
   */
  lemma OneNewline(line: string, mode: Mode, cs: seq<int>)
    requires mode != Chars ==> Closed(Scanned(line), Delimiter(mode))
    ensures |Output(line, mode, cs)| > 0
    ensures Output(line, mode, cs)[|Output(line, mode, cs)| - 1] == '\n'
    ensures NoDelimiter(Output(line, mode, cs)[..|Output(line, mode, cs)| - 1], '\n')
  {
    var s := Scanned(line);
    assert NoDelimiter(s, '\n');
    var body := if mode == Chars then SelectChars(s, cs)
      else SelectFields(Fields(Walked(line, Delimiter(mode)), Delimiter(mode)), cs);
    if mode == Chars {
      CharsWithout(s, cs, |cs|, '\n');
    } else {
      var d := Delimiter(mode);
      assert NoneHold([[]], '\n');
      SplitFromWithout(s, d, [[]], '\n');
      FieldsWithout(Fields(s, d), cs, |cs|, '\n');
    }
    assert Output(line, mode, cs) == body + "\n";
    assert Output(line, mode, cs)[..|body|] == body;
  }

  // ---------------------------------------------------------------------------
  // The extractor

  /**
   * One pass of the body of the `-l` walk at position `i` of the line: the
   * character there is printed when its column is the one the walk waits
   * for, and the walk then waits for the next requested column.
   */
  method CharStep(line: string, cols: array<int>, i: nat, j: nat, out: string,
                  ghost s: string, ghost cs: seq<int>)
    returns (j': nat, out': string)
    requires Sentinel(cols, cs) && Ascending(cs)
    requires i < |s| <= |line| && s[i] == line[i]
    requires j <= |cs| && (j < |cs| ==> cs[j] > i) && out == CharsUpTo(s, cs, j)
    ensures j <= j' <= j + 1
    ensures j' <= |cs| && (j' < |cs| ==> cs[j'] > i + 1) && out' == CharsUpTo(s, cs, j')
  {
    SentinelAt(cols, cs, j);
    if i + 1 == cols[j] {
      CharMatch(s, cs, j, i);
      j' := j + 1;
      SentinelAt(cols, cs, j');
      if cols[j'] != 0 {
        out' := out + [line[i]] + " ";
      } else {
        out' := out + [line[i]];
      }
    } else {
      j', out' := j, out;
    }
  }

  /** Reading `cols` at `k`: the requested column there, or the 0 that ends them. */
  lemma SentinelAt(cols: array<int>, cs: seq<int>, k: nat)
    requires Sentinel(cols, cs) && Ascending(cs) && k <= |cs|
    ensures k < cols.Length
    ensures k < |cs| ==> cols[k] == cs[k] && cols[k] != 0
    ensures k == |cs| ==> cols[k] == 0
  {
  }

  /** The `-l` walk at the character the requested column `cs[j]` names. */
  lemma CharMatch(s: string, cs: seq<int>, j: nat, i: nat)
    requires Ascending(cs) && j < |cs| && cs[j] == i + 1 && i < |s|
    ensures j + 1 < |cs| ==> cs[j + 1] > i + 1 && CharsUpTo(s, cs, j + 1) == CharsUpTo(s, cs, j) + [s[i]] + " "
    ensures j + 1 == |cs| ==> CharsUpTo(s, cs, j + 1) == CharsUpTo(s, cs, j) + [s[i]]
  {
    CharTaken(s, cs, j);
    if j + 1 < |cs| {
      assert cs[j] < cs[j + 1];
    }
  }

  /** The `-l` walk over one line buffer. */
  method ExtractChars(line: string, cols: array<int>) returns (out: string)
    requires |Requested(cols[..])| < cols.Length && Ascending(Requested(cols[..]))
    ensures out == SelectChars(Scanned(line), Requested(cols[..]))
  {
    ghost var cs := Requested(cols[..]);
    assert Sentinel(cols, cs);
    out := WalkChars(line, cols, cs);
  }

  /** The loop of the `-l` walk, for the columns `cs` that `cols` holds before its 0. */
  method WalkChars(line: string, cols: array<int>, ghost cs: seq<int>) returns (out: string)
    requires Sentinel(cols, cs) && Ascending(cs)
    ensures out == SelectChars(Scanned(line), cs)
  {
    ghost var s := Scanned(line);
    var i: nat, j: nat := 0, 0;
    out := "";
    while i < |line| && line[i] != '\n' && line[i] != '\0'
      invariant i <= |s| && j <= |cs|
      invariant j < |cs| ==> cs[j] > i
      invariant out == CharsUpTo(s, cs, j)
      decreases |line| - i
    {
      assert i < |s|;
      j, out := CharStep(line, cols, i, j, out, s, cs);
      i := i + 1;
    }
    assert i == |s|;
    CharsTail(s, cs, j);
  }

  /**
   * One pass of the body of the field walk at position `i` of the line: what
   * it prints, and the position, requested-column index and field number it
   * goes on with.
   */
  method FieldStep(line: string, d: char, cols: array<int>, i: nat, j: nat, col: nat, out: string,
                   ghost cs: seq<int>, ghost fs: seq<string>)
    returns (i': nat, j': nat, col': nat, out': string)
    requires Sentinel(cols, cs) && Ascending(cs)
    requires i < |line| && (line[i] == d ==> i + 1 < |line|)
    requires col == |fs| && Progress(fs, cs, j) && out == Emitted(fs, cs, j)
    ensures line[i] == d ==>
      i' == i + 2 && col' == col + 1 && Progress(fs + [[line[i + 1]]], cs, j') &&
      out' == Emitted(fs + [[line[i + 1]]], cs, j')
    ensures line[i] != d ==>
      i' == i + 1 && col' == col && Progress(ExtendLast(fs, line[i]), cs, j') &&
      out' == Emitted(ExtendLast(fs, line[i]), cs, j')
    ensures j <= j' <= j + 1
  {
    i', j', col', out' := i, j, col, out;
    if line[i] == d {
      if col == cols[j] && cols[j + 1] != 0 {
        DelimClosesRequested(fs, cs, j, line[i + 1]);
        out' := out' + " ";
        j' := j + 1;
      } else {
        DelimPasses(fs, cs, j, line[i + 1]);
      }
      col' := col + 1;
      i' := i + 1;
    } else {
      ExtendStep(fs, cs, j, line[i]);
    }
    if col' == cols[j'] {
      out' := out' + [line[i']];
    }
    i' := i' + 1;
  }

  /**
   * The column array as the parser leaves it: the columns `p`, none of them
   * 0, followed by a 0. The extractor then requests exactly `p`.
   */
  lemma RequestedPrefix(cols: seq<int>, p: seq<int>)
    requires |p| < |cols| && cols[..|p|] == p && cols[|p|] == 0
    requires forall k :: 0 <= k < |p| ==> p[k] != 0
    ensures Requested(cols) == p
  {
  }

  /** The columns `cs` are the entries of `cols` before its first 0, and that 0 is there. */
  predicate Sentinel(cols: array<int>, cs: seq<int>)
    reads cols
  {
    |cs| < cols.Length && cols[|cs|] == 0 && forall k :: 0 <= k < |cs| ==> cols[k] == cs[k]
  }

  /** The `-w` or `-c` walk over one line buffer. */
  method ExtractFields(line: string, mode: Mode, cols: array<int>) returns (out: string)
    requires mode != Chars && FieldLine(line, Delimiter(mode))
    requires |Requested(cols[..])| < cols.Length && Ascending(Requested(cols[..]))
    ensures out == SelectFields(Fields(Walked(line, Delimiter(mode)), Delimiter(mode)), Requested(cols[..]))
  {
    ghost var cs := Requested(cols[..]);
    assert Sentinel(cols, cs);
    out := WalkFields(line, Delimiter(mode), cols, cs);
  }

  /** The loop of the field walk with delimiter `d`, for the columns `cs` that `cols` holds before its 0. */
  method WalkFields(line: string, d: char, cols: array<int>, ghost cs: seq<int>) returns (out: string)
    requires d != '\n' && FieldLine(line, d)
    requires Sentinel(cols, cs) && Ascending(cs)
    ensures out == SelectFields(Fields(Walked(line, d), d), cs)
  {
    ghost var fs: seq<string> := [[]];
    ghost var s := Scanned(line);
    ghost var t := Walked(line, d);
    WalkStart(line, d);
    var i, j := 0, 0;
    var col := 1;
    out := "";
    WalkBegins(cs);
    while i < |line| && line[i] != '\n' && line[i] != '\0'
      invariant col == |fs| && Progress(fs, cs, j) && out == Emitted(fs, cs, j)
      invariant WalkAt(s, t, d, i, fs)
      decreases |line| - i
    {
      WalkAdvance(line, d, s, t, i, fs);
      ghost var fs' := if line[i] == d then fs + [[line[i + 1]]] else ExtendLast(fs, line[i]);
      i, j, col, out := FieldStep(line, d, cols, i, j, col, out, cs, fs);
      fs := fs';
    }
    WalkGoesOn(line, d, s, t, i, fs);
    assert fs == Fields(t, d);
    EmittedAll(fs, cs, j);
  }

  /** Before the first character nothing has been printed, even when column 1 is requested. */
  lemma WalkBegins(cs: seq<int>)
    requires Ascending(cs)
    ensures Progress([[]], cs, 0) && Emitted([[]], cs, 0) == ""
  {
    var fs: seq<string> := [[]];
    if Started(fs, cs, 0) > 0 {
      assert FieldsUpTo(fs, cs, 1) == FieldsUpTo(fs, cs, 0) + FieldPiece(fs, cs, 0);
      assert FieldPiece(fs, cs, 0) == fs[0] == "";
    }
  }

  /** Everything scut prints for one line buffer. */
  method ExtractLine(line: string, mode: Mode, cols: array<int>) returns (out: string)
    requires mode != Chars ==> FieldLine(line, Delimiter(mode))
    requires |Requested(cols[..])| < cols.Length && Ascending(Requested(cols[..]))
    ensures out == Output(line, mode, Requested(cols[..]))
  {
    if mode == Chars {
      out := ExtractChars(line, cols);
    } else {
      out := ExtractFields(line, mode, cols);
    }
    out := out + "\n";
  }
}
