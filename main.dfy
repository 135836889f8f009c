/**
 * scut's driver for one mode and one selection: the selection is checked,
 * expanded into a zero-filled column array of 128 entries, and every line
 * of the input is cut with it.
 */
module Scut {
  import opened Selection
  import opened Extraction

  /** Entries of the column array; the 0 after the last column ends the list. */
  const ColumnSlots := 128

  /**
   * Cuts every line of `lines`. An invalid selection gives exit code 2 and
   * no output; otherwise the exit code is 0 and each input line gives the
   * output line the extractor computes for the parsed columns.
   */
  method CutLines(mode: Mode, sel: string, lines: seq<string>) returns (code: int, out: seq<string>)
    requires ValidSelection(sel) ==> ShortNumbers(sel) && |Parse(sel)| < ColumnSlots && Ascending(Parse(sel))
    requires ValidSelection(sel) && mode != Chars ==>
      forall k :: 0 <= k < |lines| ==> FieldLine(lines[k], Delimiter(mode))
    ensures code == 0 || code == 2
    ensures code == 2 <==> !ValidSelection(sel)
    ensures code == 2 ==> out == []
    ensures code == 0 ==> |out| == |lines|
    ensures code == 0 ==> forall k :: 0 <= k < |lines| ==> out[k] == Output(lines[k], mode, Parse(sel))
  {
    var valid := ValidateSelection(sel);
    if valid != 0 {
      return 2, [];
    }
    var cols := new int[ColumnSlots](_ => 0);
    GetCols(cols, sel);
    ghost var p := Parse(sel);
    assert cols[|p|] == 0;
    RequestedPrefix(cols[..], p);
    out := CutEach(lines, mode, cols);
    code := 0;
  }

  /** The read loop: every line buffer is cut with the same column array. */
  method CutEach(lines: seq<string>, mode: Mode, cols: array<int>) returns (out: seq<string>)
    requires mode != Chars ==> forall k :: 0 <= k < |lines| ==> FieldLine(lines[k], Delimiter(mode))
    requires |Requested(cols[..])| < cols.Length && Ascending(Requested(cols[..]))
    ensures |out| == |lines|
    ensures forall k :: 0 <= k < |lines| ==> out[k] == Output(lines[k], mode, Requested(cols[..]))
  {
    out := [];
    var n := 0;
    while n < |lines|
      invariant n <= |lines| && |out| == n
      invariant forall k :: 0 <= k < n ==> out[k] == Output(lines[k], mode, Requested(cols[..]))
    {
      var o := ExtractLine(lines[n], mode, cols);
      out := out + [o];
      n := n + 1;
    }
  }
}
