/**
 * The worked examples of scut's usage text, and the behaviours at the edges
 * of a line, stated against the model.
 */
module Usage {
  import opened Selection
  import opened Extraction

  const Alice := "alice,30,532,AZ,S"
  const AliceFields := ["alice", "30", "532", "AZ", "S"]
  const LongSelection: seq<int> := [1, 2, 7, 8, 9, 10, 11, 12, 13, 14, 15]
  const ShortSelection: seq<int> := [1, 3, 4, 5]

  const LongTerms := [Span(1, 2), Span(7, 15)]

  lemma LongTermsText()
    ensures TwoDigitTerms(LongTerms) && Text(LongTerms) == "1-2,7-15"
  {
    var ts := LongTerms;
    assert DigitChar(1) == '1' && DigitChar(2) == '2' && DigitChar(5) == '5' && DigitChar(7) == '7';
    assert NumberText(15) == "15";
    assert TermText(ts[0]) == "1-2";
    assert TermText(ts[1]) == "7-15";
    assert ts[1..] == [Span(7, 15)];
    assert Text(ts[1..]) == "7-15";
  }

  lemma LongTermsColumns()
    ensures Expand(LongTerms) == LongSelection
  {
    var ts := LongTerms;
    assert Range(1, 2) == [1, 2];
    assert Range(7, 15) == [7, 8, 9, 10, 11, 12, 13, 14, 15];
    assert ts[1..] == [Span(7, 15)];
    assert Expand(ts[1..]) == Range(7, 15);
  }

  /** The selection `1-2,7-15` is accepted and names columns 1, 2 and 7 to 15. */
  lemma LongSelectionParse()
    ensures ValidSelection("1-2,7-15") && ShortNumbers("1-2,7-15")
    ensures Parse("1-2,7-15") == LongSelection
  {
    LongTermsText();
    LongTermsColumns();
    ParseText(LongTerms);
    TextAccepted(LongTerms);
  }

  /** The selection `1,3-5` is accepted and names columns 1, 3, 4 and 5. */
  lemma ShortSelectionParse()
    ensures ValidSelection("1,3-5") && ShortNumbers("1,3-5")
    ensures Parse("1,3-5") == ShortSelection
  {
    var ts := [Single(1), Span(3, 5)];
    assert TwoDigitTerms(ts);
    assert Text(ts[1..]) == "3-5";
    assert Text(ts) == "1,3-5";
    ParseText(ts);
    TextAccepted(ts);
    assert Range(3, 5) == [3, 4, 5];
  }

  /** In `1-2-3` the first dash fixes the start of the run, which the last number ends. */
  lemma ChainedDashes()
    ensures Parse("1-2-3") == [1, 2, 3]
  {
    var sel := "1-2-3";
    assert Run(sel[4..], Scan(0, 1, [])) == Scan(3, 1, []);
    assert Run(sel[2..], Scan(0, 1, [])) == Scan(3, 1, []);
    assert Run(sel, Start) == Scan(3, 1, []);
    assert Range(1, 3) == [1, 2, 3];
  }

  /** Selections that do not start and end with a digit, or hold other characters, are refused. */
  lemma RefusedSelections()
    ensures !ValidSelection("") && !ValidSelection("-3") && !ValidSelection("3,") && !ValidSelection("1;2")
  {
    assert "1;2"[1] == ';';
  }

  lemma AliceChars()
    ensures SelectChars(Alice, LongSelection) == "a l 3 0 , 5 3 2 , A Z"
  {
    AliceCharsNine();
  }

  lemma AliceCharsThree()
    ensures CharsUpTo(Alice, LongSelection, 3) == "a l 3 "
  {
  }

  lemma AliceCharsSix()
    ensures CharsUpTo(Alice, LongSelection, 6) == "a l 3 0 , 5 "
  {
    AliceCharsThree();
  }

  lemma AliceCharsNine()
    ensures CharsUpTo(Alice, LongSelection, 9) == "a l 3 0 , 5 3 2 , "
  {
    AliceCharsSix();
  }

  /** The buffer `fgets` fills with the first line of the sample file is scanned up to its newline. */
  lemma AliceScanned()
    ensures Scanned(Alice + "\n") == Alice
  {
    assert LineText(Alice);
    ScannedLine(Alice, "\n");
  }

  /** `-l 1-2,7-15` on the first line of the sample file. */
  lemma CharsExample()
    ensures Output(Alice + "\n", Chars, LongSelection) == "a l 3 0 , 5 3 2 , A Z\n"
  {
    AliceScanned();
    AliceChars();
  }

  lemma AliceSplit()
    ensures Closed(Alice, ',') && Fields(Alice, ',') == AliceFields
  {
    var fs := AliceFields;
    assert Plain(fs, ',');
    JoinAppend(["alice"], "30", ',');
    assert ["alice"] + ["30"] == fs[..2];
    JoinAppend(fs[..2], "532", ',');
    assert fs[..2] + ["532"] == fs[..3];
    JoinAppend(fs[..3], "AZ", ',');
    assert fs[..3] + ["AZ"] == fs[..4];
    JoinAppend(fs[..4], "S", ',');
    assert fs[..4] + ["S"] == fs;
    assert Join(fs, ',') == "alice" + "," + "30" + "," + "532" + "," + "AZ" + "," + "S" == Alice;
    FieldsOfJoin(fs, ',');
  }

  lemma AliceFieldsSelected()
    ensures SelectFields(AliceFields, ShortSelection) == "alice 532 AZ S"
  {
    assert FieldsUpTo(AliceFields, ShortSelection, 2) == "alice 532 ";
  }

  /** `-c 1,3-5` on the first line of the sample file. */
  lemma CommaExample()
    ensures Output(Alice + "\n", Comma, ShortSelection) == "alice 532 AZ S\n"
  {
    AliceScanned();
    AliceSplit();
    ClosedOutput(Alice + "\n", Comma, ShortSelection);
    AliceFieldsSelected();
  }

  lemma ThisIsSomeSplit()
    ensures Closed("this is some", ' ') && Fields("this is some", ' ') == ["this", "is", "some"]
  {
    var fs := ["this", "is", "some"];
    assert Plain(fs, ' ');
    JoinAppend(["this"], "is", ' ');
    JoinAppend(["this", "is"], "some", ' ');
    assert ["this", "is"] + ["some"] == fs;
    assert Join(fs, ' ') == "this" + " " + "is" + " " + "some" == "this is some";
    FieldsOfJoin(fs, ' ');
  }

  lemma ThisIsSomeScanned()
    ensures Scanned("this is some\n") == "this is some"
  {
    var s := "this is some";
    assert s + "\n" == "this is some\n";
    assert LineText(s);
    ScannedLine(s, "\n");
  }

  lemma ThisIsSomeSelected()
    ensures SelectFields(["this", "is", "some"], ShortSelection) == "this some"
  {
    var fs := ["this", "is", "some"];
    assert FieldsUpTo(fs, ShortSelection, 1) == "this ";
    assert FieldsUpTo(fs, ShortSelection, 2) == "this some";
  }

  /** `-w 1,3-5` on the line `this is some`. */
  lemma WhitespaceExample()
    ensures Output("this is some\n", Whitespace, ShortSelection) == "this some\n"
  {
    ThisIsSomeScanned();
    ThisIsSomeSplit();
    ClosedOutput("this is some\n", Whitespace, ShortSelection);
    ThisIsSomeSelected();
  }

  /** Two delimiters in a row: the second one is the first character of the next field. */
  lemma AdjacentDelimiters()
    ensures Fields("a,,b", ',') == ["a", ",b"]
  {
    var s := "a,,b";
    var e := ExtendLast([[]], 'a');
    assert e[0] == "a" && e == [e[0]];
    var e' := ExtendLast(["a", ","], 'b');
    assert e'[0] == "a" && e'[1] == ",b" && e' == [e'[0], e'[1]];
    assert SplitFrom("b", ',', ["a", ","]) == ["a", ",b"];
    assert s[1..] == ",,b" && s[1..][2..] == "b" && [s[1..][1]] == ",";
    assert ["a"] + [","] == ["a", ","];
    assert SplitFrom(s[1..], ',', ["a"]) == ["a", ",b"];
  }

  lemma TrailingScanned()
    ensures Scanned("a,b,\n") == "a,b," && !Closed("a,b,", ',')
  {
    var s := "a,b,";
    assert LineText(s);
    ScannedLine(s, "\n");
    assert s + "\n" == "a,b,\n";
    assert !Closed(s[2..], ',');
  }

  lemma TrailingFields()
    ensures Fields("a,b,\n", ',') == ["a", "b", "\n"]
  {
    var t := "a,b,\n";
    var e := ExtendLast([[]], 'a');
    assert e[0] == "a" && e == [e[0]];
    assert t[1..] == ",b,\n" && t[1..][2..] == ",\n" && [t[1..][1]] == "b";
    assert ["a"] + ["b"] == ["a", "b"];
    assert SplitFrom(",\n", ',', ["a", "b"]) == ["a", "b", "\n"];
    assert SplitFrom(t[1..], ',', ["a"]) == ["a", "b", "\n"];
  }

  /**
   * A line whose last field is empty: the walk takes the newline after the
   * closing delimiter as that field, so selecting it prints an empty line
   * before the line's own newline.
   */
  lemma TrailingDelimiter()
    ensures Output("a,b,\n", Comma, [3]) == "\n\n"
  {
    TrailingScanned();
    assert "a,b," + "\n" == "a,b,\n";
    assert Walked("a,b,\n", ',') == "a,b,\n";
    TrailingFields();
    assert SelectFields(["a", "b", "\n"], [3]) == "\n";
  }

  lemma SampleTextSplit()
    ensures Closed("sample text", ' ') && Fields("sample text", ' ') == ["sample", "text"]
  {
    var fs := ["sample", "text"];
    assert Plain(fs, ' ');
    JoinAppend(["sample"], "text", ' ');
    assert ["sample"] + ["text"] == fs;
    assert Join(fs, ' ') == "sample" + " " + "text" == "sample text";
    FieldsOfJoin(fs, ' ');
  }

  lemma SampleTextScanned()
    ensures Scanned("sample text") == "sample text"
  {
    var s := "sample text";
    assert LineText(s);
    ScannedLine(s, "");
    assert s + "" == s;
  }

  lemma SampleTextSelected()
    ensures SelectFields(["sample", "text"], ShortSelection) == "sample "
  {
    var fs := ["sample", "text"];
    assert FieldsUpTo(fs, ShortSelection, 1) == "sample ";
    assert FieldsUpTo(fs, ShortSelection, 2) == "sample ";
  }

  /**
   * `-w 1,3-5` on the last line `sample text`, which has no newline: leaving
   * the selected first field while field 3 is still requested prints a blank,
   * and the line has no field 3.
   */
  lemma SampleTextExample()
    ensures Output("sample text", Whitespace, ShortSelection) == "sample \n"
  {
    SampleTextScanned();
    SampleTextSplit();
    ClosedOutput("sample text", Whitespace, ShortSelection);
    SampleTextSelected();
  }
}
