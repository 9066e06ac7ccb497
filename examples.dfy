/** Worked cases of the engine's rules on concrete inputs. */
module Examples {
  import opened Wrappers
  import opened Colors
  import opened Matching
  import opened Dom
  import opened Scan
  import opened Clear
  import opened Registry

  /** The ASCII part of `toLowerCase`. */
  function AsciiLower(c: char): char {
    if 'A' <= c <= 'Z' then (c as int + 32) as char else c
  }

  /** Matches do not overlap: in "aaa" the term "aa" is found once, and the last "a" is left over. */
  lemma SplitNonOverlapping()
    ensures Split(Matcher("aa", true, AsciiLower), "aaa") == ["", "aa", "a"]
  {
    var m := Matcher("aa", true, AsciiLower);
    var s := "aaa";
    assert s[0] == 'a' && s[1] == 'a';
    assert MatchesAt(m, s, 0);
    assert FindFrom(m, s, 0) == Some(0);
    assert s[..0] == "" && s[0..2] == "aa" && s[2..] == "a";
    assert FindFrom(m, "a", 0) == None;
    assert Split(m, "a") == ["a"];
  }

  /** A case-sensitive row finds only the exact spelling in "cat CAT": one span. */
  lemma CaseSensitiveSplit()
    ensures Split(Matcher("cat", true, AsciiLower), "cat CAT") == ["", "cat", " CAT"]
    ensures var m := Matcher("cat", true, AsciiLower); MatchCount(m, Split(m, "cat CAT")) == 1
  {
    var m := Matcher("cat", true, AsciiLower);
    var s := "cat CAT";
    assert s[0] == 'c' && s[1] == 'a' && s[2] == 't';
    assert MatchesAt(m, s, 0);
    assert FindFrom(m, s, 0) == Some(0);
    assert s[..0] == "" && s[0..3] == "cat" && s[3..] == " CAT";
    var rest := " CAT";
    assert rest[0] == ' ' && rest[1] == 'C';
    assert !MatchesAt(m, rest, 0) && !MatchesAt(m, rest, 1);
    assert FindFrom(m, rest, 0) == None;
    assert Split(m, rest) == [rest];
    assert !IsMatchPart(m, "") && IsMatchPart(m, "cat") && !IsMatchPart(m, " CAT");
    assert MatchCount(m, [" CAT"]) == 0 by { assert [" CAT"][1..] == []; }
    assert MatchCount(m, ["cat", " CAT"]) == 1 by { assert ["cat", " CAT"][1..] == [" CAT"]; }
    assert ["", "cat", " CAT"][1..] == ["cat", " CAT"];
  }

  /** Without case every spelling in "cat CAT" is found: two spans, the second before an empty text. */
  lemma CaseFoldSplit()
    ensures Split(Matcher("cat", false, AsciiLower), "cat CAT") == ["", "cat", " ", "CAT", ""]
    ensures var m := Matcher("cat", false, AsciiLower); MatchCount(m, Split(m, "cat CAT")) == 2
  {
    var m := Matcher("cat", false, AsciiLower);
    var s := "cat CAT";
    assert s[0] == 'c' && s[1] == 'a' && s[2] == 't';
    assert MatchesAt(m, s, 0);
    assert FindFrom(m, s, 0) == Some(0);
    assert s[..0] == "" && s[0..3] == "cat" && s[3..] == " CAT";
    FoldRest();
    FoldCount(m);
  }

  /** Without case the rest " CAT" splits into the gap, the match and an empty trailing part. */
  lemma FoldRest()
    ensures Split(Matcher("cat", false, AsciiLower), " CAT") == [" ", "CAT", ""]
  {
    var m := Matcher("cat", false, AsciiLower);
    var rest := " CAT";
    assert rest[0] == ' ' && rest[1] == 'C' && rest[2] == 'A' && rest[3] == 'T';
    assert AsciiLower('C') == 'c' && AsciiLower('A') == 'a' && AsciiLower('T') == 't';
    assert !SameChar(m, rest[0], m.term[0]);
    assert SameChar(m, rest[1], m.term[0]) && SameChar(m, rest[2], m.term[1]) && SameChar(m, rest[3], m.term[2]);
    assert !MatchesAt(m, rest, 0) && MatchesAt(m, rest, 1);
    assert FindFrom(m, rest, 1) == Some(1);
    assert FindFrom(m, rest, 0) == Some(1);
    assert rest[..1] == " " && rest[1..4] == "CAT" && rest[4..] == "";
    assert FindFrom(m, "", 0) == None;
    assert Split(m, rest) == [" ", "CAT"] + Split(m, "");
  }

  /** The folded classification of the parts of "cat CAT". */
  lemma FoldCount(m: Matcher)
    requires m == Matcher("cat", false, AsciiLower)
    ensures MatchCount(m, ["", "cat", " ", "CAT", ""]) == 2
  {
    var upper := "CAT";
    assert upper[0] == 'C' && upper[1] == 'A' && upper[2] == 'T';
    assert Lower(AsciiLower, "CAT") == "cat";
    assert Lower(AsciiLower, "cat") == "cat";
    assert !IsMatchPart(m, "") && IsMatchPart(m, "cat") && !IsMatchPart(m, " ") && IsMatchPart(m, "CAT");
    assert MatchCount(m, [""]) == 0 by { assert [""][1..] == []; }
    assert MatchCount(m, ["CAT", ""]) == 1 by { assert ["CAT", ""][1..] == [""]; }
    assert MatchCount(m, [" ", "CAT", ""]) == 1 by { assert [" ", "CAT", ""][1..] == ["CAT", ""]; }
    assert MatchCount(m, ["cat", " ", "CAT", ""]) == 2 by { assert ["cat", " ", "CAT", ""][1..] == [" ", "CAT", ""]; }
    assert ["", "cat", " ", "CAT", ""][1..] == ["cat", " ", "CAT", ""];
  }

  /** A match at the end of a text leaves an empty text node after the span. */
  lemma TrailingEmptyPart()
    ensures Split(Matcher("b", true, AsciiLower), "ab") == ["a", "b", ""]
  {
    var m := Matcher("b", true, AsciiLower);
    var s := "ab";
    assert s[0] == 'a' && s[1] == 'b';
    assert !SameChar(m, s[0], m.term[0]);
    assert !MatchesAt(m, s, 0);
    assert MatchesAt(m, s, 1);
    assert FindFrom(m, s, 1) == Some(1);
    assert FindFrom(m, s, 0) == Some(1);
    assert s[..1] == "a" && s[1..2] == "b" && s[2..] == "";
    assert FindFrom(m, "", 0) == None;
  }

  /** Colour conversions of a long form, a short form and a name the parser does not accept. */
  lemma ColorConversions()
    ensures HexToRgb("#ff8000") == Rgb(255, 128, 0)
    ensures HexToRgb("#f80") == Rgb(255, 136, 0)
    ensures HexToRgb("red") == Fallback
  {
    var long := "#ff8000";
    assert long[1] == 'f' && long[2] == 'f' && long[3] == '8' && long[4] == '0' && long[5] == '0' && long[6] == '0';
    assert IsHexColor(long);
    HexToRgbChannels(long);
    var d := SixDigits(long);
    assert d[0] == 'f' && d[1] == 'f' && d[2] == '8' && d[3] == '0' && d[4] == '0' && d[5] == '0';
    var short := "#f80";
    assert short[1] == 'f' && short[2] == '8' && short[3] == '0';
    assert IsHexColor(short);
    ShortFormDoubles(short);
  }

  /** Yellow (`#ffff00`) gets black text. */
  lemma ContrastYellow(hex: string)
    requires |hex| == 7 && hex[0] == '#' && hex[1] == 'f' && hex[2] == 'f' && hex[3] == 'f' && hex[4] == 'f'
    requires hex[5] == '0' && hex[6] == '0'
    ensures ContrastColor(hex) == Black
  {
    assert IsHexColor(hex);
    ContrastMatchesChannels(hex);
    HexToRgbChannels(hex);
    var d := SixDigits(hex);
    assert d[0] == 'f' && d[1] == 'f' && d[2] == 'f' && d[3] == 'f' && d[4] == '0' && d[5] == '0';
  }

  /** Navy (`#000080`) gets white text. */
  lemma ContrastNavy(hex: string)
    requires |hex| == 7 && hex[0] == '#' && hex[1] == '0' && hex[2] == '0' && hex[3] == '0' && hex[4] == '0'
    requires hex[5] == '8' && hex[6] == '0'
    ensures ContrastColor(hex) == White
  {
    assert IsHexColor(hex);
    ContrastMatchesChannels(hex);
    HexToRgbChannels(hex);
    var d := SixDigits(hex);
    assert d[0] == '0' && d[1] == '0' && d[2] == '0' && d[3] == '0' && d[4] == '8' && d[5] == '0';
  }

  /** The count label before and after the first navigation. */
  lemma Labels()
    ensures CountLabel(3, -1) == "0/3" && CountLabel(3, 0) == "1/3" && CountLabel(0, 2) == ""
  {
  }

  /** Removing the row with the largest id frees that id for the next row. */
  lemma IdReuse()
    ensures NewId(Remove([NewRecord(0, "#fff"), NewRecord(1, "#000")], 1)) == 1
  {
    assert Remove([NewRecord(0, "#fff"), NewRecord(1, "#000")], 1) == [NewRecord(0, "#fff")];
  }
}
