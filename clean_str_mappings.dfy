/** The three rule tables shipped with `clean_str` (nvm/aux_str/clean_str_mappings.py),
    their shape, and what cleaning with them guarantees. */
module CleanStrMappings {
  import opened Strings
  import opened CleanStr

  /** Line feed, carriage return and tab. */
  const ControlSpaces: seq<Matcher> := [Literal("\n"), Literal("\r"), Literal("\t")]

  /** Minus sign, en dash, em dash, horizontal bar, small and fullwidth hyphen-minus. */
  const Dashes: seq<Matcher> :=
    [Literal("\U{2212}"), Literal("\U{2013}"), Literal("\U{2014}"),
     Literal("\U{2015}"), Literal("\U{FE63}"), Literal("\U{FF0D}")]

  /** Zero width space, zero width no-break space, narrow no-break space,
      no-break space, left-to-right mark, hangul filler, and the HTML entity
      `&nbsp;` (the pattern `\&nbsp;` matches that literal text). */
  const InvisibleSpaces: seq<Matcher> :=
    [Literal("\U{200B}"), Literal("\U{FEFF}"), Literal("\U{202F}"), Literal("\U{00A0}"),
     Literal("\U{200E}"), Literal("\U{3164}"), Literal("&nbsp;")]

  /** Right, left and reversed single quotation marks, the low single quotation
      mark and the prime. */
  const SingleQuotes: seq<Matcher> :=
    [Literal("\U{2019}"), Literal("\U{2018}"), Literal("\U{201B}"), Literal("\U{201A}"),
     Literal("\U{2032}")]

  /** Left, right and low double quotation marks. */
  const DoubleQuotes: seq<Matcher> := [Literal("\U{201C}"), Literal("\U{201D}"), Literal("\U{201E}")]

  /** `CLEAN_STR_MAPPINGS_TINY`. */
  const Tiny: Mappings := [[Rule(" ", ControlSpaces)], [Rule("-", Dashes)]]

  /** `CLEAN_STR_MAPPINGS_LARGE`: `Tiny` and three more groups. */
  const Large: Mappings :=
    Tiny + [[Rule(" ", InvisibleSpaces)], [Rule("'", SingleQuotes)], [Rule("\"", DoubleQuotes)]]

  /** `CLEAN_STR_MAPPINGS_HUGE`: for now the same rules as `Large`. */
  const Huge: Mappings := Large + []

  /** The characters the tables put into a text: space, hyphen-minus,
      apostrophe and double quote. */
  const Inserted: set<char> := {' ', '-', '\'', '"'}

  /** `Large` extends `Tiny` by three groups and `Huge` is `Large`; every group
      holds one key, every key is one character, and every matcher is a literal. */
  lemma TablesShape()
    ensures |Tiny| == 2 && |Large| == 5 && Large[..2] == Tiny && Huge == Large
    ensures forall a :: 0 <= a < |Large| ==> |Large[a]| == 1 && |Large[a][0].replacement| == 1
    ensures forall a, k :: 0 <= a < |Large| && 0 <= k < |Large[a][0].matchers| ==> Large[a][0].matchers[k].Literal?
  {
  }

  lemma ControlSpacesOver()
    ensures RuleOver(Rule(" ", ControlSpaces), Inserted)
  {
  }

  lemma DashesOver()
    ensures RuleOver(Rule("-", Dashes), Inserted)
  {
  }

  lemma InvisibleSpacesOver()
    ensures RuleOver(Rule(" ", InvisibleSpaces), Inserted)
  {
  }

  lemma QuotesOver()
    ensures RuleOver(Rule("'", SingleQuotes), Inserted)
    ensures RuleOver(Rule("\"", DoubleQuotes), Inserted)
  {
  }

  /** No key of the tables is taken by a matcher of the tables: every key is a
      character of `Inserted`, and no matcher takes one. */
  lemma TablesOver()
    ensures RulesOver(Tiny, Inserted) && RulesOver(Large, Inserted) && RulesOver(Huge, Inserted)
  {
    ControlSpacesOver();
    DashesOver();
    InvisibleSpacesOver();
    QuotesOver();
    assert Large[0] == [Rule(" ", ControlSpaces)] && Large[1] == [Rule("-", Dashes)];
    assert Large[2] == [Rule(" ", InvisibleSpaces)];
    assert Large[3] == [Rule("'", SingleQuotes)] && Large[4] == [Rule("\"", DoubleQuotes)];
  }

  /** Cleaning with `Tiny` twice is cleaning once. */
  lemma TinyIdempotent(text: string)
    ensures Clean(Clean(text, Tiny), Tiny) == Clean(text, Tiny)
  {
    TablesOver();
    WellBehavedByRules(Tiny, Inserted);
    CleanIdempotent(text, Tiny);
  }

  /** Cleaning with `Large` twice is cleaning once. */
  lemma LargeIdempotent(text: string)
    ensures Clean(Clean(text, Large), Large) == Clean(text, Large)
  {
    TablesOver();
    WellBehavedByRules(Large, Inserted);
    CleanIdempotent(text, Large);
  }

  /** Cleaning with `Huge` twice is cleaning once. */
  lemma HugeIdempotent(text: string)
    ensures Clean(Clean(text, Huge), Huge) == Clean(text, Huge)
  {
    TablesOver();
    WellBehavedByRules(Huge, Inserted);
    CleanIdempotent(text, Huge);
  }

  /** No control space, dash, invisible space or typographic quote of the
      tables is left in a text cleaned with `Large`. */
  lemma LargeClears(text: string, m: Matcher)
    requires m in ControlSpaces + Dashes + InvisibleSpaces + SingleQuotes + DoubleQuotes
    ensures !HasMatch(Clean(text, Large), m)
  {
    TablesOver();
    WellBehavedByRules(Large, Inserted);
    var a := if m in ControlSpaces then 0 else if m in Dashes then 1
             else if m in InvisibleSpaces then 2 else if m in SingleQuotes then 3 else 4;
    var k :| 0 <= k < |Large[a][0].matchers| && Large[a][0].matchers[k] == m;
    CleanClears(text, Large, a, 0, k);
  }

  /** No control space or dash is left in a text cleaned with `Tiny`. */
  lemma TinyClears(text: string, m: Matcher)
    requires m in ControlSpaces + Dashes
    ensures !HasMatch(Clean(text, Tiny), m)
  {
    TablesOver();
    WellBehavedByRules(Tiny, Inserted);
    var a := if m in ControlSpaces then 0 else 1;
    var k :| 0 <= k < |Tiny[a][0].matchers| && Tiny[a][0].matchers[k] == m;
    CleanClears(text, Tiny, a, 0, k);
  }

  /** The six-character pattern `&nbsp;` of `InvisibleSpaces` is replaced as a whole. */
  lemma NbspReplaced()
    ensures ReplaceAll("a&nbsp;b", Literal("&nbsp;"), " ") == "a b"
  {
    assert ("a" + "&nbsp;")[0..][..6][0] == 'a';
    ReplaceAllLiteral("a", "&nbsp;", "b", " ");
    assert "a" + "&nbsp;" + "b" == "a&nbsp;b";
  }

  /** Cleaning with `Tiny` is two keys applied one after the other. */
  lemma TinyByKeys(s: string)
    ensures ApplyMappings(s, Tiny) == ApplyMatchers(ApplyMatchers(s, ControlSpaces, " "), Dashes, "-")
  {
    var g1 := [Rule(" ", ControlSpaces)];
    var g2 := [Rule("-", Dashes)];
    assert Tiny[..1] == [g1];
    assert ApplyMappings(s, Tiny) == ApplyGroup(ApplyMappings(s, [g1]), g2);
    assert [g1][..0] == Tiny[..0];
    assert ApplyMappings(s, [g1]) == ApplyGroup(s, g1);
    SingleKey(s, g1[0]);
    SingleKey(ApplyGroup(s, g1), g2[0]);
  }

  /** The first key of `Tiny` turns every line feed, carriage return and tab
      into a space and keeps every other character in place. */
  lemma ControlSpacesMap(s: string)
    ensures ApplyMatchers(s, ControlSpaces, " ")
         == seq(|s|, i requires 0 <= i < |s| => if s[i] in {'\n', '\r', '\t'} then ' ' else s[i])
  {
    ControlSpacesTaken();
    assert " " == [' '];
    ApplyMatchersBySet(s, ControlSpaces, ' ', {'\n', '\r', '\t'});
  }

  /** The characters `ControlSpaces` takes. */
  lemma ControlSpacesTaken()
    ensures OneCharMatchers(ControlSpaces) && ' ' !in {'\n', '\r', '\t'}
    ensures forall c :: Taken(c, ControlSpaces) <==> c in {'\n', '\r', '\t'}
  {
    forall c ensures Taken(c, ControlSpaces) <==> c in {'\n', '\r', '\t'} {
      if c in {'\n', '\r', '\t'} {
        assert CharIn(c, ControlSpaces[if c == '\n' then 0 else if c == '\r' then 1 else 2]);
      }
    }
  }

  /** `Tiny` leaves printable ASCII alone: none of its matchers takes such a character. */
  lemma TinyKeepsPrintable(s: string)
    requires Printable(s)
    ensures ApplyMatchers(s, ControlSpaces, " ") == s
    ensures ApplyMatchers(s, Dashes, "-") == s
  {
    ApplyMatchersUntouched(s, ControlSpaces, " ");
    ApplyMatchersUntouched(s, Dashes, "-");
  }

  lemma ExampleControls()
    ensures ApplyMatchers("\t \n\n\r", ControlSpaces, " ") == "     "
  {
    ControlSpacesMap("\t \n\n\r");
  }

  lemma ExampleHead()
    ensures ApplyMatchers("  one two  three", ControlSpaces, " ") == "  one two  three"
  {
    TinyKeepsPrintable("  one two  three");
  }

  lemma ExampleTail()
    ensures ApplyMatchers(" four...  ", ControlSpaces, " ") == " four...  "
  {
    TinyKeepsPrintable(" four...  ");
  }

  lemma ExampleNoDashes()
    ensures ApplyMatchers("  one two  three      four...  ", Dashes, "-") == "  one two  three      four...  "
  {
    TinyKeepsPrintable("  one two  three      four...  ");
  }

  lemma ExampleCut()
    ensures "  one two  three\t \n\n\r four...  " == "  one two  three" + ("\t \n\n\r" + " four...  ")
    ensures "  one two  three" + ("     " + " four...  ") == "  one two  three      four...  "
  {
  }

  /** The example of test_aux_str.py lines 12-15, the substitution half. */
  lemma TinyExampleSubstitutions()
    ensures ApplyMappings("  one two  three\t \n\n\r four...  ", Tiny)
         == "  one two  three      four...  "
  {
    ExampleCut();
    ExampleHead();
    ExampleControls();
    ExampleTail();
    ExampleNoDashes();
    TinyPieces("  one two  three", "\t \n\n\r", " four...  ", "     ");
  }

  /** `Tiny` on a text in three pieces, each piece substituted on its own. */
  lemma TinyPieces(a: string, m: string, c: string, m2: string)
    requires ApplyMatchers(a, ControlSpaces, " ") == a
    requires ApplyMatchers(m, ControlSpaces, " ") == m2
    requires ApplyMatchers(c, ControlSpaces, " ") == c
    requires ApplyMatchers(a + (m2 + c), Dashes, "-") == a + (m2 + c)
    ensures ApplyMappings(a + (m + c), Tiny) == a + (m2 + c)
  {
    TinyByKeys(a + (m + c));
    ControlSpacesPieces(a, m, c, m2);
  }

  /** The first key of `Tiny` on a text in three pieces. */
  lemma ControlSpacesPieces(a: string, m: string, c: string, m2: string)
    requires ApplyMatchers(a, ControlSpaces, " ") == a
    requires ApplyMatchers(m, ControlSpaces, " ") == m2
    requires ApplyMatchers(c, ControlSpaces, " ") == c
    ensures ApplyMatchers(a + (m + c), ControlSpaces, " ") == a + (m2 + c)
  {
    assert OneCharMatchers(ControlSpaces);
    ApplyMatchersConcat(m, c, ControlSpaces, " ");
    ApplyMatchersConcat(a, m + c, ControlSpaces, " ");
  }

  /** The words of the example and the whitespace between them. */
  const ExampleWordList: seq<string> := ["one", "two", "three", "four..."]
  const ExampleGaps: seq<string> := [" ", "  ", "      "]

  /** Four words between three gaps, laid out. */
  lemma SpacedFour(a: string, b: string, c: string, d: string, g: string, h: string, k: string)
    ensures Spaced([a, b, c, d], [g, h, k]) == a + (g + (b + (h + (c + (k + d)))))
  {
    SpacedCons([a, b, c, d], [g, h, k]);
    assert [a, b, c, d][1..] == [b, c, d] && [g, h, k][1..] == [h, k];
    SpacedCons([b, c, d], [h, k]);
    assert [b, c, d][1..] == [c, d] && [h, k][1..] == [k];
    SpacedCons([c, d], [k]);
    assert [c, d][1..] == [d] && [k][1..] == [];
  }

  lemma ExampleGlueTail()
    ensures "three" + ("      " + "four...") == "three      four..."
  {
  }

  lemma ExampleGlueMiddle()
    ensures "two" + ("  " + "three      four...") == "two  three      four..."
  {
  }

  lemma ExampleGlueGap()
    ensures " " + "two  three      four..." == " two  three      four..."
  {
  }

  lemma ExampleGlueHead()
    ensures "one" + " two  three      four..." == "one two  three      four..."
  {
  }

  lemma ExampleFrame()
    ensures "  " + "one two  three      four..." + "  " == "  one two  three      four...  "
  {
  }

  lemma ExampleSpacedWhole()
    ensures Spaced(ExampleWordList, ExampleGaps) == "one two  three      four..."
  {
    SpacedFour("one", "two", "three", "four...", " ", "  ", "      ");
    ExampleGlueTail();
    ExampleGlueMiddle();
    ExampleGlueGap();
    ExampleGlueHead();
  }

  lemma ExampleSpaced()
    ensures "  one two  three      four...  " == "  " + Spaced(ExampleWordList, ExampleGaps) + "  "
  {
    ExampleSpacedWhole();
    ExampleFrame();
  }

  lemma ExampleJoin()
    ensures Join(ExampleWordList, ' ') == "one two three four..."
  {
    assert ExampleWordList[1..][1..][1..] == ["four..."];
    assert Join(ExampleWordList[1..][1..], ' ') == "three four...";
  }

  lemma ExampleLayout()
    ensures Words(ExampleWordList)
    ensures forall i :: 0 <= i < |ExampleGaps| ==> Gap(ExampleGaps[i])
    ensures AllWs("  ")
  {
    PrintableWord("one");
    PrintableWord("two");
    PrintableWord("three");
    PrintableWord("four...");
  }

  /** The example of test_aux_str.py lines 12-15, the whitespace half: runs of
      whitespace become one space, a lone space stays, and the ends are stripped. */
  lemma TinyExampleWhitespace()
    ensures Strip(Collapse("  one two  three      four...  ")) == "one two three four..."
  {
    ExampleSpaced();
    ExampleJoin();
    ExampleLayout();
    StripCollapseSpaced("  ", ExampleWordList, ExampleGaps, "  ");
  }

  /** The example of test_aux_str.py lines 12-15. */
  lemma TinyExample()
    ensures Clean("  one two  three\t \n\n\r four...  ", Tiny) == "one two three four..."
  {
    TinyExampleSubstitutions();
    TinyExampleWhitespace();
  }
}
