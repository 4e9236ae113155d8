/** The behaviour of `clean_str` on the hand-written mappings of
    nvm/tests/test_aux_str.py. */
module CleanStrExamples {
  import opened CleanStr

  /** The pattern `[abc]`. */
  const Abc: Matcher := CharClass({'a', 'b', 'c'})

  /** The pattern `[abc]` with `re.I`: both cases spelled out. */
  const AbcIgnoreCase: Matcher := CharClass({'a', 'b', 'c', 'A', 'B', 'C'})

  lemma AbcDeletes()
    ensures ReplaceAll("abcABC", Abc, "") == "ABC"
  {
    EmptyReplacementDeletes("abcABC", Abc);
  }

  /** test_aux_str.py lines 23-27: `[abc]` with an empty key deletes the lower-case letters. */
  lemma ClassExample()
    ensures Clean("abcABC", [[Rule("", [Abc])]]) == "ABC"
  {
    OneKey("abcABC", Rule("", [Abc]));
    OneMatcher("abcABC", Abc, "");
    AbcDeletes();
    PrintableWord("ABC");
    StripCollapseNoWs("ABC");
  }

  lemma AbcIgnoreCaseDeletes()
    ensures ReplaceAll("abcABC", AbcIgnoreCase, "") == ""
  {
    EmptyReplacementDeletes("abcABC", AbcIgnoreCase);
  }

  /** test_aux_str.py lines 29-33: with `re.I` every letter goes. */
  lemma ClassIgnoreCaseExample()
    ensures Clean("abcABC", [[Rule("", [AbcIgnoreCase])]]) == ""
  {
    OneKey("abcABC", Rule("", [AbcIgnoreCase]));
    OneMatcher("abcABC", AbcIgnoreCase, "");
    AbcIgnoreCaseDeletes();
  }

  /** `list("ABC")` and `list("EFG")`: one-letter patterns. */
  const UpperAbc: seq<Matcher> := [Literal("A"), Literal("B"), Literal("C")]
  const UpperEfg: seq<Matcher> := [Literal("E"), Literal("F"), Literal("G")]

  const KeyA: Rule := Rule("a", UpperAbc)
  const KeyE: Rule := Rule("e", UpperEfg)

  lemma UpperAbcMap(s: string)
    ensures ApplyMatchers(s, UpperAbc, "a")
         == seq(|s|, i requires 0 <= i < |s| => if s[i] in {'A', 'B', 'C'} then 'a' else s[i])
  {
    UpperAbcTaken();
    assert "a" == ['a'];
    ApplyMatchersBySet(s, UpperAbc, 'a', {'A', 'B', 'C'});
  }

  /** The characters `UpperAbc` takes. */
  lemma UpperAbcTaken()
    ensures OneCharMatchers(UpperAbc) && 'a' !in {'A', 'B', 'C'}
    ensures forall c :: Taken(c, UpperAbc) <==> c in {'A', 'B', 'C'}
  {
    forall c ensures Taken(c, UpperAbc) <==> c in {'A', 'B', 'C'} {
      if c in {'A', 'B', 'C'} {
        assert CharIn(c, UpperAbc[if c == 'A' then 0 else if c == 'B' then 1 else 2]);
      }
    }
  }

  lemma UpperEfgMap(s: string)
    ensures ApplyMatchers(s, UpperEfg, "e")
         == seq(|s|, i requires 0 <= i < |s| => if s[i] in {'E', 'F', 'G'} then 'e' else s[i])
  {
    UpperEfgTaken();
    assert "e" == ['e'];
    ApplyMatchersBySet(s, UpperEfg, 'e', {'E', 'F', 'G'});
  }

  /** The characters `UpperEfg` takes. */
  lemma UpperEfgTaken()
    ensures OneCharMatchers(UpperEfg) && 'e' !in {'E', 'F', 'G'}
    ensures forall c :: Taken(c, UpperEfg) <==> c in {'E', 'F', 'G'}
  {
    forall c ensures Taken(c, UpperEfg) <==> c in {'E', 'F', 'G'} {
      if c in {'E', 'F', 'G'} {
        assert CharIn(c, UpperEfg[if c == 'E' then 0 else if c == 'F' then 1 else 2]);
      }
    }
  }

  lemma KeyASubstitutes()
    ensures ApplyMatchers("ABCEFG", UpperAbc, "a") == "aaaEFG"
  {
    UpperAbcMap("ABCEFG");
  }

  lemma KeyESubstitutes()
    ensures ApplyMatchers("aaaEFG", UpperEfg, "e") == "aaaeee"
  {
    UpperEfgMap("aaaEFG");
  }

  /** test_aux_str.py lines 35-39: one key per group. */
  lemma TwoGroupsExample()
    ensures Clean("ABCEFG", [[KeyA], [KeyE]]) == "aaaeee"
  {
    TwoGroupsSubstitute();
    PrintableWord("aaaeee");
    CleanOfNoWs("ABCEFG", [[KeyA], [KeyE]], "aaaeee");
  }

  /** The substitution stage of that test: group `a`, then group `e`. */
  lemma TwoGroupsSubstitute()
    ensures ApplyMappings("ABCEFG", [[KeyA], [KeyE]]) == "aaaeee"
  {
    TwoGroups("ABCEFG", [KeyA], [KeyE]);
    SingleKey("ABCEFG", KeyA);
    KeyASubstitutes();
    SingleKey("aaaEFG", KeyE);
    KeyESubstitutes();
  }

  lemma KeysSplit(s: string)
    ensures ApplyMappings(s, [[KeyA, KeyE]]) == ApplyMappings(s, [[KeyA], [KeyE]])
  {
    GroupSplitAlone(s, [KeyA], [KeyE]);
    assert [KeyA] + [KeyE] == [KeyA, KeyE];
  }

  /** test_aux_str.py lines 41-45: both keys in one group give the same text. */
  lemma OneGroupExample()
    ensures Clean("ABCEFG", [[KeyA, KeyE]]) == "aaaeee"
  {
    KeysSplit("ABCEFG");
    TwoGroupsExample();
  }
}
