/** The text cleaner of nvm/aux_str/aux_str.py: an ordered fold of substitution
    rules over the text, then whitespace collapsing and stripping. */
module CleanStr {
  import opened Strings

  // ---------------------------------------------------------------------------
  // Whitespace

  /** The characters Python's `str.isspace()` accepts, which are also the
      characters `\s` matches in a `str` pattern of the `re` module: the ASCII
      controls HT, LF, VT, FF, CR and FS, GS, RS, US, the space, NEL, NBSP, the
      Ogham space mark, the spaces U+2000 to U+200A, the line and paragraph
      separators, NNBSP, MMSP and the ideographic space. */
  const Whitespace: set<char> := {
    '\t', '\n', '\U{B}', '\U{C}', '\r', '\U{1C}', '\U{1D}', '\U{1E}', '\U{1F}', ' ',
    '\U{85}', '\U{A0}', '\U{1680}',
    '\U{2000}', '\U{2001}', '\U{2002}', '\U{2003}', '\U{2004}', '\U{2005}',
    '\U{2006}', '\U{2007}', '\U{2008}', '\U{2009}', '\U{200A}',
    '\U{2028}', '\U{2029}', '\U{202F}', '\U{205F}', '\U{3000}'
  }

  predicate IsWs(c: char) {
    c in Whitespace
  }

  /** No two neighbouring characters are both whitespace. */
  predicate NoAdjacentWs(s: string) {
    forall i, j :: 0 <= i < |s| && 0 <= j < |s| && j == i + 1 ==> !IsWs(s[i]) || !IsWs(s[j])
  }

  /** Neither end of the text is whitespace. */
  predicate NoEdgeWs(s: string) {
    s == [] || (!IsWs(s[0]) && !IsWs(s[|s| - 1]))
  }

  /** The text with every whitespace character taken out. */
  function NonWs(s: string): string
    decreases |s|
  {
    if s == [] then [] else (if IsWs(s[0]) then [] else [s[0]]) + NonWs(s[1..])
  }

  /** Leading whitespace removed (the left half of `str.strip()`). */
  function TrimLeft(s: string): (r: string)
    ensures |r| <= |s| && r == s[|s| - |r|..]
    ensures forall i :: 0 <= i < |s| - |r| ==> IsWs(s[i])
    ensures r == [] || !IsWs(r[0])
    decreases |s|
  {
    if |s| > 0 && IsWs(s[0]) then
      var r := TrimLeft(s[1..]);
      TrimLeftStep(s, s[1..], r);
      r
    else s
  }

  /** One more whitespace character in front of a text trimmed to `r`. */
  lemma TrimLeftStep(s: string, t: string, r: string)
    requires s != [] && IsWs(s[0]) && t == s[1..]
    requires |r| <= |t| && r == t[|t| - |r|..]
    requires forall i :: 0 <= i < |t| - |r| ==> IsWs(t[i])
    ensures |r| <= |s| && r == s[|s| - |r|..]
    ensures forall i :: 0 <= i < |s| - |r| ==> IsWs(s[i])
  {
    forall i | 1 <= i < |s| - |r| ensures IsWs(s[i]) {
      assert s[i] == t[i - 1];
    }
  }

  /** Trailing whitespace removed (the right half of `str.strip()`). */
  function TrimRight(s: string): (r: string)
    ensures |r| <= |s| && r == s[..|r|]
    ensures forall i :: |r| <= i < |s| ==> IsWs(s[i])
    ensures r == [] || !IsWs(r[|r| - 1])
    decreases |s|
  {
    if |s| > 0 && IsWs(s[|s| - 1]) then
      var r := TrimRight(s[..|s| - 1]);
      TrimRightStep(s, s[..|s| - 1], r);
      r
    else s
  }

  /** One more whitespace character behind a text trimmed to `r`. */
  lemma TrimRightStep(s: string, t: string, r: string)
    requires s != [] && IsWs(s[|s| - 1]) && t == s[..|s| - 1]
    requires |r| <= |t| && r == t[..|r|]
    requires forall i :: |r| <= i < |t| ==> IsWs(t[i])
    ensures |r| <= |s| && r == s[..|r|]
    ensures forall i :: |r| <= i < |s| ==> IsWs(s[i])
  {
    forall i | |r| <= i < |t| ensures IsWs(s[i]) {
      assert s[i] == t[i];
    }
  }

  /** `str.strip()`: the text between the first and the last non-whitespace
      character; everything cut away is whitespace. */
  function Strip(s: string): (r: string)
    ensures NoEdgeWs(r)
    ensures var k := |s| - |TrimLeft(s)|; k + |r| <= |s| && r == s[k..k + |r|]
  {
    var l := TrimLeft(s);
    var r := TrimRight(l);
    assert r != [] ==> r[0] == l[0];
    r
  }

  /** `re.sub(r"\s\s+", " ", s)`: every maximal run of two or more whitespace
      characters becomes one space; a lone whitespace character stays. */
  function Collapse(s: string): (r: string)
    ensures |r| <= |s|
    ensures r == [] <==> s == []
    ensures s != [] ==> IsWs(r[0]) == IsWs(s[0])
    ensures NoAdjacentWs(r)
    decreases |s|
  {
    if s == [] then []
    else if |s| >= 2 && IsWs(s[0]) && IsWs(s[1]) then " " + Collapse(TrimLeft(s))
    else [s[0]] + Collapse(s[1..])
  }

  // ---------------------------------------------------------------------------
  // Rules

  /** A matcher's literal text is never empty. */
  type Needle = s: string | |s| > 0 witness " "

  /** What one entry of a rule's matcher list matches: a literal text, or one
      character out of a class (a `[...]` pattern, with `re.I` spelled out as
      both cases in the class). */
  datatype Matcher = Literal(needle: Needle) | CharClass(chars: set<char>)

  /** One key of a rule group: the replacement and its matchers, in list order. */
  datatype Rule = Rule(replacement: string, matchers: seq<Matcher>)

  /** One dictionary of the mapping list, its keys in insertion order. */
  type Group = seq<Rule>

  /** The `mappings` argument: rule groups in list order. */
  type Mappings = seq<Group>

  /** One `re.sub` call of the fold: a matcher and the text it is replaced by. */
  datatype Step = Step(matcher: Matcher, replacement: string)

  /** How many characters a match of `m` covers. */
  function Width(m: Matcher): (n: nat)
    ensures n >= 1
  {
    match m
    case Literal(l) => |l|
    case CharClass(_) => 1
  }

  /** `m` matches at the start of `s`. */
  predicate MatchesAt(s: string, m: Matcher) {
    match m
    case Literal(l) => |l| <= |s| && s[..|l|] == l
    case CharClass(cs) => |s| > 0 && s[0] in cs
  }

  /** `m` matches somewhere in `s`. */
  predicate HasMatch(s: string, m: Matcher)
    decreases |s|
  {
    |s| > 0 && (MatchesAt(s, m) || HasMatch(s[1..], m))
  }

  /** `c` can take part in a match of `m`. */
  predicate CharIn(c: char, m: Matcher) {
    match m
    case Literal(l) => c in l
    case CharClass(cs) => c in cs
  }

  /** No character of `rep` can take part in a match of `m`. */
  predicate Foreign(rep: string, m: Matcher) {
    forall k :: 0 <= k < |rep| ==> !CharIn(rep[k], m)
  }

  /** `re.sub(m, rep, s)` for a literal or a character class: scanning left to
      right, each leftmost match is replaced by `rep` and the scan goes on after
      the match, so the inserted text is never scanned again. */
  function ReplaceAll(s: string, m: Matcher, rep: string): (r: string)
    ensures !HasMatch(s, m) ==> r == s
    decreases |s|
  {
    if s == [] then []
    else if MatchesAt(s, m) then rep + ReplaceAll(s[Width(m)..], m, rep)
    else [s[0]] + ReplaceAll(s[1..], m, rep)
  }

  /** The text after one key's matchers, each replaced in list order in the
      text the previous one left (the innermost loop, aux_str.py lines 135-136). */
  function ApplyMatchers(s: string, ms: seq<Matcher>, rep: string): string
    decreases |ms|
  {
    if ms == [] then s
    else ReplaceAll(ApplyMatchers(s, ms[..|ms| - 1], rep), ms[|ms| - 1], rep)
  }

  /** The text after one group's keys in insertion order (aux_str.py line 134). */
  function ApplyGroup(s: string, g: Group): string
    decreases |g|
  {
    if g == [] then s
    else
      var last := g[|g| - 1];
      ApplyMatchers(ApplyGroup(s, g[..|g| - 1]), last.matchers, last.replacement)
  }

  /** The text after every group in list order (aux_str.py line 133). */
  function ApplyMappings(s: string, ms: Mappings): string
    decreases |ms|
  {
    if ms == [] then s else ApplyGroup(ApplyMappings(s, ms[..|ms| - 1]), ms[|ms| - 1])
  }

  /** `clean_str(text, mappings)`: the rules, then whitespace collapsing, then
      stripping. The result never has two whitespace characters side by side
      nor whitespace at either end. */
  function Clean(text: string, ms: Mappings): (r: string)
    ensures NoAdjacentWs(r)
    ensures NoEdgeWs(r)
  {
    var c := Collapse(ApplyMappings(text, ms));
    StripKeepsNoAdjacentWs(c);
    Strip(c)
  }

  /** Stripping a text without adjacent whitespace leaves none. */
  lemma StripKeepsNoAdjacentWs(c: string)
    requires NoAdjacentWs(c)
    ensures NoAdjacentWs(Strip(c))
  {
    SubstringKeepsNoAdjacentWs(c, |c| - |TrimLeft(c)|, Strip(c));
  }

  /** `clean_str` as the source runs it: three nested loops reassigning the
      text, then the collapse and the strip. */
  method CleanText(text: string, mappings: Mappings) returns (r: string)
    ensures r == Clean(text, mappings)
    ensures NoAdjacentWs(r) && NoEdgeWs(r)
    ensures mappings == [] ==> r == Strip(Collapse(text))
  {
    var t := text;
    for i := 0 to |mappings|
      invariant t == ApplyMappings(text, mappings[..i])
    {
      var group := mappings[i];
      ghost var atGroup := t;
      for j := 0 to |group|
        invariant t == ApplyGroup(atGroup, group[..j])
      {
        var rule := group[j];
        ghost var atRule := t;
        for k := 0 to |rule.matchers|
          invariant t == ApplyMatchers(atRule, rule.matchers[..k], rule.replacement)
        {
          t := ReplaceAll(t, rule.matchers[k], rule.replacement);
          assert rule.matchers[..k + 1][..k] == rule.matchers[..k];
        }
        assert rule.matchers[..|rule.matchers|] == rule.matchers;
        assert group[..j + 1][..j] == group[..j];
      }
      assert group[..|group|] == group;
      assert mappings[..i + 1][..i] == mappings[..i];
    }
    assert mappings[..|mappings|] == mappings;
    t := Collapse(t);
    t := Strip(t);
    r := t;
  }

  // ---------------------------------------------------------------------------
  // Whitespace lemmas

  /** A piece cut out of a text without adjacent whitespace has none either. */
  lemma SubstringKeepsNoAdjacentWs(s: string, k: nat, r: string)
    requires NoAdjacentWs(s)
    requires k + |r| <= |s| && r == s[k..k + |r|]
    ensures NoAdjacentWs(r)
  {
    forall i, j | 0 <= i && j == i + 1 && j < |r| ensures !IsWs(r[i]) || !IsWs(r[j]) {
      assert r[i] == s[k + i] && r[j] == s[k + j];
    }
  }

  /** Collapsing leaves a text alone exactly when it has no adjacent whitespace:
      a lone whitespace character is never rewritten. */
  lemma {:induction false} CollapseFixedPoint(s: string)
    ensures Collapse(s) == s <==> NoAdjacentWs(s)
    decreases |s|
  {
    if NoAdjacentWs(s) && s != [] {
      assert !(|s| >= 2 && IsWs(s[0]) && IsWs(s[1]));
      assert NoAdjacentWs(s[1..]) by {
        forall i, j | 0 <= i && j == i + 1 && j < |s| - 1 ensures !IsWs(s[1..][i]) || !IsWs(s[1..][j]) {
          assert s[1..][i] == s[i + 1] && s[1..][j] == s[j + 1];
        }
      }
      CollapseFixedPoint(s[1..]);
      assert s == [s[0]] + s[1..];
    }
  }

  /** Dropping whitespace from a concatenation drops it from each part. */
  lemma {:induction false} NonWsAppend(a: string, b: string)
    ensures NonWs(a + b) == NonWs(a) + NonWs(b)
    decreases |a|
  {
    if a != [] {
      assert (a + b)[1..] == a[1..] + b;
      NonWsAppend(a[1..], b);
    } else {
      assert a + b == b;
    }
  }

  /** Dropping whitespace from a text with one more character in front. */
  lemma NonWsCons(c: char, rest: string)
    ensures NonWs([c] + rest) == (if IsWs(c) then [] else [c]) + NonWs(rest)
  {
    assert ([c] + rest)[1..] == rest;
  }

  /** Collapsing only rewrites whitespace: the other characters, in order, are kept. */
  lemma {:induction false} CollapseKeepsNonWs(s: string)
    ensures NonWs(Collapse(s)) == NonWs(s)
    decreases |s|
  {
    if s == [] {
    } else if |s| >= 2 && IsWs(s[0]) && IsWs(s[1]) {
      var t := TrimLeft(s);
      CollapseKeepsNonWs(t);
      TrimLeftKeepsNonWs(s);
      NonWsCons(' ', Collapse(t));
    } else {
      CollapseKeepsNonWs(s[1..]);
      NonWsCons(s[0], Collapse(s[1..]));
    }
  }

  /** Cutting leading whitespace only removes whitespace. */
  lemma {:induction false} TrimLeftKeepsNonWs(s: string)
    ensures NonWs(TrimLeft(s)) == NonWs(s)
    decreases |s|
  {
    if |s| > 0 && IsWs(s[0]) {
      TrimLeftKeepsNonWs(s[1..]);
    }
  }

  /** Cutting trailing whitespace only removes whitespace. */
  lemma {:induction false} TrimRightKeepsNonWs(s: string)
    ensures NonWs(TrimRight(s)) == NonWs(s)
    decreases |s|
  {
    if |s| > 0 && IsWs(s[|s| - 1]) {
      var n := |s| - 1;
      TrimRightKeepsNonWs(s[..n]);
      assert s == s[..n] + [s[n]];
      NonWsAppend(s[..n], [s[n]]);
      assert [s[n]][1..] == [];
    }
  }

  /** Stripping only removes whitespace. */
  lemma StripKeepsNonWs(s: string)
    ensures NonWs(Strip(s)) == NonWs(s)
  {
    TrimLeftKeepsNonWs(s);
    TrimRightKeepsNonWs(TrimLeft(s));
  }

  /** With no rules at all, cleaning only normalises whitespace: the result is
      the collapsed, stripped input and every other character survives in order. */
  lemma CleanWithoutRules(text: string)
    ensures Clean(text, []) == Strip(Collapse(text))
    ensures NonWs(Clean(text, [])) == NonWs(text)
  {
    CollapseKeepsNonWs(text);
    StripKeepsNonWs(Collapse(text));
  }
  /** A text without whitespace comes through collapsing and stripping as it is. */
  lemma StripCollapseNoWs(s: string)
    requires NoWs(s)
    ensures Strip(Collapse(s)) == s
  {
    CollapseFixedPoint(s);
    assert TrimLeft(s) == s;
    assert TrimRight(s) == s;
  }

  /** Rules that leave a text without whitespace make it the cleaned text. */
  lemma CleanOfNoWs(text: string, ms: Mappings, w: string)
    requires ApplyMappings(text, ms) == w && NoWs(w)
    ensures Clean(text, ms) == w
  {
    StripCollapseNoWs(w);
  }


  /** A group of one key applies that key's matchers. */
  lemma SingleKey(s: string, r: Rule)
    ensures ApplyGroup(s, [r]) == ApplyMatchers(s, r.matchers, r.replacement)
  {
    assert [r][..0] == [];
  }

  /** Mappings of one group holding one key apply that key's matchers. */
  lemma OneKey(s: string, r: Rule)
    ensures ApplyMappings(s, [[r]]) == ApplyMatchers(s, r.matchers, r.replacement)
  {
    assert ApplyMappings(s, [[r]]) == ApplyGroup(ApplyMappings(s, [[r]][..0]), [r]);
    assert [[r]][..0] == [];
    SingleKey(s, r);
  }

  /** Two groups apply one after the other. */
  lemma TwoGroups(s: string, g1: Group, g2: Group)
    ensures ApplyMappings(s, [g1, g2]) == ApplyGroup(ApplyGroup(s, g1), g2)
  {
    assert ApplyMappings(s, [g1, g2]) == ApplyGroup(ApplyMappings(s, [g1, g2][..1]), g2);
    assert [g1, g2][..1] == [g1];
    assert ApplyMappings(s, [g1]) == ApplyGroup(ApplyMappings(s, [g1][..0]), g1);
    assert [g1][..0] == [];
  }

  /** A key with one matcher is one substitution. */
  lemma OneMatcher(s: string, m: Matcher, rep: string)
    ensures ApplyMatchers(s, [m], rep) == ReplaceAll(s, m, rep)
  {
    assert [m][..0] == [];
  }

  // ---------------------------------------------------------------------------
  // Rule order: the nested fold is one flat list of substitutions

  /** The substitutions of one key, one per matcher, in list order. */
  function RuleSteps(rule: Rule): (steps: seq<Step>)
    ensures |steps| == |rule.matchers|
    ensures forall k :: 0 <= k < |steps| ==> steps[k] == Step(rule.matchers[k], rule.replacement)
  {
    seq(|rule.matchers|, k requires 0 <= k < |rule.matchers| => Step(rule.matchers[k], rule.replacement))
  }

  /** The substitutions of one group: key after key. */
  function GroupSteps(g: Group): seq<Step>
    decreases |g|
  {
    if g == [] then [] else GroupSteps(g[..|g| - 1]) + RuleSteps(g[|g| - 1])
  }

  /** The substitutions of a whole mapping list: group after group. */
  function Steps(ms: Mappings): seq<Step>
    decreases |ms|
  {
    if ms == [] then [] else Steps(ms[..|ms| - 1]) + GroupSteps(ms[|ms| - 1])
  }

  /** The text after a flat list of substitutions, each applied to the previous one's result. */
  function ApplySteps(s: string, steps: seq<Step>): string
    decreases |steps|
  {
    if steps == [] then s
    else
      var last := steps[|steps| - 1];
      ReplaceAll(ApplySteps(s, steps[..|steps| - 1]), last.matcher, last.replacement)
  }

  /** Applying a list of substitutions in two parts is applying it at once. */
  lemma {:induction false} ApplyStepsAppend(s: string, a: seq<Step>, b: seq<Step>)
    ensures ApplySteps(s, a + b) == ApplySteps(ApplySteps(s, a), b)
    decreases |b|
  {
    if b == [] {
      assert a + b == a;
    } else {
      assert (a + b)[..|a + b| - 1] == a + b[..|b| - 1];
      ApplyStepsAppend(s, a, b[..|b| - 1]);
    }
  }

  /** One key's loop is its flat list of substitutions. */
  lemma {:induction false} ApplyMatchersIsSteps(s: string, ms: seq<Matcher>, rep: string)
    ensures ApplyMatchers(s, ms, rep) == ApplySteps(s, RuleSteps(Rule(rep, ms)))
    decreases |ms|
  {
    if ms != [] {
      var n := |ms| - 1;
      ApplyMatchersIsSteps(s, ms[..n], rep);
      assert RuleSteps(Rule(rep, ms))[..n] == RuleSteps(Rule(rep, ms[..n]));
    }
  }

  /** One group's loop is its flat list of substitutions. */
  lemma {:induction false} ApplyGroupIsSteps(s: string, g: Group)
    ensures ApplyGroup(s, g) == ApplySteps(s, GroupSteps(g))
    decreases |g|
  {
    if g != [] {
      var n := |g| - 1;
      ApplyGroupIsSteps(s, g[..n]);
      ApplyMatchersIsSteps(ApplyGroup(s, g[..n]), g[n].matchers, g[n].replacement);
      ApplyStepsAppend(s, GroupSteps(g[..n]), RuleSteps(g[n]));
    }
  }

  /** The three nested loops of aux_str.py lines 133-136 apply exactly the flat
      list of substitutions: groups in list order, keys in insertion order,
      matchers in list order, each to the text the previous one produced. */
  lemma {:induction false} ApplyMappingsIsSteps(s: string, ms: Mappings)
    ensures ApplyMappings(s, ms) == ApplySteps(s, Steps(ms))
    decreases |ms|
  {
    if ms != [] {
      var n := |ms| - 1;
      ApplyMappingsIsSteps(s, ms[..n]);
      ApplyGroupIsSteps(ApplyMappings(s, ms[..n]), ms[n]);
      ApplyStepsAppend(s, Steps(ms[..n]), GroupSteps(ms[n]));
    }
  }

  /** The substitutions of two groups laid end to end. */
  lemma {:induction false} GroupStepsAppend(g1: Group, g2: Group)
    ensures GroupSteps(g1 + g2) == GroupSteps(g1) + GroupSteps(g2)
    decreases |g2|
  {
    if g2 == [] {
      assert g1 + g2 == g1;
    } else {
      var g, init, last := g1 + g2, g2[..|g2| - 1], g2[|g2| - 1];
      assert g[..|g| - 1] == g1 + init && g[|g| - 1] == last;
      GroupStepsAppend(g1, init);
      assert GroupSteps(g) == GroupSteps(g1 + init) + RuleSteps(last);
      assert GroupSteps(g2) == GroupSteps(init) + RuleSteps(last);
    }
  }

  /** The substitutions of two mapping lists laid end to end. */
  lemma {:induction false} StepsAppend(a: Mappings, b: Mappings)
    ensures Steps(a + b) == Steps(a) + Steps(b)
    decreases |b|
  {
    if b == [] {
      assert a + b == a;
    } else {
      var ab, init, last := a + b, b[..|b| - 1], b[|b| - 1];
      assert ab[..|ab| - 1] == a + init && ab[|ab| - 1] == last;
      StepsAppend(a, init);
      assert Steps(ab) == Steps(a + init) + GroupSteps(last);
      assert Steps(b) == Steps(init) + GroupSteps(last);
    }
  }

  /** A mapping list of one group has that group's substitutions. */
  lemma SingleGroupSteps(g: Group)
    ensures Steps([g]) == GroupSteps(g)
  {
    assert [g][..0] == [];
  }

  /** Groups apply in list order, each one to the text the previous ones left. */
  lemma MappingsAppend(s: string, a: Mappings, b: Mappings)
    ensures ApplyMappings(s, a + b) == ApplyMappings(ApplyMappings(s, a), b)
  {
    ApplyMappingsIsSteps(s, a + b);
    ApplyMappingsIsSteps(s, a);
    ApplyMappingsIsSteps(ApplyMappings(s, a), b);
    StepsAppend(a, b);
    ApplyStepsAppend(s, Steps(a), Steps(b));
  }

  /** A group holding several keys cleans exactly like the same keys given as
      consecutive groups. */
  lemma GroupSplit(text: string, pre: Mappings, g1: Group, g2: Group, post: Mappings)
    ensures Clean(text, pre + [g1 + g2] + post) == Clean(text, pre + [g1, g2] + post)
  {
    StepsAppend(pre + [g1 + g2], post);
    StepsAppend(pre, [g1 + g2]);
    StepsAppend(pre + [g1, g2], post);
    StepsAppend(pre, [g1, g2]);
    StepsAppend([g1], [g2]);
    SingleGroupSteps(g1);
    SingleGroupSteps(g2);
    SingleGroupSteps(g1 + g2);
    GroupStepsAppend(g1, g2);
    assert [g1] + [g2] == [g1, g2];
    assert Steps(pre + [g1 + g2] + post) == Steps(pre + [g1, g2] + post);
    ApplyMappingsIsSteps(text, pre + [g1 + g2] + post);
    ApplyMappingsIsSteps(text, pre + [g1, g2] + post);
  }

  /** The keys of a group apply in order: the first part's keys, then the second's. */
  lemma ApplyGroupAppend(s: string, g1: Group, g2: Group)
    ensures ApplyGroup(s, g1 + g2) == ApplyGroup(ApplyGroup(s, g1), g2)
  {
    ApplyGroupIsSteps(s, g1 + g2);
    GroupStepsAppend(g1, g2);
    ApplyStepsAppend(s, GroupSteps(g1), GroupSteps(g2));
    ApplyGroupIsSteps(s, g1);
    ApplyGroupIsSteps(ApplyGroup(s, g1), g2);
  }

  /** The same for a mapping list of that one group. */
  lemma GroupSplitAlone(text: string, g1: Group, g2: Group)
    ensures ApplyMappings(text, [g1 + g2]) == ApplyMappings(text, [g1, g2])
  {
    assert ApplyMappings(text, [g1 + g2]) == ApplyGroup(ApplyMappings(text, [g1 + g2][..0]), g1 + g2);
    assert [g1 + g2][..0] == [];
    ApplyGroupAppend(text, g1, g2);
    TwoGroups(text, g1, g2);
  }

  // ---------------------------------------------------------------------------
  // What a substitution removes and what it keeps absent

  /** A match starts with a character the matcher can take. */
  lemma MatchStart(s: string, m: Matcher)
    ensures MatchesAt(s, m) ==> |s| > 0 && CharIn(s[0], m)
  {
    if m.Literal? && MatchesAt(s, m) {
      assert s[0] == s[..|m.needle|][0];
    }
  }

  /** A match at the start of a prefix is a match at the start of the whole text. */
  lemma MatchInPrefix(s: string, k: nat, m: Matcher)
    requires k <= |s|
    ensures MatchesAt(s[..k], m) ==> MatchesAt(s, m)
  {
    if m.Literal? && MatchesAt(s[..k], m) {
      assert s[..k][..|m.needle|] == s[..|m.needle|];
    }
  }

  /** A text with no match keeps having none when cut down to a suffix. */
  lemma {:induction false} NoMatchInSuffix(s: string, k: nat, m: Matcher)
    requires k <= |s| && !HasMatch(s, m)
    ensures !HasMatch(s[k..], m)
    decreases k
  {
    if k > 0 {
      NoMatchInSuffix(s[1..], k - 1, m);
      assert s[1..][k - 1..] == s[k..];
    }
  }

  /** A text with no match keeps having none when cut down to a prefix. */
  lemma {:induction false} NoMatchInPrefix(s: string, k: nat, m: Matcher)
    requires k <= |s| && !HasMatch(s, m)
    ensures !HasMatch(s[..k], m)
    decreases |s|
  {
    if k > 0 {
      var p := s[..k];
      MatchInPrefix(s, k, m);
      NoMatchInPrefix(s[1..], k - 1, m);
      assert p[1..] == s[1..][..k - 1];
    }
  }

  /** Text made of characters foreign to `m`, put in front, creates no match. */
  lemma {:induction false} ForeignPrefix(p: string, y: string, m: Matcher)
    requires Foreign(p, m) && !HasMatch(y, m)
    ensures !HasMatch(p + y, m)
    decreases |p|
  {
    if p == [] {
      assert p + y == y;
    } else {
      MatchStart(p + y, m);
      assert (p + y)[0] == p[0];
      assert (p + y)[1..] == p[1..] + y;
      ForeignPrefix(p[1..], y, m);
    }
  }

  /** The first character `ReplaceAll` puts out. */
  lemma ReplaceAllHead(t: string, m: Matcher, rep: string)
    requires t != [] && |rep| > 0
    ensures ReplaceAll(t, m, rep)[0] == (if MatchesAt(t, m) then rep[0] else t[0])
  {
  }

  /** The first character `Collapse` puts out. */
  lemma CollapseHead(t: string)
    requires t != []
    ensures Collapse(t)[0] == (if |t| >= 2 && IsWs(t[0]) && IsWs(t[1]) then ' ' else t[0])
  {
  }

  /** Where `ReplaceAll` finds no match at the front, it copies the first character. */
  lemma ReplaceAllCopies(t: string, m: Matcher, rep: string)
    requires t != [] && !MatchesAt(t, m)
    ensures ReplaceAll(t, m, rep) == [t[0]] + ReplaceAll(t[1..], m, rep)
  {
  }

  /** Text in which no match starts is copied as it is, whatever follows it. */
  lemma {:induction false} ReplaceAllSkips(u: string, x: string, m: Matcher, rep: string)
    requires forall i :: 0 <= i < |u| ==> !MatchesAt((u + x)[i..], m)
    ensures ReplaceAll(u + x, m, rep) == u + ReplaceAll(x, m, rep)
    decreases |u|
  {
    if u == [] {
      assert u + x == x;
    } else {
      var s, v := u + x, u[1..];
      SkipsShift(u, x, m);
      ReplaceAllSkips(v, x, m, rep);
      ConsSplit(u, x);
      ReplaceAllCopies(s, m, rep);
      ConsSplit(u, ReplaceAll(x, m, rep));
    }
  }

  /** The premise of `ReplaceAllSkips` holds for the text after the first character. */
  lemma SkipsShift(u: string, x: string, m: Matcher)
    requires u != []
    requires forall i :: 0 <= i < |u| ==> !MatchesAt((u + x)[i..], m)
    ensures !MatchesAt(u + x, m) && (u + x)[0] == u[0] && (u + x)[1..] == u[1..] + x
    ensures forall i :: 0 <= i < |u[1..]| ==> !MatchesAt((u[1..] + x)[i..], m)
  {
    assert (u + x)[0..] == u + x;
    forall i | 0 <= i < |u[1..]| ensures !MatchesAt((u[1..] + x)[i..], m) {
      assert (u[1..] + x)[i..] == (u + x)[i + 1..];
    }
  }

  /** `ReplaceAll` meets the leftmost match first: the text before it is copied,
      the match becomes `rep`, and the scan resumes right after the match, so
      matches never overlap and the inserted text is never scanned again. */
  lemma ReplaceAllLeftmost(u: string, x: string, m: Matcher, rep: string)
    requires MatchesAt(x, m)
    requires forall i :: 0 <= i < |u| ==> !MatchesAt((u + x)[i..], m)
    ensures ReplaceAll(u + x, m, rep) == u + rep + ReplaceAll(x[Width(m)..], m, rep)
  {
    ReplaceAllSkips(u, x, m, rep);
  }

  /** The same for a literal of any width: if no occurrence of `l` starts in
      `u + l` before the `l`, then that `l` is the first one replaced. */
  lemma ReplaceAllLiteral(u: string, l: Needle, t: string, rep: string)
    requires forall i :: 0 <= i < |u| ==> !MatchesAt((u + l)[i..], Literal(l))
    ensures ReplaceAll(u + l + t, Literal(l), rep) == u + rep + ReplaceAll(t, Literal(l), rep)
  {
    var s := u + l + t;
    assert s == u + (l + t);
    forall i | 0 <= i < |u| ensures !MatchesAt((u + (l + t))[i..], Literal(l)) {
      if |l| <= |s[i..]| {
        assert s[i..][..|l|] == (u + l)[i..][..|l|];
      }
    }
    assert (l + t)[..|l|] == l && (l + t)[|l|..] == t;
    ReplaceAllLeftmost(u, l + t, Literal(l), rep);
  }

  /** Matches do not overlap: in `aaa` only the first `aa` is replaced. */
  lemma ReplaceAllNoOverlap()
    ensures ReplaceAll("aaa", Literal("aa"), "b") == "ba"
  {
    assert "aaa"[..2] == "aa" && "aaa"[2..] == "a";
    ReplaceAllLeftmost("", "aaa", Literal("aa"), "b");
    assert "" + "aaa" == "aaa";
  }

  /** The replacement is not scanned again, even when it holds the needle. */
  lemma ReplaceAllNoRescan()
    ensures ReplaceAll("a", Literal("a"), "aa") == "aa"
  {
    assert "a"[..1] == "a";
    ReplaceAllLeftmost("", "a", Literal("a"), "aa");
    assert "" + "a" == "a";
  }

  /** Where `Collapse` puts out something other than a space first, it copies the first character. */
  lemma CollapseCopies(t: string)
    requires t != [] && Collapse(t)[0] != ' '
    ensures Collapse(t) == [t[0]] + Collapse(t[1..])
  {
    CollapseHead(t);
  }

  /** The first `k` elements of a sequence with `c` in front. */
  lemma TakeCons<T>(c: T, a: seq<T>, k: nat)
    requires 0 < k <= |a| + 1
    ensures ([c] + a)[..k] == [c] + a[..k - 1]
  {
  }

  /** The first `k` elements: the first one, then `k - 1` of the rest. */
  lemma TakeSplit<T>(t: seq<T>, k: nat)
    requires 0 < k <= |t|
    ensures t[..k] == [t[0]] + t[1..][..k - 1]
  {
  }

  /** A literal matched at the start of `[c] + y`: `c` is its first character
      and the rest of it is a prefix of `y`. */
  lemma LiteralAcross(c: char, y: string, l: string)
    requires 1 <= |l| <= 1 + |y| && ([c] + y)[..|l|] == l
    ensures c == l[0] && y[..|l| - 1] == l[1..]
  {
    assert ([c] + y)[..|l|] == [c] + y[..|l| - 1];
  }

  /** As long as no character of `rep` has appeared, `ReplaceAll` has copied its
      input unchanged. */
  lemma {:induction false} ReplaceAllPrefix(t: string, m: Matcher, rep: string, m2: Matcher, k: nat)
    requires |rep| > 0 && Foreign(rep, m2)
    requires k <= |ReplaceAll(t, m, rep)|
    requires forall j :: 0 <= j < k ==> CharIn(ReplaceAll(t, m, rep)[j], m2)
    ensures k <= |t| && ReplaceAll(t, m, rep)[..k] == t[..k]
    decreases |t|
  {
    var out := ReplaceAll(t, m, rep);
    if k > 0 {
      ReplaceAllHead(t, m, rep);
      assert !CharIn(rep[0], m2);
      ReplaceAllCopies(t, m, rep);
      var rest := ReplaceAll(t[1..], m, rep);
      forall j | 0 <= j < k - 1 ensures CharIn(rest[j], m2) {
        assert rest[j] == out[j + 1];
      }
      ReplaceAllPrefix(t[1..], m, rep, m2, k - 1);
      TakeCons(t[0], rest, k);
      TakeSplit(t, k);
    }
  }

  /** As long as no space has appeared, collapsing has copied its input unchanged. */
  lemma {:induction false} CollapsePrefix(t: string, k: nat)
    requires k <= |Collapse(t)|
    requires forall j :: 0 <= j < k ==> Collapse(t)[j] != ' '
    ensures k <= |t| && Collapse(t)[..k] == t[..k]
    decreases |t|
  {
    var out := Collapse(t);
    if k > 0 {
      CollapseCopies(t);
      var rest := Collapse(t[1..]);
      forall j | 0 <= j < k - 1 ensures rest[j] != ' ' {
        assert rest[j] == out[j + 1];
      }
      CollapsePrefix(t[1..], k - 1);
      TakeCons(t[0], rest, k);
      TakeSplit(t, k);
    }
  }

  /** Output of `Collapse` that begins with space-free text began so in the input. */
  lemma CollapseCopiesSpaceFree(t: string, p: string)
    requires ' ' !in p && |p| <= |Collapse(t)| && Collapse(t)[..|p|] == p
    ensures |p| <= |t| && t[..|p|] == p
  {
    var out := Collapse(t);
    forall j | 0 <= j < |p| ensures out[j] != ' ' {
      assert out[j] == p[j];
    }
    CollapsePrefix(t, |p|);
  }

  /** A match of `m2` that starts at a copied character of `ReplaceAll` output
      was already a match in the input. */
  lemma MatchAcrossCopy(s: string, m: Matcher, rep: string, m2: Matcher)
    requires s != [] && |rep| > 0 && Foreign(rep, m2)
    requires MatchesAt([s[0]] + ReplaceAll(s[1..], m, rep), m2)
    ensures MatchesAt(s, m2)
  {
    assert s == [s[0]] + s[1..];
    if m2.Literal? {
      LiteralAcrossReplace(s[0], s[1..], m, rep, m2);
    } else {
      assert ([s[0]] + ReplaceAll(s[1..], m, rep))[0] == s[0];
    }
  }

  /** The literal case: a literal read across `[c] + ReplaceAll(t, m, rep)`
      reads the same across `[c] + t`. */
  lemma LiteralAcrossReplace(c: char, t: string, m: Matcher, rep: string, m2: Matcher)
    requires m2.Literal? && |rep| > 0 && Foreign(rep, m2)
    requires MatchesAt([c] + ReplaceAll(t, m, rep), m2)
    ensures MatchesAt([c] + t, m2)
  {
    var y := ReplaceAll(t, m, rep);
    var l := m2.needle;
    var n := |l| - 1;
    LiteralAcross(c, y, l);
    forall j | 0 <= j < n ensures CharIn(y[j], m2) {
      assert y[j] == l[1..][j] == l[j + 1];
    }
    ReplaceAllPrefix(t, m, rep, m2, n);
    TakeCons(c, t, |l|);
  }

  /** The same for a copied character of `Collapse` output. */
  lemma MatchAcrossCollapse(s: string, m2: Matcher)
    requires s != [] && !CharIn(' ', m2)
    requires MatchesAt([s[0]] + Collapse(s[1..]), m2)
    ensures MatchesAt(s, m2)
  {
    assert s == [s[0]] + s[1..];
    if m2.Literal? {
      LiteralAcrossCollapse(s[0], s[1..], m2.needle);
    } else {
      CollapseHeadOfCons(s[0], s[1..]);
    }
  }

  /** The literal case: a space-free literal read across `[c] + Collapse(t)`
      reads the same across `[c] + t`. */
  lemma LiteralAcrossCollapse(c: char, t: string, l: string)
    requires ' ' !in l && 1 <= |l| <= 1 + |Collapse(t)| && ([c] + Collapse(t))[..|l|] == l
    ensures |l| <= 1 + |t| && ([c] + t)[..|l|] == l
  {
    LiteralAcross(c, Collapse(t), l);
    assert forall d :: d in l[1..] ==> d in l;
    CollapseCopiesSpaceFree(t, l[1..]);
    assert ([c] + t)[..|l|] == [c] + t[..|l| - 1];
  }

  lemma CollapseHeadOfCons(c: char, t: string)
    ensures ([c] + Collapse(t))[0] == c
  {
  }

  /** One substitution removes every match of its own matcher, provided its
      replacement is non-empty and made of characters the matcher cannot take. */
  lemma {:induction false} ReplaceAllRemoves(s: string, m: Matcher, rep: string)
    requires |rep| > 0 && Foreign(rep, m)
    ensures !HasMatch(ReplaceAll(s, m, rep), m)
    decreases |s|
  {
    if s == [] {
    } else if MatchesAt(s, m) {
      ReplaceAllRemoves(s[Width(m)..], m, rep);
      ForeignPrefix(rep, ReplaceAll(s[Width(m)..], m, rep), m);
    } else {
      var y := ReplaceAll(s[1..], m, rep);
      ReplaceAllRemoves(s[1..], m, rep);
      if MatchesAt([s[0]] + y, m) {
        MatchAcrossCopy(s, m, rep, m);
      }
      assert ([s[0]] + y)[1..] == y;
    }
  }

  /** A substitution whose replacement is foreign to `m2` cannot create a
      match of `m2` in a text that had none. */
  lemma {:induction false} ReplaceAllKeepsAbsent(s: string, m: Matcher, rep: string, m2: Matcher)
    requires |rep| > 0 && Foreign(rep, m2) && !HasMatch(s, m2)
    ensures !HasMatch(ReplaceAll(s, m, rep), m2)
    decreases |s|
  {
    if s == [] {
    } else if MatchesAt(s, m) {
      NoMatchInSuffix(s, Width(m), m2);
      ReplaceAllKeepsAbsent(s[Width(m)..], m, rep, m2);
      ForeignPrefix(rep, ReplaceAll(s[Width(m)..], m, rep), m2);
    } else {
      var y := ReplaceAll(s[1..], m, rep);
      ReplaceAllKeepsAbsent(s[1..], m, rep, m2);
      if MatchesAt([s[0]] + y, m2) {
        MatchAcrossCopy(s, m, rep, m2);
      }
      assert ([s[0]] + y)[1..] == y;
    }
  }

  /** Collapsing whitespace cannot create a match of a matcher that does not
      take the space character. */
  lemma {:induction false} CollapseKeepsAbsent(s: string, m: Matcher)
    requires !CharIn(' ', m) && !HasMatch(s, m)
    ensures !HasMatch(Collapse(s), m)
    decreases |s|
  {
    if s == [] {
    } else if |s| >= 2 && IsWs(s[0]) && IsWs(s[1]) {
      var t := TrimLeft(s);
      NoMatchInSuffix(s, |s| - |t|, m);
      CollapseKeepsAbsent(t, m);
      ForeignPrefix(" ", Collapse(t), m);
    } else {
      var y := Collapse(s[1..]);
      CollapseKeepsAbsent(s[1..], m);
      if MatchesAt([s[0]] + y, m) {
        MatchAcrossCollapse(s, m);
      }
      assert ([s[0]] + y)[1..] == y;
    }
  }

  /** Stripping cannot create a match. */
  lemma StripKeepsAbsent(s: string, m: Matcher)
    requires !HasMatch(s, m)
    ensures !HasMatch(Strip(s), m)
  {
    var r := Strip(s);
    var k := |s| - |TrimLeft(s)|;
    NoMatchInSuffix(s, k, m);
    NoMatchInPrefix(s[k..], |r|, m);
    assert s[k..][..|r|] == r;
  }

  // ---------------------------------------------------------------------------
  // Settled texts and idempotence

  /** No matcher of the list matches anywhere in `s`. */
  predicate Settled(s: string, steps: seq<Step>) {
    forall i :: 0 <= i < |steps| ==> !HasMatch(s, steps[i].matcher)
  }

  /** Every replacement is non-empty and foreign to every matcher of the list,
      and no matcher takes the space character. */
  predicate WellBehaved(steps: seq<Step>) {
    (forall i :: 0 <= i < |steps| ==> |steps[i].replacement| > 0 && !CharIn(' ', steps[i].matcher))
    && (forall i, j :: 0 <= i < |steps| && 0 <= j < |steps| ==>
          Foreign(steps[i].replacement, steps[j].matcher))
  }

  /** A settled text passes through the substitutions unchanged. */
  lemma {:induction false} SettledIsFixed(s: string, steps: seq<Step>)
    requires Settled(s, steps)
    ensures ApplySteps(s, steps) == s
    decreases |steps|
  {
    if steps != [] {
      SettledIsFixed(s, steps[..|steps| - 1]);
    }
  }

  /** After well-behaved substitutions no matcher of the list is left. */
  lemma {:induction false} ApplyStepsSettles(s: string, steps: seq<Step>)
    requires WellBehaved(steps)
    ensures Settled(ApplySteps(s, steps), steps)
    decreases |steps|
  {
    if steps != [] {
      var n := |steps| - 1;
      var front := steps[..n];
      var last := steps[n];
      assert WellBehaved(front);
      ApplyStepsSettles(s, front);
      var u := ApplySteps(s, front);
      forall i | 0 <= i < |steps| ensures !HasMatch(ReplaceAll(u, last.matcher, last.replacement), steps[i].matcher) {
        if i < n {
          assert front[i] == steps[i];
          ReplaceAllKeepsAbsent(u, last.matcher, last.replacement, steps[i].matcher);
        } else {
          ReplaceAllRemoves(u, last.matcher, last.replacement);
        }
      }
    }
  }

  /** With well-behaved rules, no matcher of the rules is left in the cleaned text. */
  lemma CleanSettles(text: string, ms: Mappings)
    requires WellBehaved(Steps(ms))
    ensures Settled(Clean(text, ms), Steps(ms))
  {
    var steps := Steps(ms);
    var u := ApplyMappings(text, ms);
    ApplyMappingsIsSteps(text, ms);
    ApplyStepsSettles(text, steps);
    forall i | 0 <= i < |steps| ensures !HasMatch(Clean(text, ms), steps[i].matcher) {
      CollapseKeepsAbsent(u, steps[i].matcher);
      StripKeepsAbsent(Collapse(u), steps[i].matcher);
    }
  }

  /** Cleaning with well-behaved rules is idempotent: cleaning the result again
      changes nothing. */
  lemma CleanIdempotent(text: string, ms: Mappings)
    requires WellBehaved(Steps(ms))
    ensures Clean(Clean(text, ms), ms) == Clean(text, ms)
  {
    var c := Clean(text, ms);
    CleanSettles(text, ms);
    SettledIsFixed(c, Steps(ms));
    ApplyMappingsIsSteps(c, ms);
    CollapseFixedPoint(c);
    assert TrimLeft(c) == c;
    assert TrimRight(c) == c;
  }

  /** Every matcher of every key of a group has its substitution in the group's list. */
  lemma {:induction false} GroupStepsCover(g: Group, b: nat)
    requires b < |g|
    ensures forall k :: 0 <= k < |g[b].matchers| ==> Step(g[b].matchers[k], g[b].replacement) in GroupSteps(g)
    decreases |g|
  {
    var n := |g| - 1;
    if b < n {
      GroupStepsCover(g[..n], b);
      assert g[..n][b] == g[b];
    } else {
      forall k | 0 <= k < |g[b].matchers| ensures Step(g[b].matchers[k], g[b].replacement) in RuleSteps(g[n]) {
        assert RuleSteps(g[n])[k] == Step(g[b].matchers[k], g[b].replacement);
      }
    }
  }

  /** Every matcher of every key has its substitution in the flat list. */
  lemma {:induction false} StepsCover(ms: Mappings, a: nat, b: nat)
    requires a < |ms| && b < |ms[a]|
    ensures forall k :: 0 <= k < |ms[a][b].matchers| ==> Step(ms[a][b].matchers[k], ms[a][b].replacement) in Steps(ms)
    decreases |ms|
  {
    var n := |ms| - 1;
    if a < n {
      StepsCover(ms[..n], a, b);
      assert ms[..n][a] == ms[a];
    } else {
      GroupStepsCover(ms[a], b);
    }
  }

  /** With well-behaved rules, no matcher of any key matches anywhere in the
      cleaned text. */
  lemma CleanClears(text: string, ms: Mappings, a: nat, b: nat, k: nat)
    requires WellBehaved(Steps(ms))
    requires a < |ms| && b < |ms[a]| && k < |ms[a][b].matchers|
    ensures !HasMatch(Clean(text, ms), ms[a][b].matchers[k])
  {
    CleanSettles(text, ms);
    StepsCover(ms, a, b);
    var steps := Steps(ms);
    var step := Step(ms[a][b].matchers[k], ms[a][b].replacement);
    assert step in steps;
    var i :| 0 <= i < |steps| && steps[i] == step;
  }

  /** `rule` replaces with a non-empty text over `reps`, and none of its
      matchers takes a character of `reps`. */
  predicate RuleOver(rule: Rule, reps: set<char>) {
    |rule.replacement| > 0
    && (forall k :: 0 <= k < |rule.replacement| ==> rule.replacement[k] in reps)
    && (forall k, c :: 0 <= k < |rule.matchers| && c in reps ==> !CharIn(c, rule.matchers[k]))
  }

  /** Every key of every group is a rule over `reps`. */
  predicate RulesOver(ms: Mappings, reps: set<char>) {
    forall a, b :: 0 <= a < |ms| && 0 <= b < |ms[a]| ==> RuleOver(ms[a][b], reps)
  }

  /** The substitution replaces with a non-empty text over `reps` and its
      matcher takes no character of `reps`. */
  predicate StepOver(step: Step, reps: set<char>) {
    |step.replacement| > 0
    && (forall k :: 0 <= k < |step.replacement| ==> step.replacement[k] in reps)
    && (forall c :: c in reps ==> !CharIn(c, step.matcher))
  }

  lemma {:induction false} GroupStepsOver(g: Group, reps: set<char>)
    requires forall b :: 0 <= b < |g| ==> RuleOver(g[b], reps)
    ensures forall i :: 0 <= i < |GroupSteps(g)| ==> StepOver(GroupSteps(g)[i], reps)
    decreases |g|
  {
    if g != [] {
      var n := |g| - 1;
      assert forall b :: 0 <= b < n ==> g[..n][b] == g[b];
      GroupStepsOver(g[..n], reps);
      var front, back := GroupSteps(g[..n]), RuleSteps(g[n]);
      forall i | 0 <= i < |front + back| ensures StepOver((front + back)[i], reps) {
        if i >= |front| {
          assert (front + back)[i] == back[i - |front|];
        }
      }
    }
  }

  /** Rules over `reps` give substitutions over `reps`. */
  lemma {:induction false} StepsOver(ms: Mappings, reps: set<char>)
    requires RulesOver(ms, reps)
    ensures forall i :: 0 <= i < |Steps(ms)| ==> StepOver(Steps(ms)[i], reps)
    decreases |ms|
  {
    if ms != [] {
      var n := |ms| - 1;
      assert forall a :: 0 <= a < n ==> ms[..n][a] == ms[a];
      StepsOver(ms[..n], reps);
      GroupStepsOver(ms[n], reps);
      var front, back := Steps(ms[..n]), GroupSteps(ms[n]);
      forall i | 0 <= i < |front + back| ensures StepOver((front + back)[i], reps) {
        if i < |front| {
          assert (front + back)[i] == front[i];
        } else {
          assert (front + back)[i] == back[i - |front|];
        }
      }
    }
  }

  /** Mappings whose keys are non-empty texts over an alphabet holding the space,
      and whose matchers take no character of that alphabet, are well-behaved:
      cleaning with them is idempotent (`CleanIdempotent`). */
  lemma WellBehavedByRules(ms: Mappings, reps: set<char>)
    requires ' ' in reps && RulesOver(ms, reps)
    ensures WellBehaved(Steps(ms))
  {
    StepsOver(ms, reps);
    var steps := Steps(ms);
    forall i, j | 0 <= i < |steps| && 0 <= j < |steps|
      ensures Foreign(steps[i].replacement, steps[j].matcher)
    {
      assert StepOver(steps[i], reps) && StepOver(steps[j], reps);
    }
    forall i | 0 <= i < |steps| ensures !CharIn(' ', steps[i].matcher) {
      assert StepOver(steps[i], reps);
    }
  }

  // ---------------------------------------------------------------------------
  // Piecewise behaviour

  /** Every character of `s` is whitespace. */
  predicate AllWs(s: string) {
    forall i :: 0 <= i < |s| ==> IsWs(s[i])
  }

  /** No character of `s` is whitespace. */
  predicate NoWs(s: string) {
    forall i :: 0 <= i < |s| ==> !IsWs(s[i])
  }

  /** Printable ASCII other than the space is never whitespace. */
  lemma PrintableNotWs(c: char)
    requires '!' <= c <= '~'
    ensures !IsWs(c)
  {
  }

  /** Stripping removes exactly the whitespace at both ends: a text made of
      whitespace, a core that neither starts nor ends with whitespace, and
      whitespace again strips to the core. */
  lemma StripAround(g1: string, w: string, g2: string)
    requires AllWs(g1) && AllWs(g2)
    requires w == [] || (!IsWs(w[0]) && !IsWs(w[|w| - 1]))
    ensures Strip(g1 + w + g2) == w
  {
    var s := g1 + w + g2;
    if w == [] {
      assert s == g1 + g2;
      forall i | 0 <= i < |s| ensures IsWs(s[i]) {
        if i < |g1| { assert s[i] == g1[i]; } else { assert s[i] == g2[i - |g1|]; }
      }
      AllWsTrims(s);
      assert TrimLeft(s) == [];
      assert Strip(s) == TrimRight([]);
    } else {
      var t := w + g2;
      assert s == g1 + t;
      TrimLeftAt(g1, t);
      TrimRightAt(w, g2);
      assert Strip(s) == TrimRight(t);
    }
  }

  /** Whitespace only strips to nothing. */
  lemma {:induction false} AllWsTrims(s: string)
    requires AllWs(s)
    ensures TrimLeft(s) == []
    decreases |s|
  {
    if s != [] {
      AllWsTrims(s[1..]);
    }
  }

  /** `TrimLeft` stops exactly at the first non-whitespace character. */
  lemma {:induction false} TrimLeftAt(g: string, w: string)
    requires AllWs(g) && w != [] && !IsWs(w[0])
    ensures TrimLeft(g + w) == w
    decreases |g|
  {
    if g == [] {
      assert g + w == w;
    } else {
      assert (g + w)[1..] == g[1..] + w;
      TrimLeftAt(g[1..], w);
    }
  }

  /** `TrimRight` stops exactly at the last non-whitespace character. */
  lemma {:induction false} TrimRightAt(w: string, g: string)
    requires AllWs(g) && w != [] && !IsWs(w[|w| - 1])
    ensures TrimRight(w + g) == w
    decreases |g|
  {
    if g == [] {
      assert w + g == w;
    } else {
      var n := |g| - 1;
      assert (w + g)[..|w + g| - 1] == w + g[..n];
      TrimRightAt(w, g[..n]);
    }
  }

  /** A non-whitespace character in front stays in front. */
  lemma CollapsePlainCons(c: char, y: string)
    requires !IsWs(c)
    ensures Collapse([c] + y) == [c] + Collapse(y)
  {
    var x := [c] + y;
    assert x[0] == c && x[1..] == y;
    CollapsePlainHead(x);
  }

  /** A text that starts with a non-whitespace character keeps it in front. */
  lemma CollapsePlainHead(s: string)
    requires s != [] && !IsWs(s[0])
    ensures Collapse(s) == [s[0]] + Collapse(s[1..])
  {
  }

  /** Characters that are not whitespace pass through collapsing unchanged. */
  lemma {:induction false} CollapseWord(w: string, s: string)
    requires NoWs(w)
    ensures Collapse(w + s) == w + Collapse(s)
    decreases |w|
  {
    if w == [] {
      assert w + s == s;
    } else {
      assert NoWs(w[1..]) by {
        forall i | 0 <= i < |w| - 1 ensures !IsWs(w[1..][i]) {
          assert w[1..][i] == w[i + 1];
        }
      }
      CollapseWord(w[1..], s);
      CollapsePlainCons(w[0], w[1..] + s);
      ConsSplit(w, s);
      ConsSplit(w, Collapse(s));
    }
  }

  /** A run of two or more whitespace characters collapses to one space. */
  lemma CollapseRun(g: string, s: string)
    requires |g| >= 2 && AllWs(g)
    requires s == [] || !IsWs(s[0])
    ensures Collapse(g + s) == " " + Collapse(s)
  {
    if s == [] {
      AllWsTrims(g);
      assert g + s == g;
    } else {
      TrimLeftAt(g, s);
    }
  }

  /** A lone whitespace character is left as it is. */
  lemma CollapseLone(c: char, s: string)
    requires IsWs(c)
    requires s == [] || !IsWs(s[0])
    ensures Collapse([c] + s) == [c] + Collapse(s)
  {
    assert ([c] + s)[1..] == s;
  }

  /** A one-character matcher matches where it takes the first character. */
  lemma OneCharMatch(s: string, m: Matcher)
    requires Width(m) == 1
    ensures MatchesAt(s, m) <==> |s| > 0 && CharIn(s[0], m)
  {
    if m.Literal? && |s| > 0 {
      assert s[..1] == [s[0]];
      assert m.needle == [m.needle[0]];
    }
  }

  /** One step of `ReplaceAll` with a one-character matcher. */
  lemma ReplaceAllStep(s: string, m: Matcher, rep: string)
    requires Width(m) == 1 && s != []
    ensures ReplaceAll(s, m, rep) == (if CharIn(s[0], m) then rep else [s[0]]) + ReplaceAll(s[1..], m, rep)
  {
    OneCharMatch(s, m);
  }

  /** A one-character matcher never matches across a cut, so the text can be
      substituted piece by piece. */
  lemma {:induction false} ReplaceAllConcat(a: string, b: string, m: Matcher, rep: string)
    requires Width(m) == 1
    ensures ReplaceAll(a + b, m, rep) == ReplaceAll(a, m, rep) + ReplaceAll(b, m, rep)
    decreases |a|
  {
    if a == [] {
      assert a + b == b;
    } else {
      var ab := a + b;
      assert ab[0] == a[0] && ab[1..] == a[1..] + b;
      ReplaceAllConcat(a[1..], b, m, rep);
      ReplaceAllStep(ab, m, rep);
      ReplaceAllStep(a, m, rep);
    }
  }

  /** A text none of whose characters a matcher takes is left as it is. */
  lemma {:induction false} ReplaceAllUntouched(s: string, m: Matcher, rep: string)
    requires forall i :: 0 <= i < |s| ==> !CharIn(s[i], m)
    ensures ReplaceAll(s, m, rep) == s
    decreases |s|
  {
    if s != [] {
      MatchStart(s, m);
      ReplaceAllUntouched(s[1..], m, rep);
    }
  }

  /** With an empty replacement, a one-character matcher deletes exactly the
      characters it takes and keeps the others in order. */
  lemma {:induction false} EmptyReplacementDeletes(s: string, m: Matcher)
    requires Width(m) == 1
    ensures ReplaceAll(s, m, "") == Without(s, m)
    decreases |s|
  {
    if s != [] {
      EmptyReplacementDeletes(s[1..], m);
      OneCharMatch(s, m);
    }
  }

  /** The characters of `s` that `m` does not take, in order. */
  function Without(s: string, m: Matcher): (r: string)
    ensures forall i :: 0 <= i < |r| ==> !CharIn(r[i], m)
    ensures |r| <= |s|
    decreases |s|
  {
    if s == [] then []
    else if CharIn(s[0], m) then Without(s[1..], m)
    else [s[0]] + Without(s[1..], m)
  }

  /** Every character of `s` is printable ASCII (the space included). */
  predicate Printable(s: string) {
    forall i :: 0 <= i < |s| ==> ' ' <= s[i] <= '~'
  }

  /** Printable ASCII text other than spaces holds no whitespace. */
  lemma PrintableWord(w: string)
    requires forall i :: 0 <= i < |w| ==> '!' <= w[i] <= '~'
    ensures NoWs(w)
  {
    forall i | 0 <= i < |w| ensures !IsWs(w[i]) {
      PrintableNotWs(w[i]);
    }
  }

  /** Every matcher of the list is one character wide. */
  predicate OneCharMatchers(ms: seq<Matcher>) {
    forall k :: 0 <= k < |ms| ==> Width(ms[k]) == 1
  }

  /** No matcher of the list takes any character of `s`. */
  predicate UntouchedBy(s: string, ms: seq<Matcher>) {
    forall k, i :: 0 <= k < |ms| && 0 <= i < |s| ==> !CharIn(s[i], ms[k])
  }

  /** A key whose matchers are one character wide can be applied piece by piece. */
  lemma {:induction false} ApplyMatchersConcat(a: string, b: string, ms: seq<Matcher>, rep: string)
    requires OneCharMatchers(ms)
    ensures ApplyMatchers(a + b, ms, rep) == ApplyMatchers(a, ms, rep) + ApplyMatchers(b, ms, rep)
    decreases |ms|
  {
    if ms != [] {
      var n := |ms| - 1;
      ApplyMatchersConcat(a, b, ms[..n], rep);
      ReplaceAllConcat(ApplyMatchers(a, ms[..n], rep), ApplyMatchers(b, ms[..n], rep), ms[n], rep);
    }
  }

  /** A key none of whose matchers takes a character of `s` leaves `s` alone. */
  lemma {:induction false} ApplyMatchersUntouched(s: string, ms: seq<Matcher>, rep: string)
    requires UntouchedBy(s, ms)
    ensures ApplyMatchers(s, ms, rep) == s
    decreases |ms|
  {
    if ms != [] {
      var n := |ms| - 1;
      ApplyMatchersUntouched(s, ms[..n], rep);
      ReplaceAllUntouched(s, ms[n], rep);
    }
  }

  /** A single character taken by the `k`-th matcher of a key, and by none before
      it, becomes the key, provided no later matcher takes a character of the key. */
  lemma {:induction false} ApplyMatchersHit(c: char, ms: seq<Matcher>, k: nat, rep: string)
    requires k < |ms| && Width(ms[k]) == 1 && CharIn(c, ms[k])
    requires UntouchedBy([c], ms[..k]) && UntouchedBy(rep, ms[k + 1..])
    ensures ApplyMatchers([c], ms, rep) == rep
    decreases |ms|
  {
    var n := |ms| - 1;
    if n == k {
      ApplyMatchersUntouched([c], ms[..k], rep);
      OneCharMatch([c], ms[k]);
      assert [c][Width(ms[k])..] == [];
      assert rep + [] == rep;
    } else {
      assert ms[..n][..k] == ms[..k];
      assert forall j :: k + 1 <= j < n ==> ms[..n][j] == ms[j];
      ApplyMatchersHit(c, ms[..n], k, rep);
      assert ms[n] == ms[k + 1..][n - k - 1];
      ReplaceAllUntouched(rep, ms[n], rep);
    }
  }

  /** Some matcher of the list takes `c`. */
  predicate Taken(c: char, ms: seq<Matcher>) {
    exists k :: 0 <= k < |ms| && CharIn(c, ms[k])
  }

  /** A one-character matcher with a one-character replacement rewrites the text
      position by position. */
  lemma {:induction false} ReplaceAllPointwise(t: string, m: Matcher, y: char)
    requires Width(m) == 1
    ensures ReplaceAll(t, m, [y]) == seq(|t|, i requires 0 <= i < |t| => if CharIn(t[i], m) then y else t[i])
    decreases |t|
  {
    if t != [] {
      ReplaceAllPointwise(t[1..], m, y);
      OneCharMatch(t, m);
    }
  }

  /** A key whose matchers are one character wide, and whose one-character
      replacement none of them takes, replaces every character some matcher
      takes and keeps every other character in place. */
  lemma {:induction false} ApplyMatchersPointwise(s: string, ms: seq<Matcher>, y: char)
    requires OneCharMatchers(ms) && !Taken(y, ms)
    ensures ApplyMatchers(s, ms, [y]) == seq(|s|, i requires 0 <= i < |s| => if Taken(s[i], ms) then y else s[i])
    decreases |ms|
  {
    if ms != [] {
      var n := |ms| - 1;
      assert !Taken(y, ms[..n]) by {
        forall k | 0 <= k < n ensures !CharIn(y, ms[..n][k]) {
          assert ms[..n][k] == ms[k];
        }
      }
      ApplyMatchersPointwise(s, ms[..n], y);
      var t := ApplyMatchers(s, ms[..n], [y]);
      ReplaceAllPointwise(t, ms[n], y);
      forall i | 0 <= i < |s|
        ensures (if CharIn(t[i], ms[n]) then y else t[i]) == (if Taken(s[i], ms) then y else s[i])
      {
        if Taken(s[i], ms[..n]) {
          var k :| 0 <= k < n && CharIn(s[i], ms[..n][k]);
          assert CharIn(s[i], ms[k]);
          assert !CharIn(y, ms[n]);
        } else if CharIn(s[i], ms[n]) {
        } else {
          forall k | 0 <= k < |ms| ensures !CharIn(s[i], ms[k]) {
            if k < n {
              assert ms[..n][k] == ms[k];
            }
          }
        }
      }
    }
  }

  /** The same, for matchers that take exactly the characters of `taken`. */
  lemma ApplyMatchersBySet(s: string, ms: seq<Matcher>, y: char, taken: set<char>)
    requires OneCharMatchers(ms) && y !in taken
    requires forall c :: Taken(c, ms) <==> c in taken
    ensures ApplyMatchers(s, ms, [y]) == seq(|s|, i requires 0 <= i < |s| => if s[i] in taken then y else s[i])
  {
    ApplyMatchersPointwise(s, ms, y);
  }

  /** What may separate two words: one space, or a run of two or more whitespace characters. */
  predicate Gap(g: string) {
    g == " " || (|g| >= 2 && AllWs(g))
  }

  /** Non-empty words without whitespace. */
  predicate Words(words: seq<string>) {
    forall i :: 0 <= i < |words| ==> words[i] != [] && NoWs(words[i])
  }

  /** The words with `gaps[i]` between `words[i]` and `words[i + 1]`. */
  function Spaced(words: seq<string>, gaps: seq<string>): (s: string)
    requires |words| == |gaps| + 1
    ensures Words(words) ==> s != [] && s[0] == words[0][0]
    decreases |gaps|
  {
    if gaps == [] then words[0] else words[0] + (gaps[0] + Spaced(words[1..], gaps[1..]))
  }

  /** The first word and gap in front of the rest. */
  lemma SpacedCons(words: seq<string>, gaps: seq<string>)
    requires |words| == |gaps| + 1 && gaps != []
    ensures Spaced(words, gaps) == words[0] + (gaps[0] + Spaced(words[1..], gaps[1..]))
  {
  }

  /** A gap in front of a word collapses to one space. */
  lemma CollapseGap(g: string, x: string)
    requires Gap(g) && x != [] && !IsWs(x[0])
    ensures Collapse(g + x) == " " + Collapse(x)
  {
    if g == " " {
      CollapseLone(' ', x);
    } else {
      CollapseRun(g, x);
    }
  }

  /** Regrouping a concatenation of four texts. */
  lemma Regroup(a: string, b: string, c: string, d: string)
    ensures a + (b + (c + d)) == (a + b + c) + d
    ensures (a + (b + c)) + d == a + (b + (c + d))
  {
  }

  /** Collapsing turns every gap between words into one space. */
  lemma {:induction false} CollapseSpaced(words: seq<string>, gaps: seq<string>, tail: string)
    requires |words| == |gaps| + 1 && Words(words)
    requires forall i :: 0 <= i < |gaps| ==> Gap(gaps[i])
    ensures Collapse(Spaced(words, gaps) + tail) == Join(words, ' ') + Collapse(tail)
    decreases |gaps|
  {
    var w := words[0];
    if gaps == [] {
      CollapseWord(w, tail);
    } else {
      var g := gaps[0];
      var rest := Spaced(words[1..], gaps[1..]);
      assert Words(words[1..]) by {
        forall i | 0 <= i < |words[1..]| ensures words[1..][i] != [] && NoWs(words[1..][i]) {
          assert words[1..][i] == words[i + 1];
        }
      }
      assert forall i :: 0 <= i < |gaps[1..]| ==> Gap(gaps[1..][i]) by {
        forall i | 0 <= i < |gaps[1..]| ensures Gap(gaps[1..][i]) {
          assert gaps[1..][i] == gaps[i + 1];
        }
      }
      CollapseSpaced(words[1..], gaps[1..], tail);
      Regroup(w, g, rest, tail);
      CollapseWord(w, g + (rest + tail));
      assert (rest + tail)[0] == words[1][0];
      CollapseGap(g, rest + tail);
      Regroup(w, " ", Join(words[1..], ' '), Collapse(tail));
    }
  }

  /** Whitespace collapses to whitespace. */
  lemma {:induction false} CollapseOfWs(t: string)
    requires AllWs(t)
    ensures AllWs(Collapse(t))
    decreases |t|
  {
    if |t| >= 2 {
      AllWsTrims(t);
    } else if t != [] {
      CollapseOfWs(t[1..]);
    }
  }

  /** Whitespace in front of a word collapses to one space when it is a run,
      and stays as it is otherwise. */
  lemma CollapseLead(lead: string, x: string)
    requires AllWs(lead) && x != [] && !IsWs(x[0])
    ensures Collapse(lead + x) == (if |lead| >= 2 then " " else lead) + Collapse(x)
  {
    if lead == [] {
      assert lead + x == x;
    } else if |lead| == 1 {
      CollapseLone(lead[0], x);
      assert lead == [lead[0]];
    } else {
      CollapseRun(lead, x);
    }
  }

  /** Collapsing words between gaps, with whitespace at either end. */
  lemma CollapseFramed(lead: string, words: seq<string>, gaps: seq<string>, trail: string)
    requires AllWs(lead)
    requires |words| == |gaps| + 1 && Words(words)
    requires forall i :: 0 <= i < |gaps| ==> Gap(gaps[i])
    ensures Collapse(lead + Spaced(words, gaps) + trail)
         == (if |lead| >= 2 then " " else lead) + (Join(words, ' ') + Collapse(trail))
  {
    Regroup3(lead, Spaced(words, gaps), trail);
    CollapseLead(lead, Spaced(words, gaps) + trail);
    CollapseSpaced(words, gaps, trail);
  }

  /** The edges of words joined by a separator are the outer words' edges. */
  lemma {:induction false} JoinEdges(words: seq<string>, sep: char)
    requires |words| > 0 && Words(words)
    ensures var j := Join(words, sep);
      j != [] && j[0] == words[0][0] && j[|j| - 1] == words[|words| - 1][|words[|words| - 1]| - 1]
    decreases |words|
  {
    if |words| > 1 {
      assert Words(words[1..]) by {
        forall i | 0 <= i < |words[1..]| ensures words[1..][i] != [] && NoWs(words[1..][i]) {
          assert words[1..][i] == words[i + 1];
        }
      }
      JoinEdges(words[1..], sep);
    }
  }

  /** Words joined by spaces neither start nor end with whitespace. */
  lemma JoinedWordsEdges(words: seq<string>)
    requires |words| > 0 && Words(words)
    ensures var j := Join(words, ' '); j != [] && !IsWs(j[0]) && !IsWs(j[|j| - 1])
  {
    JoinEdges(words, ' ');
    var last := words[|words| - 1];
    assert !IsWs(last[|last| - 1]);
  }

  /** Regrouping a concatenation of three texts. */
  lemma Regroup3(a: string, b: string, c: string)
    ensures a + b + c == a + (b + c)
  {
  }

  /** A text made of words separated by gaps, with any whitespace at either end,
      cleans (collapse, then strip) to the words joined by single spaces. */
  lemma StripCollapseSpaced(lead: string, words: seq<string>, gaps: seq<string>, trail: string)
    requires AllWs(lead) && AllWs(trail)
    requires |words| == |gaps| + 1 && Words(words)
    requires forall i :: 0 <= i < |gaps| ==> Gap(gaps[i])
    ensures Strip(Collapse(lead + Spaced(words, gaps) + trail)) == Join(words, ' ')
  {
    CollapseFramed(lead, words, gaps, trail);
    StripFramed(lead, words, trail);
  }

  /** The text between two runs of whitespace is what stripping keeps. */
  lemma StripFramed(lead: string, words: seq<string>, trail: string)
    requires AllWs(lead) && AllWs(trail)
    requires |words| > 0 && Words(words)
    ensures Strip((if |lead| >= 2 then " " else lead) + (Join(words, ' ') + Collapse(trail))) == Join(words, ' ')
  {
    var l := if |lead| >= 2 then " " else lead;
    var j, t := Join(words, ' '), Collapse(trail);
    assert AllWs(l);
    CollapseOfWs(trail);
    JoinedWordsEdges(words);
    Regroup3(l, j, t);
    StripAround(l, j, t);
  }
}
