/** `REGEX_ABC_DASH_XYZ_ASTERISK` (nvm/aux_str/regex.py line 6): the pattern
    `^[a-z]+(\-[a-z]+)*\*?$` compiled with `re.IGNORECASE`, read as a
    membership test on whole strings.  The recogniser is a five-state
    automaton; the language is given separately as a grammar, and the two
    are proved to agree. */
module AbcDashXyz {
  import opened Strings

  /** `[a-z]` under `re.IGNORECASE`, for ASCII letters. */
  predicate IsLetter(c: char) {
    'a' <= c <= 'z' || 'A' <= c <= 'Z'
  }

  // ---------------------------------------------------------------------------
  // The grammar

  /** `[a-z]+`: one or more letters. */
  predicate IsWord(w: string) {
    w != [] && forall i :: 0 <= i < |w| ==> IsLetter(w[i])
  }

  /** `s` is the words joined by dashes, followed by `star`, which is empty or one asterisk. */
  predicate Derives(words: seq<string>, star: string, s: string) {
    && |words| > 0
    && (forall i :: 0 <= i < |words| ==> IsWord(words[i]))
    && (star == "" || star == "*")
    && s == Join(words, '-') + star
  }

  /** The language of the pattern: letters, then dash-letters groups, then an optional asterisk. */
  ghost predicate InLanguage(s: string) {
    exists words: seq<string>, star: string :: Derives(words, star, s)
  }

  // ---------------------------------------------------------------------------
  // The recogniser

  /** Where the scan stands: nothing read, inside a word, just after a dash,
      just after the final asterisk, or already failed. */
  datatype State = Start | InWord | AfterDash | AfterStar | Failed

  function Next(q: State, c: char): (r: State)
    ensures r.InWord? <==> IsLetter(c) && (q.Start? || q.InWord? || q.AfterDash?)
    ensures r.AfterDash? <==> c == '-' && q.InWord?
    ensures r.AfterStar? <==> c == '*' && q.InWord?
  {
    match q
    case Start => if IsLetter(c) then InWord else Failed
    case InWord =>
      if IsLetter(c) then InWord
      else if c == '-' then AfterDash
      else if c == '*' then AfterStar
      else Failed
    case AfterDash => if IsLetter(c) then InWord else Failed
    case AfterStar => Failed
    case Failed => Failed
  }

  /** The state after reading `s` from `q`. */
  function Run(q: State, s: string): State
    decreases |s|
  {
    if s == [] then q else Run(Next(q, s[0]), s[1..])
  }

  /** `REGEX_ABC_DASH_XYZ_ASTERISK.match(s) is not None`: an accepted string
      starts with a letter. */
  predicate Accepts(s: string)
    ensures Accepts(s) ==> s != [] && IsLetter(s[0])
  {
    LeadingNonLetterFails(s);
    Run(Start, s).InWord? || Run(Start, s).AfterStar?
  }

  /** A string that does not start with a letter sends the recogniser to failure. */
  lemma LeadingNonLetterFails(s: string)
    ensures s != [] && !IsLetter(s[0]) ==> Run(Start, s) == Failed
  {
    if s != [] {
      FailedStays(s[1..]);
    }
  }

  // ---------------------------------------------------------------------------
  // Facts about runs

  /** Reading `a + b` is reading `a`, then `b`. */
  lemma {:induction false} RunAppend(q: State, a: string, b: string)
    ensures Run(q, a + b) == Run(Run(q, a), b)
    decreases |a|
  {
    if a != [] {
      assert (a + b)[0] == a[0];
      assert (a + b)[1..] == a[1..] + b;
      RunAppend(Next(q, a[0]), a[1..], b);
      assert Run(q, a + b) == Run(Next(q, a[0]), a[1..] + b);
    } else {
      assert a + b == b;
    }
  }

  /** Once failed, the scan stays failed. */
  lemma {:induction false} FailedStays(s: string)
    ensures Run(Failed, s) == Failed
    decreases |s|
  {
    if s != [] {
      FailedStays(s[1..]);
    }
  }

  /** Nothing can follow the asterisk. */
  lemma StarEnds(s: string)
    ensures Run(AfterStar, s) == (if s == [] then AfterStar else Failed)
  {
    if s != [] {
      FailedStays(s[1..]);
    }
  }

  /** A word read from a state that accepts a letter ends inside a word. */
  lemma {:induction false} RunWord(q: State, w: string)
    requires q.Start? || q.InWord? || q.AfterDash?
    requires IsWord(w)
    ensures Run(q, w) == InWord
    decreases |w|
  {
    if |w| > 1 {
      RunWord(InWord, w[1..]);
    }
  }

  /** Words joined by dashes, read from the start or after a dash, end inside a word. */
  lemma {:induction false} RunJoin(q: State, words: seq<string>)
    requires q.Start? || q.AfterDash?
    requires |words| > 0 && forall i :: 0 <= i < |words| ==> IsWord(words[i])
    ensures Run(q, Join(words, '-')) == InWord
    decreases |words|
  {
    RunWord(q, words[0]);
    if |words| > 1 {
      RunJoin(AfterDash, words[1..]);
      RunAppend(q, words[0] + "-", Join(words[1..], '-'));
      RunAppend(q, words[0], "-");
    }
  }

  /** Letters only (possibly none). */
  predicate Letters(w: string) {
    forall j :: 0 <= j < |w| ==> IsLetter(w[j])
  }

  predicate AllWords(ps: seq<string>) {
    forall i :: 0 <= i < |ps| ==> IsWord(ps[i])
  }

  /** A dash in front of a text whose pieces are words: the first piece is empty. */
  lemma DashFront(t: string)
    requires AllWords(Split(t, '-'))
    ensures Letters(Split("-" + t, '-')[0]) && AllWords(Split("-" + t, '-')[1..])
  {
    SplitSepCons('-', t);
  }

  /** A letter in front of letters is a word. */
  lemma LetterWord(c: char, w: string)
    requires IsLetter(c) && Letters(w)
    ensures IsWord([c] + w)
  {
    assert forall j :: 1 <= j < |[c] + w| ==> ([c] + w)[j] == w[j - 1];
  }

  lemma ConsWords(first: string, tail: seq<string>)
    requires IsWord(first) && AllWords(tail)
    ensures AllWords([first] + tail)
  {
    assert forall i :: 1 <= i < |[first] + tail| ==> ([first] + tail)[i] == tail[i - 1];
  }

  /** A letter in front of a text whose first piece is letters: the first piece becomes a word. */
  lemma LetterFront(c: char, t: string)
    requires IsLetter(c)
    requires Letters(Split(t, '-')[0]) && AllWords(Split(t, '-')[1..])
    ensures AllWords(Split([c] + t, '-'))
  {
    var rest := Split(t, '-');
    SplitCharCons(c, t, '-');
    LetterWord(c, rest[0]);
    ConsWords([c] + rest[0], rest[1..]);
  }

  /** Every piece of a split is made of letters when all are words. */
  lemma WordsAreLetters(ps: seq<string>)
    requires |ps| > 0 && AllWords(ps)
    ensures Letters(ps[0]) && AllWords(ps[1..])
  {
  }

  /** What a run that ends inside a word has read: its dash-separated pieces
      are words, except that the first may be empty when the run began inside
      a word. */
  lemma {:induction false} InWordPieces(q: State, s: string)
    requires Run(q, s) == InWord
    ensures q.Start? || q.AfterDash? ==> AllWords(Split(s, '-'))
    ensures q.InWord? ==> Letters(Split(s, '-')[0]) && AllWords(Split(s, '-')[1..])
    decreases |s|
  {
    if s != [] {
      var c, t := s[0], s[1..];
      assert s == [c] + t;
      var q' := Next(q, c);
      if q'.Failed? {
        FailedStays(t);
      } else if q'.AfterStar? {
        StarEnds(t);
      } else if q'.AfterDash? {
        InWordPieces(q', t);
        DashFront(t);
      } else {
        InWordPieces(q', t);
        LetterFront(c, t);
        WordsAreLetters(Split(s, '-'));
      }
    }
  }

  /** A run that ends after the asterisk read a word-ending text and then `*`. */
  lemma AfterStarShape(s: string)
    requires Run(Start, s) == AfterStar
    ensures s != [] && s[|s| - 1] == '*' && Run(Start, s[..|s| - 1]) == InWord
  {
    if s == [] {
    } else {
      var body := s[..|s| - 1];
      assert s == body + [s[|s| - 1]];
      RunAppend(Start, body, [s[|s| - 1]]);
    }
  }

  // ---------------------------------------------------------------------------
  // The recogniser recognises the grammar

  /** Every derivation of the grammar is accepted. */
  lemma DerivedAccepted(words: seq<string>, star: string, s: string)
    requires Derives(words, star, s)
    ensures Accepts(s)
    ensures Run(Start, s) == (if star == "" then InWord else AfterStar)
  {
    RunJoin(Start, words);
    RunAppend(Start, Join(words, '-'), star);
  }

  /** Every accepted string has a derivation: the pieces between dashes of
      the text before the optional asterisk. */
  lemma AcceptedDerived(s: string) returns (words: seq<string>, star: string)
    requires Accepts(s)
    ensures Derives(words, star, s)
    ensures words == Split(if star == "" then s else s[..|s| - 1], '-')
  {
    var body := s;
    star := "";
    if Run(Start, s).AfterStar? {
      AfterStarShape(s);
      body, star := s[..|s| - 1], "*";
      assert s == body + star;
    }
    InWordPieces(Start, body);
    words := Split(body, '-');
  }

  /** The recogniser accepts exactly the language of the grammar. */
  lemma AcceptsExactly(s: string)
    ensures Accepts(s) <==> InLanguage(s)
  {
    if Accepts(s) {
      var words, star := AcceptedDerived(s);
    }
    if InLanguage(s) {
      var words, star :| Derives(words, star, s);
      DerivedAccepted(words, star, s);
    }
  }

  // ---------------------------------------------------------------------------
  // Strings the pattern rejects

  /** A text that fails from every state cannot occur anywhere in an accepted string. */
  lemma {:induction false} RejectsInfix(a: string, u: string, b: string)
    requires forall q: State :: Run(q, u) == Failed
    ensures !Accepts(a + u + b)
  {
    RunAppend(Start, a + u, b);
    RunAppend(Start, a, u);
    FailedStays(b);
  }

  /** `--` and `-*` fail from every state. */
  lemma DashBlocks()
    ensures forall q: State :: Run(q, "--") == Failed && Run(q, "-*") == Failed
  {
    forall q: State ensures Run(q, "--") == Failed && Run(q, "-*") == Failed {
      assert "--"[1..] == "-" && "-*"[1..] == "*";
    }
  }

  /** Any character other than a letter, a dash or an asterisk fails from every state. */
  lemma StrangeBlocks(c: char)
    requires !IsLetter(c) && c != '-' && c != '*'
    ensures forall q: State :: Run(q, [c]) == Failed
  {
  }

  /** The empty string, a lone asterisk, and anything starting with a dash or
      an asterisk are rejected, and so is anything ending with a dash. */
  lemma RejectsEnds(s: string)
    ensures !Accepts("") && !Accepts("*")
    ensures s != [] && (s[0] == '-' || s[0] == '*') ==> !Accepts(s)
    ensures s != [] && s[|s| - 1] == '-' ==> !Accepts(s)
  {
    assert "*"[1..] == [];
    if s != [] && (s[0] == '-' || s[0] == '*') {
      FailedStays(s[1..]);
    }
    if s != [] && s[|s| - 1] == '-' {
      var body := s[..|s| - 1];
      assert s == body + "-";
      RunAppend(Start, body, "-");
    }
  }

  /** A double dash, or a dash right before the asterisk, anywhere, is rejected. */
  lemma RejectsDashPairs(a: string, b: string)
    ensures !Accepts(a + "--" + b)
    ensures !Accepts(a + "-*" + b)
  {
    DashBlocks();
    RejectsInfix(a, "--", b);
    RejectsInfix(a, "-*", b);
  }

  /** A digit, underscore, space or any other character besides letters, `-`
      and `*` is rejected wherever it stands. */
  lemma RejectsStrange(s: string, i: nat)
    requires i < |s| && !IsLetter(s[i]) && s[i] != '-' && s[i] != '*'
    ensures !Accepts(s)
  {
    StrangeBlocks(s[i]);
    assert s == s[..i] + [s[i]] + s[i + 1..];
    RejectsInfix(s[..i], [s[i]], s[i + 1..]);
  }

  /** The asterisk may appear only once, as the last character. */
  lemma StarOnlyLast(s: string, i: nat)
    requires Accepts(s) && i < |s| && s[i] == '*'
    ensures i == |s| - 1
  {
    var front := s[..i + 1];
    assert s == front + s[i + 1..];
    RunAppend(Start, front, s[i + 1..]);
    assert front == s[..i] + "*";
    RunAppend(Start, s[..i], "*");
    if Run(Start, front).AfterStar? {
      StarEnds(s[i + 1..]);
    } else {
      FailedStays(s[i + 1..]);
    }
  }

  // ---------------------------------------------------------------------------
  // Letter case does not matter

  /** The other case of an ASCII letter; every other character is left as is. */
  function SwapCase(c: char): (r: char)
    ensures IsLetter(r) <==> IsLetter(c)
    ensures !IsLetter(c) ==> r == c
  {
    if 'a' <= c <= 'z' then (c as int - 32) as char
    else if 'A' <= c <= 'Z' then (c as int + 32) as char
    else c
  }

  /** Two strings that differ only in the case of some letters get the same verdict. */
  lemma {:induction false} CaseBlindRun(q: State, s: string, t: string)
    requires |s| == |t| && forall i :: 0 <= i < |s| ==> t[i] == s[i] || t[i] == SwapCase(s[i])
    ensures Run(q, s) == Run(q, t)
    decreases |s|
  {
    if s != [] {
      assert Next(q, s[0]) == Next(q, t[0]);
      CaseBlindRun(Next(q, s[0]), s[1..], t[1..]);
    }
  }

  lemma CaseBlind(s: string, t: string)
    requires |s| == |t| && forall i :: 0 <= i < |s| ==> t[i] == s[i] || t[i] == SwapCase(s[i])
    ensures Accepts(s) <==> Accepts(t)
  {
    CaseBlindRun(Start, s, t);
  }
}
