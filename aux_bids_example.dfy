/** The worked example of the `dict_from_bids_filename` docstring
    (nvm/aux_bids/__init__.py lines 52-67), taken apart piece by piece. */
module AuxBidsExample {
  import opened Strings
  import opened AuxBids

  /** The tokens of the sample stem, as `split("_")` gives them (the double
      underscore leaves one empty token). */
  const Pieces: seq<string> :=
    ["sub-s001", "", "ses-morning", "insert", "task-rest", "space-T1w", "desc-preproc", "bold", "info"]

  /** The dot-separated pieces after the stem. */
  const DotPieces: seq<string> := ["the", "funky_ext", "nii", "gz"]

  /** `sub-s001__ses-morning_insert_task-rest_space-T1w_desc-preproc_bold_info.the.funky_ext.nii.gz` */
  const SampleName: string := Join(Pieces, '_') + "." + Join(DotPieces, '.')

  /** `../../data/data-001/` followed by the sample name. */
  const SamplePath: string := "../../data/data-001" + "/" + SampleName

  /** The tokens once the empty one is dropped. */
  const Parts: seq<string> :=
    ["sub-s001", "ses-morning", "insert", "task-rest", "space-T1w", "desc-preproc", "bold", "info"]

  /** The tokens that carry a tag. */
  const Tagged: seq<string> := ["sub-s001", "ses-morning", "task-rest", "space-T1w", "desc-preproc"]

  /** The result the docstring shows. */
  const Expected: BidsName := BidsName(
    [("sub", "s001"), ("ses", "morning"), ("task", "rest"), ("space", "T1w"), ("desc", "preproc")],
    ["insert", "bold", "info"],
    ".the.funky_ext.nii.gz")

  // ---------------------------------------------------------------------------
  // The file name

  lemma PiecesPlain()
    ensures forall i :: 0 <= i < |Pieces| ==> '/' !in Pieces[i] && '.' !in Pieces[i] && '_' !in Pieces[i]
  {
  }

  lemma DotPiecesPlain()
    ensures forall i :: 0 <= i < |DotPieces| ==> '/' !in DotPieces[i] && '.' !in DotPieces[i]
  {
  }

  lemma StemPlain()
    ensures '/' !in Join(Pieces, '_') && '.' !in Join(Pieces, '_')
  {
    PiecesPlain();
    JoinAvoids(Pieces, '_', '/');
    JoinAvoids(Pieces, '_', '.');
  }

  lemma SampleNameEnds()
    ensures SampleName[0] == 's' && SampleName[|SampleName| - 1] == 'z'
  {
    assert Join(Pieces, '_') == Pieces[0] + "_" + Join(Pieces[1..], '_');
    JoinAppend(DotPieces[..3], ["gz"], '.');
    assert DotPieces[..3] + ["gz"] == DotPieces;
  }

  lemma SampleNameIsName()
    ensures Name(SamplePath) == SampleName
  {
    StemPlain();
    DotPiecesPlain();
    JoinAvoids(DotPieces, '.', '/');
    SampleNameEnds();
    NameOfFile("../../data/data-001", SampleName);
  }

  // ---------------------------------------------------------------------------
  // Stem and extension

  lemma SampleNameSplit()
    ensures Split(SampleName, '.') == [Join(Pieces, '_')] + DotPieces
  {
    StemPlain();
    DotPiecesPlain();
    SplitAround(Join(Pieces, '_'), Join(DotPieces, '.'), '.');
    SplitWithoutSep(Join(Pieces, '_'), '.');
    SplitJoin(DotPieces, '.');
  }

  lemma ExtText()
    ensures "." + Join(DotPieces, '.') == Expected.ext
  {
  }

  lemma SampleStemAndExt()
    ensures Stem(SampleName) == Join(Pieces, '_')
    ensures Ext(SampleName) == Expected.ext
  {
    SampleNameSplit();
    SampleNameEnds();
    assert TrimDots(SampleName) == SampleName;
    assert HasSuffixes(SampleName);
    ExtWithSuffixes(SampleName);
    assert Split(SampleName, '.')[1..] == DotPieces;
    ExtText();
  }

  // ---------------------------------------------------------------------------
  // Tokens

  /** Dropping the one empty token after the first. */
  lemma DropEmpty(a: string, rest: seq<string>)
    requires a != [] && forall i :: 0 <= i < |rest| ==> rest[i] != []
    ensures NonEmpty([a, ""] + rest) == [a] + rest
  {
    NonEmptyAppend([a, ""], rest);
    NonEmptyKeeps(rest);
    assert [a, ""][1..] == [""];
    assert [""][1..] == [];
  }

  lemma DropEmptyOfNine(a: string, b: string, c: string, d: string, e: string, f: string, g: string, h: string)
    requires a != [] && b != [] && c != [] && d != [] && e != [] && f != [] && g != [] && h != []
    ensures NonEmpty([a, "", b, c, d, e, f, g, h]) == [a, b, c, d, e, f, g, h]
  {
    var rest := [b, c, d, e, f, g, h];
    DropEmpty(a, rest);
    assert [a, "", b, c, d, e, f, g, h] == [a, ""] + rest;
    assert [a, b, c, d, e, f, g, h] == [a] + rest;
  }

  lemma SampleTokens()
    ensures Tokens(Join(Pieces, '_')) == Parts
  {
    PiecesPlain();
    SplitJoin(Pieces, '_');
    DropEmptyOfNine("sub-s001", "ses-morning", "insert", "task-rest", "space-T1w", "desc-preproc", "bold", "info");
  }

  // ---------------------------------------------------------------------------
  // Tags, values and suffixes

  /** A token made of a tag, a dash and a value. */
  lemma TagOf(t: string, k: string, v: string)
    requires '-' !in k && '-' !in v && t == k + "-" + v
    ensures '-' in t && Key(t) == k && Value(t) == v
  {
    KeyValueOf(k, v);
  }

  lemma SuffCons(t: string, rest: seq<string>)
    ensures Suff([t] + rest) == (if '-' in t then [] else [t]) + Suff(rest)
  {
    assert ([t] + rest)[1..] == rest;
  }

  lemma DashedCons(t: string, rest: seq<string>)
    ensures Dashed([t] + rest) == (if '-' in t then [t] else []) + Dashed(rest)
  {
    assert ([t] + rest)[1..] == rest;
  }

  /** Eight tokens whose dashes follow the sample's pattern. */
  lemma SortOfEight(a: string, b: string, c: string, d: string, e: string, f: string, g: string, h: string)
    requires '-' in a && '-' in b && '-' !in c && '-' in d && '-' in e && '-' in f && '-' !in g && '-' !in h
    ensures Suff([a, b, c, d, e, f, g, h]) == [c, g, h]
    ensures Dashed([a, b, c, d, e, f, g, h]) == [a, b, d, e, f]
  {
    var s := [a, b, c, d, e, f, g, h];
    SuffCons(h, []); DashedCons(h, []);
    SuffCons(g, s[7..]); DashedCons(g, s[7..]);
    SuffCons(f, s[6..]); DashedCons(f, s[6..]);
    SuffCons(e, s[5..]); DashedCons(e, s[5..]);
    SuffCons(d, s[4..]); DashedCons(d, s[4..]);
    SuffCons(c, s[3..]); DashedCons(c, s[3..]);
    SuffCons(b, s[2..]); DashedCons(b, s[2..]);
    SuffCons(a, s[1..]); DashedCons(a, s[1..]);
    assert s == [a] + s[1..];
  }

  lemma SampleSort()
    ensures Suff(Parts) == Expected.suff
    ensures Dashed(Parts) == Tagged
  {
    SortOfEight("sub-s001", "ses-morning", "insert", "task-rest", "space-T1w", "desc-preproc", "bold", "info");
  }

  /** Tokens built from a tag, a dash and a value give those pairs, in order. */
  lemma PairsOf(ts: seq<string>, ks: seq<string>, vs: seq<string>)
    requires |ts| == |ks| == |vs|
    requires forall i :: 0 <= i < |ts| ==> '-' !in ks[i] && '-' !in vs[i] && ts[i] == ks[i] + "-" + vs[i]
    ensures forall i :: 0 <= i < |ts| ==> '-' in ts[i]
    ensures Pairs(ts) == seq(|ts|, i requires 0 <= i < |ts| => (ks[i], vs[i]))
    ensures (forall i, j :: 0 <= i < j < |ks| ==> ks[i] != ks[j]) ==> DistinctTags(ts)
  {
    forall i | 0 <= i < |ts| ensures '-' in ts[i] && Key(ts[i]) == ks[i] && Value(ts[i]) == vs[i] {
      TagOf(ts[i], ks[i], vs[i]);
    }
  }

  lemma DistinctFive(a: string, b: string, c: string, d: string, e: string)
    requires a != b && a != c && a != d && a != e && b != c && b != d && b != e && c != d && c != e && d != e
    ensures var ks := [a, b, c, d, e]; forall i, j :: 0 <= i < j < |ks| ==> ks[i] != ks[j]
  {
  }

  /** Five tokens spelled out as tag, dash and value. */
  lemma PairsOfFive(k1: string, k2: string, k3: string, k4: string, k5: string,
                    v1: string, v2: string, v3: string, v4: string, v5: string)
    requires '-' !in k1 && '-' !in k2 && '-' !in k3 && '-' !in k4 && '-' !in k5
    requires '-' !in v1 && '-' !in v2 && '-' !in v3 && '-' !in v4 && '-' !in v5
    requires k1 != k2 && k1 != k3 && k1 != k4 && k1 != k5 && k2 != k3 && k2 != k4 && k2 != k5
    requires k3 != k4 && k3 != k5 && k4 != k5
    ensures var ts := [k1 + "-" + v1, k2 + "-" + v2, k3 + "-" + v3, k4 + "-" + v4, k5 + "-" + v5];
      (forall i :: 0 <= i < |ts| ==> '-' in ts[i]) && DistinctTags(ts) &&
      Pairs(ts) == [(k1, v1), (k2, v2), (k3, v3), (k4, v4), (k5, v5)]
  {
    var ts := [k1 + "-" + v1, k2 + "-" + v2, k3 + "-" + v3, k4 + "-" + v4, k5 + "-" + v5];
    var ks, vs := [k1, k2, k3, k4, k5], [v1, v2, v3, v4, v5];
    DistinctFive(k1, k2, k3, k4, k5);
    PairsOf(ts, ks, vs);
  }

  lemma TaggedSpelled()
    ensures Tagged == ["sub" + "-" + "s001", "ses" + "-" + "morning", "task" + "-" + "rest",
                       "space" + "-" + "T1w", "desc" + "-" + "preproc"]
  {
    assert "sub" + "-" + "s001" == "sub-s001" && "ses" + "-" + "morning" == "ses-morning";
    assert "task" + "-" + "rest" == "task-rest" && "space" + "-" + "T1w" == "space-T1w";
    assert "desc" + "-" + "preproc" == "desc-preproc";
  }

  lemma SamplePairs()
    ensures DistinctTags(Tagged)
    ensures Pairs(Tagged) == Expected.props
  {
    TaggedSpelled();
    PairsOfFive("sub", "ses", "task", "space", "desc", "s001", "morning", "rest", "T1w", "preproc");
  }

  lemma SampleProps()
    ensures Props(Parts) == Expected.props
  {
    SampleSort();
    SamplePairs();
    PropsOfDistinct(Parts);
  }

  /** The docstring's example: five tags with their values in order, three
      suffixes, and every suffix of the name in the extension. */
  lemma SampleResult()
    ensures DictFromBidsFilename(SamplePath) == Expected
  {
    SampleNameIsName();
    SampleStemAndExt();
    SampleTokens();
    SampleProps();
    SampleSort();
  }
}
