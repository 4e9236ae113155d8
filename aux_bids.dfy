/** `dict_from_bids_filename` (nvm/aux_bids/__init__.py): the tags, values,
    suffixes and extension of a BIDS-like file name such as
    `sub-s001_ses-morning_task-rest_bold.nii.gz`. */
module AuxBids {
  import opened Strings

  datatype Option<T> = None | Some(value: T)

  // ---------------------------------------------------------------------------
  // The file name of a path (`pathlib.PurePosixPath`)

  /** The last component that is neither empty nor `.`, or the empty text when
      there is none. */
  function LastComponent(segs: seq<string>): (name: string)
    requires forall i :: 0 <= i < |segs| ==> '/' !in segs[i]
    ensures '/' !in name && name != "."
    ensures name == [] || name in segs
    decreases |segs|
  {
    if segs == [] then []
    else
      var last := segs[|segs| - 1];
      if last == [] || last == "." then LastComponent(segs[..|segs| - 1]) else last
  }

  /** `pathlib.Path(path).name`: the path splits at `/`; empty and `.`
      components do not count. */
  function Name(path: string): (name: string)
    ensures '/' !in name && name != "."
  {
    LastComponent(Split(path, '/'))
  }

  /** A name that is a proper file name is its own name, and it stays the name
      whatever directory is put in front of it. */
  lemma NameOfFile(dir: string, name: string)
    requires '/' !in name && name != [] && name != "."
    ensures Name(name) == name
    ensures Name(dir + "/" + name) == name
  {
    SplitAround(dir, name, '/');
    assert Split(dir + "/" + name, '/') == Split(dir, '/') + [name];
  }

  // ---------------------------------------------------------------------------
  // Suffixes, extension and stem

  /** `s.lstrip(".")`. */
  function TrimDots(s: string): (r: string)
    ensures |r| <= |s| && r == s[|s| - |r|..]
    ensures forall i :: 0 <= i < |s| - |r| ==> s[i] == '.'
    ensures r == [] || r[0] != '.'
    decreases |s|
  {
    if s != [] && s[0] == '.' then TrimDots(s[1..]) else s
  }

  /** `pathlib.Path(name).suffixes`: nothing when the name ends with `.`;
      otherwise the leading dots are dropped and every `.`-separated piece after
      the first one is a suffix, with its dot. */
  function Suffixes(name: string): (sufs: seq<string>)
    ensures forall i :: 0 <= i < |sufs| ==> |sufs[i]| > 0 && sufs[i][0] == '.' && '.' !in sufs[i][1..]
  {
    if name != [] && name[|name| - 1] == '.' then []
    else
      var pieces := Split(TrimDots(name), '.');
      var sufs := Prefixed(pieces[1..], '.');
      assert forall i :: 0 <= i < |sufs| ==> sufs[i][1..] == pieces[1..][i];
      sufs
  }

  /** `"".join(fn0.suffixes)`, line 116: empty exactly when there are no
      suffixes, and otherwise starting with a dot. */
  function Ext(name: string): (ext: string)
    ensures ext == [] <==> Suffixes(name) == []
    ensures ext != [] ==> ext[0] == '.'
  {
    var sufs := Suffixes(name);
    assert sufs != [] ==> sufs[0] != [];
    Concat(sufs)
  }

  /** `name0.split(".")[0]`, line 122: everything before the first dot. */
  function Stem(name: string): (stem: string)
    ensures '.' !in stem
    ensures |stem| <= |name| && stem == name[..|stem|]
    ensures |stem| == |name| || name[|stem|] == '.'
  {
    SplitHead(name, '.');
    Split(name, '.')[0]
  }

  /** The name has at least one suffix: it does not end with a dot, and past
      its leading dots it holds a dot. */
  predicate HasSuffixes(name: string) {
    !(name != [] && name[|name| - 1] == '.') && |Split(TrimDots(name), '.')| > 1
  }

  /** With suffixes, the extension is the first dot past the leading dots and
      everything after it. */
  lemma ExtWithSuffixes(name: string)
    requires HasSuffixes(name)
    ensures Ext(name) == "." + Join(Split(TrimDots(name), '.')[1..], '.')
  {
    ConcatPrefixed(Split(TrimDots(name), '.')[1..], '.');
  }

  /** Without suffixes the extension is empty. */
  lemma ExtWithoutSuffixes(name: string)
    requires !HasSuffixes(name)
    ensures Ext(name) == []
  {
  }

  /** The first piece of a split that has several pieces is followed by the
      separator and the join of the others. */
  lemma SplitTail(t: string, sep: char)
    requires |Split(t, sep)| > 1
    ensures var p := Split(t, sep); |p[0]| < |t| && t[|p[0]|..] == [sep] + Join(p[1..], sep)
  {
    SplitHead(t, sep);
  }

  /** A tail of a tail is a tail. */
  lemma TailOfTail(s: string, t: string, k: nat, e: string)
    requires |t| <= |s| && t == s[|s| - |t|..] && k <= |t| && e == t[k..]
    ensures |e| <= |s| && e == s[|s| - |e|..]
  {
  }

  lemma ExtIsTailWithSuffixes(name: string)
    requires HasSuffixes(name)
    ensures |Ext(name)| <= |name| && Ext(name) == name[|name| - |Ext(name)|..]
  {
    var t := TrimDots(name);
    ExtWithSuffixes(name);
    SplitTail(t, '.');
    TailOfTail(name, t, |Split(t, '.')[0]|, Ext(name));
  }

  /** `e` is what remains of `s` after some prefix is cut off. */
  predicate IsTail(e: string, s: string) {
    |e| <= |s| && e == s[|s| - |e|..]
  }

  /** The extension is always a tail of the name. */
  lemma ExtIsTail(name: string)
    ensures IsTail(Ext(name), name)
  {
    if HasSuffixes(name) {
      ExtIsTailWithSuffixes(name);
    } else {
      ExtWithoutSuffixes(name);
    }
  }

  lemma StemExtWithSuffixes(name: string)
    requires name != [] && name[0] != '.' && HasSuffixes(name)
    ensures Stem(name) + Ext(name) == name
  {
    assert TrimDots(name) == name;
    ExtWithSuffixes(name);
    SplitTail(name, '.');
    var k := |Split(name, '.')[0]|;
    assert name == name[..k] + name[k..];
  }

  lemma StemExtWithoutSuffixes(name: string)
    requires name == [] || (name[0] != '.' && name[|name| - 1] != '.')
    requires !HasSuffixes(name)
    ensures Stem(name) + Ext(name) == name
  {
    assert TrimDots(name) == name;
    ExtWithoutSuffixes(name);
    assert Join(Split(name, '.'), '.') == Split(name, '.')[0];
  }

  /** For a name that neither starts nor ends with a dot, stem and extension
      together give the name back. */
  lemma StemExt(name: string)
    requires name == [] || (name[0] != '.' && name[|name| - 1] != '.')
    ensures Stem(name) + Ext(name) == name
  {
    if HasSuffixes(name) {
      StemExtWithSuffixes(name);
    } else {
      StemExtWithoutSuffixes(name);
    }
  }

  // ---------------------------------------------------------------------------
  // Tokens of the stem

  /** The non-empty pieces, in order. */
  function NonEmpty(pieces: seq<string>): (r: seq<string>)
    ensures |r| <= |pieces|
    ensures forall i :: 0 <= i < |r| ==> r[i] != []
    decreases |pieces|
  {
    if pieces == [] then []
    else if pieces[0] == [] then NonEmpty(pieces[1..])
    else [pieces[0]] + NonEmpty(pieces[1..])
  }

  /** The kept pieces are exactly the non-empty ones. */
  lemma {:induction false} NonEmptyMembers(pieces: seq<string>)
    ensures forall p :: p in NonEmpty(pieces) <==> p in pieces && p != []
    decreases |pieces|
  {
    if pieces != [] {
      NonEmptyMembers(pieces[1..]);
    }
  }

  /** Dropping empty pieces loses no text. */
  lemma {:induction false} NonEmptyConcat(pieces: seq<string>)
    ensures Concat(NonEmpty(pieces)) == Concat(pieces)
    decreases |pieces|
  {
    if pieces != [] {
      NonEmptyConcat(pieces[1..]);
    }
  }

  /** `[item for item in stem0.split("_") if len(item)]`, line 124. */
  function Tokens(stem: string): (parts: seq<string>)
    ensures forall i :: 0 <= i < |parts| ==> parts[i] != [] && '_' !in parts[i]
  {
    var pieces := Split(stem, '_');
    NonEmptyMembers(pieces);
    var parts := NonEmpty(pieces);
    assert forall i :: 0 <= i < |parts| ==> parts[i] in pieces;
    parts
  }

  /** No text is lost between the underscores: the tokens glued together are
      the stem without its underscores. */
  lemma TokensCover(stem: string)
    ensures Concat(Tokens(stem)) == Remove(stem, '_')
  {
    ConcatSplit(stem, '_');
    NonEmptyConcat(Split(stem, '_'));
  }

  /** A token made of a stem's characters has none of the characters the stem lacks. */
  lemma TokensWithout(stem: string, c: char)
    requires c !in stem
    ensures forall i :: 0 <= i < |Tokens(stem)| ==> c !in Tokens(stem)[i]
  {
    var pieces := Split(stem, '_');
    forall j | 0 <= j < |pieces| ensures c !in pieces[j] {
      JoinHasPieces(pieces, '_', j);
    }
    NonEmptyMembers(pieces);
    var parts := Tokens(stem);
    forall i | 0 <= i < |parts| ensures c !in parts[i] {
      assert parts[i] in pieces;
    }
  }

  /** Every piece of a join appears in it. */
  lemma {:induction false} JoinHasPieces(pieces: seq<string>, sep: char, j: nat)
    requires j < |pieces|
    ensures forall x :: x in pieces[j] ==> x in Join(pieces, sep)
    decreases |pieces|
  {
    if j > 0 {
      JoinHasPieces(pieces[1..], sep, j - 1);
    }
  }

  // ---------------------------------------------------------------------------
  // Tags and values

  /** `item.split("-")[0]`: the tag, everything before the first dash. */
  function Key(t: string): (k: string)
    ensures '-' !in k && |k| <= |t| && k == t[..|k|]
    ensures |k| == |t| || t[|k|] == '-'
  {
    SplitHead(t, '-');
    Split(t, '-')[0]
  }

  /** `item.split("-")[1]`. */
  function Value(t: string): (v: string)
    requires '-' in t
    ensures '-' !in v
  {
    Split(t, '-')[1]
  }

  /** The value is the text between the first and the second dash, or between
      the first dash and the end when there is no second one. */
  lemma ValueBetweenDashes(t: string)
    requires '-' in t
    ensures |Key(t)| < |t|
    ensures Value(t) == Key(t[|Key(t)| + 1..])
  {
    var pieces := Split(t, '-');
    SplitHead(t, '-');
    SplitJoin(pieces[1..], '-');
  }

  /** A token with exactly one dash is its tag, the dash and its value. */
  lemma KeyValueWhole(t: string)
    requires '-' in t
    requires forall i :: 0 <= i < |t| && t[i] == '-' ==> i == |Key(t)|
    ensures Key(t) + "-" + Value(t) == t
  {
    ValueBetweenDashes(t);
    var rest := t[|Key(t)| + 1..];
    assert '-' !in rest by {
      forall i | 0 <= i < |rest| ensures rest[i] != '-' {
        assert rest[i] == t[|Key(t)| + 1 + i];
      }
    }
    assert Key(rest) == rest;
  }

  /** A dictionary that remembers insertion order: (tag, value) entries. */
  type Dict = seq<(string, string)>

  function Keys(d: Dict): (ks: seq<string>)
    ensures |ks| == |d| && forall i :: 0 <= i < |d| ==> ks[i] == d[i].0
    decreases |d|
  {
    if d == [] then [] else [d[0].0] + Keys(d[1..])
  }

  /** No tag appears twice. */
  predicate DistinctKeys(d: Dict) {
    var ks := Keys(d);
    forall i, j :: 0 <= i < j < |ks| ==> ks[i] != ks[j]
  }

  /** `d.get(k)`. */
  function Lookup(d: Dict, k: string): (r: Option<string>)
    ensures r.None? <==> k !in Keys(d)
    ensures r.Some? ==> (k, r.value) in d
    decreases |d|
  {
    if d == [] then None
    else if d[0].0 == k then Some(d[0].1)
    else Lookup(d[1..], k)
  }

  /** `d[k] = v`: an existing tag keeps its place and takes the new value, a
      new tag goes at the end. */
  function Insert(d: Dict, k: string, v: string): (r: Dict)
    ensures k in Keys(d) ==> Keys(r) == Keys(d)
    ensures k !in Keys(d) ==> Keys(r) == Keys(d) + [k]
    decreases |d|
  {
    if d == [] then [(k, v)]
    else if d[0].0 == k then
      var r := [(k, v)] + d[1..];
      assert r[1..] == d[1..];
      r
    else
      var rest := Insert(d[1..], k, v);
      var r := [d[0]] + rest;
      assert r[1..] == rest;
      assert Keys(d) == [d[0].0] + Keys(d[1..]);
      assert Keys(r) == [d[0].0] + Keys(rest);
      r
  }

  /** After `d[k] = v`, `d[k]` is `v` and every other tag keeps its value. */
  lemma {:induction false} InsertLookup(d: Dict, k: string, v: string, k': string)
    ensures Lookup(Insert(d, k, v), k) == Some(v)
    ensures k' != k ==> Lookup(Insert(d, k, v), k') == Lookup(d, k')
    decreases |d|
  {
    if d != [] && d[0].0 != k {
      InsertLookup(d[1..], k, v, k');
      assert Insert(d, k, v)[1..] == Insert(d[1..], k, v);
    } else if d != [] {
      assert Insert(d, k, v)[1..] == d[1..];
    }
  }

  /** Inserting keeps the tags distinct. */
  lemma InsertDistinct(d: Dict, k: string, v: string)
    requires DistinctKeys(d)
    ensures DistinctKeys(Insert(d, k, v))
  {
  }

  /** `{item.split("-")[0]: item.split("-")[1] for item in parts if "-" in item}`,
      line 126: the tokens with a dash, inserted in order. */
  function Props(parts: seq<string>): (d: Dict)
    ensures DistinctKeys(d)
    decreases |parts|
  {
    if parts == [] then []
    else
      var t := parts[|parts| - 1];
      var d := Props(parts[..|parts| - 1]);
      if '-' in t then (InsertDistinct(d, Key(t), Value(t)); Insert(d, Key(t), Value(t))) else d
  }

  /** A tag no dashed token carries is not in the dictionary. */
  lemma {:induction false} PropsLacks(parts: seq<string>, k: string)
    requires forall j :: 0 <= j < |parts| && '-' in parts[j] ==> Key(parts[j]) != k
    ensures Lookup(Props(parts), k) == None
    decreases |parts|
  {
    if parts != [] {
      PropsLacks(parts[..|parts| - 1], k);
    }
  }

  /** When several tokens carry the same tag, the value of the last one wins. */
  lemma {:induction false} PropsLastWins(parts: seq<string>, j: nat)
    requires j < |parts| && '-' in parts[j]
    requires forall l :: j < l < |parts| && '-' in parts[l] ==> Key(parts[l]) != Key(parts[j])
    ensures Lookup(Props(parts), Key(parts[j])) == Some(Value(parts[j]))
    decreases |parts|
  {
    var n := |parts| - 1;
    var t := parts[n];
    var d := Props(parts[..n]);
    if j < n {
      assert parts[..n][j] == parts[j];
      PropsLastWins(parts[..n], j);
      if '-' in t {
        InsertLookup(d, Key(t), Value(t), Key(parts[j]));
      }
    } else {
      InsertLookup(d, Key(t), Value(t), Key(t));
    }
  }

  /** `[item for item in parts if "-" not in item]`, line 128. */
  function Suff(parts: seq<string>): (r: seq<string>)
    ensures forall i :: 0 <= i < |r| ==> '-' !in r[i]
    decreases |parts|
  {
    if parts == [] then []
    else (if '-' in parts[0] then [] else [parts[0]]) + Suff(parts[1..])
  }

  /** The suffixes are exactly the tokens without a dash. */
  lemma {:induction false} SuffMembers(parts: seq<string>)
    ensures forall t :: t in Suff(parts) <==> t in parts && '-' !in t
    decreases |parts|
  {
    if parts != [] {
      SuffMembers(parts[1..]);
    }
  }

  /** Suffixes taken from tokens are non-empty and hold no underscore. */
  lemma SuffOfTokens(parts: seq<string>)
    requires forall i :: 0 <= i < |parts| ==> parts[i] != [] && '_' !in parts[i]
    ensures forall i :: 0 <= i < |Suff(parts)| ==> Suff(parts)[i] != [] && '_' !in Suff(parts)[i]
  {
    var r := Suff(parts);
    SuffMembers(parts);
    forall i | 0 <= i < |r| ensures r[i] != [] && '_' !in r[i] {
      assert r[i] in parts;
    }
  }

  /** The tokens with a dash, in order. */
  function Dashed(parts: seq<string>): (r: seq<string>)
    ensures forall i :: 0 <= i < |r| ==> '-' in r[i]
    decreases |parts|
  {
    if parts == [] then []
    else (if '-' in parts[0] then [parts[0]] else []) + Dashed(parts[1..])
  }

  /** The dashed tokens are exactly the tokens with a dash. */
  lemma {:induction false} DashedMembers(parts: seq<string>)
    ensures forall t :: t in Dashed(parts) <==> t in parts && '-' in t
    decreases |parts|
  {
    if parts != [] {
      DashedMembers(parts[1..]);
    }
  }

  /** Every token is either a tagged value or a suffix, never both. */
  lemma {:induction false} Partition(parts: seq<string>)
    ensures |Suff(parts)| + |Dashed(parts)| == |parts|
    ensures forall k :: k in Keys(Props(parts)) <==> exists t :: t in Dashed(parts) && Key(t) == k
    decreases |parts|
  {
    if parts != [] {
      Partition(parts[1..]);
      DashedMembers(parts);
      forall k ensures k in Keys(Props(parts)) <==> exists t :: t in parts && '-' in t && Key(t) == k {
        if k in Keys(Props(parts)) {
          var j := KeyOrigin(parts, k);
          assert parts[j] in parts;
        } else {
          forall t | t in parts && '-' in t ensures Key(t) != k {
            var j :| 0 <= j < |parts| && parts[j] == t;
            if Key(t) == k {
              assert Lookup(Props(parts), k) == None;
              KeyPresent(parts, j);
            }
          }
        }
      }
    }
  }

  /** A tag in the dictionary comes from some dashed token. */
  lemma {:induction false} KeyOrigin(parts: seq<string>, k: string) returns (j: nat)
    requires k in Keys(Props(parts))
    ensures j < |parts| && '-' in parts[j] && Key(parts[j]) == k
    decreases |parts|
  {
    var n := |parts| - 1;
    var t := parts[n];
    if '-' in t && Key(t) == k {
      j := n;
    } else {
      j := KeyOrigin(parts[..n], k);
    }
  }

  /** The tag of every dashed token is in the dictionary. */
  lemma {:induction false} KeyPresent(parts: seq<string>, j: nat)
    requires j < |parts| && '-' in parts[j]
    ensures Key(parts[j]) in Keys(Props(parts))
    decreases |parts|
  {
    var n := |parts| - 1;
    if j < n {
      KeyPresent(parts[..n], j);
      assert parts[..n][j] == parts[j];
    }
  }

  // ---------------------------------------------------------------------------
  // Piece by piece

  /** A text without the separator splits into itself. */
  lemma SplitWithoutSep(s: string, sep: char)
    requires sep !in s
    ensures Split(s, sep) == [s]
  {
  }

  /** The tag and the value of `a-b` when neither part holds a dash. */
  lemma KeyValueOf(a: string, b: string)
    requires '-' !in a && '-' !in b
    ensures '-' in a + "-" + b
    ensures Key(a + "-" + b) == a && Value(a + "-" + b) == b
  {
    SplitAround(a, b, '-');
    SplitWithoutSep(a, '-');
    SplitWithoutSep(b, '-');
    assert (a + "-" + b)[|a|] == '-';
  }

  lemma {:induction false} NonEmptyAppend(a: seq<string>, b: seq<string>)
    ensures NonEmpty(a + b) == NonEmpty(a) + NonEmpty(b)
    decreases |a|
  {
    if a != [] {
      NonEmptyAppend(a[1..], b);
      assert (a + b)[1..] == a[1..] + b;
    } else {
      assert a + b == b;
    }
  }

  lemma {:induction false} NonEmptyKeeps(p: seq<string>)
    requires forall i :: 0 <= i < |p| ==> p[i] != []
    ensures NonEmpty(p) == p
    decreases |p|
  {
    if p != [] {
      NonEmptyKeeps(p[1..]);
    }
  }

  lemma {:induction false} SuffAppend(a: seq<string>, b: seq<string>)
    ensures Suff(a + b) == Suff(a) + Suff(b)
    decreases |a|
  {
    if a != [] {
      SuffAppend(a[1..], b);
      assert (a + b)[1..] == a[1..] + b;
    } else {
      assert a + b == b;
    }
  }

  lemma {:induction false} DashedAppend(a: seq<string>, b: seq<string>)
    ensures Dashed(a + b) == Dashed(a) + Dashed(b)
    decreases |a|
  {
    if a != [] {
      DashedAppend(a[1..], b);
      assert (a + b)[1..] == a[1..] + b;
    } else {
      assert a + b == b;
    }
  }

  /** The (tag, value) pair of every token, in order. */
  function Pairs(ts: seq<string>): (d: Dict)
    requires forall i :: 0 <= i < |ts| ==> '-' in ts[i]
    ensures |d| == |ts| && forall i :: 0 <= i < |ts| ==> d[i] == (Key(ts[i]), Value(ts[i]))
  {
    seq(|ts|, i requires 0 <= i < |ts| => (Key(ts[i]), Value(ts[i])))
  }

  /** No two of the tokens carry the same tag. */
  predicate DistinctTags(ts: seq<string>) {
    forall i, j :: 0 <= i < j < |ts| ==> Key(ts[i]) != Key(ts[j])
  }

  /** Inserting a tag that is not there yet appends it. */
  lemma {:induction false} InsertNew(d: Dict, k: string, v: string)
    requires k !in Keys(d)
    ensures Insert(d, k, v) == d + [(k, v)]
    decreases |d|
  {
    if d != [] {
      assert Keys(d)[0] == d[0].0;
      assert k !in Keys(d[1..]) by {
        forall i | 0 <= i < |d| - 1 ensures Keys(d[1..])[i] == Keys(d)[i + 1] {
          assert d[1..][i] == d[i + 1];
        }
      }
      InsertNew(d[1..], k, v);
      assert Insert(d, k, v) == [d[0]] + Insert(d[1..], k, v);
      ConsSplit(d, [(k, v)]);
    }
  }

  /** When the dashed tokens carry distinct tags, the dictionary lists them in
      token order, each with its value. */
  lemma {:induction false} PropsOfDistinct(parts: seq<string>)
    requires DistinctTags(Dashed(parts))
    ensures Props(parts) == Pairs(Dashed(parts))
    decreases |parts|
  {
    if parts != [] {
      var n := |parts| - 1;
      var front, t := parts[..n], parts[n];
      assert parts == front + [t];
      DashedAppend(front, [t]);
      var ds := Dashed(front);
      assert DistinctTags(ds) by {
        forall i, j | 0 <= i < j < |ds| ensures Key(ds[i]) != Key(ds[j]) {
          assert Dashed(parts)[i] == ds[i] && Dashed(parts)[j] == ds[j];
        }
      }
      PropsOfDistinct(front);
      if '-' in t {
        assert Dashed([t]) == [t];
        PropsAppendNew(front, t);
      } else {
        assert Dashed([t]) == [];
        assert Dashed(parts) == ds;
      }
    }
  }

  /** The inductive step of `PropsOfDistinct` for a last token with a new tag. */
  lemma PropsAppendNew(front: seq<string>, t: string)
    requires '-' in t
    requires Props(front) == Pairs(Dashed(front))
    requires DistinctTags(Dashed(front) + [t])
    ensures Props(front + [t]) == Pairs(Dashed(front) + [t])
  {
    var parts, ds, d := front + [t], Dashed(front), Props(front);
    assert parts[..|parts| - 1] == front && parts[|parts| - 1] == t;
    NewTagAbsent(ds, t);
    InsertNew(d, Key(t), Value(t));
    assert Props(parts) == d + [(Key(t), Value(t))];
    PairsAppend(ds, t);
  }

  /** A token whose tag differs from all earlier ones adds a tag not yet listed. */
  lemma NewTagAbsent(ds: seq<string>, t: string)
    requires '-' in t && forall i :: 0 <= i < |ds| ==> '-' in ds[i]
    requires DistinctTags(ds + [t])
    ensures Key(t) !in Keys(Pairs(ds))
  {
    var d := Pairs(ds);
    forall i | 0 <= i < |d| ensures Keys(d)[i] != Key(t) {
      assert (ds + [t])[i] == ds[i] && (ds + [t])[|ds|] == t;
    }
  }

  /** The pairs of one more token. */
  lemma PairsAppend(ds: seq<string>, t: string)
    requires '-' in t && forall i :: 0 <= i < |ds| ==> '-' in ds[i]
    ensures Pairs(ds + [t]) == Pairs(ds) + [(Key(t), Value(t))]
  {
    var e := ds + [t];
    assert forall i :: 0 <= i < |ds| ==> e[i] == ds[i];
    assert e[|ds|] == t;
  }

  // ---------------------------------------------------------------------------
  // The whole function

  /** The `dict(props=props, suff=suff, ext=ext)` of line 134. */
  datatype BidsName = BidsName(props: Dict, suff: seq<string>, ext: string)

  /** `dict_from_bids_filename(fn0)`: only the file name counts; its stem is cut
      into tokens at `_`, tokens with a dash give tag/value pairs and the others
      are suffixes; the extension is every suffix of the name. */
  function DictFromBidsFilename(path: string): (r: BidsName)
    ensures DistinctKeys(r.props)
    ensures forall i :: 0 <= i < |r.suff| ==> r.suff[i] != [] && '-' !in r.suff[i] && '_' !in r.suff[i]
    ensures IsTail(r.ext, Name(path))
  {
    var name := Name(path);
    var parts := Tokens(Stem(name));
    ExtIsTail(name);
    SuffOfTokens(parts);
    BidsName(Props(parts), Suff(parts), Ext(name))
  }

  /** The result depends on the file name only: any directory in front of it
      gives the same result. */
  lemma DirectoryIrrelevant(dir: string, name: string)
    requires '/' !in name && name != [] && name != "."
    ensures DictFromBidsFilename(dir + "/" + name) == DictFromBidsFilename(name)
  {
    NameOfFile(dir, name);
  }
}
