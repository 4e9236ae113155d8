/** Python's `str.split(sep)` and `sep.join(pieces)` for a one-character separator. */
module Strings {

  /** `sep.join(pieces)`: the pieces with one separator between neighbours. */
  function Join(pieces: seq<string>, sep: char): string
    decreases |pieces|
  {
    if pieces == [] then []
    else if |pieces| == 1 then pieces[0]
    else pieces[0] + [sep] + Join(pieces[1..], sep)
  }

  /** `s.split(sep)`: the maximal separator-free pieces between separators.
      There is always at least one piece, and joining them back gives `s`. */
  function Split(s: string, sep: char): (pieces: seq<string>)
    ensures |pieces| > 0
    ensures forall i :: 0 <= i < |pieces| ==> sep !in pieces[i]
    ensures Join(pieces, sep) == s
    ensures sep !in s <==> |pieces| == 1
    decreases |s|
  {
    if s == [] then [[]]
    else
      var rest := Split(s[1..], sep);
      if s[0] == sep then [[]] + rest
      else
        assert s == [s[0]] + s[1..];
        [[s[0]] + rest[0]] + rest[1..]
  }

  /** Splitting a text that starts with a separator. */
  lemma SplitSepCons(sep: char, s: string)
    ensures Split([sep] + s, sep) == [[]] + Split(s, sep)
  {
    assert ([sep] + s)[1..] == s;
  }

  /** Splitting a text that starts with another character: it joins the first piece. */
  lemma SplitCharCons(c: char, s: string, sep: char)
    requires c != sep
    ensures var rest := Split(s, sep); Split([c] + s, sep) == [[c] + rest[0]] + rest[1..]
  {
    assert ([c] + s)[1..] == s;
  }

  /** The other half of the round trip: splitting a join of separator-free pieces gives the pieces back. */
  lemma {:induction false} SplitJoin(pieces: seq<string>, sep: char)
    requires |pieces| > 0
    requires forall i :: 0 <= i < |pieces| ==> sep !in pieces[i]
    ensures Split(Join(pieces, sep), sep) == pieces
    decreases |pieces|, |pieces[0]|
  {
    var p, rest := pieces[0], pieces[1..];
    assert pieces == [p] + rest;
    if p != [] {
      var shorter := [p[1..]] + rest;
      assert shorter[0] == p[1..] && shorter[1..] == rest;
      assert sep !in p[1..] by {
        assert forall x :: x in p[1..] ==> x in p;
      }
      SplitJoin(shorter, sep);
      SplitJoinChar(p, rest, sep);
    } else if rest != [] {
      SplitJoin(rest, sep);
      SplitJoinEmpty(rest, sep);
    }
  }

  /** A sequence is its first element in front of the rest. */
  lemma ConsSplit<T>(w: seq<T>, t: seq<T>)
    requires w != []
    ensures w + t == [w[0]] + (w[1..] + t)
  {
  }

  /** Joining with a first piece that starts with a character: the character comes first. */
  lemma JoinCharCons(p: string, rest: seq<string>, sep: char)
    requires p != []
    ensures Join([p] + rest, sep) == [p[0]] + Join([p[1..]] + rest, sep)
  {
    var a, b := [p] + rest, [p[1..]] + rest;
    assert a[0] == p && b[0] == p[1..] && a[1..] == rest && b[1..] == rest;
    if rest == [] {
      assert p == [p[0]] + p[1..];
    } else {
      ConsSplit(p, [sep] + Join(rest, sep));
      assert p + [sep] + Join(rest, sep) == p + ([sep] + Join(rest, sep));
      assert p[1..] + [sep] + Join(rest, sep) == p[1..] + ([sep] + Join(rest, sep));
    }
  }

  /** The inductive step of `SplitJoin` for a first piece that starts with a character. */
  lemma SplitJoinChar(p: string, rest: seq<string>, sep: char)
    requires p != [] && p[0] != sep
    requires Split(Join([p[1..]] + rest, sep), sep) == [p[1..]] + rest
    ensures Split(Join([p] + rest, sep), sep) == [p] + rest
  {
    var shorter := [p[1..]] + rest;
    JoinCharCons(p, rest, sep);
    SplitCharCons(p[0], Join(shorter, sep), sep);
    assert shorter[0] == p[1..] && shorter[1..] == rest;
    assert [p[0]] + p[1..] == p;
  }

  /** The inductive step of `SplitJoin` for an empty first piece. */
  lemma SplitJoinEmpty(rest: seq<string>, sep: char)
    requires rest != [] && Split(Join(rest, sep), sep) == rest
    ensures Split(Join([[]] + rest, sep), sep) == [[]] + rest
  {
    var a := [[]] + rest;
    assert a[0] == [] && a[1..] == rest;
    assert Join(a, sep) == [sep] + Join(rest, sep);
    SplitSepCons(sep, Join(rest, sep));
  }

  /** The first piece of a split is the text before the first separator. */
  lemma {:induction false} SplitHead(s: string, sep: char)
    ensures var pieces := Split(s, sep);
      pieces[0] == s[..|pieces[0]|] &&
      (|pieces[0]| == |s| || s[|pieces[0]|] == sep) &&
      (|pieces| > 1 ==> s[|pieces[0]| + 1..] == Join(pieces[1..], sep))
  {
    var pieces := Split(s, sep);
    if |pieces| > 1 {
      assert Join(pieces, sep) == pieces[0] + [sep] + Join(pieces[1..], sep);
    }
  }

  /** Concatenation of a sequence of strings (Python's `"".join(...)`): empty
      exactly when every part is. */
  function Concat(parts: seq<string>): (r: string)
    ensures r == [] <==> forall i :: 0 <= i < |parts| ==> parts[i] == []
    decreases |parts|
  {
    if parts == [] then []
    else
      var rest := Concat(parts[1..]);
      assert forall i :: 0 < i < |parts| ==> parts[i] == parts[1..][i - 1];
      parts[0] + rest
  }

  /** Every piece with a separator in front of it. */
  function Prefixed(pieces: seq<string>, sep: char): (r: seq<string>)
    ensures |r| == |pieces|
    ensures forall i :: 0 <= i < |r| ==> r[i] == [sep] + pieces[i]
  {
    seq(|pieces|, i requires 0 <= i < |pieces| => [sep] + pieces[i])
  }

  /** Joining with a separator in front of every piece is one separator then the ordinary join. */
  lemma {:induction false} ConcatPrefixed(pieces: seq<string>, sep: char)
    requires |pieces| > 0
    ensures Concat(Prefixed(pieces, sep)) == [sep] + Join(pieces, sep)
    decreases |pieces|
  {
    if |pieces| > 1 {
      ConcatPrefixed(pieces[1..], sep);
      assert Prefixed(pieces, sep)[1..] == Prefixed(pieces[1..], sep);
    }
  }

  /** Joining two non-empty lists of pieces with the separator between them. */
  lemma {:induction false} JoinAppend(a: seq<string>, b: seq<string>, sep: char)
    requires |a| > 0 && |b| > 0
    ensures Join(a + b, sep) == Join(a, sep) + [sep] + Join(b, sep)
    decreases |a|
  {
    if |a| > 1 {
      JoinAppend(a[1..], b, sep);
      assert (a + b)[1..] == a[1..] + b;
    } else {
      assert (a + b)[1..] == b;
    }
  }

  /** A character found in no piece, and other than the separator, is not in the join. */
  lemma {:induction false} JoinAvoids(pieces: seq<string>, sep: char, c: char)
    requires c != sep
    requires forall i :: 0 <= i < |pieces| ==> c !in pieces[i]
    ensures c !in Join(pieces, sep)
    decreases |pieces|
  {
    if |pieces| > 1 {
      JoinAvoids(pieces[1..], sep, c);
    }
  }

  /** Splitting around one separator splits each side. */
  lemma SplitAround(a: string, b: string, sep: char)
    ensures Split(a + [sep] + b, sep) == Split(a, sep) + Split(b, sep)
  {
    var p, q := Split(a, sep), Split(b, sep);
    JoinAppend(p, q, sep);
    SplitJoin(p + q, sep);
  }

  /** `s` with every occurrence of `c` taken out. */
  function Remove(s: string, c: char): (r: string)
    ensures c !in r
    ensures |r| <= |s|
    decreases |s|
  {
    if s == [] then [] else (if s[0] == c then [] else [s[0]]) + Remove(s[1..], c)
  }

  /** Gluing the pieces of a split back without separators drops the separators. */
  lemma {:induction false} ConcatSplit(s: string, sep: char)
    ensures Concat(Split(s, sep)) == Remove(s, sep)
    decreases |s|
  {
    if s != [] {
      ConcatSplit(s[1..], sep);
      var rest := Split(s[1..], sep);
      if s[0] != sep {
        var pieces := [[s[0]] + rest[0]] + rest[1..];
        assert pieces[1..] == rest[1..];
        assert Concat(rest) == rest[0] + Concat(rest[1..]);
      }
    }
  }
}
