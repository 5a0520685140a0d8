/** String manipulation used by the registry and the cache: literal
    replaceAll with an empty replacement, joining lines, and the word wrapper
    that produces description lines. */
module Text {

  /** s with every occurrence of the character c deleted. */
  function Without(s: string, c: char): (r: string)
    ensures |r| <= |s| && c !in r
  {
    if s == [] then [] else (if s[0] == c then [] else [s[0]]) + Without(s[1..], c)
  }

  /** Does p occur in s at position i? */
  predicate OccursAt(s: string, p: string, i: int) {
    0 <= i && i + |p| <= |s| && s[i..i + |p|] == p
  }

  /** String.replaceAll(p, "") for a pattern p without regular-expression
      metacharacters: scan from the left and delete each match, resuming the
      scan right after it. An empty pattern matches only empty strings, so
      nothing changes. */
  function RemoveAll(s: string, p: string): (r: string)
    ensures |r| <= |s|
    decreases |s|
  {
    if p == [] || |s| < |p| then s
    else if s[..|p|] == p then RemoveAll(s[|p|..], p)
    else [s[0]] + RemoveAll(s[1..], p)
  }

  /** p occurs in the tail at i exactly when it occurs in s at i + 1. */
  lemma OccursShift(s: string, p: string, i: nat)
    requires s != []
    ensures OccursAt(s[1..], p, i) <==> OccursAt(s, p, i + 1)
  {
    if i + |p| <= |s| - 1 {
      assert s[1..][i..i + |p|] == s[i + 1..i + 1 + |p|];
    }
  }

  /** A string in which p never occurs is left as it is. */
  lemma {:induction false} RemoveAllAbsent(s: string, p: string)
    requires forall i :: !OccursAt(s, p, i)
    ensures RemoveAll(s, p) == s
    decreases |s|
  {
    if p == [] || |s| < |p| {
    } else {
      assert !OccursAt(s, p, 0);
      assert s[0..|p|] == s[..|p|];
      forall i | 0 <= i ensures !OccursAt(s[1..], p, i) {
        OccursShift(s, p, i);
      }
      RemoveAllAbsent(s[1..], p);
      assert s == [s[0]] + s[1..];
    }
  }

  /** Removing a one-character pattern deletes every occurrence of that
      character: the scan agrees with the reference definition Without. */
  lemma {:induction false} RemoveAllChar(s: string, c: char)
    ensures RemoveAll(s, [c]) == Without(s, c)
    decreases |s|
  {
    if |s| >= 1 {
      RemoveAllChar(s[1..], c);
      if s[..1] == [c] {
        assert s[0] == c;
      } else {
        assert s[0] != c by { assert s[..1] == [s[0]]; }
      }
    }
  }

  /** A leading occurrence is deleted. */
  lemma RemoveAllLeading(p: string, s: string)
    requires p != []
    ensures RemoveAll(p + s, p) == RemoveAll(s, p)
  {
    assert (p + s)[..|p|] == p;
    assert (p + s)[|p|..] == s;
  }

  /** No match can start inside a prefix that lacks the pattern's first
      character, so that prefix is kept. */
  lemma {:induction false} RemoveAllSkip(a: string, b: string, p: string)
    requires p != [] && p[0] !in a
    ensures RemoveAll(a + b, p) == a + RemoveAll(b, p)
    decreases |a|
  {
    if a == [] {
      assert a + b == b;
    } else {
      var s := a + b;
      if |s| < |p| {
        RemoveAllShort(b, p);
        assert s == a + b;
      } else {
        assert s[..|p|] != p by { assert s[0] == a[0] != p[0]; }
        assert s[1..] == a[1..] + b;
        RemoveAllSkip(a[1..], b, p);
        assert [a[0]] + (a[1..] + RemoveAll(b, p)) == a + RemoveAll(b, p);
      }
    }
  }

  lemma RemoveAllShort(s: string, p: string)
    requires |s| < |p|
    ensures RemoveAll(s, p) == s
  {
  }

  /** Each line followed by one space, built left to right. */
  function Flatten(lines: seq<string>): string
    decreases |lines|
  {
    if lines == [] then "" else Flatten(lines[..|lines| - 1]) + lines[|lines| - 1] + " "
  }

  lemma {:induction false} FlattenCons(l: string, ls: seq<string>)
    ensures Flatten([l] + ls) == l + " " + Flatten(ls)
    decreases |ls|
  {
    if ls == [] {
      assert ([l] + ls)[..0] == [];
    } else {
      var last := ls[|ls| - 1];
      assert ([l] + ls)[..|ls|] == [l] + ls[..|ls| - 1];
      FlattenCons(l, ls[..|ls| - 1]);
    }
  }

  /** The lines joined by sep. */
  function Join(xs: seq<string>, sep: string): string
    decreases |xs|
  {
    if xs == [] then "" else if |xs| == 1 then xs[0] else xs[0] + sep + Join(xs[1..], sep)
  }

  lemma JoinCons(x: string, xs: seq<string>, sep: string)
    requires xs != []
    ensures Join([x] + xs, sep) == x + sep + Join(xs, sep)
  {
    assert ([x] + xs)[1..] == xs;
  }

  /** Flattening is joining with single spaces plus one trailing space. */
  lemma {:induction false} FlattenIsJoin(ls: seq<string>)
    requires ls != []
    ensures Flatten(ls) == Join(ls, " ") + " "
    decreases |ls|
  {
    if |ls| == 1 {
      FlattenCons(ls[0], []);
      assert [ls[0]] + [] == ls;
    } else {
      FlattenCons(ls[0], ls[1..]);
      assert [ls[0]] + ls[1..] == ls;
      FlattenIsJoin(ls[1..]);
    }
  }

  /** The maximal run of non-space characters at the start of s. */
  function FirstWord(s: string): (w: string)
    ensures |w| <= |s| && w == s[..|w|]
    ensures ' ' !in w
    ensures |w| < |s| ==> s[|w|] == ' '
    ensures s != [] && s[0] != ' ' ==> |w| > 0
  {
    if s == [] || s[0] == ' ' then [] else [s[0]] + FirstWord(s[1..])
  }

  /** The words of s: its maximal runs of non-space characters, in order. */
  function Words(s: string): (ws: seq<string>)
    ensures forall i :: 0 <= i < |ws| ==> ws[i] != [] && ' ' !in ws[i]
    decreases |s|
  {
    if s == [] then []
    else if s[0] == ' ' then Words(s[1..])
    else var w := FirstWord(s); [w] + Words(s[|w|..])
  }

  lemma {:induction false} WithoutAppend(a: string, b: string, c: char)
    ensures Without(a + b, c) == Without(a, c) + Without(b, c)
    decreases |a|
  {
    if a == [] {
      assert a + b == b;
    } else {
      assert (a + b)[0] == a[0];
      assert (a + b)[1..] == a[1..] + b;
      WithoutAppend(a[1..], b, c);
    }
  }

  lemma {:induction false} WithoutAbsent(a: string, c: char)
    requires c !in a
    ensures Without(a, c) == a
    decreases |a|
  {
    if a != [] {
      WithoutAbsent(a[1..], c);
      assert a == [a[0]] + a[1..];
    }
  }

  lemma JoinConcat(w: string, ws: seq<string>)
    ensures Join([w] + ws, "") == w + Join(ws, "")
  {
    if ws == [] {
      assert [w] + ws == [w];
    } else {
      JoinCons(w, ws, "");
    }
  }

  /** Splitting into words loses only the spaces: the words laid end to end
      are the non-space characters of s in order. */
  lemma {:induction false} WordsKeepText(s: string)
    ensures Join(Words(s), "") == Without(s, ' ')
    decreases |s|
  {
    if s == [] {
    } else if s[0] == ' ' {
      WordsKeepText(s[1..]);
    } else {
      var w := FirstWord(s);
      var rest := s[|w|..];
      WordsKeepText(rest);
      assert s == w + rest;
      WithoutAppend(w, rest, ' ');
      WithoutAbsent(w, ' ');
      assert Words(s) == [w] + Words(rest);
      JoinConcat(w, Words(rest));
    }
  }

  /** Greedy filling: cur is the line being filled; a word joins it when the
      line with one space and the word still fits the width. */
  function PackFrom(cur: string, ws: seq<string>, width: nat): (lines: seq<string>)
    ensures lines != []
    decreases |ws|
  {
    if ws == [] then [cur]
    else if |cur| + 1 + |ws[0]| <= width then PackFrom(cur + " " + ws[0], ws[1..], width)
    else [cur] + PackFrom(ws[0], ws[1..], width)
  }

  /** The description wrapper: the words of text filled greedily into lines of
      at most width characters; a text without words gives one empty line. */
  function Wrap(text: string, width: nat): (lines: seq<string>)
    ensures lines != []
  {
    var ws := Words(text);
    if ws == [] then [""] else PackFrom(ws[0], ws[1..], width)
  }

  lemma {:induction false} PackFromJoin(cur: string, ws: seq<string>, width: nat)
    ensures Join(PackFrom(cur, ws, width), " ") == Join([cur] + ws, " ")
    decreases |ws|
  {
    if ws == [] {
    } else if |cur| + 1 + |ws[0]| <= width {
      PackFromJoin(cur + " " + ws[0], ws[1..], width);
      if |ws| == 1 {
        assert [cur] + ws == [cur, ws[0]];
      } else {
        JoinCons(cur + " " + ws[0], ws[1..], " ");
        JoinCons(cur, ws, " ");
        JoinCons(ws[0], ws[1..], " ");
        assert [ws[0]] + ws[1..] == ws;
      }
    } else {
      PackFromJoin(ws[0], ws[1..], width);
      JoinCons(cur, PackFrom(ws[0], ws[1..], width), " ");
      JoinCons(cur, ws, " ");
      assert [ws[0]] + ws[1..] == ws;
    }
  }

  /** Wrapping loses nothing but whitespace: joining the lines with single
      spaces gives the words of the text joined with single spaces. */
  lemma WrapRoundTrip(text: string, width: nat)
    ensures Join(Wrap(text, width), " ") == Join(Words(text), " ")
  {
    var ws := Words(text);
    if ws != [] {
      PackFromJoin(ws[0], ws[1..], width);
      assert [ws[0]] + ws[1..] == ws;
    }
  }

  lemma {:induction false} PackFromWidth(cur: string, ws: seq<string>, width: nat)
    requires |cur| <= width || ' ' !in cur
    requires forall i :: 0 <= i < |ws| ==> ' ' !in ws[i]
    ensures forall i :: 0 <= i < |PackFrom(cur, ws, width)| ==>
              |PackFrom(cur, ws, width)[i]| <= width || ' ' !in PackFrom(cur, ws, width)[i]
    decreases |ws|
  {
    if ws == [] {
    } else if |cur| + 1 + |ws[0]| <= width {
      PackFromWidth(cur + " " + ws[0], ws[1..], width);
    } else {
      PackFromWidth(ws[0], ws[1..], width);
    }
  }

  /** Every wrapped line fits the width, unless it is a single word longer
      than the width (long words are not broken). */
  lemma WrapWidth(text: string, width: nat)
    ensures forall i :: 0 <= i < |Wrap(text, width)| ==>
              |Wrap(text, width)[i]| <= width || ' ' !in Wrap(text, width)[i]
  {
    var ws := Words(text);
    if ws != [] {
      PackFromWidth(ws[0], ws[1..], width);
    }
  }

  /** A character absent from the text, other than the space, is absent from
      every word and so from every wrapped line. */
  lemma {:induction false} WordsAvoid(s: string, ch: char)
    requires ch !in s
    ensures forall i :: 0 <= i < |Words(s)| ==> ch !in Words(s)[i]
    decreases |s|
  {
    if s != [] {
      assert ch !in s[1..] by {
        forall j | 0 <= j < |s[1..]| ensures s[1..][j] != ch {
          assert s[1..][j] == s[j + 1];
        }
      }
      if s[0] == ' ' {
        WordsAvoid(s[1..], ch);
      } else {
        var w := FirstWord(s);
        assert ch !in w by {
          forall j | 0 <= j < |w| ensures w[j] != ch {
            assert w[j] == s[j];
          }
        }
        assert ch !in s[|w|..] by {
          forall j | 0 <= j < |s[|w|..]| ensures s[|w|..][j] != ch {
            assert s[|w|..][j] == s[j + |w|];
          }
        }
        WordsAvoid(s[|w|..], ch);
        assert Words(s) == [w] + Words(s[|w|..]);
      }
    }
  }

  lemma {:induction false} PackFromAvoid(cur: string, ws: seq<string>, width: nat, ch: char)
    requires ch != ' ' && ch !in cur
    requires forall i :: 0 <= i < |ws| ==> ch !in ws[i]
    ensures forall i :: 0 <= i < |PackFrom(cur, ws, width)| ==> ch !in PackFrom(cur, ws, width)[i]
    decreases |ws|
  {
    if ws == [] {
    } else if |cur| + 1 + |ws[0]| <= width {
      PackFromAvoid(cur + " " + ws[0], ws[1..], width, ch);
    } else {
      PackFromAvoid(ws[0], ws[1..], width, ch);
    }
  }

  lemma WrapAvoid(text: string, width: nat, ch: char)
    requires ch != ' ' && ch !in text
    ensures forall i :: 0 <= i < |Wrap(text, width)| ==> ch !in Wrap(text, width)[i]
  {
    WordsAvoid(text, ch);
    var ws := Words(text);
    if ws != [] {
      PackFromAvoid(ws[0], ws[1..], width, ch);
    }
  }

}
