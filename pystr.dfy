/** The few Python `str` operations the scraping scripts rely on, over `seq<char>`. */
module PyStr {

  /** The characters for which Python's `str.isspace()` holds; `strip()` and
      `rstrip()` without an argument remove exactly these. */
  const Whitespace: set<char> := {
    '\t', '\n', '\U{0B}', '\U{0C}', '\r', '\U{1C}', '\U{1D}', '\U{1E}', '\U{1F}', ' ',
    '\U{85}', '\U{A0}', '\U{1680}',
    '\U{2000}', '\U{2001}', '\U{2002}', '\U{2003}', '\U{2004}', '\U{2005}',
    '\U{2006}', '\U{2007}', '\U{2008}', '\U{2009}', '\U{200A}',
    '\U{2028}', '\U{2029}', '\U{202F}', '\U{205F}', '\U{3000}'
  }

  predicate HasSuffix(s: string, suffix: string) {
    |suffix| <= |s| && s[|s| - |suffix|..] == suffix
  }

  /** The characters of `s` that are not in `chars`, in their original order. */
  function Without(s: string, chars: set<char>): (r: string)
    ensures |r| <= |s|
  {
    if s == [] then [] else (if s[0] in chars then [] else [s[0]]) + Without(s[1..], chars)
  }

  /** Nothing is left exactly when every character is one of those dropped. */
  lemma {:induction false} WithoutEmptyIff(s: string, chars: set<char>)
    ensures Without(s, chars) == [] <==> forall i :: 0 <= i < |s| ==> s[i] in chars
  {
    if s != [] {
      WithoutEmptyIff(s[1..], chars);
      if s[0] in chars && Without(s, chars) != [] {
        assert !(forall i :: 0 <= i < |s[1..]| ==> s[1..][i] in chars);
        var i :| 0 <= i < |s[1..]| && s[1..][i] !in chars;
        assert s[i + 1] !in chars;
      }
    }
  }

  lemma {:induction false} WithoutConcat(a: string, b: string, chars: set<char>)
    ensures Without(a + b, chars) == Without(a, chars) + Without(b, chars)
  {
    if a == [] {
      assert a + b == b;
    } else {
      assert (a + b)[1..] == a[1..] + b;
      WithoutConcat(a[1..], b, chars);
    }
  }

  lemma {:induction false} WithoutAll(s: string, chars: set<char>)
    requires forall i :: 0 <= i < |s| ==> s[i] in chars
    ensures Without(s, chars) == []
  {
    if s != [] {
      WithoutAll(s[1..], chars);
    }
  }

  /** Dropping a smaller set first and a larger one afterwards drops the larger one. */
  lemma {:induction false} WithoutTwice(s: string, inner: set<char>, outer: set<char>)
    requires inner <= outer
    ensures Without(Without(s, inner), outer) == Without(s, outer)
  {
    if s != [] {
      var head := if s[0] in inner then [] else [s[0]];
      WithoutConcat(head, Without(s[1..], inner), outer);
      WithoutTwice(s[1..], inner, outer);
    }
  }

  /** `s.lstrip(chars)`: the characters of `chars` at the front removed. */
  function LStrip(s: string, chars: set<char>): (r: string)
    ensures |r| <= |s|
  {
    if s != [] && s[0] in chars then LStrip(s[1..], chars) else s
  }

  /** `s.lstrip(chars)` is the longest suffix of `s` not starting with a character of `chars`. */
  lemma {:induction false} LStripSpec(s: string, chars: set<char>)
    ensures var r := LStrip(s, chars);
      r == s[|s| - |r|..] &&
      (r == [] || r[0] !in chars) &&
      forall i :: 0 <= i < |s| - |r| ==> s[i] in chars
  {
    if s != [] && s[0] in chars {
      LStripSpec(s[1..], chars);
    }
  }

  /** `s.rstrip(chars)`: the characters of `chars` at the back removed. */
  function RStrip(s: string, chars: set<char>): (r: string)
    ensures |r| <= |s|
  {
    if s != [] && s[|s| - 1] in chars then RStrip(s[..|s| - 1], chars) else s
  }

  /** `s.rstrip(chars)` is the longest prefix of `s` not ending with a character of `chars`. */
  lemma {:induction false} RStripSpec(s: string, chars: set<char>)
    ensures var r := RStrip(s, chars);
      r == s[..|r|] &&
      (r == [] || r[|r| - 1] !in chars) &&
      forall i :: |r| <= i < |s| ==> s[i] in chars
  {
    if s != [] && s[|s| - 1] in chars {
      RStripSpec(s[..|s| - 1], chars);
    }
  }

  /** `s.strip(chars)`: both ends stripped. */
  function Strip(s: string, chars: set<char>): (r: string)
    ensures |r| <= |s|
  {
    RStrip(LStrip(s, chars), chars)
  }

  /** Neither end of `s.strip(chars)` is in `chars`; a text made only of such characters
      strips to nothing, and a text whose ends are outside `chars` is left alone. */
  lemma StripSpec(s: string, chars: set<char>)
    ensures var r := Strip(s, chars);
      (r == [] || (r[0] !in chars && r[|r| - 1] !in chars)) &&
      ((forall i :: 0 <= i < |s| ==> s[i] in chars) ==> r == []) &&
      (s == [] || (s[0] !in chars && s[|s| - 1] !in chars) ==> r == s)
  {
    var l := LStrip(s, chars);
    LStripSpec(s, chars);
    RStripSpec(l, chars);
    var r := RStrip(l, chars);
    if r != [] {
      assert r[0] == l[0];
    }
    if s != [] && s[0] !in chars && s[|s| - 1] !in chars {
      assert l == s;
    }
  }

  /** `s.strip(chars)` is the slice of `s` between the stripped prefix and the
      stripped suffix: everything in between, stripped characters included, is kept. */
  lemma StripIsSlice(s: string, chars: set<char>)
    ensures var r, i := Strip(s, chars), |s| - |LStrip(s, chars)|;
      i + |r| <= |s| && r == s[i..i + |r|] &&
      (forall k :: 0 <= k < i ==> s[k] in chars) &&
      (forall k :: i + |r| <= k < |s| ==> s[k] in chars)
  {
    LStripSpec(s, chars);
    RStripSpec(LStrip(s, chars), chars);
  }

  lemma LStripKeepsOthers(s: string, chars: set<char>, kept: set<char>)
    requires chars <= kept
    ensures Without(LStrip(s, chars), kept) == Without(s, kept)
  {
    var l := LStrip(s, chars);
    LStripSpec(s, chars);
    var cut := s[..|s| - |l|];
    assert s == cut + l;
    WithoutConcat(cut, l, kept);
    WithoutAll(cut, kept);
  }

  lemma RStripKeepsOthers(s: string, chars: set<char>, kept: set<char>)
    requires chars <= kept
    ensures Without(RStrip(s, chars), kept) == Without(s, kept)
  {
    var r := RStrip(s, chars);
    RStripSpec(s, chars);
    var cut := s[|r|..];
    assert s == r + cut;
    WithoutConcat(r, cut, kept);
    WithoutAll(cut, kept);
  }

  /** Stripping removes only characters of `chars`: everything else is kept, in order. */
  lemma StripKeepsOthers(s: string, chars: set<char>, kept: set<char>)
    requires chars <= kept
    ensures Without(Strip(s, chars), kept) == Without(s, kept)
  {
    LStripKeepsOthers(s, chars, kept);
    RStripKeepsOthers(LStrip(s, chars), chars, kept);
  }

  /** `s.rfind(c)` for a single character: the last index holding `c`, or -1. */
  function RFind(s: string, c: char): (i: int)
    ensures -1 <= i < |s|
    ensures i >= 0 ==> s[i] == c
    ensures forall j :: i < j < |s| ==> s[j] != c
  {
    if s == [] then -1
    else if s[|s| - 1] == c then |s| - 1
    else RFind(s[..|s| - 1], c)
  }

  /** `s.replace(from, to)` for single characters. */
  function Replace(s: string, from: char, to: char): (r: string)
    ensures |r| == |s|
    ensures forall i :: 0 <= i < |s| ==> r[i] == if s[i] == from then to else s[i]
  {
    if s == [] then [] else [if s[0] == from then to else s[0]] + Replace(s[1..], from, to)
  }

  /** `s.split(sep)`: the pieces between the separators. */
  function Split(s: string, sep: char): (r: seq<string>)
    ensures |r| > 0
    ensures forall i :: 0 <= i < |r| ==> sep !in r[i]
  {
    if s == [] then [[]]
    else
      var rest := Split(s[1..], sep);
      if s[0] == sep then [[]] + rest
      else [[s[0]] + rest[0]] + rest[1..]
  }

  /** There is always one more piece than there are separators. */
  lemma {:induction false} SplitCount(s: string, sep: char)
    ensures |Split(s, sep)| == multiset(s)[sep] + 1
  {
    if s != [] {
      SplitCount(s[1..], sep);
      assert s == [s[0]] + s[1..];
    }
  }

  /** `sep.join(lines)`. */
  function Join(lines: seq<string>, sep: char): (r: string)
    ensures |lines| > 0 ==> lines[0] <= r
  {
    if |lines| == 0 then []
    else if |lines| == 1 then lines[0]
    else lines[0] + [sep] + Join(lines[1..], sep)
  }

  /** Joining `k` pieces free of `sep` puts exactly `k - 1` separators in the result. */
  lemma {:induction false} JoinCount(lines: seq<string>, sep: char)
    requires |lines| > 0
    requires forall i :: 0 <= i < |lines| ==> sep !in lines[i]
    ensures multiset(Join(lines, sep))[sep] == |lines| - 1
  {
    if |lines| > 1 {
      JoinCount(lines[1..], sep);
      assert sep !in lines[0];
    }
  }

  lemma {:induction false} JoinSplit(s: string, sep: char)
    ensures Join(Split(s, sep), sep) == s
  {
    if s != [] {
      var rest := Split(s[1..], sep);
      JoinSplit(s[1..], sep);
      assert s == [s[0]] + s[1..];
      if s[0] == sep {
        JoinEmptyHead(rest, sep);
      } else {
        JoinExtendHead(s[0], rest, sep);
      }
    }
  }

  lemma JoinEmptyHead(lines: seq<string>, sep: char)
    requires |lines| > 0
    ensures Join([[]] + lines, sep) == [sep] + Join(lines, sep)
  {
    assert ([[]] + lines)[1..] == lines;
  }

  lemma JoinExtendHead(c: char, lines: seq<string>, sep: char)
    requires |lines| > 0
    ensures Join([[c] + lines[0]] + lines[1..], sep) == [c] + Join(lines, sep)
  {
    var ext := [[c] + lines[0]] + lines[1..];
    if |lines| > 1 {
      assert ext[1..] == lines[1..];
    }
  }

  /** A piece free of `sep` followed by `sep` splits off as the first piece. */
  lemma {:induction false} SplitAfterPiece(a: string, t: string, sep: char)
    requires sep !in a
    ensures Split(a + [sep] + t, sep) == [a] + Split(t, sep)
  {
    if a != [] {
      assert (a + [sep] + t)[1..] == a[1..] + [sep] + t;
      SplitAfterPiece(a[1..], t, sep);
      assert [a[0]] + a[1..] == a;
    } else {
      assert a + [sep] + t == [sep] + t;
    }
  }

  lemma {:induction false} SplitPiece(a: string, sep: char)
    requires sep !in a
    ensures Split(a, sep) == [a]
  {
    if a != [] {
      SplitPiece(a[1..], sep);
      assert [a[0]] + a[1..] == a;
    }
  }

  lemma {:induction false} SplitJoin(lines: seq<string>, sep: char)
    requires |lines| > 0
    requires forall i :: 0 <= i < |lines| ==> sep !in lines[i]
    ensures Split(Join(lines, sep), sep) == lines
  {
    if |lines| == 1 {
      SplitPiece(lines[0], sep);
    } else {
      SplitJoin(lines[1..], sep);
      SplitAfterPiece(lines[0], Join(lines[1..], sep), sep);
    }
  }

  /** Joining pieces with a separator in `kept` drops the same characters as joining
      any other pieces that each drop to the same text. */
  lemma {:induction false} JoinKeepsOthers(ls: seq<string>, ms: seq<string>, sep: char, kept: set<char>)
    requires |ls| == |ms| && sep in kept
    requires forall i :: 0 <= i < |ls| ==> Without(ls[i], kept) == Without(ms[i], kept)
    ensures Without(Join(ls, sep), kept) == Without(Join(ms, sep), kept)
  {
    if |ls| > 1 {
      JoinKeepsOthers(ls[1..], ms[1..], sep, kept);
      WithoutConcat(ls[0] + [sep], Join(ls[1..], sep), kept);
      WithoutConcat(ls[0], [sep], kept);
      WithoutConcat(ms[0] + [sep], Join(ms[1..], sep), kept);
      WithoutConcat(ms[0], [sep], kept);
    }
  }
}
