/** The `java.lang.String`, `Character` and `StringTokenizer` behaviour the
    library relies on, stated over `seq<char>`. */
module JavaStrings {

  /** `Character.isWhitespace`: the Unicode space, line and paragraph
      separators other than the non-breaking ones, plus the ASCII controls
      TAB, LF, VT, FF, CR and the four information separators. */
  predicate IsWhitespace(c: char) {
    c == ' ' || ('\t' <= c <= '\r') || ('\U{001C}' <= c <= '\U{001F}')
    || c == '\U{1680}' || ('\U{2000}' <= c <= '\U{2006}') || ('\U{2008}' <= c <= '\U{200A}')
    || c == '\U{2028}' || c == '\U{2029}' || c == '\U{205F}' || c == '\U{3000}'
  }

  lemma WhitespaceExamples()
    ensures IsWhitespace(' ') && IsWhitespace('\n') && IsWhitespace('\t')
    ensures !IsWhitespace('a') && !IsWhitespace('\U{00A0}') && !IsWhitespace('\U{2007}')
  {
  }

  /** The pieces between '\n' characters, every empty piece kept: a string
      with k line feeds has k + 1 pieces. */
  function SplitAll(s: string): (r: seq<string>)
    ensures |r| >= 1
    ensures forall i :: 0 <= i < |r| ==> '\n' !in r[i]
    decreases |s|
  {
    if |s| == 0 then [""]
    else
      var rest := SplitAll(s[1..]);
      if s[0] == '\n' then [""] + rest
      else [[s[0]] + rest[0]] + rest[1..]
  }

  /** The pieces glued back together with a separator between neighbours. */
  function Join(p: seq<string>, sep: char): string
    requires |p| >= 1
  {
    if |p| == 1 then p[0] else p[0] + [sep] + Join(p[1..], sep)
  }

  lemma JoinPrepend(x: string, p: seq<string>, sep: char)
    requires |p| >= 1
    ensures Join([x + p[0]] + p[1..], sep) == x + Join(p, sep)
  {
    var q := [x + p[0]] + p[1..];
    assert q[1..] == p[1..];
  }

  /** Splitting at line feeds and joining with line feeds is the identity. */
  lemma {:induction false} JoinSplitAll(s: string)
    ensures Join(SplitAll(s), '\n') == s
    decreases |s|
  {
    if |s| > 0 {
      var rest := SplitAll(s[1..]);
      JoinSplitAll(s[1..]);
      if s[0] == '\n' {
        assert ([""] + rest)[1..] == rest;
      } else {
        JoinPrepend([s[0]], rest, '\n');
      }
      assert s == [s[0]] + s[1..];
    }
  }

  /** A prefix without line feeds is absorbed into the first piece. */
  lemma {:induction false} SplitAllPrefix(x: string, t: string)
    requires '\n' !in x
    ensures SplitAll(x + t) == [x + SplitAll(t)[0]] + SplitAll(t)[1..]
    decreases |x|
  {
    if |x| > 0 {
      assert (x + t)[1..] == x[1..] + t;
      assert (x + t)[0] == x[0];
      SplitAllPrefix(x[1..], t);
      assert [x[0]] + (x[1..] + SplitAll(t)[0]) == x + SplitAll(t)[0];
    } else {
      assert x + t == t;
      assert x + SplitAll(t)[0] == SplitAll(t)[0];
      assert SplitAll(t) == [SplitAll(t)[0]] + SplitAll(t)[1..];
    }
  }

  /** Joining pieces free of line feeds and splitting again gives the pieces
      back. */
  lemma {:induction false} SplitAllJoin(p: seq<string>)
    requires |p| >= 1
    requires forall i :: 0 <= i < |p| ==> '\n' !in p[i]
    ensures SplitAll(Join(p, '\n')) == p
    decreases |p|
  {
    if |p| == 1 {
      SplitAllPrefix(p[0], "");
      assert p[0] + "" == p[0];
    } else {
      SplitAllJoin(p[1..]);
      var t := ['\n'] + Join(p[1..], '\n');
      assert Join(p, '\n') == p[0] + t;
      SplitAllPrefix(p[0], t);
      assert SplitAll(t) == [""] + p[1..] by {
        assert t[1..] == Join(p[1..], '\n');
      }
      assert p[0] + "" == p[0];
      assert p == [p[0]] + p[1..];
    }
  }

  /** Removes the trailing empty strings, as `String.split` does. */
  function DropTrailingEmpty(p: seq<string>): (r: seq<string>)
    ensures |r| <= |p| && r == p[..|r|]
    ensures |r| == 0 || r[|r| - 1] != ""
    ensures forall i :: |r| <= i < |p| ==> p[i] == ""
  {
    if |p| > 0 && p[|p| - 1] == "" then DropTrailingEmpty(p[..|p| - 1]) else p
  }

  /** `String.split("\n")`: the pieces between line feeds with trailing
      empty pieces removed, except that a string without any line feed
      (the empty string included) yields itself as the only piece. */
  function Split(s: string): (r: seq<string>)
    ensures forall i :: 0 <= i < |r| ==> '\n' !in r[i]
    ensures '\n' !in s ==> r == [s]
    ensures '\n' in s ==> (|r| <= |SplitAll(s)| && r == SplitAll(s)[..|r|]
                           && forall i :: |r| <= i < |SplitAll(s)| ==> SplitAll(s)[i] == "")
  {
    if '\n' !in s then [s] else DropTrailingEmpty(SplitAll(s))
  }

  lemma SplitExamples()
    ensures Split("") == [""]
    ensures Split("\n") == []
    ensures Split("a\n\nb\n\n") == ["a", "", "b"]
  {
    var s := "a\n\nb\n\n";
    assert s[6..] == "";
    assert SplitAll(s[5..]) == ["", ""] by { assert s[5..][1..] == s[6..]; }
    assert SplitAll(s[4..]) == ["", "", ""] by { assert s[4..][1..] == s[5..]; }
    assert SplitAll(s[3..]) == ["b", "", ""] by {
      assert s[3..][1..] == s[4..];
      assert [s[3]] + "" == "b";
    }
    assert SplitAll(s[2..]) == ["", "b", "", ""] by { assert s[2..][1..] == s[3..]; }
    assert SplitAll(s[1..]) == ["", "", "b", "", ""] by { assert s[1..][1..] == s[2..]; }
    assert SplitAll(s) == ["a", "", "b", "", ""] by { assert [s[0]] + "" == "a"; }
    assert SplitAll("\n") == ["", ""];
    var p := ["a", "", "b", "", ""];
    assert p[..|p| - 1] == ["a", "", "b", ""];
    assert p[..|p| - 1][..3] == ["a", "", "b"];
    assert s[1] == '\n';
    assert DropTrailingEmpty(p) == ["a", "", "b"];
  }

  /** A string holding no line feed is its own only piece. */
  lemma SplitAllNoNewline(s: string)
    requires '\n' !in s
    ensures SplitAll(s) == [s]
  {
    SplitAllPrefix(s, "");
    assert s + "" == s;
  }

  /** `StringTokenizer(s, "\n")`: the non-empty runs between line feeds.
      Run together, the tokens are the text less its line feeds. */
  function Tokens(s: string): (r: seq<string>)
    ensures forall i :: 0 <= i < |r| ==> r[i] != "" && '\n' !in r[i]
    ensures forall t :: t in r <==> t in SplitAll(s) && t != ""
    ensures Concat(r) == WithoutNewlines(s)
    ensures |r| == CountNonEmpty(SplitAll(s))
    ensures forall j :: 0 <= j < |SplitAll(s)| && SplitAll(s)[j] != "" ==>
      CountNonEmpty(SplitAll(s)[..j]) < |r| && r[CountNonEmpty(SplitAll(s)[..j])] == SplitAll(s)[j]
  {
    ConcatSplitAll(s);
    NonEmptyIndexed(SplitAll(s));
    NonEmpty(SplitAll(s))
  }

  /** Repeated tokens are kept, each in its place. */
  lemma TokensKeepOrder()
    ensures Tokens("ab\na\nb\nab") == ["ab", "a", "b", "ab"]
  {
    SplitAllExample();
    var p := ["ab", "a", "b", "ab"];
    assert p[1..][1..][1..][1..] == [];
    assert NonEmpty(p[1..][1..][1..]) == ["ab"];
    assert NonEmpty(p[1..][1..]) == ["b", "ab"];
  }

  lemma SplitAllExampleTail()
    ensures SplitAll("\na\nb\nab") == ["", "a", "b", "ab"]
  {
    assert "b"[1..] == "" && ['b'] + "" == "b" && ['a'] + "" == "a" && ['a'] + "b" == "ab";
    assert SplitAll("b") == ["b"];
    assert "ab"[1..] == "b";
    assert SplitAll("ab") == ["ab"];
    assert "\nab"[1..] == "ab";
    assert SplitAll("\nab") == ["", "ab"];
    assert "b\nab"[1..] == "\nab";
    assert SplitAll("b\nab") == ["b", "ab"];
    assert "\nb\nab"[1..] == "b\nab";
    assert SplitAll("\nb\nab") == ["", "b", "ab"];
    assert "a\nb\nab"[1..] == "\nb\nab";
    assert SplitAll("a\nb\nab") == ["a", "b", "ab"];
    assert "\na\nb\nab"[1..] == "a\nb\nab";
    assert SplitAll("\na\nb\nab") == ["", "a", "b", "ab"];
  }

  lemma SplitAllExample()
    ensures SplitAll("ab\na\nb\nab") == ["ab", "a", "b", "ab"]
  {
    SplitAllExampleTail();
    assert ['a'] + "b" == "ab" && ['b'] + "" == "b";
    assert ["", "a", "b", "ab"][1..] == ["a", "b", "ab"];
    assert "b\na\nb\nab"[1..] == "\na\nb\nab";
    assert SplitAll("b\na\nb\nab") == ["b", "a", "b", "ab"];
    assert "ab\na\nb\nab"[1..] == "b\na\nb\nab";
    assert SplitAll("ab\na\nb\nab") == ["ab", "a", "b", "ab"];
  }

  function NonEmpty(p: seq<string>): (r: seq<string>)
    requires forall i :: 0 <= i < |p| ==> '\n' !in p[i]
    ensures forall i :: 0 <= i < |r| ==> r[i] != "" && '\n' !in r[i]
    ensures |r| <= |p|
    ensures forall t :: t in r <==> t in p && t != ""
    ensures Concat(r) == Concat(p)
  {
    if |p| == 0 then []
    else
      assert forall t :: t in p <==> t == p[0] || t in p[1..];
      if p[0] == "" then NonEmpty(p[1..])
      else [p[0]] + NonEmpty(p[1..])
  }

  /** How many of the pieces are non-empty. */
  function CountNonEmpty(p: seq<string>): nat {
    if |p| == 0 then 0 else (if p[0] != "" then 1 else 0) + CountNonEmpty(p[1..])
  }

  /** The non-empty pieces keep their order: the piece at position j lands
      at the number of non-empty pieces before it, and nothing else is kept. */
  lemma {:induction false} NonEmptyIndexed(p: seq<string>)
    requires forall i :: 0 <= i < |p| ==> '\n' !in p[i]
    ensures |NonEmpty(p)| == CountNonEmpty(p)
    ensures forall j :: 0 <= j < |p| && p[j] != "" ==>
      CountNonEmpty(p[..j]) < |NonEmpty(p)| && NonEmpty(p)[CountNonEmpty(p[..j])] == p[j]
  {
    if |p| > 0 {
      var q := p[1..];
      NonEmptyIndexed(q);
      forall j | 0 <= j < |p| && p[j] != ""
        ensures CountNonEmpty(p[..j]) < |NonEmpty(p)| && NonEmpty(p)[CountNonEmpty(p[..j])] == p[j]
      {
        if j > 0 {
          assert p[..j][1..] == q[..j - 1];
          assert q[j - 1] == p[j];
        }
      }
    }
  }

  /** The pieces run together with nothing between them. */
  function Concat(p: seq<string>): string {
    if |p| == 0 then "" else p[0] + Concat(p[1..])
  }

  /** The text with every line feed taken out. */
  function WithoutNewlines(s: string): (r: string)
    ensures '\n' !in r && |r| <= |s|
  {
    if |s| == 0 then "" else (if s[0] == '\n' then "" else [s[0]]) + WithoutNewlines(s[1..])
  }

  /** The pieces between line feeds, run together, are the text less its
      line feeds. */
  lemma {:induction false} ConcatSplitAll(s: string)
    ensures Concat(SplitAll(s)) == WithoutNewlines(s)
    decreases |s|
  {
    if |s| > 0 {
      var rest := SplitAll(s[1..]);
      ConcatSplitAll(s[1..]);
      if s[0] == '\n' {
        assert ([""] + rest)[1..] == rest;
      } else {
        var q := [[s[0]] + rest[0]] + rest[1..];
        assert q[1..] == rest[1..];
        assert Concat(rest) == rest[0] + Concat(rest[1..]);
      }
    }
  }

  /** The number of leading characters that `trim` strips. */
  function LeadingBlank(s: string): (n: nat)
    ensures n <= |s|
    ensures forall k :: 0 <= k < n ==> s[k] <= ' '
    ensures n < |s| ==> s[n] > ' '
  {
    if |s| > 0 && s[0] <= ' ' then 1 + LeadingBlank(s[1..]) else 0
  }

  /** The number of trailing characters that `trim` strips. */
  function TrailingBlank(s: string): (n: nat)
    ensures n <= |s|
    ensures forall k :: |s| - n <= k < |s| ==> s[k] <= ' '
    ensures n < |s| ==> s[|s| - n - 1] > ' '
  {
    if |s| > 0 && s[|s| - 1] <= ' ' then 1 + TrailingBlank(s[..|s| - 1]) else 0
  }

  /** `String.trim`: strips every character up to U+0020 at both ends.
      The result is the piece of the text that starts after the leading
      blanks, with only blanks after it. */
  function Trim(s: string): (r: string)
    ensures |r| <= |s|
    ensures |r| > 0 ==> r[0] > ' ' && r[|r| - 1] > ' '
    ensures |r| == 0 <==> forall k :: 0 <= k < |s| ==> s[k] <= ' '
    ensures LeadingBlank(s) + |r| <= |s| && r == s[LeadingBlank(s)..LeadingBlank(s) + |r|]
    ensures forall k :: LeadingBlank(s) + |r| <= k < |s| ==> s[k] <= ' '
  {
    var a := LeadingBlank(s);
    var b := TrailingBlank(s[a..]);
    TrimEnds(s, a, b);
    s[a..|s| - b]
  }

  /** What the two blank counts say about the text they were taken from. */
  lemma TrimEnds(s: string, a: nat, b: nat)
    requires a == LeadingBlank(s) && b == TrailingBlank(s[a..])
    ensures a + b <= |s|
    ensures forall k :: |s| - b <= k < |s| ==> s[k] <= ' '
    ensures a + b < |s| ==> s[|s| - b - 1] > ' '
    ensures a + b == |s| <==> forall k :: 0 <= k < |s| ==> s[k] <= ' '
  {
    TrailingOfSuffix(s, a, b);
    if forall k :: 0 <= k < |s| ==> s[k] <= ' ' {
      assert a == |s|;
    }
  }

  /** The trailing blanks of a suffix are trailing blanks of the whole text. */
  lemma TrailingOfSuffix(s: string, a: nat, b: nat)
    requires a <= |s| && b == TrailingBlank(s[a..])
    ensures a + b <= |s|
    ensures forall k :: |s| - b <= k < |s| ==> s[k] <= ' '
    ensures a + b < |s| ==> s[|s| - b - 1] > ' '
  {
    var t := s[a..];
    forall k | |s| - b <= k < |s|
      ensures s[k] <= ' '
    {
      assert s[k] == t[k - a];
    }
    if a + b < |s| {
      assert s[|s| - b - 1] == t[|t| - b - 1];
    }
  }

  /** Trimming twice trims nothing more. */
  lemma TrimIdempotent(s: string)
    ensures Trim(Trim(s)) == Trim(s)
  {
    var r := Trim(s);
    if |r| > 0 {
      assert LeadingBlank(r) == 0;
      assert r[0..] == r;
      assert TrailingBlank(r) == 0;
    }
  }

  predicate StartsWith(s: string, p: string) {
    |p| <= |s| && s[..|p|] == p
  }

  predicate EndsWith(s: string, p: string) {
    |p| <= |s| && s[|s| - |p|..] == p
  }

  /** `indexOf(char)`: the first position holding c, or -1. */
  function IndexOfChar(s: string, c: char): (i: int)
    ensures -1 <= i < |s|
    ensures i == -1 <==> c !in s
    ensures i >= 0 ==> s[i] == c && c !in s[..i]
  {
    if |s| == 0 then -1
    else if s[0] == c then 0
    else
      var j := IndexOfChar(s[1..], c);
      assert s[1..][..if j < 0 then 0 else j] == s[1..1 + (if j < 0 then 0 else j)];
      if j < 0 then -1 else j + 1
  }

  /** `lastIndexOf(char)`: the last position holding c, or -1. */
  function LastIndexOfChar(s: string, c: char): (i: int)
    ensures -1 <= i < |s|
    ensures i == -1 <==> c !in s
    ensures i >= 0 ==> s[i] == c && c !in s[i + 1..]
  {
    if |s| == 0 then -1
    else if s[|s| - 1] == c then |s| - 1
    else
      assert s[..|s| - 1] + [s[|s| - 1]] == s;
      var j := LastIndexOfChar(s[..|s| - 1], c);
      assert j >= 0 ==> s[j + 1..] == s[..|s| - 1][j + 1..] + [s[|s| - 1]];
      j
  }

  /** p occurs in s starting at position j. */
  predicate OccursAt(s: string, p: string, j: int) {
    0 <= j && j + |p| <= |s| && s[j..j + |p|] == p
  }

  /** `indexOf(String)`: the first position at which p occurs in s, or -1. */
  function IndexOf(s: string, p: string): (i: int)
    ensures -1 <= i <= |s|
    ensures i >= 0 ==> i + |p| <= |s| && s[i..i + |p|] == p
    ensures i >= 0 ==> OccursAt(s, p, i) && forall j :: 0 <= j < i ==> !OccursAt(s, p, j)
    ensures i == -1 ==> forall j :: 0 <= j ==> !OccursAt(s, p, j)
  {
    IndexOfFrom(s, p, 0)
  }

  /** `indexOf` of a one-character string finds what `indexOf(char)` finds,
      which is how the one-character searches of the widgets are modelled. */
  lemma IndexOfOneChar(s: string, c: char)
    ensures IndexOf(s, [c]) == IndexOfChar(s, c)
  {
    forall j | 0 <= j < |s|
      ensures OccursAt(s, [c], j) <==> s[j] == c
    {
      assert s[j..j + 1] == [s[j]];
    }
    var a, b := IndexOf(s, [c]), IndexOfChar(s, c);
    if b >= 0 {
      assert OccursAt(s, [c], b);
      assert forall j :: 0 <= j < b ==> s[..b][j] == s[j];
    }
    if a >= 0 {
      assert s[a] == c;
    }
  }

  function IndexOfFrom(s: string, p: string, from: nat): (i: int)
    requires from <= |s| + 1
    ensures i == -1 || from <= i <= |s|
    ensures i >= 0 ==> i + |p| <= |s| && s[i..i + |p|] == p
    ensures i >= 0 ==> OccursAt(s, p, i) && forall j :: from <= j < i ==> !OccursAt(s, p, j)
    ensures i == -1 ==> forall j :: from <= j ==> !OccursAt(s, p, j)
    decreases |s| + 1 - from
  {
    if from + |p| > |s| then -1
    else if s[from..from + |p|] == p then from
    else IndexOfFrom(s, p, from + 1)
  }

  /** `toLowerCase` on the ASCII letters; other characters are unchanged. */
  function ToLower(s: string): (r: string)
    ensures |r| == |s|
    ensures forall k :: 0 <= k < |s| ==> r[k] == LowerChar(s[k])
  {
    seq(|s|, k requires 0 <= k < |s| => LowerChar(s[k]))
  }

  function LowerChar(c: char): char {
    if 'A' <= c <= 'Z' then (c as int + 32) as char else c
  }
  /** The length of the longest piece, 0 for no pieces. */
  function Longest(p: seq<string>): (r: nat)
    ensures forall k :: 0 <= k < |p| ==> |p[k]| <= r
    ensures |p| > 0 ==> exists k :: 0 <= k < |p| && |p[k]| == r
    ensures |p| == 0 ==> r == 0
  {
    if |p| == 0 then 0
    else
      var m := Longest(p[1..]);
      assert forall k :: 1 <= k < |p| ==> p[1..][k - 1] == p[k];
      if |p[0]| > m then |p[0]| else m
  }

  /** Leaving out empty pieces does not change the longest one. */
  lemma {:induction false} LongestNonEmpty(p: seq<string>)
    requires forall i :: 0 <= i < |p| ==> '\n' !in p[i]
    ensures Longest(NonEmpty(p)) == Longest(p)
    decreases |p|
  {
    if |p| > 0 {
      LongestNonEmpty(p[1..]);
      if p[0] != "" {
        var q := [p[0]] + NonEmpty(p[1..]);
        assert q[1..] == NonEmpty(p[1..]);
      }
    }
  }

  /** A piece sequence followed only by empty pieces has the same longest
      piece as the whole. */
  lemma {:induction false} LongestPrefix(p: seq<string>, n: nat)
    requires n <= |p|
    requires forall i :: n <= i < |p| ==> p[i] == ""
    ensures Longest(p[..n]) == Longest(p)
    decreases n
  {
    if n == 0 {
      assert forall k :: 0 <= k < |p| ==> |p[k]| == 0;
    } else {
      LongestPrefix(p[1..], n - 1);
      assert p[..n][1..] == p[1..][..n - 1];
    }
  }

  /** Java's `split` and the tokenizer agree on the longest line. */
  lemma LongestSplitTokens(s: string)
    ensures Longest(Split(s)) == Longest(Tokens(s))
  {
    LongestNonEmpty(SplitAll(s));
    if '\n' !in s {
      SplitAllNoNewline(s);
    } else {
      LongestPrefix(SplitAll(s), |Split(s)|);
    }
  }

  /** No piece is longer than the string it was cut from. */
  lemma {:induction false} SplitAllPiecesShort(s: string)
    ensures forall i :: 0 <= i < |SplitAll(s)| ==> |SplitAll(s)[i]| <= |s|
    decreases |s|
  {
    if |s| > 0 {
      SplitAllPiecesShort(s[1..]);
    }
  }

  lemma SplitPiecesShort(s: string)
    ensures forall i :: 0 <= i < |Split(s)| ==> |Split(s)[i]| <= |s|
  {
    SplitAllPiecesShort(s);
  }
}
