/** Text layout helpers of `jcurses.util.TextUtils`: wrapping, padding,
    centring and line breaking.  Every helper that can throw returns a
    `Result`. */
module TextUtils {
  import opened Wrappers
  import opened JavaStrings
  import Geometry

  /** The strings laid end to end. */
  function Concat(p: seq<string>): string {
    if |p| == 0 then "" else p[0] + Concat(p[1..])
  }

  lemma {:induction false} ConcatAppend(p: seq<string>, q: seq<string>)
    ensures Concat(p + q) == Concat(p) + Concat(q)
    decreases |p|
  {
    if |p| > 0 {
      assert (p + q)[1..] == p[1..] + q;
      ConcatAppend(p[1..], q);
    } else {
      assert p + q == q;
    }
  }

  /* ---------------------------------------------------------------------
     wrapLines, as written
     --------------------------------------------------------------------- */

  /** The inner scan of `wrapLines`: step `brk` down towards `pos` until a
      whitespace character is found.  Only the first probe can fall outside
      the line, which raises `StringIndexOutOfBoundsException`. */
  function FindBreak(line: string, pos: int, brk: int): (r: Result<int>)
    requires 0 <= pos
    ensures r.Err? <==> pos < brk && |line| <= brk
    ensures r.Err? ==> r.error == StringIndexOutOfBounds
    ensures r.Ok? && r.value > pos ==>
      r.value <= brk && r.value < |line| && IsWhitespace(line[r.value])
      && forall k :: r.value < k <= brk ==> !IsWhitespace(line[k])
    ensures r.Ok? && r.value <= pos ==>
      r.value == Geometry.Min(brk, pos) && forall k :: pos < k <= brk ==> !IsWhitespace(line[k])
    decreases brk - pos
  {
    if brk <= pos then Ok(brk)
    else if |line| <= brk then Err(StringIndexOutOfBounds)
    else if IsWhitespace(line[brk]) then Ok(brk)
    else FindBreak(line, pos, brk - 1)
  }

  /** The end of the piece that starts at `pos`: the last whitespace within
      `aLen` characters after `pos`, or `pos + aLen + 1` when there is none. */
  function WrapBreak(line: string, aLen: int, pos: int): (r: Result<int>)
    requires 0 <= pos
    ensures r.Ok? && r.value != pos + aLen + 1 ==>
      pos < r.value <= pos + aLen && r.value < |line| && IsWhitespace(line[r.value])
  {
    var b :- FindBreak(line, pos, pos + aLen);
    Ok(if b <= pos then pos + aLen + 1 else b)
  }

  /** The loop of `wrapLines` over one line.  `curLen` is the Java code's
      remaining-length counter, which is decremented by the piece length but
      not by the dropped break character. */
  function WrapFrom(line: string, aLen: int, pos: int, curLen: int): (r: Result<seq<string>>)
    requires 0 <= pos <= |line| + 1
    ensures r.Ok? ==> |r.value| >= 1
    ensures r.Ok? ==> forall i, c :: 0 <= i < |r.value| && c in r.value[i] ==> c in line
    ensures r.Err? ==> r.error == StringIndexOutOfBounds
    decreases |line| + 1 - pos
  {
    if curLen <= aLen then
      if pos <= |line| then Ok([line[pos..]]) else Err(StringIndexOutOfBounds)
    else
      var brk :- WrapBreak(line, aLen, pos);
      if brk < pos || |line| < brk then Err(StringIndexOutOfBounds)
      else
        var rest :- WrapFrom(line, aLen, brk + 1, curLen - (brk - pos));
        Ok([line[pos..brk]] + rest)
  }

  function WrapLine(line: string, aLen: int): (r: Result<seq<string>>)
    ensures r.Ok? ==> forall i, c :: 0 <= i < |r.value| && c in r.value[i] ==> c in line
  {
    WrapFrom(line, aLen, 0, |line|)
  }

  function WrapAll(lines: seq<string>, aLen: int): (r: Result<seq<string>>)
    ensures r.Ok? && (forall i :: 0 <= i < |lines| ==> '\n' !in lines[i]) ==>
      forall i :: 0 <= i < |r.value| ==> '\n' !in r.value[i]
  {
    if |lines| == 0 then Ok([])
    else
      var first :- WrapLine(lines[0], aLen);
      var rest :- WrapAll(lines[1..], aLen);
      Ok(first + rest)
  }

  /** `wrapLines`: a missing text gives no lines; otherwise each line of the
      text is cut into pieces of at most `aLen` characters at whitespace.
      The produced pieces never contain a line feed. */
  function WrapLines(msg: Option<string>, aLen: int): (r: Result<seq<string>>)
    ensures msg.None? ==> r == Ok([])
    ensures r.Ok? ==> forall i :: 0 <= i < |r.value| ==> '\n' !in r.value[i]
  {
    match msg
    case None => Ok([])
    case Some(s) => WrapAll(Split(s), aLen)
  }

  /** A line that fits is left whole. */
  lemma ShortLineUnchanged(line: string, aLen: int)
    requires |line| <= aLen
    ensures WrapLine(line, aLen) == Ok([line])
  {
    assert line[0..] == line;
  }

  /** When every line of the text fits, wrapping is exactly Java's split. */
  lemma {:induction false} WrapAllShortLines(lines: seq<string>, aLen: int)
    requires forall i :: 0 <= i < |lines| ==> |lines[i]| <= aLen
    ensures WrapAll(lines, aLen) == Ok(lines)
    decreases |lines|
  {
    if |lines| > 0 {
      ShortLineUnchanged(lines[0], aLen);
      WrapAllShortLines(lines[1..], aLen);
      assert [lines[0]] + lines[1..] == lines;
    }
  }

  lemma WrapLinesShortLines(s: string, aLen: int)
    requires forall i :: 0 <= i < |Split(s)| ==> |Split(s)[i]| <= aLen
    ensures WrapLines(Some(s), aLen) == Ok(Split(s))
  {
    WrapAllShortLines(Split(s), aLen);
  }

  /** A long line whose first `aLen + 1` characters hold a whitespace after
      the start is cut just before the last such whitespace, which is
      dropped. */
  lemma WrapLineCutsAtLastWhitespace(line: string, aLen: int, b: int)
    requires 0 < b <= aLen < |line|
    requires IsWhitespace(line[b])
    requires forall k :: b < k <= aLen ==> !IsWhitespace(line[k])
    ensures WrapLine(line, aLen).Ok? ==> WrapLine(line, aLen).value[0] == line[..b] && b <= aLen
  {
    assert FindBreak(line, 0, aLen) == Ok(b);
  }

  /** The cut without any whitespace keeps `aLen + 1` characters and then
      silently drops one; a line with a late space can make the scan read
      past its end. */
  lemma WrapLinesAsWritten()
    ensures WrapLines(Some("abcdef"), 3) == Ok(["abcd", "f"])
    ensures WrapLines(Some("ab cde"), 3) == Err(StringIndexOutOfBounds)
  {
    var s := "abcdef";
    SplitAllNoNewline(s);
    assert FindBreak(s, 0, 3) == Ok(0);
    assert WrapBreak(s, 3, 0) == Ok(4);
    assert WrapFrom(s, 3, 5, 2) == Ok(["f"]) by { assert s[5..] == "f"; }
    assert s[0..4] == "abcd";
    assert WrapFrom(s, 3, 0, 6) == Ok([s[0..4]] + ["f"]);
    assert |s| == 6 && [s[0..4]] + ["f"] == ["abcd", "f"];
    assert WrapLine(s, 3) == Ok(["abcd", "f"]);
    var none: seq<string> := [];
    assert [s][1..] == none && ["abcd", "f"] + none == ["abcd", "f"];
    assert WrapAll([s], 3) == Ok(["abcd", "f"]);
    var t := "ab cde";
    SplitAllNoNewline(t);
    assert FindBreak(t, 0, 3) == Ok(2);
    assert WrapBreak(t, 3, 0) == Ok(2);
    assert FindBreak(t, 3, 6).Err?;
    assert WrapFrom(t, 3, 3, 4).Err?;
    assert WrapLine(t, 3).Err?;
  }

  /* ---------------------------------------------------------------------
     wrapLines, corrected
     --------------------------------------------------------------------- */

  /** The non-whitespace characters of s, in order. */
  function NonBlank(s: string): string {
    if |s| == 0 then ""
    else if IsWhitespace(s[0]) then NonBlank(s[1..])
    else [s[0]] + NonBlank(s[1..])
  }

  lemma {:induction false} NonBlankAppend(a: string, b: string)
    ensures NonBlank(a + b) == NonBlank(a) + NonBlank(b)
    decreases |a|
  {
    if |a| > 0 {
      assert (a + b)[1..] == a[1..] + b;
      NonBlankAppend(a[1..], b);
    } else {
      assert a + b == b;
    }
  }

  /** The last whitespace in (pos, brk], or pos when there is none. */
  function LastWhitespace(line: string, pos: int, brk: int): (b: int)
    requires 0 <= pos <= brk < |line|
    ensures pos <= b <= brk
    ensures b > pos ==> IsWhitespace(line[b])
    ensures forall k :: Geometry.Max(b, pos) < k <= brk ==> !IsWhitespace(line[k])
    decreases brk - pos
  {
    if brk == pos || IsWhitespace(line[brk]) then brk
    else LastWhitespace(line, pos, brk - 1)
  }

  /** One line wrapped as the documentation promises: pieces of at most
      `aLen` characters, cut at the last whitespace (which is dropped) or,
      when there is none, after exactly `aLen` characters. */
  function WrapFromCorrected(line: string, aLen: int, pos: int): (r: seq<string>)
    requires aLen >= 1 && 0 <= pos <= |line|
    ensures |r| >= 1
    ensures forall i :: 0 <= i < |r| ==> |r[i]| <= aLen
    decreases |line| - pos
  {
    if |line| - pos <= aLen then [line[pos..]]
    else
      var b := LastWhitespace(line, pos, pos + aLen);
      if b > pos then [line[pos..b]] + WrapFromCorrected(line, aLen, b + 1)
      else [line[pos..pos + aLen]] + WrapFromCorrected(line, aLen, pos + aLen)
  }

  lemma ConcatCons(x: string, rest: seq<string>)
    ensures Concat([x] + rest) == x + Concat(rest)
  {
    assert ([x] + rest)[1..] == rest;
  }

  lemma NonBlankCut(line: string, pos: int, m: int)
    requires 0 <= pos <= m <= |line|
    ensures NonBlank(line[pos..]) == NonBlank(line[pos..m]) + NonBlank(line[m..])
  {
    assert line[pos..] == line[pos..m] + line[m..];
    NonBlankAppend(line[pos..m], line[m..]);
  }

  lemma NonBlankDropWhitespace(line: string, b: int)
    requires 0 <= b < |line| && IsWhitespace(line[b])
    ensures NonBlank(line[b..]) == NonBlank(line[b + 1..])
  {
    assert line[b..][1..] == line[b + 1..];
  }

  /** Prepending a piece to the wrap of the rest keeps the non-blank text of
      the line from `pos`, provided the characters between the piece and
      the rest are blank. */
  lemma PieceKeepsText(line: string, pos: int, m: int, next: int, rest: seq<string>)
    requires 0 <= pos <= m <= next <= |line|
    requires NonBlank(line[m..]) == NonBlank(line[next..])
    requires NonBlank(Concat(rest)) == NonBlank(line[next..])
    ensures NonBlank(Concat([line[pos..m]] + rest)) == NonBlank(line[pos..])
  {
    ConcatCons(line[pos..m], rest);
    NonBlankAppend(line[pos..m], Concat(rest));
    NonBlankCut(line, pos, m);
  }

  /** Wrapping drops nothing but the whitespace at the cuts. */
  lemma {:induction false} WrapFromCorrectedKeepsText(line: string, aLen: int, pos: int)
    requires aLen >= 1 && 0 <= pos <= |line|
    ensures NonBlank(Concat(WrapFromCorrected(line, aLen, pos))) == NonBlank(line[pos..])
    decreases |line| - pos
  {
    if |line| - pos <= aLen {
      ConcatCons(line[pos..], []);
      assert line[pos..] + "" == line[pos..];
    } else {
      var b := LastWhitespace(line, pos, pos + aLen);
      var m := if b > pos then b else pos + aLen;
      var next := if b > pos then b + 1 else pos + aLen;
      var rest := WrapFromCorrected(line, aLen, next);
      assert WrapFromCorrected(line, aLen, pos) == [line[pos..m]] + rest;
      WrapFromCorrectedKeepsText(line, aLen, next);
      if b > pos {
        NonBlankDropWhitespace(line, b);
      }
      PieceKeepsText(line, pos, m, next, rest);
    }
  }

  function WrapAllCorrected(lines: seq<string>, aLen: int): (r: seq<string>)
    requires aLen >= 1
    ensures forall i :: 0 <= i < |r| ==> |r[i]| <= aLen
  {
    if |lines| == 0 then []
    else WrapFromCorrected(lines[0], aLen, 0) + WrapAllCorrected(lines[1..], aLen)
  }

  /** `wrapLines` with the hard cut repaired: it never fails, every piece
      fits, and only whitespace at cuts is lost. */
  function WrapLinesCorrected(msg: Option<string>, aLen: int): (r: seq<string>)
    requires aLen >= 1
    ensures forall i :: 0 <= i < |r| ==> |r[i]| <= aLen
    ensures msg.None? ==> r == []
  {
    match msg
    case None => []
    case Some(s) => WrapAllCorrected(Split(s), aLen)
  }

  lemma {:induction false} WrapAllCorrectedKeepsText(lines: seq<string>, aLen: int)
    requires aLen >= 1
    ensures NonBlank(Concat(WrapAllCorrected(lines, aLen))) == NonBlank(Concat(lines))
    decreases |lines|
  {
    if |lines| > 0 {
      var first := WrapFromCorrected(lines[0], aLen, 0);
      var rest := WrapAllCorrected(lines[1..], aLen);
      WrapFromCorrectedKeepsText(lines[0], aLen, 0);
      WrapAllCorrectedKeepsText(lines[1..], aLen);
      ConcatAppend(first, rest);
      NonBlankAppend(Concat(first), Concat(rest));
      NonBlankAppend(lines[0], Concat(lines[1..]));
      assert lines[0][0..] == lines[0];
    }
  }

  lemma WrapLinesCorrectedKeepsText(s: string, aLen: int)
    requires aLen >= 1
    ensures NonBlank(Concat(WrapLinesCorrected(Some(s), aLen))) == NonBlank(Concat(Split(s)))
  {
    WrapAllCorrectedKeepsText(Split(s), aLen);
  }

  /** The repaired cut on the text the Java code mangles. */
  lemma WrapLinesCorrectedExample()
    ensures WrapLinesCorrected(Some("abcdef"), 3) == ["abc", "def"]
  {
    var s := "abcdef";
    SplitAllNoNewline(s);
    assert LastWhitespace(s, 0, 3) == 0;
    assert s[3..] == "def" && s[0..3] == "abc";
    assert WrapFromCorrected(s, 3, 3) == ["def"];
    assert WrapFromCorrected(s, 3, 0) == ["abc", "def"];
  }

  /* ---------------------------------------------------------------------
     Padding and centring
     --------------------------------------------------------------------- */

  predicate AllChar(s: string, c: char) {
    forall k :: 0 <= k < |s| ==> s[k] == c
  }

  /** `replicate`: aLen copies of a character; a negative length fails when
      the buffer is allocated. */
  function Replicate(c: char, n: int): (r: Result<string>)
    ensures r.Err? <==> n < 0
    ensures r.Err? ==> r.error == NegativeArraySize
    ensures r.Ok? ==> |r.value| == n && AllChar(r.value, c)
  {
    if n < 0 then Err(NegativeArraySize) else Ok(seq(n, _ => c))
  }

  /** `leftPad`: right-justifies s in a field of n blanks; fails when s is
      longer than the field. */
  function LeftPad(s: string, n: int): (r: Result<string>)
    ensures r.Err? <==> n < |s|
    ensures r.Ok? ==> |r.value| == n && EndsWith(r.value, s) && AllChar(r.value[..n - |s|], ' ')
  {
    var pad :- Replicate(' ', n - |s|);
    assert (pad + s)[..n - |s|] == pad;
    Ok(pad + s)
  }

  /** `center`: s in a field of n characters with floor(d/2) blanks before
      and ceil(d/2) after, d = n - |s|; fails when s is longer than the
      field. */
  function Center(s: string, n: int): (r: Result<string>)
    ensures r.Err? <==> n < |s|
    ensures r.Ok? ==> |r.value| == n
    ensures r.Ok? ==> var left := (n - |s|) / 2;
      r.value[left..left + |s|] == s && AllChar(r.value[..left], ' ') && AllChar(r.value[left + |s|..], ' ')
      && left <= n - |s| - left <= left + 1
  {
    var d := n - |s|;
    match Replicate(' ', FloorHalf(d))
    case Err(e) => Err(e)
    case Ok(before) =>
      var after := Replicate(' ', CeilHalf(d)).value;
      var r := before + s + after;
      assert r[..|before|] == before;
      assert r[|before|..|before| + |s|] == s;
      assert r[|before| + |s|..] == after;
      Ok(r)
  }

  /** `(int) Math.floor(d / 2.0)` and `(int) Math.ceil(d / 2.0)`. */
  function FloorHalf(d: int): (h: int)
    ensures 2 * h == d || 2 * h == d - 1
  {
    d / 2
  }

  function CeilHalf(d: int): (h: int)
    ensures FloorHalf(d) + h == d
    ensures 2 * h == d || 2 * h == d + 1
  {
    d - d / 2
  }

  /** The array form of `center`: every line centred in place, failing when
      any line is too long. */
  function CenterAll(lines: seq<string>, n: int): (r: Result<seq<string>>)
    ensures r.Ok? <==> forall i :: 0 <= i < |lines| ==> |lines[i]| <= n
    ensures r.Ok? ==> |r.value| == |lines| && forall i :: 0 <= i < |lines| ==> Center(lines[i], n) == Ok(r.value[i])
  {
    if |lines| == 0 then Ok([])
    else
      var first :- Center(lines[0], n);
      var rest :- CenterAll(lines[1..], n);
      Ok([first] + rest)
  }

  /** The array form of `leftPad`. */
  function LeftPadAll(lines: seq<string>, n: int): (r: Result<seq<string>>)
    ensures r.Ok? <==> forall i :: 0 <= i < |lines| ==> |lines[i]| <= n
    ensures r.Ok? ==> |r.value| == |lines| && forall i :: 0 <= i < |lines| ==> LeftPad(lines[i], n) == Ok(r.value[i])
  {
    if |lines| == 0 then Ok([])
    else
      var first :- LeftPad(lines[0], n);
      var rest :- LeftPadAll(lines[1..], n);
      Ok([first] + rest)
  }

  /* ---------------------------------------------------------------------
     mergeLines and wrap
     --------------------------------------------------------------------- */

  /** Each line followed by a line feed. */
  function Terminated(lines: seq<string>): string {
    if |lines| == 0 then "" else lines[0] + "\n" + Terminated(lines[1..])
  }

  /** `mergeLines`: every line terminated by a line feed, and one more line
      feed at the end. */
  function MergeLines(lines: seq<string>): (r: string)
    ensures |r| >= 1 && r[|r| - 1] == '\n'
  {
    Terminated(lines) + "\n"
  }

  lemma {:induction false} SplitAllTerminated(lines: seq<string>, t: string)
    requires forall i :: 0 <= i < |lines| ==> '\n' !in lines[i]
    ensures SplitAll(Terminated(lines) + t) == lines + SplitAll(t)
    decreases |lines|
  {
    if |lines| > 0 {
      var rest := Terminated(lines[1..]) + t;
      var u := "\n" + rest;
      TerminatedUnfold(lines, t);
      SplitAllPrefix(lines[0], u);
      SplitAllAtNewline(rest);
      SplitAllTerminated(lines[1..], t);
      ConsPieces(lines, SplitAll(t));
    } else {
      assert Terminated(lines) + t == t;
    }
  }

  lemma TerminatedUnfold(lines: seq<string>, t: string)
    requires |lines| > 0
    ensures Terminated(lines) + t == lines[0] + ("\n" + (Terminated(lines[1..]) + t))
  {
  }

  /** A leading line feed closes an empty first piece. */
  lemma SplitAllAtNewline(rest: string)
    ensures SplitAll("\n" + rest) == [""] + SplitAll(rest)
  {
    assert ("\n" + rest)[1..] == rest;
  }

  lemma ConsPieces(lines: seq<string>, tail: seq<string>)
    requires |lines| > 0
    ensures [lines[0] + ""] + (lines[1..] + tail) == lines + tail
  {
    assert lines[0] + "" == lines[0];
    assert lines == [lines[0]] + lines[1..];
  }

  /** Splitting merged lines at every line feed gives back the lines and two
      empty pieces, one for the closing line feed and one after it. */
  lemma MergeLinesSplitsBack(lines: seq<string>)
    requires forall i :: 0 <= i < |lines| ==> '\n' !in lines[i]
    ensures SplitAll(MergeLines(lines)) == lines + ["", ""]
  {
    SplitAllTerminated(lines, "\n");
    assert SplitAll("\n") == ["", ""];
  }

  /** With Java's split the round trip is exact when the last line is not
      empty. */
  lemma MergeLinesRoundTrip(lines: seq<string>)
    requires forall i :: 0 <= i < |lines| ==> '\n' !in lines[i]
    requires |lines| > 0 && lines[|lines| - 1] != ""
    ensures Split(MergeLines(lines)) == lines
  {
    MergeLinesSplitsBack(lines);
    var m := MergeLines(lines);
    assert m[|m| - 1] == '\n';
    var p := lines + ["", ""];
    assert p[..|p| - 1] == lines + [""];
    assert (lines + [""])[..|lines|] == lines;
  }

  /** `wrap`: the wrapped lines merged into one paragraph. */
  function Wrap(msg: Option<string>, aLen: int): (r: Result<string>)
    ensures r.Ok? <==> WrapLines(msg, aLen).Ok?
    ensures r.Ok? ==> SplitAll(r.value) == WrapLines(msg, aLen).value + ["", ""]
  {
    var lines :- WrapLines(msg, aLen);
    MergeLinesSplitsBack(lines);
    Ok(MergeLines(lines))
  }

  /* ---------------------------------------------------------------------
     breakLines
     --------------------------------------------------------------------- */

  predicate NoBreaks(s: string) {
    '\n' !in s && '\r' !in s
  }

  /** s without its line feeds and carriage returns. */
  function RemoveBreaks(s: string): (r: string)
    ensures NoBreaks(r)
  {
    if |s| == 0 then ""
    else if s[0] == '\n' || s[0] == '\r' then RemoveBreaks(s[1..])
    else [s[0]] + RemoveBreaks(s[1..])
  }

  /** s without its carriage returns. */
  function StripCR(s: string): (r: string)
    ensures '\r' !in r
  {
    if |s| == 0 then ""
    else if s[0] == '\r' then StripCR(s[1..])
    else [s[0]] + StripCR(s[1..])
  }

  /** A finished line: one longer than the width is split once at the
      width, the tail not being split again. */
  function EmitLine(line: string, maxWidth: int): (r: Result<seq<string>>)
    ensures r.Err? <==> maxWidth < 0
    ensures r.Ok? ==> Concat(r.value) == line && 1 <= |r.value| <= 2
    ensures r.Ok? ==> (|r.value| == 2 <==> |line| > maxWidth)
    ensures r.Ok? && |r.value| == 2 ==> |r.value[0]| == maxWidth
  {
    if |line| > maxWidth then
      if maxWidth < 0 then Err(StringIndexOutOfBounds)
      else
        ConcatCons(line[maxWidth..], []);
        ConcatCons(line[..maxWidth], [line[maxWidth..]]);
        assert line[..maxWidth] + (line[maxWidth..] + "") == line;
        Ok([line[..maxWidth], line[maxWidth..]])
    else
      ConcatCons(line, []);
      assert line + "" == line;
      Ok([line])
  }

  lemma EmitLineNoBreaks(line: string, maxWidth: int)
    requires NoBreaks(line) && maxWidth >= 0
    ensures forall i :: 0 <= i < |EmitLine(line, maxWidth).value| ==> NoBreaks(EmitLine(line, maxWidth).value[i])
  {
    if |line| > maxWidth {
      assert forall c :: c in line[..maxWidth] ==> c in line;
      assert forall c :: c in line[maxWidth..] ==> c in line;
    }
  }

  /** The scan of `breakLines` over the rest of the text, `buffer` holding
      the current unfinished line. */
  function BreakFrom(text: string, maxWidth: int, buffer: string): (r: Result<seq<string>>)
    requires NoBreaks(buffer)
    ensures r.Err? <==> maxWidth < 0 && '\n' in text
    ensures r.Ok? ==> Concat(r.value) == buffer + RemoveBreaks(text)
    ensures r.Ok? ==> forall i :: 0 <= i < |r.value| ==> NoBreaks(r.value[i])
    decreases |text|
  {
    if |text| == 0 then
      assert buffer + "" == buffer;
      ConcatCons(buffer, []);
      Ok(if |buffer| > 0 then [buffer] else [])
    else
      assert text == [text[0]] + text[1..];
      if text[0] == '\n' then
        match EmitLine(buffer, maxWidth)
        case Err(e) => Err(e)
        case Ok(emitted) =>
          EmitLineNoBreaks(buffer, maxWidth);
          var rest := BreakFrom(text[1..], maxWidth, "").value;
          ConcatAppend(emitted, rest);
          assert "" + RemoveBreaks(text[1..]) == RemoveBreaks(text[1..]);
          Ok(emitted + rest)
      else if text[0] == '\r' then
        BreakFrom(text[1..], maxWidth, buffer)
      else
        assert buffer + [text[0]] + RemoveBreaks(text[1..]) == buffer + RemoveBreaks(text);
        BreakFrom(text[1..], maxWidth, buffer + [text[0]])
  }

  /** `breakLines`: the text cut at line feeds with carriage returns
      ignored, each finished line longer than `maxWidth` split once, and a
      non-empty unfinished last line kept.  Only a negative width can fail,
      and it fails as soon as any line is finished. */
  function BreakLines(text: string, maxWidth: int): (r: Result<seq<string>>)
    ensures r.Err? <==> maxWidth < 0 && '\n' in text
    ensures r.Ok? ==> Concat(r.value) == RemoveBreaks(text)
    ensures r.Ok? ==> forall i :: 0 <= i < |r.value| ==> NoBreaks(r.value[i])
  {
    assert "" + RemoveBreaks(text) == RemoveBreaks(text);
    BreakFrom(text, maxWidth, "")
  }

  /** Reference definition: every line-feed-terminated line of the text
      (carriage returns removed) emitted, then the unterminated rest when
      it is not empty. */
  function BreakLinesReference(text: string, maxWidth: nat): seq<string> {
    var p := SplitAll(StripCR(text));
    EmitAll(p[..|p| - 1], maxWidth) + (if p[|p| - 1] != "" then [p[|p| - 1]] else [])
  }

  function EmitAll(lines: seq<string>, maxWidth: nat): seq<string> {
    if |lines| == 0 then []
    else EmitLine(lines[0], maxWidth).value + EmitAll(lines[1..], maxWidth)
  }

  /** A line feed after the buffer finishes the buffer's line. */
  lemma ReferenceAtNewline(buffer: string, t: string, maxWidth: nat)
    requires NoBreaks(buffer)
    ensures BreakLinesReference(buffer + (['\n'] + t), maxWidth)
         == EmitLine(buffer, maxWidth).value + BreakLinesReference(t, maxWidth)
  {
    StripCRNoCR(buffer);
    StripCRAppend(buffer, ['\n'] + t);
    StripCRAppend(['\n'], t);
    assert StripCR(['\n']) == "\n";
    var st := StripCR(t);
    SplitAllPrefix(buffer, "\n" + st);
    assert ("\n" + st)[1..] == st;
    var q := SplitAll(st);
    var p := SplitAll(StripCR(buffer + (['\n'] + t)));
    assert p == [buffer] + q by {
      assert StripCR(buffer + (['\n'] + t)) == buffer + ("\n" + st);
      assert buffer + "" == buffer;
    }
    assert p[..|p| - 1] == [buffer] + q[..|q| - 1];
    assert ([buffer] + q[..|q| - 1])[1..] == q[..|q| - 1];
    var e := EmitLine(buffer, maxWidth).value;
    var ea := EmitAll(q[..|q| - 1], maxWidth);
    assert EmitAll(p[..|p| - 1], maxWidth) == e + ea;
    var tail: seq<string> := if q[|q| - 1] != "" then [q[|q| - 1]] else [];
    assert (e + ea) + tail == e + (ea + tail);
  }

  /** A carriage return is invisible to the reference. */
  lemma ReferenceSkipsCR(buffer: string, t: string, maxWidth: nat)
    ensures BreakLinesReference(buffer + (['\r'] + t), maxWidth) == BreakLinesReference(buffer + t, maxWidth)
  {
    StripCRAppend(buffer, ['\r'] + t);
    StripCRAppend(['\r'], t);
    StripCRAppend(buffer, t);
    assert StripCR(['\r']) == "";
    assert "" + StripCR(t) == StripCR(t);
  }

  lemma {:induction false} BreakFromMatchesReference(text: string, maxWidth: nat, buffer: string)
    requires NoBreaks(buffer)
    ensures BreakFrom(text, maxWidth, buffer) == Ok(BreakLinesReference(buffer + text, maxWidth))
    decreases |text|
  {
    if |text| == 0 {
      StripCRNoCR(buffer);
      assert buffer + text == buffer;
      SplitAllNoNewline(buffer);
      var p := SplitAll(StripCR(buffer + text));
      assert p == [buffer];
      assert p[..|p| - 1] == [];
      assert EmitAll([], maxWidth) == [];
      var tail: seq<string> := if buffer != "" then [buffer] else [];
      assert [] + tail == tail;
    } else {
      if text[0] == '\n' {
        BreakFromMatchesReference(text[1..], maxWidth, "");
        assert "" + text[1..] == text[1..];
        assert text == ['\n'] + text[1..];
        ReferenceAtNewline(buffer, text[1..], maxWidth);
        assert BreakFrom(text, maxWidth, buffer)
            == Ok(EmitLine(buffer, maxWidth).value + BreakFrom(text[1..], maxWidth, "").value);
      } else if text[0] == '\r' {
        BreakFromMatchesReference(text[1..], maxWidth, buffer);
        assert text == ['\r'] + text[1..];
        ReferenceSkipsCR(buffer, text[1..], maxWidth);
      } else {
        BreakFromMatchesReference(text[1..], maxWidth, buffer + [text[0]]);
        assert (buffer + [text[0]]) + text[1..] == buffer + text;
      }
    }
  }

  lemma {:induction false} StripCRAppend(a: string, b: string)
    ensures StripCR(a + b) == StripCR(a) + StripCR(b)
    decreases |a|
  {
    if |a| > 0 {
      assert (a + b)[1..] == a[1..] + b;
      StripCRAppend(a[1..], b);
    } else {
      assert a + b == b;
    }
  }

  lemma {:induction false} StripCRNoCR(s: string)
    requires '\r' !in s
    ensures StripCR(s) == s
    decreases |s|
  {
    if |s| > 0 {
      StripCRNoCR(s[1..]);
      assert s == [s[0]] + s[1..];
    }
  }

  /** With a non-negative width `breakLines` agrees with the reference. */
  lemma BreakLinesMatchesReference(text: string, maxWidth: nat)
    ensures BreakLines(text, maxWidth) == Ok(BreakLinesReference(text, maxWidth))
  {
    BreakFromMatchesReference(text, maxWidth, "");
    assert "" + text == text;
  }
}
