/**
 * The JavaScript string operations the development script relies on:
 * `trim`, `split` on one character and `join`, and splitting a text into
 * lines on `\r?\n`.
 */
module Text {
  import opened SeqUtil

  /** The characters `String.prototype.trim` removes: white space and line terminators. */
  predicate IsJsSpace(c: char)
  {
    var n := c as int;
    n == 0x09 || n == 0x0A || n == 0x0B || n == 0x0C || n == 0x0D || n == 0x20 || n == 0xA0
    || n == 0x1680 || (0x2000 <= n <= 0x200A) || n == 0x2028 || n == 0x2029 || n == 0x202F
    || n == 0x205F || n == 0x3000 || n == 0xFEFF
  }

  /** Drops the leading white space. */
  function TrimStart(s: string): (r: string)
    ensures |r| <= |s| && r == s[|s| - |r|..]
    ensures r != [] ==> !IsJsSpace(r[0])
    ensures forall k :: 0 <= k < |s| - |r| ==> IsJsSpace(s[k])
  {
    if s != [] && IsJsSpace(s[0]) then TrimStart(s[1..]) else s
  }

  /** Drops the trailing white space. */
  function TrimEnd(s: string): (r: string)
    ensures |r| <= |s| && r == s[..|r|]
    ensures r != [] ==> !IsJsSpace(r[|r| - 1])
    ensures forall k :: |r| <= k < |s| ==> IsJsSpace(s[k])
  {
    if s != [] && IsJsSpace(s[|s| - 1]) then TrimEnd(s[..|s| - 1]) else s
  }

  /** `s.trim()`. */
  function Trim(s: string): string
  {
    TrimEnd(TrimStart(s))
  }

  /**
   * `trim` leaves the longest middle part of `s` that neither starts nor
   * ends with white space, and removes only white space.
   */
  lemma TrimShape(s: string)
    ensures var r := Trim(s); var lead := |TrimStart(s)|;
      && r == s[|s| - lead..|s| - lead + |r|]
      && (r != [] ==> !IsJsSpace(r[0]) && !IsJsSpace(r[|r| - 1]))
      && (forall k :: 0 <= k < |s| - lead ==> IsJsSpace(s[k]))
      && (forall k :: |s| - lead + |r| <= k < |s| ==> IsJsSpace(s[k]))
  {
    TrimSlice(s);
    TrimTrailing(s);
  }

  /** What `trim` keeps is one slice of `s`. */
  lemma TrimSlice(s: string)
    ensures var lead := |TrimStart(s)|; Trim(s) == s[|s| - lead..|s| - lead + |Trim(s)|]
  {
    var t := TrimStart(s);
    var r := TrimEnd(t);
    assert Trim(s) == r;
    assert r == s[|s| - |t|..|s| - |t| + |r|] by {
      PrefixOfSuffix(s, t, r);
    }
  }

  /** A prefix `r` of a suffix `t` of `s` is one slice of `s`. */
  lemma PrefixOfSuffix(s: string, t: string, r: string)
    requires |t| <= |s| && t == s[|s| - |t|..] && |r| <= |t| && r == t[..|r|]
    ensures r == s[|s| - |t|..|s| - |t| + |r|]
  {
    SuffixPrefix(s, |s| - |t|, |r|);
  }

  /** Everything after the kept slice is white space. */
  lemma TrimTrailing(s: string)
    ensures var lead := |TrimStart(s)|;
      forall k :: |s| - lead + |Trim(s)| <= k < |s| ==> IsJsSpace(s[k])
  {
    var t := TrimStart(s);
    var n := |TrimEnd(t)|;
    forall k | |s| - |t| + n <= k < |s|
      ensures IsJsSpace(s[k])
    {
      assert s[k] == t[k - (|s| - |t|)];
    }
  }

  /** A prefix of a suffix is a middle slice. */
  lemma SuffixPrefix(s: string, a: int, n: int)
    requires 0 <= a <= |s| && 0 <= n <= |s| - a
    ensures s[a..][..n] == s[a..a + n]
  {
  }

  /** Trimming twice is trimming once. */
  lemma {:induction false} TrimIdempotent(s: string)
    ensures Trim(Trim(s)) == Trim(s)
  {
    var r := Trim(s);
    if r != [] {
      assert TrimStart(r) == r;
      assert TrimEnd(r) == r;
    }
  }

  /** `s.split(sep)` for a one-character separator: the pieces between separators. */
  function Split(s: string, sep: char): (r: seq<string>)
    ensures |r| >= 1
    ensures forall k :: 0 <= k < |r| ==> sep !in r[k]
  {
    var i := IndexOf(s, sep);
    if i == -1 then [s]
    else [s[..i]] + Split(s[i + 1..], sep)
  }

  /** `parts.join(sep)`; the join of no parts is empty. */
  function Join(parts: seq<string>, sep: char): string
  {
    if parts == [] then ""
    else if |parts| == 1 then parts[0]
    else parts[0] + [sep] + Join(parts[1..], sep)
  }

  /** Joining the pieces with the separator gives the text back. */
  lemma {:induction false} JoinSplit(s: string, sep: char)
    ensures Join(Split(s, sep), sep) == s
    decreases |s|
  {
    var i := IndexOf(s, sep);
    if i != -1 {
      JoinSplit(s[i + 1..], sep);
      JoinSplitStep(s, sep, i);
    }
  }

  /** When the rest rejoins to the text after the first separator, the whole text rejoins. */
  lemma JoinSplitStep(s: string, sep: char, i: int)
    requires i == IndexOf(s, sep) && i != -1
    requires Join(Split(s[i + 1..], sep), sep) == s[i + 1..]
    ensures Join(Split(s, sep), sep) == s
  {
    var p, t := s[..i], s[i + 1..];
    var rest := Split(t, sep);
    assert Split(s, sep) == [p] + rest;
    assert Join([p] + rest, sep) == p + [sep] + Join(rest, sep) by {
      JoinCons(p, rest, sep);
    }
    assert s == p + [sep] + t by {
      assert s[i] == sep;
    }
  }

  /** Joining a part in front of at least one more puts the separator between them. */
  lemma JoinCons(p: string, rest: seq<string>, sep: char)
    requires rest != []
    ensures Join([p] + rest, sep) == p + [sep] + Join(rest, sep)
  {
    assert ([p] + rest)[0] == p && ([p] + rest)[1..] == rest;
  }

  /** A first piece free of the separator splits off at the separator after it. */
  lemma SplitCons(p: string, t: string, sep: char)
    requires sep !in p
    ensures Split(p + [sep] + t, sep) == [p] + Split(t, sep)
  {
    var s := p + [sep] + t;
    assert s[..|p|] == p && s[|p|] == sep && s[|p| + 1..] == t;
    IndexOfIs(s, sep, |p|);
  }

  /** Splitting a join of separator-free parts gives the parts back. */
  lemma {:induction false} SplitJoin(parts: seq<string>, sep: char)
    requires |parts| >= 1 && forall k :: 0 <= k < |parts| ==> sep !in parts[k]
    ensures Split(Join(parts, sep), sep) == parts
    decreases |parts|
  {
    if |parts| > 1 {
      SplitJoin(parts[1..], sep);
      SplitCons(parts[0], Join(parts[1..], sep), sep);
      assert parts == [parts[0]] + parts[1..];
    } else {
      assert IndexOf(parts[0], sep) == -1;
    }
  }

  /**
   * `[first, ...rest] = s.split(sep)` and `rest.join(sep)`: the first piece
   * is the text before the first separator and the rejoined rest the text
   * after it (empty when there is no separator).
   */
  lemma SplitFirstRest(s: string, sep: char)
    ensures var parts := Split(s, sep); var i := IndexOf(s, sep);
      && parts[0] == (if i == -1 then s else s[..i])
      && Join(parts[1..], sep) == (if i == -1 then "" else s[i + 1..])
  {
    var i := IndexOf(s, sep);
    if i != -1 {
      JoinSplit(s[i + 1..], sep);
    }
  }

  /** A line without the `\r` of a `\r\n` ending. */
  function DropCR(line: string): string
  {
    if line != [] && line[|line| - 1] == '\r' then line[..|line| - 1] else line
  }

  /** `s.split(/\r?\n/)`. */
  function SplitLines(s: string): (r: seq<string>)
    ensures |r| >= 1
    ensures forall k :: 0 <= k < |r| ==> '\n' !in r[k]
  {
    var i := IndexOf(s, '\n');
    if i == -1 then [s]
    else [DropCR(s[..i])] + SplitLines(s[i + 1..])
  }

  /**
   * Splitting on `\r?\n` is splitting on `\n` and then dropping one `\r`
   * from the end of each piece that a `\n` ends; the last piece, which no
   * `\n` ends, keeps a trailing `\r`.
   */
  lemma {:induction false} SplitLinesIsSplit(s: string)
    ensures LinesMatch(SplitLines(s), Split(s, '\n'))
    decreases |s|
  {
    var i := IndexOf(s, '\n');
    if i != -1 {
      var t := s[i + 1..];
      SplitLinesIsSplit(t);
      assert Split(s, '\n') == [s[..i]] + Split(t, '\n');
      SplitLinesAt(s, i);
      LinesMatchCons(s[..i], SplitLines(t), Split(t, '\n'));
    }
  }

  /** At the first `\n`, the `\r?\n` split takes the line before it and goes on after it. */
  lemma SplitLinesAt(s: string, i: int)
    requires i == IndexOf(s, '\n') && i != -1
    ensures SplitLines(s) == [DropCR(s[..i])] + SplitLines(s[i + 1..])
  {
  }

  /**
   * `lines` come from `parts` as the `\r?\n` split comes from the `\n`
   * split: one line per piece, each piece but the last without its
   * trailing `\r`, the last as it is.
   */
  predicate LinesMatch(lines: seq<string>, parts: seq<string>)
  {
    && |lines| == |parts| >= 1
    && (forall k :: 0 <= k < |parts| - 1 ==> lines[k] == DropCR(parts[k]))
    && lines[|lines| - 1] == parts[|parts| - 1]
  }

  /** A piece that a `\n` ends, put in front, keeps the match. */
  lemma LinesMatchCons(p: string, lines: seq<string>, parts: seq<string>)
    requires LinesMatch(lines, parts)
    ensures LinesMatch([DropCR(p)] + lines, [p] + parts)
  {
    var l2 := [DropCR(p)] + lines;
    var p2 := [p] + parts;
    forall k | 1 <= k < |p2| - 1 ensures l2[k] == DropCR(p2[k]) {
      assert l2[k] == lines[k - 1] && p2[k] == parts[k - 1];
    }
  }

  /** A text with no `\r` before any of its line breaks splits into lines exactly as on `\n`. */
  lemma {:induction false} SplitLinesWithoutCR(s: string)
    requires NoCRBeforeNL(s)
    ensures SplitLines(s) == Split(s, '\n')
    decreases |s|
  {
    var i := IndexOf(s, '\n');
    if i != -1 {
      NoCRBeforeNLTail(s, i);
      var t := s[i + 1..];
      SplitLinesWithoutCR(t);
      NoCRBeforeNLPiece(s, i);
      SplitLinesAgree(s, i);
    }
  }

  /** When the first line and the rest agree, the two splits agree. */
  lemma SplitLinesAgree(s: string, i: int)
    requires i == IndexOf(s, '\n') && i != -1
    requires DropCR(s[..i]) == s[..i] && SplitLines(s[i + 1..]) == Split(s[i + 1..], '\n')
    ensures SplitLines(s) == Split(s, '\n')
  {
    assert Split(s, '\n') == [s[..i]] + Split(s[i + 1..], '\n');
    SplitLinesAt(s, i);
  }

  /** No `\r` stands right before a `\n`. */
  predicate NoCRBeforeNL(s: string)
  {
    forall k :: 0 <= k < |s| - 1 && s[k + 1] == '\n' ==> s[k] != '\r'
  }

  /** The text after a line break has no `\r` before a `\n` either. */
  lemma NoCRBeforeNLTail(s: string, i: int)
    requires NoCRBeforeNL(s) && 0 <= i < |s|
    ensures NoCRBeforeNL(s[i + 1..])
  {
    var t := s[i + 1..];
    forall k | 0 <= k < |t| - 1 && t[k + 1] == '\n' ensures t[k] != '\r' {
      assert t[k] == s[i + 1 + k] && t[k + 1] == s[i + 1 + k + 1];
    }
  }

  /** The piece before a `\n` does not end in `\r`, so no `\r` is dropped from it. */
  lemma NoCRBeforeNLPiece(s: string, i: int)
    requires NoCRBeforeNL(s) && 0 <= i < |s| && s[i] == '\n'
    ensures DropCR(s[..i]) == s[..i]
  {
    if i > 0 {
      assert s[..i][i - 1] == s[i - 1];
    }
  }
}
