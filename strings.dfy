/** Small helper datatypes shared by the other modules. */
module Wrappers {

  datatype Option<+T> = None | Some(value: T)
}

/**
 * The handful of Python `str` operations the request pipeline relies on,
 * written as total functions: `s.find(sep)` (and `sep in s`),
 * `s.split(sep, 1)`, `s.split(sep)` and the argument-less `s.split()`.
 * Each carries the contract that characterises it, so the HTTP modules can
 * reason about the wire format without unfolding the recursions.
 */
module Strings {
  import opened Wrappers

  const CRLF: string := "\r\n"
  /** The header/body separator of an HTTP message. */
  const BlankLine: string := "\r\n\r\n"
  /** The separator between a header name and its value. */
  const FieldSep: string := ": "

  /** `sep` occurs in `s` starting at index `i`. */
  predicate MatchAt(s: string, sep: string, i: nat)
  {
    i + |sep| <= |s| && forall k :: i <= k < i + |sep| ==> s[k] == sep[k - i]
  }

  /** `sep` occurs nowhere in `s` (Python: `sep not in s`). */
  ghost predicate Free(s: string, sep: string)
  {
    forall j: nat :: !MatchAt(s, sep, j)
  }

  /** No position before `n` starts an occurrence of `sep` in `s`. */
  ghost predicate FreeBefore(s: string, sep: string, n: nat)
  {
    forall j: nat :: j < n ==> !MatchAt(s, sep, j)
  }

  /** Python's `s.find(sep)`: the leftmost occurrence of `sep`, if any. */
  function IndexOf(s: string, sep: string): (r: Option<nat>)
    requires |sep| > 0
    ensures r.Some? ==> MatchAt(s, sep, r.value) && FreeBefore(s, sep, r.value)
    ensures r.None? ==> Free(s, sep)
    decreases |s|
  {
    if |s| < |sep| then None
    else if s[..|sep|] == sep then Some(0)
    else
      var tail := IndexOf(s[1..], sep);
      MatchShift(s, sep);
      match tail
      case None => None
      case Some(k) => Some(k + 1)
  }

  /** An occurrence at `j + 1` in `s` is an occurrence at `j` in `s[1..]`. */
  lemma MatchShift(s: string, sep: string)
    requires |s| > 0
    ensures forall j: nat :: 1 <= j ==> (MatchAt(s, sep, j) <==> MatchAt(s[1..], sep, j - 1))
    ensures |sep| <= |s| ==> (MatchAt(s, sep, 0) <==> s[..|sep|] == sep)
  {
    forall j: nat | 1 <= j
      ensures MatchAt(s, sep, j) <==> MatchAt(s[1..], sep, j - 1)
    {
    }
    if |sep| <= |s| {
      if s[..|sep|] == sep {
        assert forall k :: 0 <= k < |sep| ==> s[..|sep|][k] == s[k];
      }
    }
  }

  /** A first occurrence is determined by its two defining facts. */
  lemma IndexOfIs(s: string, sep: string, i: nat)
    requires |sep| > 0
    requires MatchAt(s, sep, i) && FreeBefore(s, sep, i)
    ensures IndexOf(s, sep) == Some(i)
  {
  }

  /** A window whose character at offset `off` differs from `sep[off]` is no match. */
  lemma MismatchAt(s: string, sep: string, j: nat, off: nat)
    requires off < |sep| && j + off < |s| && s[j + off] != sep[off]
    ensures !MatchAt(s, sep, j)
  {
  }

  /** Prefixing `p`, which starts no occurrence, shifts the first occurrence by `|p|`. */
  lemma {:induction false} IndexOfAfterPrefix(p: string, t: string, sep: string, k: nat)
    requires |sep| > 0
    requires FreeBefore(p + t, sep, |p|)
    requires IndexOf(t, sep) == Some(k)
    ensures IndexOf(p + t, sep) == Some(|p| + k)
  {
    var s := p + t;
    assert MatchAt(t, sep, k) && FreeBefore(t, sep, k);
    MatchAfterPrefix(p, t, sep, k);
    assert FreeBefore(s, sep, |p| + k) by {
      forall j: nat | |p| <= j < |p| + k
        ensures !MatchAt(s, sep, j)
      {
        MatchAfterPrefix(p, t, sep, j - |p|);
      }
    }
    IndexOfIs(s, sep, |p| + k);
  }

  /** An occurrence in `t` at `j` is an occurrence in `p + t` at `|p| + j`, and conversely. */
  lemma MatchAfterPrefix(p: string, t: string, sep: string, j: nat)
    ensures MatchAt(p + t, sep, |p| + j) <==> MatchAt(t, sep, j)
  {
    var s := p + t;
    if MatchAt(t, sep, j) {
      forall k | |p| + j <= k < |p| + j + |sep|
        ensures s[k] == sep[k - (|p| + j)]
      {
        assert s[k] == t[k - |p|];
      }
    }
    if MatchAt(s, sep, |p| + j) {
      forall k | j <= k < j + |sep|
        ensures t[k] == sep[k - j]
      {
        assert t[k] == s[k + |p|];
      }
    }
  }

  /** Python's `s.split(sep, 1)` unpacked into two names: `None` where Python raises `ValueError`. */
  function SplitOnce(s: string, sep: string): (r: Option<(string, string)>)
    requires |sep| > 0
    ensures r.None? <==> Free(s, sep)
    ensures r.Some? ==> s == r.value.0 + sep + r.value.1 && FreeBefore(s, sep, |r.value.0|)
  {
    match IndexOf(s, sep)
    case None => None
    case Some(i) =>
      assert s == s[..i] + sep + s[i + |sep|..] by {
        assert s[i..i + |sep|] == sep;
      }
      Some((s[..i], s[i + |sep|..]))
  }

  /** Where the first occurrence of `sep` is right after `head`, splitting gives `head` and what follows `sep`. */
  lemma SplitAtFirst(head: string, tail: string, sep: string)
    requires |sep| > 0
    requires IndexOf(head + sep + tail, sep) == Some(|head|)
    ensures SplitOnce(head + sep + tail, sep) == Some((head, tail))
  {
    var s := head + sep + tail;
    assert s[..|head|] == head;
    assert s[|head| + |sep|..] == tail;
  }

  /** The pieces `s[..i]` and `s[i + |sep|..]` at the first occurrence `i`. */
  lemma SplitOnceAt(s: string, sep: string, i: nat)
    requires |sep| > 0
    requires MatchAt(s, sep, i) && FreeBefore(s, sep, i)
    ensures SplitOnce(s, sep) == Some((s[..i], s[i + |sep|..]))
  {
    IndexOfIs(s, sep, i);
  }

  /** Python's `sep.join(pieces)`. */
  function Join(pieces: seq<string>, sep: string): string
    decreases |pieces|
  {
    if pieces == [] then ""
    else if |pieces| == 1 then pieces[0]
    else pieces[0] + sep + Join(pieces[1..], sep)
  }

  /**
   * Python's `s.split(sep)`: the pieces between the leftmost non-overlapping
   * occurrences of `sep`. There is always at least one piece, no piece holds
   * `sep`, and joining the pieces with `sep` gives `s` back.
   */
  function Split(s: string, sep: string): (r: seq<string>)
    requires |sep| > 0
    ensures |r| >= 1
    ensures Join(r, sep) == s
    ensures forall k :: 0 <= k < |r| ==> Free(r[k], sep)
    decreases |s|
  {
    match SplitOnce(s, sep)
    case None => [s]
    case Some((first, rest)) =>
      FreePrefix(s, sep, first);
      [first] + Split(rest, sep)
  }

  /** A prefix that starts no occurrence inside the whole string contains none itself. */
  lemma FreePrefix(s: string, sep: string, p: string)
    requires |sep| > 0
    requires |p| <= |s| && s[..|p|] == p
    requires FreeBefore(s, sep, |p|)
    ensures Free(p, sep)
  {
    forall j: nat
      ensures !MatchAt(p, sep, j)
    {
      if j + |sep| <= |p| {
        assert forall i :: 0 <= i < |p| ==> p[i] == s[i];
        assert !MatchAt(s, sep, j);
      }
    }
  }

  // ---------------------------------------------------------------------
  // Whitespace splitting (Python's argument-less `str.split()`).

  /**
   * The characters `str.split()` treats as whitespace: the code points for
   * which Python's `str.isspace()` holds, taken here as a fixed list.
   */
  predicate IsSpace(c: char)
  {
    || c == ' ' || c == '\t' || c == '\n' || c == '\r'
    || c == '\U{000B}' || c == '\U{000C}'
    || c == '\U{001C}' || c == '\U{001D}' || c == '\U{001E}' || c == '\U{001F}'
    || c == '\U{0085}' || c == '\U{00A0}' || c == '\U{1680}'
    || ('\U{2000}' <= c <= '\U{200A}')
    || c == '\U{2028}' || c == '\U{2029}' || c == '\U{202F}' || c == '\U{205F}'
    || c == '\U{3000}'
  }

  /** A token `str.split()` can return: non-empty and free of whitespace. */
  predicate IsWord(w: string)
  {
    |w| > 0 && forall i :: 0 <= i < |w| ==> !IsSpace(w[i])
  }

  /** The length of the run of non-whitespace characters that starts `s`. */
  function WordLength(s: string): (n: nat)
    ensures n <= |s|
    ensures forall i :: 0 <= i < n ==> !IsSpace(s[i])
    ensures n < |s| ==> IsSpace(s[n])
  {
    if s == [] || IsSpace(s[0]) then 0 else 1 + WordLength(s[1..])
  }

  /** Python's `s.split()`: the maximal runs of non-whitespace characters, in order. */
  function Words(s: string): (r: seq<string>)
    ensures forall k :: 0 <= k < |r| ==> IsWord(r[k])
    decreases |s|
  {
    if s == [] then []
    else if IsSpace(s[0]) then Words(s[1..])
    else
      var n := WordLength(s);
      [s[..n]] + Words(s[n..])
  }

  /** A word followed by whitespace (or nothing) is read as exactly one run. */
  lemma {:induction false} WordLengthOfWord(w: string, t: string)
    requires forall i :: 0 <= i < |w| ==> !IsSpace(w[i])
    requires t == [] || IsSpace(t[0])
    ensures WordLength(w + t) == |w|
    decreases |w|
  {
    if w != [] {
      assert (w + t)[1..] == w[1..] + t;
      WordLengthOfWord(w[1..], t);
    }
  }

  /** Splitting words joined by single spaces gives the words back. */
  lemma {:induction false} WordsOfJoin(ws: seq<string>)
    requires forall k :: 0 <= k < |ws| ==> IsWord(ws[k])
    ensures Words(Join(ws, " ")) == ws
    decreases |ws|
  {
    if ws == [] {
    } else if |ws| == 1 {
      WordLengthOfWord(ws[0], "");
      assert ws[0][..|ws[0]|] == ws[0];
      assert ws[0][|ws[0]|..] == [];
    } else {
      var w, s := ws[0], Join(ws, " ");
      var rest := Join(ws[1..], " ");
      assert s == w + (" " + rest);
      WordLengthOfWord(w, " " + rest);
      assert s[..|w|] == w;
      assert s[|w|..] == " " + rest;
      assert (" " + rest)[1..] == rest;
      WordsOfJoin(ws[1..]);
    }
  }

  /** `g` consists of whitespace only. */
  predicate AllSpace(g: string)
  {
    forall i :: 0 <= i < |g| ==> IsSpace(g[i])
  }

  /** The text `gaps[0] + ws[0] + gaps[1] + ... + ws[n - 1] + gaps[n]`. */
  function Spaced(ws: seq<string>, gaps: seq<string>): string
    requires |gaps| == |ws| + 1
    decreases |ws|
  {
    if ws == [] then gaps[0] else gaps[0] + ws[0] + Spaced(ws[1..], gaps[1..])
  }

  /** Every gap is whitespace, and a gap between two words is not empty; the first and last may be. */
  predicate GapsFit(ws: seq<string>, gaps: seq<string>)
  {
    |gaps| == |ws| + 1
    && (forall k :: 0 <= k < |gaps| ==> AllSpace(gaps[k]))
    && (forall k :: 0 < k < |ws| ==> gaps[k] != "")
  }

  /** The whitespace runs of `s` before, between and after its words. */
  function Gaps(s: string): (gaps: seq<string>)
    ensures |gaps| == |Words(s)| + 1
    decreases |s|
  {
    if s == [] then [""]
    else if IsSpace(s[0]) then
      var g := Gaps(s[1..]);
      [[s[0]] + g[0]] + g[1..]
    else [""] + Gaps(s[WordLength(s)..])
  }

  /** Leading whitespace produces no token. */
  lemma {:induction false} WordsAfterSpace(g: string, t: string)
    requires AllSpace(g)
    ensures Words(g + t) == Words(t)
    decreases |g|
  {
    if g == [] {
      assert g + t == t;
    } else {
      assert (g + t)[0] == g[0] && IsSpace(g[0]);
      assert Words(g + t) == Words((g + t)[1..]);
      assert (g + t)[1..] == g[1..] + t;
      assert AllSpace(g[1..]) by {
        assert forall i :: 0 <= i < |g[1..]| ==> g[1..][i] == g[i + 1];
      }
      WordsAfterSpace(g[1..], t);
    }
  }

  /**
   * Words separated by any non-empty whitespace runs, with any leading and
   * trailing runs, split back into exactly those words.
   */
  lemma {:induction false} WordsOfSpaced(ws: seq<string>, gaps: seq<string>)
    requires forall k :: 0 <= k < |ws| ==> IsWord(ws[k])
    requires GapsFit(ws, gaps)
    ensures Words(Spaced(ws, gaps)) == ws
    decreases |ws|
  {
    if ws == [] {
      WordsAfterSpace(gaps[0], "");
      assert gaps[0] + "" == gaps[0];
    } else {
      var w, t := ws[0], Spaced(ws[1..], gaps[1..]);
      assert Spaced(ws, gaps) == gaps[0] + (w + t);
      WordsAfterSpace(gaps[0], w + t);
      if |ws| == 1 {
        assert t == gaps[1];
      } else {
        assert t == gaps[1] + (ws[1] + Spaced(ws[2..], gaps[2..]));
      }
      assert t == [] || IsSpace(t[0]);
      WordLengthOfWord(w, t);
      assert (w + t)[..|w|] == w;
      assert (w + t)[|w|..] == t;
      WordsOfSpaced(ws[1..], gaps[1..]);
    }
  }

  /** Every text is its words with its whitespace runs around and between them. */
  lemma {:induction false} SpacedWords(s: string)
    ensures GapsFit(Words(s), Gaps(s))
    ensures Spaced(Words(s), Gaps(s)) == s
    decreases |s|
  {
    if s == [] {
    } else if IsSpace(s[0]) {
      var g := Gaps(s[1..]);
      SpacedWords(s[1..]);
      assert Words(s) == Words(s[1..]);
      assert Gaps(s) == [[s[0]] + g[0]] + g[1..];
      SpacedAfterSpace(s[0], Words(s[1..]), g);
      assert [s[0]] + s[1..] == s;
    } else {
      var n := WordLength(s);
      var w, rest := s[..n], s[n..];
      SpacedWords(rest);
      assert Words(s) == [w] + Words(rest);
      assert Gaps(s) == [""] + Gaps(rest);
      SpacedAfterWord(w, Words(rest), Gaps(rest));
      assert s == w + rest;
      GapAfterWord(w, rest, Words(rest), Gaps(rest));
    }
  }

  /** One more leading whitespace character joins the first gap. */
  lemma SpacedAfterSpace(c: char, ws: seq<string>, g: seq<string>)
    requires IsSpace(c) && GapsFit(ws, g)
    ensures GapsFit(ws, [[c] + g[0]] + g[1..])
    ensures Spaced(ws, [[c] + g[0]] + g[1..]) == [c] + Spaced(ws, g)
  {
    var gaps := [[c] + g[0]] + g[1..];
    assert gaps[1..] == g[1..];
    assert forall k :: 1 <= k < |gaps| ==> gaps[k] == g[k];
    if ws != [] {
      assert Spaced(ws, gaps) == ([c] + g[0]) + ws[0] + Spaced(ws[1..], g[1..]);
      assert Spaced(ws, g) == g[0] + ws[0] + Spaced(ws[1..], g[1..]);
    }
  }

  /** A leading word comes with an empty first gap. */
  lemma SpacedAfterWord(w: string, ws: seq<string>, g: seq<string>)
    requires |g| == |ws| + 1
    ensures Spaced([w] + ws, [""] + g) == w + Spaced(ws, g)
  {
    assert ([w] + ws)[1..] == ws && ([""] + g)[1..] == g;
  }

  /** Right after a word, the next word is preceded by a non-empty gap, so the gaps still fit. */
  lemma GapAfterWord(w: string, rest: string, ws: seq<string>, gaps: seq<string>)
    requires rest == [] || IsSpace(rest[0])
    requires forall k :: 0 <= k < |ws| ==> IsWord(ws[k])
    requires GapsFit(ws, gaps) && Spaced(ws, gaps) == rest
    ensures GapsFit([w] + ws, [""] + gaps)
  {
    if ws != [] {
      var y := ws[0] + Spaced(ws[1..], gaps[1..]);
      assert rest == gaps[0] + y;
      assert IsWord(ws[0]) && y[0] == ws[0][0];
      FirstCharOfConcat(gaps[0], y);
    }
    GapsFitAfterWord(w, ws, gaps);
  }

  /** The first character of `a + y`. */
  lemma FirstCharOfConcat(a: string, y: string)
    requires |y| > 0
    ensures (a + y)[0] == if |a| > 0 then a[0] else y[0]
  {
  }

  lemma GapsFitAfterWord(w: string, ws: seq<string>, gaps: seq<string>)
    requires GapsFit(ws, gaps)
    requires ws != [] ==> gaps[0] != ""
    ensures GapsFit([w] + ws, [""] + gaps)
  {
    var g := [""] + gaps;
    assert forall k :: 1 <= k < |g| ==> g[k] == gaps[k - 1];
  }

  // ---------------------------------------------------------------------
  // The head of an HTTP message: a first line, then `name: value` lines.

  /** `s` holds neither a carriage return nor a line feed. */
  predicate NoCRLF(s: string)
  {
    forall i :: 0 <= i < |s| ==> s[i] != '\r' && s[i] != '\n'
  }

  /** The line `name: value` that carries one header field. */
  function FieldLine(field: (string, string)): string
  {
    field.0 + FieldSep + field.1
  }

  /** The lines of a message head: the first line, then one line per field, in order. */
  function HeadLines(first: string, fields: seq<(string, string)>): (lines: seq<string>)
    ensures |lines| == |fields| + 1 && lines[0] == first
    ensures forall k :: 0 <= k < |fields| ==> lines[k + 1] == FieldLine(fields[k])
  {
    [first] + seq(|fields|, k requires 0 <= k < |fields| => FieldLine(fields[k]))
  }

  /** A field whose line can be written without breaking the head apart. */
  predicate WireField(field: (string, string))
  {
    NoCRLF(field.0) && NoCRLF(field.1)
  }

  /** A string with no carriage return contains no CRLF-initial separator. */
  lemma NoCRFree(s: string, t: string, sep: string)
    requires |sep| > 0 && sep[0] == '\r'
    requires NoCRLF(s)
    ensures FreeBefore(s + t, sep, |s|)
  {
    forall j: nat | j < |s|
      ensures !MatchAt(s + t, sep, j)
    {
      MismatchAt(s + t, sep, j, 0);
    }
  }

  /** A field line has no line break and does not start with a carriage return. */
  lemma FieldLineShape(field: (string, string))
    requires WireField(field)
    ensures NoCRLF(FieldLine(field)) && |FieldLine(field)| > 0
  {
  }

  /** Splitting a joined head on CRLF gives its lines back. */
  lemma {:induction false} SplitJoinedLines(lines: seq<string>)
    requires |lines| >= 1
    requires forall k :: 0 <= k < |lines| ==> NoCRLF(lines[k])
    ensures Split(Join(lines, CRLF), CRLF) == lines
    decreases |lines|
  {
    var s := Join(lines, CRLF);
    if |lines| == 1 {
      NoCRFree(lines[0], "", CRLF);
      assert lines[0] + "" == lines[0];
      assert Free(s, CRLF) by {
        forall j: nat ensures !MatchAt(s, CRLF, j) {
          if j >= |s| {
          }
        }
      }
    } else {
      var rest := Join(lines[1..], CRLF);
      assert s == lines[0] + (CRLF + rest);
      NoCRFree(lines[0], CRLF + rest, CRLF);
      assert MatchAt(s, CRLF, |lines[0]|) by {
        assert s[|lines[0]|..|lines[0]| + 2] == CRLF;
      }
      SplitOnceAt(s, CRLF, |lines[0]|);
      assert s[..|lines[0]|] == lines[0];
      assert s[|lines[0]| + 2..] == rest;
      SplitJoinedLines(lines[1..]);
    }
  }

  /**
   * In a head whose lines hold no line break and whose field lines are not
   * empty, the first blank line is the one that ends the head.
   */
  lemma {:induction false} BlankLineEndsHead(lines: seq<string>, body: string)
    requires |lines| >= 1
    requires forall k :: 0 <= k < |lines| ==> NoCRLF(lines[k])
    requires forall k :: 1 <= k < |lines| ==> |lines[k]| > 0
    ensures IndexOf(Join(lines, CRLF) + BlankLine + body, BlankLine) == Some(|Join(lines, CRLF)|)
    decreases |lines|
  {
    var head := Join(lines, CRLF);
    if |lines| == 1 {
      BlankLineAfterLastLine(head, body);
    } else {
      var first, rest := lines[0], Join(lines[1..], CRLF);
      assert head == first + CRLF + rest;
      JoinStartsWithFirst(lines[1..], CRLF);
      assert |rest| > 0 && rest[0] == lines[1][0];
      BlankLineEndsHead(lines[1..], body);
      BlankLineAfterNextLine(first, rest, body);
    }
  }

  /** A line and a line break before `rest` move the first blank line of `rest` by their length. */
  lemma BlankLineAfterNextLine(first: string, rest: string, body: string)
    requires NoCRLF(first) && |rest| > 0 && rest[0] != '\r'
    requires IndexOf(rest + BlankLine + body, BlankLine) == Some(|rest|)
    ensures IndexOf(first + CRLF + rest + BlankLine + body, BlankLine) == Some(|first + CRLF + rest|)
  {
    var p, t := first + CRLF, rest + BlankLine + body;
    assert first + CRLF + rest + BlankLine + body == p + t;
    LineBreakThenLine(first, t);
    IndexOfAfterPrefix(p, t, BlankLine, |rest|);
  }

  /** Right after a line without breaks, a blank line is the first one. */
  lemma BlankLineAfterLastLine(line: string, body: string)
    requires NoCRLF(line)
    ensures IndexOf(line + BlankLine + body, BlankLine) == Some(|line|)
  {
    var s := line + BlankLine + body;
    assert s == line + (BlankLine + body);
    NoCRFree(line, BlankLine + body, BlankLine);
    assert MatchAt(s, BlankLine, |line|) by {
      assert s[|line|..|line| + 4] == BlankLine;
    }
    IndexOfIs(s, BlankLine, |line|);
  }

  /** A line break followed by a non-empty line starts no blank line, nor does anything before it. */
  lemma LineBreakThenLine(first: string, t: string)
    requires NoCRLF(first) && |t| > 0 && t[0] != '\r'
    ensures FreeBefore(first + CRLF + t, BlankLine, |first| + 2)
  {
    var s := first + CRLF + t;
    forall j: nat | j < |first| + 2
      ensures !MatchAt(s, BlankLine, j)
    {
      if j < |first| {
        assert s[j] == first[j];
        MismatchAt(s, BlankLine, j, 0);
      } else if j == |first| {
        assert s[j + 2] == t[0];
        MismatchAt(s, BlankLine, j, 2);
      } else {
        assert s[j] == '\n';
        MismatchAt(s, BlankLine, j, 0);
      }
    }
  }

  /** A joined head starts with its first line. */
  lemma {:induction false} JoinStartsWithFirst(lines: seq<string>, sep: string)
    requires |lines| >= 1
    ensures |Join(lines, sep)| >= |lines[0]| && Join(lines, sep)[..|lines[0]|] == lines[0]
  {
  }
}
