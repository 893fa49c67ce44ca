/**
 * Splitting a string into nodes and joining nodes back into a string.
 *
 * Splitting follows java.util.StringTokenizer: every character of the
 * delimiter string is a delimiter on its own, and a token is a maximal run of
 * non-delimiter characters, so runs of delimiters and leading or trailing
 * delimiters yield no empty tokens. Joining puts the whole delimiter string
 * between neighbouring nodes, with nothing before the first or after the last.
 */
module Tokens {

  /** A node that splitting can produce: non-empty, without delimiter characters. */
  predicate IsToken(x: string, delims: string) {
    |x| > 0 && forall i :: 0 <= i < |x| ==> x[i] !in delims
  }

  /** Length of the leading run of `s` that holds no delimiter character. */
  function TokenLength(s: string, delims: string): (n: nat)
    ensures n <= |s|
    ensures forall i :: 0 <= i < n ==> s[i] !in delims
    ensures n < |s| ==> s[n] in delims
  {
    if |s| == 0 || s[0] in delims then 0 else 1 + TokenLength(s[1..], delims)
  }

  /** The tokens StringTokenizer(s, delims) hands out, in order. */
  function Tokenize(s: string, delims: string): (ts: seq<string>)
    ensures forall k :: 0 <= k < |ts| ==> IsToken(ts[k], delims)
    decreases |s|
  {
    if |s| == 0 then []
    else if s[0] in delims then Tokenize(s[1..], delims)
    else
      var n := TokenLength(s, delims);
      [s[..n]] + Tokenize(s[n..], delims)
  }

  /** The nodes separated by `delim`, with no leading or trailing delimiter. */
  function Join(ts: seq<string>, delim: string): string {
    if |ts| == 0 then ""
    else if |ts| == 1 then ts[0]
    else ts[0] + delim + Join(ts[1..], delim)
  }

  /** The characters of the nodes, one node after the other. */
  function Concat(ts: seq<string>): string {
    if |ts| == 0 then "" else ts[0] + Concat(ts[1..])
  }

  /** The characters of `s` that are not delimiters, in order. */
  function StripDelimiters(s: string, delims: string): string {
    if |s| == 0 then ""
    else (if s[0] in delims then "" else [s[0]]) + StripDelimiters(s[1..], delims)
  }

  /**
   * `s` with its delimiter characters collapsed: the runs of other characters
   * in order, separated by the whole delimiter string, with nothing before the
   * first run or after the last. Read left to right: `started` says a run has
   * been written, `pending` that delimiters were skipped since then.
   */
  function CollapseFrom(s: string, delim: string, started: bool, pending: bool): string {
    if |s| == 0 then ""
    else if s[0] in delim then CollapseFrom(s[1..], delim, started, started)
    else (if pending then delim else "") + [s[0]] + CollapseFrom(s[1..], delim, true, false)
  }

  function Collapse(s: string, delim: string): string {
    CollapseFrom(s, delim, false, false)
  }

  /** A string that joining can give back unchanged: no delimiter at either end, none twice in a row. */
  predicate IsCollapsed(s: string, c: char) {
    (|s| == 0 || (s[0] != c && s[|s| - 1] != c))
    && forall i :: 0 <= i < |s| - 1 ==> !(s[i] == c && s[i + 1] == c)
  }

  /**
   * The parsing loop: hands out tokens one after the other, skipping
   * delimiter characters between them.
   */
  method Parse(filename: string, delimiter: string) returns (nodes: seq<string>)
    ensures nodes == Tokenize(filename, delimiter)
  {
    nodes := [];
    var pos := 0;
    while pos < |filename|
      invariant 0 <= pos <= |filename|
      invariant nodes + Tokenize(filename[pos..], delimiter) == Tokenize(filename, delimiter)
    {
      if filename[pos] in delimiter {
        assert filename[pos..][1..] == filename[pos + 1..];
        pos := pos + 1;
      } else {
        var start := pos;
        while pos < |filename| && filename[pos] !in delimiter
          invariant start < |filename| && filename[start] !in delimiter
          invariant start <= pos <= |filename|
          invariant forall i :: start <= i < pos ==> filename[i] !in delimiter
        {
          pos := pos + 1;
        }
        ParseToken(filename, delimiter, nodes, start, pos);
        nodes := nodes + [filename[start..pos]];
      }
    }
  }

  /** The parsing loop's step over one token: the run start..pos is handed out whole. */
  lemma ParseToken(filename: string, delimiter: string, nodes: seq<string>, start: nat, pos: nat)
    requires start < pos <= |filename|
    requires forall i :: start <= i < pos ==> filename[i] !in delimiter
    requires pos == |filename| || filename[pos] in delimiter
    requires nodes + Tokenize(filename[start..], delimiter) == Tokenize(filename, delimiter)
    ensures (nodes + [filename[start..pos]]) + Tokenize(filename[pos..], delimiter) == Tokenize(filename, delimiter)
  {
    var token := filename[start..pos];
    assert token + filename[pos..] == filename[start..];
    TokenizeLeadingToken(token, filename[pos..], delimiter);
    assert (nodes + [token]) + Tokenize(filename[pos..], delimiter)
           == nodes + ([token] + Tokenize(filename[pos..], delimiter));
  }

  /** Joining two non-empty runs of nodes puts one delimiter between them. */
  lemma {:induction false} JoinConcat(a: seq<string>, b: seq<string>, delim: string)
    requires |a| > 0 && |b| > 0
    ensures Join(a + b, delim) == Join(a, delim) + delim + Join(b, delim)
  {
    if |a| == 1 {
      assert (a + b)[1..] == b;
    } else {
      assert (a + b)[1..] == a[1..] + b;
      JoinConcat(a[1..], b, delim);
    }
  }

  /** The joined text holds every character of the nodes and one delimiter per gap. */
  lemma {:induction false} JoinLength(ts: seq<string>, delim: string)
    ensures |ts| == 0 ==> Join(ts, delim) == ""
    ensures |ts| > 0 ==> |Join(ts, delim)| == |Concat(ts)| + (|ts| - 1) * |delim|
  {
    if |ts| > 1 {
      JoinLength(ts[1..], delim);
      assert (|ts| - 2) * |delim| + |delim| == (|ts| - 1) * |delim|;
    }
  }

  /** Delimiter characters in front of a string produce no tokens. */
  lemma {:induction false} TokenizeSkipsDelimiters(p: string, s: string, delims: string)
    requires forall i :: 0 <= i < |p| ==> p[i] in delims
    ensures Tokenize(p + s, delims) == Tokenize(s, delims)
  {
    if |p| == 0 {
      assert p + s == s;
    } else {
      assert (p + s)[1..] == p[1..] + s;
      TokenizeSkipsDelimiters(p[1..], s, delims);
    }
  }

  /** A token followed by a delimiter (or by nothing) is handed out whole. */
  lemma TokenizeLeadingToken(x: string, rest: string, delims: string)
    requires IsToken(x, delims)
    requires |rest| == 0 || rest[0] in delims
    ensures Tokenize(x + rest, delims) == [x] + Tokenize(rest, delims)
  {
    var s := x + rest;
    var n := TokenLength(s, delims);
    assert forall i :: 0 <= i < |x| ==> s[i] == x[i];
    assert |rest| > 0 ==> s[|x|] == rest[0];
    assert s[..n] == x && s[n..] == rest;
  }

  /**
   * Round trip: for a delimiter string with at least one character, splitting
   * the joined nodes gives the nodes back, provided every node is non-empty and
   * free of delimiter characters.
   */
  lemma {:induction false} TokenizeJoin(ts: seq<string>, delim: string)
    requires |delim| > 0
    requires forall k :: 0 <= k < |ts| ==> IsToken(ts[k], delim)
    ensures Tokenize(Join(ts, delim), delim) == ts
  {
    if |ts| == 1 {
      TokenizeLeadingToken(ts[0], "", delim);
      assert ts[0] + "" == ts[0];
    } else if |ts| > 1 {
      var tail := Join(ts[1..], delim);
      assert delim[0] in delim;
      TokenizeLeadingToken(ts[0], delim + tail, delim);
      assert ts[0] + delim + tail == ts[0] + (delim + tail);
      TokenizeSkipsDelimiters(delim, tail, delim);
      TokenizeJoin(ts[1..], delim);
      assert [ts[0]] + ts[1..] == ts;
    }
  }

  /**
   * Parsing the joined result again is stable: whatever string and whatever
   * delimiter (the empty one included) a builder was made from, its joined
   * nodes split into exactly the same nodes.
   */
  lemma TokenizeJoinTokenize(s: string, delim: string)
    ensures Tokenize(Join(Tokenize(s, delim), delim), delim) == Tokenize(s, delim)
  {
    if |delim| == 0 {
      TokenizeWhole(s);
      if |s| > 0 {
        TokenizeWhole(Join([s], delim));
      }
    } else {
      TokenizeJoin(Tokenize(s, delim), delim);
    }
  }

  /** With no delimiter characters a non-empty string is one whole token. */
  lemma TokenizeWhole(s: string)
    ensures Tokenize(s, "") == if |s| == 0 then [] else [s]
  {
    if |s| > 0 {
      TokenLengthWhole(s);
      assert s[..|s|] == s;
    }
  }

  lemma {:induction false} TokenLengthWhole(s: string)
    ensures TokenLength(s, "") == |s|
  {
    if |s| > 0 {
      TokenLengthWhole(s[1..]);
    }
  }

  /** A prefix without delimiter characters is kept whole when delimiters are stripped. */
  lemma {:induction false} StripDelimitersPrefix(s: string, n: nat, delims: string)
    requires n <= |s|
    requires forall i :: 0 <= i < n ==> s[i] !in delims
    ensures StripDelimiters(s, delims) == s[..n] + StripDelimiters(s[n..], delims)
  {
    if n > 0 {
      StripDelimitersPrefix(s[1..], n - 1, delims);
      assert s[1..][n - 1..] == s[n..];
      assert [s[0]] + s[1..][..n - 1] == s[..n];
    }
  }

  /**
   * Splitting loses nothing but delimiters: the tokens, put side by side,
   * are exactly the non-delimiter characters of the input, in order.
   */
  lemma {:induction false} TokenizeKeepsText(s: string, delims: string)
    ensures Concat(Tokenize(s, delims)) == StripDelimiters(s, delims)
    decreases |s|
  {
    if |s| > 0 {
      if s[0] in delims {
        TokenizeKeepsText(s[1..], delims);
      } else {
        var n := TokenLength(s, delims);
        var rest := Tokenize(s[n..], delims);
        TokenizeKeepsText(s[n..], delims);
        assert ([s[..n]] + rest)[1..] == rest;
        StripDelimitersPrefix(s, n, delims);
      }
    }
  }

  /** Inside a run, the collapsed text goes on with the run's characters. */
  lemma {:induction false} CollapseToken(s: string, n: nat, delim: string, pending: bool)
    requires 0 < n <= |s|
    requires forall i :: 0 <= i < n ==> s[i] !in delim
    ensures CollapseFrom(s, delim, true, pending) == CollapseFrom(s, delim, false, pending)
    ensures CollapseFrom(s, delim, false, pending)
            == (if pending then delim else "") + s[..n] + CollapseFrom(s[n..], delim, true, false)
  {
    if n > 1 {
      CollapseToken(s[1..], n - 1, delim, false);
      assert s[1..][n - 1..] == s[n..];
      assert [s[0]] + s[1..][..n - 1] == s[..n];
    } else {
      assert s[..1] == [s[0]];
    }
  }

  /** Joining a node in front of a run. */
  lemma JoinCons(x: string, rest: seq<string>, delim: string)
    ensures Join([x] + rest, delim) == if |rest| == 0 then x else x + delim + Join(rest, delim)
  {
    assert ([x] + rest)[1..] == rest;
  }

  /** How a string parses when it starts with a run of `n` non-delimiter characters. */
  lemma TokenizeRun(s: string, delim: string) returns (n: nat)
    requires |s| > 0 && s[0] !in delim
    ensures 0 < n <= |s| && forall i :: 0 <= i < n ==> s[i] !in delim
    ensures Tokenize(s, delim) == [s[..n]] + Tokenize(s[n..], delim)
    ensures n < |s| ==> s[n] in delim && Tokenize(s[n..], delim) == Tokenize(s[n + 1..], delim)
  {
    n := TokenLength(s, delim);
    if n < |s| {
      assert s[n..][1..] == s[n + 1..];
    }
  }

  /** The value `CollapsePending` gives: a delimiter and the joined nodes, or nothing. */
  function PendingText(s: string, delim: string): string {
    var ts := Tokenize(s, delim);
    if |ts| == 0 then "" else delim + Join(ts, delim)
  }

  /** A delimiter, a node and the pending text of the rest make a delimiter and the joined nodes. */
  lemma PendingGlue(x: string, rest: seq<string>, after: string, delim: string)
    requires after == if |rest| == 0 then "" else delim + Join(rest, delim)
    ensures (delim + x) + after == delim + Join([x] + rest, delim)
  {
    JoinCons(x, rest, delim);
    if |rest| > 0 {
      var j := Join(rest, delim);
      assert (delim + x) + (delim + j) == delim + (x + delim + j);
    } else {
      assert (delim + x) + "" == delim + x;
    }
  }

  /** One step of `CollapsePending`: a run followed by what comes after it. */
  lemma CollapsePendingRun(s: string, delim: string, n: nat)
    requires 0 < n <= |s| && forall i :: 0 <= i < n ==> s[i] !in delim
    requires Tokenize(s, delim) == [s[..n]] + Tokenize(s[n..], delim)
    requires n < |s| ==> s[n] in delim && Tokenize(s[n..], delim) == Tokenize(s[n + 1..], delim)
    requires n < |s| ==> CollapseFrom(s[n + 1..], delim, true, true) == PendingText(s[n + 1..], delim)
    ensures CollapseFrom(s, delim, true, true) == PendingText(s, delim)
  {
    var x, rest := s[..n], Tokenize(s[n..], delim);
    var after := CollapseFrom(s[n..], delim, true, false);
    assert CollapseFrom(s, delim, true, true) == (delim + x) + after by {
      CollapseToken(s, n, delim, true);
    }
    assert PendingText(s, delim) == delim + Join([x] + rest, delim);
    assert after == if |rest| == 0 then "" else delim + Join(rest, delim) by {
      if n < |s| {
        assert s[n..][1..] == s[n + 1..];
      }
    }
    PendingGlue(x, rest, after, delim);
  }

  /**
   * After a run, with delimiters skipped: the collapsed rest is a delimiter
   * and the joined nodes of the rest, or nothing when the rest has no node.
   */
  lemma {:induction false} CollapsePending(s: string, delim: string)
    ensures CollapseFrom(s, delim, true, true) == PendingText(s, delim)
    decreases |s|
  {
    if |s| > 0 {
      if s[0] in delim {
        CollapsePending(s[1..], delim);
      } else {
        var n := TokenizeRun(s, delim);
        if n < |s| {
          CollapsePending(s[n + 1..], delim);
        }
        CollapsePendingRun(s, delim, n);
      }
    }
  }

  /**
   * The string-side round trip: joining what a string parses into gives the
   * string with its delimiter characters collapsed, for every string.
   */
  lemma {:induction false} JoinTokenizeCollapses(s: string, delim: string)
    ensures Join(Tokenize(s, delim), delim) == Collapse(s, delim)
    decreases |s|
  {
    if |s| > 0 {
      if s[0] in delim {
        JoinTokenizeCollapses(s[1..], delim);
      } else {
        var n := TokenizeRun(s, delim);
        CollapseToken(s, n, delim, false);
        JoinCons(s[..n], Tokenize(s[n..], delim), delim);
        if n < |s| {
          CollapsePending(s[n + 1..], delim);
          assert s[n..][1..] == s[n + 1..];
        }
      }
    }
  }

  /** A collapsed string is its own collapse. */
  lemma {:induction false} CollapsedKeeps(s: string, c: char)
    requires forall i :: 0 <= i < |s| - 1 ==> !(s[i] == c && s[i + 1] == c)
    requires |s| == 0 || s[|s| - 1] != c
    ensures CollapseFrom(s, [c], true, false) == s
    ensures |s| > 0 && s[0] != c ==> CollapseFrom(s, [c], false, false) == s
  {
    if |s| > 0 {
      if s[0] == c {
        assert s[1] != c;
        CollapsedKeeps(s[2..], c);
        assert s[1..][1..] == s[2..];
        assert s == [c] + [s[1]] + s[2..];
      } else {
        CollapsedKeeps(s[1..], c);
        assert s == [s[0]] + s[1..];
      }
    }
  }

  /**
   * For a one-character delimiter, a string with no delimiter at either end
   * and none twice in a row is given back unchanged by parsing then joining.
   */
  lemma JoinTokenize(s: string, c: char)
    requires IsCollapsed(s, c)
    ensures Join(Tokenize(s, [c]), [c]) == s
  {
    JoinTokenizeCollapses(s, [c]);
    CollapsedKeeps(s, c);
  }
}
