/** The two string operations the caption segmenter relies on: the chunking
    that `String.prototype.match` performs with the global pattern
    /[^.!?,\n]+[.!?,\n]*|[^.!?,\n]+$/g, and `String.prototype.trim`.
    Strings are sequences of Dafny characters (Unicode scalar values); the
    surrogate pairs of UTF-16 are not modelled. */
module TextSplit {

  /** The delimiter class `[.!?,\n]` of the segmenting pattern. */
  predicate IsDelimiter(c: char) {
    c == '.' || c == '!' || c == '?' || c == ',' || c == '\n'
  }

  /** The ECMAScript WhiteSpace and LineTerminator code points, which are
      exactly what `trim` removes from both ends of a string. */
  predicate IsWhitespace(c: char) {
    c == '\t' || c == '\n' || c == '\U{000B}' || c == '\U{000C}' || c == '\r' || c == ' '
    || c == '\U{00A0}' || c == '\U{1680}' || ('\U{2000}' <= c <= '\U{200A}')
    || c == '\U{2028}' || c == '\U{2029}' || c == '\U{202F}' || c == '\U{205F}'
    || c == '\U{3000}' || c == '\U{FEFF}'
  }

  predicate AllWhitespace(s: string) {
    forall i :: 0 <= i < |s| ==> IsWhitespace(s[i])
  }

  predicate AllDelimiters(s: string) {
    forall i :: 0 <= i < |s| ==> IsDelimiter(s[i])
  }

  /** The concatenation of a sequence of strings. */
  function Concat(ss: seq<string>): string {
    if ss == [] then [] else ss[0] + Concat(ss[1..])
  }

  function TotalLength(ss: seq<string>): nat {
    if ss == [] then 0 else |ss[0]| + TotalLength(ss[1..])
  }

  lemma {:induction false} ConcatLength(ss: seq<string>)
    ensures |Concat(ss)| == TotalLength(ss)
  {
    if ss != [] {
      ConcatLength(ss[1..]);
    }
  }

  // ----- String.prototype.trim -----

  function TrimStart(s: string): (r: string)
    ensures |r| <= |s|
  {
    if s != [] && IsWhitespace(s[0]) then TrimStart(s[1..]) else s
  }

  function TrimEnd(s: string): (r: string)
    ensures |r| <= |s|
  {
    if s != [] && IsWhitespace(s[|s| - 1]) then TrimEnd(s[..|s| - 1]) else s
  }

  /** `s.trim()`: the string without its leading and trailing whitespace. */
  function Trim(s: string): (r: string)
    ensures |r| <= |s|
  {
    TrimEnd(TrimStart(s))
  }

  lemma {:induction false} TrimStartFacts(s: string)
    ensures TrimStart(s) == [] <==> AllWhitespace(s)
    ensures TrimStart(s) != [] ==> !IsWhitespace(TrimStart(s)[0])
    ensures TrimStart(s) == s[|s| - |TrimStart(s)|..]
    ensures AllWhitespace(s[..|s| - |TrimStart(s)|])
  {
    if s != [] && IsWhitespace(s[0]) {
      TrimStartFacts(s[1..]);
      if AllWhitespace(s[1..]) {
        forall i | 0 <= i < |s| ensures IsWhitespace(s[i]) {
          if i > 0 { assert s[i] == s[1..][i - 1]; }
        }
      }
      var k := |s| - |TrimStart(s)|;
      assert s[1..][k - 1..] == s[k..];
      forall i | 0 <= i < k ensures IsWhitespace(s[..k][i]) {
        if i > 0 { assert s[..k][i] == s[1..][..k - 1][i - 1]; }
      }
    }
  }

  lemma {:induction false} TrimEndFacts(s: string)
    ensures TrimEnd(s) == [] <==> AllWhitespace(s)
    ensures TrimEnd(s) != [] ==> !IsWhitespace(TrimEnd(s)[|TrimEnd(s)| - 1])
    ensures TrimEnd(s) == s[..|TrimEnd(s)|]
    ensures AllWhitespace(s[|TrimEnd(s)|..])
  {
    if s != [] && IsWhitespace(s[|s| - 1]) {
      var p := s[..|s| - 1];
      TrimEndFacts(p);
      if AllWhitespace(p) {
        forall i | 0 <= i < |s| ensures IsWhitespace(s[i]) {
          if i < |s| - 1 { assert s[i] == p[i]; }
        }
      }
      var m := |TrimEnd(s)|;
      forall i | 0 <= i < |s| - m ensures IsWhitespace(s[m..][i]) {
        if i < |s| - 1 - m { assert s[m..][i] == p[m..][i]; }
      }
    }
  }

  /** A string with no whitespace at either end. */
  predicate IsTrimmed(t: string) {
    t != [] ==> !IsWhitespace(t[0]) && !IsWhitespace(t[|t| - 1])
  }

  /** `trim` gives the empty string exactly for all-whitespace strings, and
      otherwise a string that starts and ends with non-whitespace; in both
      cases it is a slice of `s` whose cut-off ends are all whitespace. */
  lemma TrimFacts(s: string)
    ensures Trim(s) == [] <==> AllWhitespace(s)
    ensures IsTrimmed(Trim(s))
    ensures var i := |s| - |TrimStart(s)|;
      i + |Trim(s)| <= |s| && Trim(s) == s[i..i + |Trim(s)|]
      && AllWhitespace(s[..i]) && AllWhitespace(s[i + |Trim(s)|..])
  {
    var t := TrimStart(s);
    TrimStartFacts(s);
    TrimEndFacts(t);
    if t != [] && TrimEnd(t) != [] {
      assert TrimEnd(t)[0] == t[0];
    }
    var i := |s| - |t|;
    var m := |TrimEnd(t)|;
    assert t == s[i..];
    assert TrimEnd(t) == s[i..i + m];
    assert t[m..] == s[i + m..];
  }

  // ----- the global match of /[^.!?,\n]+[.!?,\n]*|[^.!?,\n]+$/g -----

  /** Length of the longest prefix of `s` made only of delimiters (when
      `delimiters` holds) or only of non-delimiters (otherwise). */
  function RunLength(s: string, delimiters: bool): (n: nat)
    ensures n <= |s|
  {
    if s == [] || IsDelimiter(s[0]) != delimiters then 0 else 1 + RunLength(s[1..], delimiters)
  }

  /** The run that `RunLength` measures is maximal. */
  lemma {:induction false} RunLengthMaximal(s: string, delimiters: bool)
    ensures forall i :: 0 <= i < RunLength(s, delimiters) ==> IsDelimiter(s[i]) == delimiters
    ensures RunLength(s, delimiters) < |s| ==> IsDelimiter(s[RunLength(s, delimiters)]) != delimiters
  {
    if s != [] && IsDelimiter(s[0]) == delimiters {
      RunLengthMaximal(s[1..], delimiters);
      forall i | 0 < i < RunLength(s, delimiters) ensures IsDelimiter(s[i]) == delimiters {
        assert s[i] == s[1..][i - 1];
      }
    }
  }

  /** Where the match that starts at a non-delimiter ends: after the run of
      non-delimiters and the run of delimiters that follows it. */
  function MatchEnd(s: string): (m: nat)
    requires s != [] && !IsDelimiter(s[0])
    ensures 0 < m <= |s|
  {
    var n := RunLength(s, false);
    n + RunLength(s[n..], true)
  }

  /** The strings the global match returns, in order. A match can only start
      at a non-delimiter; it then takes the whole run of non-delimiters and
      the whole run of delimiters after it. The second alternative of the
      pattern never matches where the first does not, so it adds nothing.
      Delimiters before the first non-delimiter belong to no match. */
  function Chunks(s: string): seq<string>
    decreases |s|
  {
    if s == [] then []
    else if IsDelimiter(s[0]) then Chunks(s[1..])
    else [s[..MatchEnd(s)]] + Chunks(s[MatchEnd(s)..])
  }

  /** A string of the shape `[^.!?,\n]+[.!?,\n]*`. */
  predicate IsChunk(c: string) {
    |c| > 0 && !IsDelimiter(c[0])
    && forall i, j :: 0 <= i <= j < |c| && IsDelimiter(c[i]) ==> IsDelimiter(c[j])
  }

  predicate EndsWithDelimiter(c: string) {
    |c| > 0 && IsDelimiter(c[|c| - 1])
  }

  /** The text after a match is empty or starts with a non-delimiter. */
  lemma MatchIsMaximal(s: string)
    requires s != [] && !IsDelimiter(s[0])
    ensures MatchEnd(s) < |s| ==> !IsDelimiter(s[MatchEnd(s)])
  {
    var n := RunLength(s, false);
    RunLengthMaximal(s[n..], true);
    if MatchEnd(s) < |s| {
      assert s[n..][MatchEnd(s) - n] == s[MatchEnd(s)];
    }
  }

  /** One match has the shape of the first alternative; if text follows it,
      the match ends with a delimiter. */
  lemma MatchShape(s: string)
    requires s != [] && !IsDelimiter(s[0])
    ensures IsChunk(s[..MatchEnd(s)])
    ensures MatchEnd(s) < |s| ==> EndsWithDelimiter(s[..MatchEnd(s)])
  {
    var n := RunLength(s, false);
    var d := RunLength(s[n..], true);
    var m := n + d;
    var c := s[..m];
    RunLengthMaximal(s, false);
    RunLengthMaximal(s[n..], true);
    forall i, j | 0 <= i <= j < |c| && IsDelimiter(c[i])
      ensures IsDelimiter(c[j])
    {
      assert i >= n;
      assert s[n..][j - n] == c[j];
    }
    if m < |s| {
      assert s[n..][d] == s[m];
      assert s[n..][0] == s[n];
      assert d > 0;
      assert c[m - 1] == s[n..][d - 1];
    }
  }

  /** Every match has the shape of the first alternative, and every match but
      the last ends with a delimiter (the run of non-delimiters was maximal). */
  lemma {:induction false} ChunksShape(s: string)
    ensures forall k :: 0 <= k < |Chunks(s)| ==> IsChunk(Chunks(s)[k])
    ensures forall k :: 0 <= k < |Chunks(s)| - 1 ==> EndsWithDelimiter(Chunks(s)[k])
    decreases |s|
  {
    if s == [] {
    } else if IsDelimiter(s[0]) {
      ChunksShape(s[1..]);
    } else {
      var m := MatchEnd(s);
      MatchShape(s);
      ChunksShape(s[m..]);
      var cs := Chunks(s);
      assert cs == [s[..m]] + Chunks(s[m..]);
      forall k | 0 <= k < |cs|
        ensures IsChunk(cs[k])
        ensures k < |cs| - 1 ==> EndsWithDelimiter(cs[k])
      {
        if k > 0 {
          assert cs[k] == Chunks(s[m..])[k - 1];
        } else if |cs| > 1 {
          assert m < |s|;
        }
      }
    }
  }

  lemma ConcatCons(x: string, ys: seq<string>)
    ensures Concat([x] + ys) == x + Concat(ys)
  {
    assert ([x] + ys)[1..] == ys;
  }

  /** The matches, concatenated, give back the text without its leading
      delimiters: nothing else is skipped and nothing is repeated. */
  lemma {:induction false} ChunksCover(s: string)
    ensures Concat(Chunks(s)) == s[RunLength(s, true)..]
    decreases |s|
  {
    if s == [] {
    } else if IsDelimiter(s[0]) {
      ChunksCover(s[1..]);
      SkipDelimiter(s);
    } else {
      ChunksCover(s[MatchEnd(s)..]);
      TakeMatch(s);
    }
  }

  /** A leading delimiter is skipped by the match and counted in the run. */
  lemma SkipDelimiter(s: string)
    requires s != [] && IsDelimiter(s[0])
    requires Concat(Chunks(s[1..])) == s[1..][RunLength(s[1..], true)..]
    ensures Concat(Chunks(s)) == s[RunLength(s, true)..]
  {
    var t := s[1..];
    assert RunLength(s, true) == 1 + RunLength(t, true);
    assert t[RunLength(t, true)..] == s[RunLength(s, true)..];
  }

  /** A match at the start of the text is followed by the matches of the rest. */
  lemma TakeMatch(s: string)
    requires s != [] && !IsDelimiter(s[0])
    requires Concat(Chunks(s[MatchEnd(s)..])) == s[MatchEnd(s)..][RunLength(s[MatchEnd(s)..], true)..]
    ensures Concat(Chunks(s)) == s[RunLength(s, true)..]
  {
    var m := MatchEnd(s);
    var rest := s[m..];
    MatchIsMaximal(s);
    assert RunLength(rest, true) == 0 by {
      if rest != [] { assert rest[0] == s[m]; }
    }
    assert Concat(Chunks(rest)) == rest by {
      assert rest[RunLength(rest, true)..] == rest;
    }
    assert Chunks(s) == [s[..m]] + Chunks(rest);
    ConcatCons(s[..m], Chunks(rest));
    assert s[..m] + rest == s;
    assert s[RunLength(s, true)..] == s;
  }

  /** The global match finds nothing exactly when the text is made of
      delimiters only. */
  lemma {:induction false} ChunksEmpty(s: string)
    ensures Chunks(s) == [] <==> AllDelimiters(s)
    decreases |s|
  {
    if s != [] && IsDelimiter(s[0]) {
      ChunksEmpty(s[1..]);
      if AllDelimiters(s[1..]) {
        forall i | 0 <= i < |s| ensures IsDelimiter(s[i]) {
          if i > 0 { assert s[i] == s[1..][i - 1]; }
        }
      }
    }
  }
}
