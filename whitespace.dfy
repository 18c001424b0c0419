/** Stage 5 of the normaliser: `re.sub(r'\s+', ' ', text).strip()`.

    Besides the stage itself the module defines an independent reference,
    the split/join form `' '.join(text.split())`, and proves the two equal;
    the normal form and idempotence of the stage follow from the reference. */
module Whitespace {
  import opened CharClasses
  import opened Subsequences

  /** A non-empty run of characters none of which is whitespace. */
  predicate IsToken(w: string) {
    |w| > 0 && forall k :: 0 <= k < |w| ==> !IsSpace(w[k])
  }

  predicate NoLeadingOrTrailingSpace(s: string) {
    s == [] || (!IsSpace(s[0]) && !IsSpace(s[|s| - 1]))
  }

  /** Positions `i` and `i + 1` both hold whitespace. */
  predicate SpacePairAt(s: string, i: nat)
    requires i + 1 < |s|
  {
    IsSpace(s[i]) && IsSpace(s[i + 1])
  }

  predicate NoDoubleSpace(s: string) {
    forall i :: 0 <= i < |s| - 1 ==> !SpacePairAt(s, i)
  }

  predicate OnlyPlainSpaces(s: string) {
    forall i :: 0 <= i < |s| && IsSpace(s[i]) ==> s[i] == ' '
  }

  /** The whitespace normal form the stage produces. */
  predicate IsCollapsed(s: string) {
    NoLeadingOrTrailingSpace(s) && NoDoubleSpace(s) && OnlyPlainSpaces(s)
  }

  /** `s.lstrip()`: the maximal leading whitespace run removed. */
  function TrimStart(s: string): (r: string)
    ensures |r| <= |s| && r == s[|s| - |r|..]
    ensures r == [] || !IsSpace(r[0])
    decreases |s|
  {
    if s != [] && IsSpace(s[0]) then TrimStart(s[1..]) else s
  }

  /** `s.rstrip()`: the maximal trailing whitespace run removed. */
  function TrimEnd(s: string): (r: string)
    ensures |r| <= |s| && r == s[..|r|]
    ensures r == [] || !IsSpace(r[|r| - 1])
    decreases |s|
  {
    if s != [] && IsSpace(s[|s| - 1]) then TrimEnd(s[..|s| - 1]) else s
  }

  /** `s.strip()`. */
  function Strip(s: string): (r: string)
    ensures |r| <= |s|
    ensures forall i :: 0 <= i < |r| ==> r[i] in s
    ensures NoLeadingOrTrailingSpace(r)
  {
    var t := TrimStart(s);
    var r := TrimEnd(t);
    InnerSlice(s, t, r);
    r
  }

  /** `lstrip` removes whitespace and nothing else. */
  lemma {:induction false} TrimStartRemovesSpace(s: string)
    ensures forall i :: 0 <= i < |s| - |TrimStart(s)| ==> IsSpace(s[i])
    decreases |s|
  {
    if s != [] && IsSpace(s[0]) {
      TrimStartRemovesSpace(s[1..]);
      forall i | 1 <= i < |s| - |TrimStart(s)| ensures IsSpace(s[i]) {
        assert s[i] == s[1..][i - 1];
      }
    }
  }

  /** `rstrip` removes whitespace and nothing else. */
  lemma {:induction false} TrimEndRemovesSpace(s: string)
    ensures forall i :: |TrimEnd(s)| <= i < |s| ==> IsSpace(s[i])
    decreases |s|
  {
    if s != [] && IsSpace(s[|s| - 1]) {
      var p := s[..|s| - 1];
      TrimEndRemovesSpace(p);
      forall i | |TrimEnd(s)| <= i < |s| - 1 ensures IsSpace(s[i]) {
        assert s[i] == p[i];
      }
    }
  }

  /** `r` is the slice of `s` that starts at `k`, and everything of `s`
      before and after that slice is whitespace. */
  predicate IsInnerSlice(r: string, s: string, k: nat) {
    k + |r| <= |s| && r == s[k..k + |r|]
    && (forall i :: 0 <= i < k ==> IsSpace(s[i]))
    && (forall i :: k + |r| <= i < |s| ==> IsSpace(s[i]))
  }

  /** `strip` removes a leading and a trailing run of whitespace and keeps
      the middle of `s` as it is: `t` is `s.lstrip()`, `r` is `t.rstrip()`,
      which is `Strip(s)`, and `k` is where `t` starts in `s`. */
  lemma StripIsInnerSlice(s: string, t: string, r: string, k: nat)
    requires t == TrimStart(s) && r == TrimEnd(t) && k == |s| - |t|
    ensures r == Strip(s)
    ensures IsInnerSlice(r, s, k)
  {
    TrimStartRemovesSpace(s);
    TrimEndRemovesSpace(t);
    InnerRun(s, t, r, k);
  }

  /** A prefix `r` of the suffix `t == s[k..]`, followed in `t` only by
      whitespace, is a slice of `s` followed in `s` only by whitespace. */
  lemma InnerRun(s: string, t: string, r: string, k: nat)
    requires k <= |s| && t == s[k..] && |r| <= |t| && r == t[..|r|]
    requires forall j :: |r| <= j < |t| ==> IsSpace(t[j])
    ensures k + |r| <= |s| && r == s[k..k + |r|]
    ensures forall i :: k + |r| <= i < |s| ==> IsSpace(s[i])
  {
    forall i | k + |r| <= i < |s| ensures IsSpace(s[i]) {
      assert s[i] == t[i - k];
    }
  }

  /** A prefix of a suffix of `s` holds only characters of `s`. */
  lemma InnerSlice(s: string, t: string, r: string)
    requires |t| <= |s| && t == s[|s| - |t|..]
    requires |r| <= |t| && r == t[..|r|]
    ensures forall i :: 0 <= i < |r| ==> r[i] in s
  {
    forall i | 0 <= i < |r| ensures r[i] in s {
      assert r[i] == s[|s| - |t| + i];
    }
  }

  /** The maximal non-whitespace prefix of `s`. */
  function LeadingToken(s: string): (w: string)
    ensures |w| <= |s| && w == s[..|w|]
    ensures forall k :: 0 <= k < |w| ==> !IsSpace(w[k])
    ensures |w| == |s| || IsSpace(s[|w|])
    ensures s != [] && !IsSpace(s[0]) ==> |w| > 0
    decreases |s|
  {
    if s == [] || IsSpace(s[0]) then [] else [s[0]] + LeadingToken(s[1..])
  }

  /** `re.sub(r'\s+', ' ', s)`: every maximal whitespace run becomes one `' '`. */
  function ReplaceSpaceRuns(s: string): (r: string)
    ensures |r| <= |s|
    ensures s != [] ==> r != [] && r[0] == (if IsSpace(s[0]) then ' ' else s[0])
    decreases |s|
  {
    if s == [] then []
    else if IsSpace(s[0]) then [' '] + ReplaceSpaceRuns(TrimStart(s))
    else [s[0]] + ReplaceSpaceRuns(s[1..])
  }

  /** The whole stage. */
  function CollapseWhitespace(s: string): (r: string)
    ensures |r| <= |s|
    ensures forall i :: 0 <= i < |r| ==> r[i] == ' ' || r[i] in s
    ensures IsCollapsed(r)
    ensures NonSpace(r) == NonSpace(s)
  {
    NonSpaceCollapse(s);
    CollapseIsJoinOfWords(s);
    JoinWordsCollapsed(Words(s));
    ReplaceSpaceRunsChars(s);
    Strip(ReplaceSpaceRuns(s))
  }

  /** `s.split()`: the maximal non-whitespace runs of `s`, in order. */
  function Words(s: string): (ws: seq<string>)
    ensures forall i :: 0 <= i < |ws| ==> IsToken(ws[i])
    decreases |s|
  {
    var t := TrimStart(s);
    if t == [] then []
    else
      var w := LeadingToken(t);
      var rest := Words(t[|w|..]);
      ConsTokens(w, rest);
      [w] + rest
  }

  lemma ConsTokens(w: string, rest: seq<string>)
    requires IsToken(w)
    requires forall i :: 0 <= i < |rest| ==> IsToken(rest[i])
    ensures forall i :: 0 <= i < |[w] + rest| ==> IsToken(([w] + rest)[i])
  {
  }

  /** `' '.join(ws)`. */
  function JoinWords(ws: seq<string>): string
  {
    if ws == [] then []
    else if |ws| == 1 then ws[0]
    else ws[0] + " " + JoinWords(ws[1..])
  }

  // ---------------------------------------------------------------------
  // Lemmas

  /** Joining tokens yields the normal form, and a non-empty join starts
      and ends with a non-whitespace character. */
  lemma {:induction false} JoinWordsCollapsed(ws: seq<string>)
    requires forall i :: 0 <= i < |ws| ==> IsToken(ws[i])
    ensures IsCollapsed(JoinWords(ws))
    ensures ws != [] ==> |JoinWords(ws)| > 0 && JoinWords(ws)[0] == ws[0][0]
  {
    if |ws| == 1 {
      assert IsToken(ws[0]);
    } else if |ws| > 1 {
      var w, j := ws[0], JoinWords(ws[1..]);
      JoinWordsCollapsed(ws[1..]);
      assert IsToken(w) && IsToken(ws[1]);
      var r := w + " " + j;
      assert r == JoinWords(ws);
      forall i | 0 <= i < |r| && IsSpace(r[i])
        ensures r[i] == ' ' && 0 < i < |r| - 1
      {
        if i > |w| {
          assert r[i] == j[i - |w| - 1];
        }
      }
      forall i | 0 <= i < |r| - 1 ensures !SpacePairAt(r, i) {
        if i > |w| {
          assert r[i] == j[i - |w| - 1];
          assert r[i + 1] == j[i - |w|];
          assert !SpacePairAt(j, i - |w| - 1);
        } else if i == |w| {
          assert r[i + 1] == j[0];
        } else if i + 1 < |w| {
          assert r[i] == w[i];
        }
      }
      assert r[|r| - 1] == j[|j| - 1];
    }
  }

  /** Run replacement writes only `' '` or characters of its input. */
  lemma {:induction false} ReplaceSpaceRunsChars(s: string)
    ensures forall i :: 0 <= i < |ReplaceSpaceRuns(s)| ==>
      ReplaceSpaceRuns(s)[i] == ' ' || ReplaceSpaceRuns(s)[i] in s
    decreases |s|
  {
    if s != [] {
      var r := ReplaceSpaceRuns(s);
      var t := if IsSpace(s[0]) then TrimStart(s) else s[1..];
      assert t == s[|s| - |t|..];
      ReplaceSpaceRunsChars(t);
      var rest := ReplaceSpaceRuns(t);
      assert r == [r[0]] + rest;
      forall i | 0 <= i < |r| && r[i] != ' ' ensures r[i] in s {
        if i > 0 {
          assert r[i] == rest[i - 1];
          var j :| 0 <= j < |t| && t[j] == rest[i - 1];
          assert s[|s| - |t| + j] == r[i];
        }
      }
    }
  }

  lemma TrimStartIdentity(s: string)
    requires s == [] || !IsSpace(s[0])
    ensures TrimStart(s) == s
  {
  }

  /** The token before a whitespace character or the end is left alone by
      run replacement. */
  lemma {:induction false} ReplaceSpaceRunsAfterToken(w: string, t: string)
    requires forall k :: 0 <= k < |w| ==> !IsSpace(w[k])
    ensures ReplaceSpaceRuns(w + t) == w + ReplaceSpaceRuns(t)
    decreases |w|
  {
    if w == [] {
      assert w + t == t;
    } else {
      var c, x := w[0], w[1..] + t;
      assert w + t == [c] + x;
      assert ([c] + x)[1..] == x;
      assert !IsSpace(c);
      ReplaceSpaceRunsAfterToken(w[1..], t);
      assert [c] + (w[1..] + ReplaceSpaceRuns(t)) == w + ReplaceSpaceRuns(t);
    }
  }

  /** A whitespace run followed by a non-whitespace character or the end
      becomes one `' '`, and the text before the run (with no whitespace in
      it) is kept as it is. */
  lemma ReplaceSpaceRunsGap(w: string, u: string, t: string)
    requires forall k :: 0 <= k < |w| ==> !IsSpace(w[k])
    requires u != [] && forall k :: 0 <= k < |u| ==> IsSpace(u[k])
    requires t == [] || !IsSpace(t[0])
    ensures ReplaceSpaceRuns(w + (u + t)) == w + (" " + ReplaceSpaceRuns(t))
  {
    ReplaceSpaceRunsAfterToken(w, u + t);
    TrimStartSpaces(u, t);
    assert (u + t)[0] == u[0];
  }

  /** `lstrip` removes a whole whitespace run. */
  lemma {:induction false} TrimStartSpaces(u: string, t: string)
    requires forall k :: 0 <= k < |u| ==> IsSpace(u[k])
    requires t == [] || !IsSpace(t[0])
    ensures TrimStart(u + t) == t
    decreases |u|
  {
    if u == [] {
      assert u + t == t;
      TrimStartIdentity(t);
    } else {
      assert (u + t)[0] == u[0];
      assert (u + t)[1..] == u[1..] + t;
      TrimStartSpaces(u[1..], t);
    }
  }

  /** Trailing whitespace is only trimmed from a suffix that has none but
      whitespace. */
  lemma {:induction false} TrimEndAppend(a: string, b: string)
    requires b != [] && !IsSpace(b[0])
    ensures TrimEnd(a + b) == a + TrimEnd(b)
    decreases |b|
  {
    if IsSpace(b[|b| - 1]) {
      assert (a + b)[..|a + b| - 1] == a + b[..|b| - 1];
      TrimEndAppend(a, b[..|b| - 1]);
    }
  }

  /** Text that starts with a token splits into that token and the rest. */
  lemma SplitLeadingToken(t: string)
    requires t != [] && !IsSpace(t[0])
    ensures var w := LeadingToken(t);
      IsToken(w) && t == w + t[|w|..]
      && Words(t) == [w] + Words(t[|w|..])
      && ReplaceSpaceRuns(t) == w + ReplaceSpaceRuns(t[|w|..])
  {
    var w := LeadingToken(t);
    TrimStartIdentity(t);
    assert t == w + t[|w|..];
    ReplaceSpaceRunsAfterToken(w, t[|w|..]);
  }

  /** After the last token only whitespace remains, and trimming removes it. */
  lemma TrimEndLastToken(w: string, u: string)
    requires IsToken(w) && TrimStart(u) == []
    ensures TrimEnd(w + ReplaceSpaceRuns(u)) == w
  {
    if u == [] {
      assert w + ReplaceSpaceRuns(u) == w;
    } else {
      ReplaceSpaces(u);
      TrimEndOneSpace(w);
    }
  }

  /** A non-empty run of whitespace is replaced by one space. */
  lemma ReplaceSpaces(u: string)
    requires u != [] && TrimStart(u) == []
    ensures ReplaceSpaceRuns(u) == " "
  {
    assert IsSpace(u[0]);
    assert ReplaceSpaceRuns(u) == [' '] + ReplaceSpaceRuns([]);
  }

  lemma TrimEndOneSpace(w: string)
    requires IsToken(w)
    ensures TrimEnd(w + " ") == w
  {
    var r := w + " ";
    assert IsSpace(r[|r| - 1]);
    assert r[..|r| - 1] == w;
    assert TrimEnd(r) == TrimEnd(w);
    assert !IsSpace(w[|w| - 1]);
  }

  /** On text without leading whitespace, trimming the end of the replaced
      text is joining its words. */
  lemma {:induction false} TrimEndReplaceIsJoin(t: string)
    requires t == [] || !IsSpace(t[0])
    ensures TrimEnd(ReplaceSpaceRuns(t)) == JoinWords(Words(t))
    decreases |t|
  {
    if t != [] {
      SplitLeadingToken(t);
      var w := LeadingToken(t);
      var u := t[|w|..];
      var v := TrimStart(u);
      if v == [] {
        assert Words(u) == [];
        TrimEndLastToken(w, u);
      } else {
        TrimStartIdentity(v);
        var ws := Words(v);
        assert Words(u) == ws;
        assert ([w] + ws)[1..] == ws;
        var x := ReplaceSpaceRuns(v);
        assert ReplaceSpaceRuns(u) == " " + x;
        AppendAssociative(w, " ", x);
        TrimEndAppend(w + " ", x);
        TrimEndReplaceIsJoin(v);
      }
    }
  }

  /** The stage equals the split/join reference `' '.join(s.split())`. */
  lemma CollapseIsJoinOfWords(s: string)
    ensures Strip(ReplaceSpaceRuns(s)) == JoinWords(Words(s))
  {
    TrimsOfReplaceIsJoin(s);
  }

  /** `CollapseIsJoinOfWords` with `strip` written out as its two halves. */
  lemma TrimsOfReplaceIsJoin(s: string)
    ensures TrimEnd(TrimStart(ReplaceSpaceRuns(s))) == JoinWords(Words(s))
  {
    var t := TrimStart(s);
    WordsSkipLeadingSpace(s, t);
    ReplaceSkipsLeadingSpace(s, t);
    TrimEndReplaceIsJoin(t);
  }

  /** Leading whitespace contributes no word. */
  lemma WordsSkipLeadingSpace(s: string, t: string)
    requires t == TrimStart(s)
    ensures Words(s) == Words(t)
  {
    TrimStartIdentity(t);
  }

  /** After run replacement and `lstrip`, the text is the replaced text
      without its leading whitespace. */
  lemma ReplaceSkipsLeadingSpace(s: string, t: string)
    requires t == TrimStart(s)
    ensures TrimStart(ReplaceSpaceRuns(s)) == ReplaceSpaceRuns(t)
  {
    var x := ReplaceSpaceRuns(t);
    assert x == [] || !IsSpace(x[0]);
    TrimStartIdentity(x);
    if s != [] && IsSpace(s[0]) {
      var y := [' '] + x;
      assert ReplaceSpaceRuns(s) == y;
      assert y[1..] == x;
      assert TrimStart(y) == TrimStart(x);
    } else {
      assert t == s;
    }
  }


  /** A token followed by whitespace or the end is the leading token. */
  lemma LeadingTokenOf(w: string, rest: string)
    requires IsToken(w)
    requires rest == [] || IsSpace(rest[0])
    ensures LeadingToken(w + rest) == w
  {
    var r := w + rest;
    assert r[..|w|] == w;
  }

  /** Leading whitespace does not change the words. */
  lemma WordsSkipSpace(j: string)
    requires j == [] || !IsSpace(j[0])
    ensures Words(" " + j) == Words(j)
  {
    assert (" " + j)[1..] == j;
    TrimStartIdentity(j);
    assert TrimStart(" " + j) == j;
  }

  /** The words of `w + " " + j` are `w` followed by the words of `j`. */
  lemma WordsAfterToken(w: string, j: string)
    requires IsToken(w)
    requires j == [] || !IsSpace(j[0])
    ensures Words(w + " " + j) == [w] + Words(j)
  {
    var r := w + " " + j;
    assert r == w + (" " + j);
    TrimStartIdentity(r);
    LeadingTokenOf(w, " " + j);
    assert r[|w|..] == " " + j;
    WordsSkipSpace(j);
  }

  /** A single token is its own only word. */
  lemma WordsOfToken(w: string)
    requires IsToken(w)
    ensures Words(w) == [w]
  {
    TrimStartIdentity(w);
    LeadingTokenOf(w, []);
    assert w + [] == w;
    assert w[|w|..] == [];
  }

  /** One step of `WordsOfJoin`: the first token is split off again. */
  lemma WordsOfJoinStep(ws: seq<string>)
    requires |ws| > 1
    requires forall i :: 0 <= i < |ws| ==> IsToken(ws[i])
    requires Words(JoinWords(ws[1..])) == ws[1..]
    ensures Words(JoinWords(ws)) == ws
  {
    var tail := ws[1..];
    var j := JoinWords(tail);
    assert JoinWords(ws) == ws[0] + " " + j;
    assert j != [] && !IsSpace(j[0]) by {
      assert forall i :: 0 <= i < |tail| ==> IsToken(tail[i]);
      JoinWordsCollapsed(tail);
      assert IsToken(tail[0]);
    }
    assert IsToken(ws[0]);
    WordsAfterToken(ws[0], j);
    HeadTail(ws);
  }

  /** Splitting a join gives back the tokens. */
  lemma {:induction false} WordsOfJoin(ws: seq<string>)
    requires forall i :: 0 <= i < |ws| ==> IsToken(ws[i])
    ensures Words(JoinWords(ws)) == ws
  {
    if |ws| == 1 {
      assert IsToken(ws[0]);
      WordsOfToken(ws[0]);
    } else if |ws| > 1 {
      assert forall i :: 0 <= i < |ws[1..]| ==> IsToken(ws[1..][i]);
      WordsOfJoin(ws[1..]);
      WordsOfJoinStep(ws);
    }
  }

  /** The stage is idempotent. */
  lemma CollapseIdempotent(s: string)
    ensures CollapseWhitespace(CollapseWhitespace(s)) == CollapseWhitespace(s)
  {
    var ws := Words(s);
    CollapseIsJoinOfWords(s);
    CollapseIsJoinOfWords(JoinWords(ws));
    WordsOfJoin(ws);
  }

  /** Text without whitespace runs other than single `' '` is left alone by
      run replacement. */
  lemma {:induction false} ReplaceSpaceRunsIdentity(s: string)
    requires NoDoubleSpace(s) && OnlyPlainSpaces(s)
    ensures ReplaceSpaceRuns(s) == s
    decreases |s|
  {
    if s != [] {
      var t := s[1..];
      forall i | 0 <= i < |t| - 1 ensures !SpacePairAt(t, i) {
        assert !SpacePairAt(s, i + 1);
      }
      ReplaceSpaceRunsIdentity(t);
      if IsSpace(s[0]) {
        if |s| > 1 {
          assert !SpacePairAt(s, 0);
        }
        assert TrimStart(s) == TrimStart(t);
        TrimStartIdentity(t);
      }
      HeadTail(s);
    }
  }

  /** The fixed points of the stage are exactly the texts in normal form. */
  lemma CollapseFixedPoint(s: string)
    ensures CollapseWhitespace(s) == s <==> IsCollapsed(s)
  {
    if IsCollapsed(s) {
      ReplaceSpaceRunsIdentity(s);
      TrimStartIdentity(s);
      assert TrimEnd(s) == s;
      assert Strip(s) == s;
    }
  }

  // ---------------------------------------------------------------------
  // Non-whitespace content

  /** The non-whitespace characters of `s`, in order. */
  function NonSpace(s: string): string
    decreases |s|
  {
    if s == [] then []
    else if IsSpace(s[0]) then NonSpace(s[1..])
    else [s[0]] + NonSpace(s[1..])
  }

  lemma {:induction false} NonSpaceAppend(a: string, b: string)
    ensures NonSpace(a + b) == NonSpace(a) + NonSpace(b)
    decreases |a|
  {
    if a == [] {
      assert a + b == b;
    } else {
      assert (a + b)[0] == a[0];
      assert (a + b)[1..] == a[1..] + b;
      NonSpaceAppend(a[1..], b);
      if !IsSpace(a[0]) {
        AppendAssociative([a[0]], NonSpace(a[1..]), NonSpace(b));
      }
    }
  }

  lemma {:induction false} NonSpaceOfSpaces(u: string)
    requires forall i :: 0 <= i < |u| ==> IsSpace(u[i])
    ensures NonSpace(u) == []
    decreases |u|
  {
    if u != [] {
      NonSpaceOfSpaces(u[1..]);
    }
  }

  /** Trimming either end removes only whitespace. */
  lemma NonSpaceTrim(s: string)
    ensures NonSpace(TrimStart(s)) == NonSpace(s)
    ensures NonSpace(TrimEnd(s)) == NonSpace(s)
  {
    TrimStartRemovesSpace(s);
    TrimEndRemovesSpace(s);
    NonSpaceTrimStart(s, TrimStart(s), |s| - |TrimStart(s)|);
    NonSpaceTrimEnd(s, TrimEnd(s));
  }

  lemma NonSpaceTrimStart(s: string, t: string, k: nat)
    requires k <= |s| && t == s[k..]
    requires forall i :: 0 <= i < k ==> IsSpace(s[i])
    ensures NonSpace(t) == NonSpace(s)
  {
    var p := s[..k];
    assert forall i :: 0 <= i < |p| ==> IsSpace(p[i]);
    assert s == p + t;
    NonSpaceAppend(p, t);
    NonSpaceOfSpaces(p);
  }

  lemma NonSpaceTrimEnd(s: string, e: string)
    requires |e| <= |s| && e == s[..|e|]
    requires forall i :: |e| <= i < |s| ==> IsSpace(s[i])
    ensures NonSpace(e) == NonSpace(s)
  {
    var q := s[|e|..];
    assert forall i :: 0 <= i < |q| ==> IsSpace(q[i]);
    assert s == e + q;
    NonSpaceAppend(e, q);
    NonSpaceOfSpaces(q);
    assert NonSpace(e) + [] == NonSpace(e);
  }

  /** Replacing whitespace runs keeps the non-whitespace characters. */
  lemma {:induction false} NonSpaceReplaceSpaceRuns(s: string)
    ensures NonSpace(ReplaceSpaceRuns(s)) == NonSpace(s)
    decreases |s|
  {
    if s != [] {
      if IsSpace(s[0]) {
        var t := TrimStart(s);
        NonSpaceReplaceSpaceRuns(t);
        NonSpaceTrim(s);
        assert ([' '] + ReplaceSpaceRuns(t))[1..] == ReplaceSpaceRuns(t);
      } else {
        NonSpaceReplaceSpaceRuns(s[1..]);
        assert ([s[0]] + ReplaceSpaceRuns(s[1..]))[1..] == ReplaceSpaceRuns(s[1..]);
      }
    }
  }

  /** `re.sub(r'\s+', ' ', s)` leaves no two whitespace characters in a
      row and no whitespace but plain spaces: every run became one `' '`. */
  lemma {:induction false} ReplaceSpaceRunsNormal(s: string)
    ensures NoDoubleSpace(ReplaceSpaceRuns(s)) && OnlyPlainSpaces(ReplaceSpaceRuns(s))
    decreases |s|
  {
    if s != [] {
      if IsSpace(s[0]) {
        var t := TrimStart(s);
        ReplaceSpaceRunsNormal(t);
        ConsNormal(' ', ReplaceSpaceRuns(t));
      } else {
        ReplaceSpaceRunsNormal(s[1..]);
        ConsNormal(s[0], ReplaceSpaceRuns(s[1..]));
      }
    }
  }

  /** Putting a character in front of normal text keeps it normal, unless
      it is whitespace other than `' '` or it makes a whitespace pair. */
  lemma ConsNormal(c: char, x: string)
    requires NoDoubleSpace(x) && OnlyPlainSpaces(x)
    requires IsSpace(c) ==> c == ' ' && (x == [] || !IsSpace(x[0]))
    ensures NoDoubleSpace([c] + x) && OnlyPlainSpaces([c] + x)
  {
    var y := [c] + x;
    forall i | 0 <= i < |y| - 1 ensures !SpacePairAt(y, i) {
      if i > 0 {
        assert y[i] == x[i - 1] && y[i + 1] == x[i];
        assert !SpacePairAt(x, i - 1);
      }
    }
    forall i | 0 <= i < |y| && IsSpace(y[i]) ensures y[i] == ' ' {
      if i > 0 {
        assert y[i] == x[i - 1];
      }
    }
  }

  /** The replaced text ends with a space exactly when the text ends with
      whitespace. */
  lemma {:induction false} ReplaceSpaceRunsEnd(s: string)
    requires s != []
    ensures ReplaceSpaceRuns(s) != []
    ensures IsSpace(Last(ReplaceSpaceRuns(s))) <==> IsSpace(s[|s| - 1])
    decreases |s|
  {
    var r := ReplaceSpaceRuns(s);
    if IsSpace(s[0]) {
      var t := TrimStart(s);
      TrimStartRemovesSpace(s);
      if t == [] {
        assert IsSpace(s[|s| - 1]);
        assert r == [' '];
      } else {
        ReplaceSpaceRunsEnd(t);
        assert t[|t| - 1] == s[|s| - 1];
        assert r == [' '] + ReplaceSpaceRuns(t);
      }
    } else if |s| > 1 {
      ReplaceSpaceRunsEnd(s[1..]);
      assert r == [s[0]] + ReplaceSpaceRuns(s[1..]);
    } else {
      assert r == [s[0]] + ReplaceSpaceRuns([]);
    }
  }

  /** The last character. */
  function Last(s: string): char
    requires s != []
  {
    s[|s| - 1]
  }

  /** Stage 5 keeps exactly the non-whitespace characters, in order. */
  lemma NonSpaceCollapse(s: string)
    ensures NonSpace(Strip(ReplaceSpaceRuns(s))) == NonSpace(s)
  {
    var t := ReplaceSpaceRuns(s);
    NonSpaceReplaceSpaceRuns(s);
    NonSpaceTrim(t);
    NonSpaceTrim(TrimStart(t));
  }

  /** Deleting characters from `s` deletes from its non-whitespace content. */
  lemma {:induction false} NonSpaceSubsequence(r: string, s: string)
    requires IsSubsequence(r, s)
    ensures IsSubsequence(NonSpace(r), NonSpace(s))
    decreases |s|
  {
    if r == [] {
    } else if r[0] == s[0] && IsSubsequence(r[1..], s[1..]) {
      NonSpaceSubsequence(r[1..], s[1..]);
      if !IsSpace(r[0]) {
        KeepHead(NonSpace(r[1..]), NonSpace(s));
      }
    } else {
      NonSpaceSubsequence(r, s[1..]);
      if !IsSpace(s[0]) {
        DropPrefix(NonSpace(r), NonSpace(s), 1);
      }
    }
  }
}
