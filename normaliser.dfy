/** The tweet-text normaliser `clean_tweet_text` (src/data_cleaning.py):
    lowercase, delete URLs, delete mentions and hashtags, delete punctuation
    and digits, collapse whitespace.  Each regular-expression stage is a
    left-to-right scan that at each position either deletes one greedy match
    and continues after it, or keeps one character and advances, which is
    how `re.sub` proceeds when no match can be empty. */
module Normaliser {
  import opened CharClasses
  import opened Subsequences
  import opened Whitespace

  predicate NoUpper(s: string) {
    forall i :: 0 <= i < |s| ==> !IsUpper(s[i])
  }

  predicate NoPunctuationOrDigit(s: string) {
    forall i :: 0 <= i < |s| ==> !IsPunctuationOrDigit(s[i])
  }

  // ---------------------------------------------------------------------
  // Stage 1: `text.lower()`

  function Lowercase(s: string): (r: string)
    ensures |r| == |s| && NoUpper(r)
    ensures forall i :: 0 <= i < |s| && !IsUpper(s[i]) ==> r[i] == s[i]
    ensures forall i :: 0 <= i < |s| && IsUpper(s[i]) ==>
      IsLowerLetter(r[i]) && r[i] as int == s[i] as int + 32
  {
    seq(|s|, i requires 0 <= i < |s| => ToLower(s[i]))
  }

  // ---------------------------------------------------------------------
  // Stage 2: `re.sub(r'http\S+|www\S+|https\S+', '', text)`

  /** `s` starts with `p` followed by at least one non-whitespace character. */
  predicate PrefixThenNonSpace(s: string, p: string) {
    |s| > |p| && s[..|p|] == p && !IsSpace(s[|p|])
  }

  /** One of the three alternatives matches at the start of `s`. */
  predicate UrlMatchAt(s: string) {
    PrefixThenNonSpace(s, "http") || PrefixThenNonSpace(s, "www") || PrefixThenNonSpace(s, "https")
  }

  /** No alternative matches at any position of `s`. */
  predicate NoUrlMatch(s: string) {
    forall i :: 0 <= i < |s| ==> !UrlMatchAt(s[i..])
  }

  /** A match of any alternative is the whole non-whitespace run at the
      start, since `\S+` is greedy and the literal prefixes hold no
      whitespace. */
  function StripUrls(s: string): (r: string)
    ensures |r| <= |s| && IsSubsequence(r, s)
    decreases |s|
  {
    if s == [] then []
    else if UrlMatchAt(s) then
      var n := |LeadingToken(s)|;
      var r := StripUrls(s[n..]);
      DropPrefix(r, s, n);
      r
    else
      var r := StripUrls(s[1..]);
      KeepHead(r, s);
      [s[0]] + r
  }

  // ---------------------------------------------------------------------
  // Stage 3: `re.sub(r'@\w+|#\w+', '', text)`

  predicate IsSigil(c: char) { c == '@' || c == '#' }

  /** A sigil followed by at least one word character starts `s`. */
  predicate TagMatchAt(s: string) {
    |s| > 1 && IsSigil(s[0]) && IsWordChar(s[1])
  }

  predicate NoTagMatch(s: string) {
    forall i :: 0 <= i < |s| ==> !TagMatchAt(s[i..])
  }

  /** Length of the maximal run of word characters at the start of `s`. */
  function WordRunLength(s: string): (n: nat)
    ensures n <= |s|
    ensures forall k :: 0 <= k < n ==> IsWordChar(s[k])
    ensures n == |s| || !IsWordChar(s[n])
    decreases |s|
  {
    if s == [] || !IsWordChar(s[0]) then 0 else 1 + WordRunLength(s[1..])
  }

  function StripTags(s: string): (r: string)
    ensures |r| <= |s| && IsSubsequence(r, s)
    decreases |s|
  {
    if s == [] then []
    else if TagMatchAt(s) then
      var n := 1 + WordRunLength(s[1..]);
      var r := StripTags(s[n..]);
      DropPrefix(r, s, n);
      r
    else
      var r := StripTags(s[1..]);
      KeepHead(r, s);
      [s[0]] + r
  }

  // ---------------------------------------------------------------------
  // Stage 4: `text.translate(str.maketrans('', '', string.punctuation + string.digits))`

  function StripPunctuationAndDigits(s: string): (r: string)
    ensures |r| <= |s| && IsSubsequence(r, s)
    ensures NoPunctuationOrDigit(r)
    ensures forall c :: !IsPunctuationOrDigit(c) ==> multiset(r)[c] == multiset(s)[c]
    decreases |s|
  {
    if s == [] then []
    else
      var r := StripPunctuationAndDigits(s[1..]);
      if IsPunctuationOrDigit(s[0]) then
        DropPrefix(r, s, 1);
        DeletedCounts(s, r);
        r
      else
        KeepHead(r, s);
        KeptCounts(s, r);
        [s[0]] + r
  }

  /** Deleting a character of the set leaves the counts of every other
      character as they were. */
  lemma DeletedCounts(s: string, r: string)
    requires s != [] && IsPunctuationOrDigit(s[0])
    requires forall c :: !IsPunctuationOrDigit(c) ==> multiset(r)[c] == multiset(s[1..])[c]
    ensures forall c :: !IsPunctuationOrDigit(c) ==> multiset(r)[c] == multiset(s)[c]
  {
    assert s == [s[0]] + s[1..];
  }

  /** Keeping a character outside the set keeps every count in step. */
  lemma KeptCounts(s: string, r: string)
    requires s != [] && !IsPunctuationOrDigit(s[0])
    requires NoPunctuationOrDigit(r)
    requires forall c :: !IsPunctuationOrDigit(c) ==> multiset(r)[c] == multiset(s[1..])[c]
    ensures NoPunctuationOrDigit([s[0]] + r)
    ensures forall c :: !IsPunctuationOrDigit(c) ==> multiset([s[0]] + r)[c] == multiset(s)[c]
  {
    assert s == [s[0]] + s[1..];
  }

  // ---------------------------------------------------------------------
  // The whole normaliser

  /** `clean_tweet_text`: the five stages in order. */
  function CleanTweetText(text: string): (r: string)
    ensures |r| <= |text|
    ensures NoPunctuationOrDigit(r)
    ensures NoUpper(r)
    ensures NoLeadingOrTrailingSpace(r) && NoDoubleSpace(r) && OnlyPlainSpaces(r)
    ensures NoTagMatch(r)
    ensures IsSubsequence(NonSpace(r), NonSpace(Lowercase(text)))
  {
    var lowered := Lowercase(text);
    var noUrls := StripUrls(lowered);
    var noTags := StripTags(noUrls);
    var noPunct := StripPunctuationAndDigits(noTags);
    Transitive(noPunct, noTags, noUrls);
    Transitive(noPunct, noUrls, lowered);
    NoUpperSubsequence(noPunct, lowered);
    CollapseKeepsClasses(noPunct);
    NonSpaceSubsequence(noPunct, lowered);
    var r := CollapseWhitespace(noPunct);
    NoSigilLeft(r);
    r
  }

  /** Stage 4 deletes every `@` and `#`, so no tag can match afterwards. */
  lemma NoSigilLeft(r: string)
    requires NoPunctuationOrDigit(r)
    ensures NoTagMatch(r)
  {
    NoTagMatchWithoutSigil(r);
  }

  // ---------------------------------------------------------------------
  // Lemmas

  /** Deleting characters cannot bring an upper-case letter back. */
  lemma NoUpperSubsequence(r: string, s: string)
    requires IsSubsequence(r, s) && NoUpper(s)
    ensures NoUpper(r)
  {
    Elements(r, s);
    forall i | 0 <= i < |r| ensures !IsUpper(r[i]) {
      var j :| 0 <= j < |s| && s[j] == r[i];
    }
  }

  /** Stage 5 writes only `' '`, which is neither upper case nor deleted by
      stage 4. */
  lemma CollapseKeepsClasses(t: string)
    requires NoUpper(t) && NoPunctuationOrDigit(t)
    ensures NoUpper(CollapseWhitespace(t)) && NoPunctuationOrDigit(CollapseWhitespace(t))
  {
    var r := CollapseWhitespace(t);
    forall i | 0 <= i < |r| ensures !IsPunctuationOrDigit(r[i]) && !IsUpper(r[i]) {
      if r[i] != ' ' {
        var j :| 0 <= j < |t| && t[j] == r[i];
      }
    }
  }

  // ---------------------------------------------------------------------
  // Stage 2: no match survives

  /** Whether a literal prefix followed by a non-whitespace character starts
      `x` depends only on the leading token of `x`. */
  lemma PrefixMatchByToken(x: string, y: string, p: string)
    requires forall i :: 0 <= i < |p| ==> !IsSpace(p[i])
    requires |LeadingToken(x)| <= |LeadingToken(y)|
    requires x[..|LeadingToken(x)|] == y[..|LeadingToken(x)|]
    ensures PrefixThenNonSpace(x, p) ==> PrefixThenNonSpace(y, p)
  {
    var k := |LeadingToken(x)|;
    if PrefixThenNonSpace(x, p) {
      assert x[..|p| + 1] == x[..k][..|p| + 1] == y[..k][..|p| + 1] == y[..|p| + 1];
      assert y[..|p|] == y[..|p| + 1][..|p|];
      assert x[..|p|] == x[..|p| + 1][..|p|];
    }
  }

  lemma UrlMatchByToken(x: string, y: string)
    requires |LeadingToken(x)| <= |LeadingToken(y)|
    requires x[..|LeadingToken(x)|] == y[..|LeadingToken(x)|]
    ensures UrlMatchAt(x) ==> UrlMatchAt(y)
  {
    PrefixMatchByToken(x, y, "http");
    PrefixMatchByToken(x, y, "www");
    PrefixMatchByToken(x, y, "https");
  }

  /** Text that starts with whitespace keeps that character in front. */
  lemma StripUrlsAfterSpace(u: string)
    requires u == [] || IsSpace(u[0])
    ensures LeadingToken(StripUrls(u)) == []
  {
    if u != [] {
      NoUrlMatchAtSpace(u);
      assert StripUrls(u)[0] == u[0];
    }
  }

  /** Every alternative of the URL pattern starts with a letter. */
  lemma NoUrlMatchAtSpace(u: string)
    requires u != [] && IsSpace(u[0])
    ensures !UrlMatchAt(u)
  {
    if |u| > 3 {
      assert u[..3][0] == u[0] && u[..4][0] == u[0];
      if |u| > 5 {
        assert u[..5][0] == u[0];
      }
    }
  }

  /** Deleting URLs never lengthens the leading token: what remains of it
      is a prefix of the original one. */
  lemma {:induction false} StripUrlsLeadingToken(t: string)
    ensures |LeadingToken(StripUrls(t))| <= |LeadingToken(t)|
    ensures StripUrls(t)[..|LeadingToken(StripUrls(t))|] == t[..|LeadingToken(StripUrls(t))|]
    decreases |t|
  {
    if t != [] {
      if UrlMatchAt(t) {
        StripUrlsAfterSpace(t[|LeadingToken(t)|..]);
      } else if IsSpace(t[0]) {
        assert StripUrls(t)[0] == t[0];
      } else {
        StripUrlsLeadingToken(t[1..]);
        KeptHeadToken(t, StripUrls(t[1..]));
      }
    }
  }

  /** The step of `StripUrlsLeadingToken` for a kept non-whitespace head. */
  lemma KeptHeadToken(t: string, rest: string)
    requires t != [] && !IsSpace(t[0])
    requires |LeadingToken(rest)| <= |LeadingToken(t[1..])|
    requires rest[..|LeadingToken(rest)|] == t[1..][..|LeadingToken(rest)|]
    ensures |LeadingToken([t[0]] + rest)| <= |LeadingToken(t)|
    ensures ([t[0]] + rest)[..|LeadingToken([t[0]] + rest)|] == t[..|LeadingToken([t[0]] + rest)|]
  {
    var c, k := t[0], |LeadingToken(rest)|;
    HeadTail(t);
    LeadingTokenCons(c, rest);
    LeadingTokenCons(c, t[1..]);
    PrefixCons(c, rest, k);
    PrefixCons(c, t[1..], k);
  }

  lemma LeadingTokenCons(c: char, x: string)
    requires !IsSpace(c)
    ensures LeadingToken([c] + x) == [c] + LeadingToken(x)
  {
    assert ([c] + x)[1..] == x;
  }

  lemma PrefixCons(c: char, x: string, k: nat)
    requires k <= |x|
    ensures ([c] + x)[..k + 1] == [c] + x[..k]
  {
  }

  /** After stage 2 no alternative of the URL pattern matches anywhere: the
      greedy `\S+` runs up to whitespace, so deletions cannot splice a new
      match together. */
  lemma {:induction false} StripUrlsLeavesNoMatch(s: string)
    ensures NoUrlMatch(StripUrls(s))
    decreases |s|
  {
    if s != [] {
      var r := StripUrls(s);
      if UrlMatchAt(s) {
        StripUrlsLeavesNoMatch(s[|LeadingToken(s)|..]);
      } else {
        var rest := StripUrls(s[1..]);
        StripUrlsLeavesNoMatch(s[1..]);
        StripUrlsLeadingToken(s);
        UrlMatchByToken(r, s);
        forall i | 0 <= i < |r| ensures !UrlMatchAt(r[i..]) {
          if i > 0 {
            assert r[i..] == rest[i - 1..];
          }
        }
      }
    }
  }

  // ---------------------------------------------------------------------
  // Stage 3: no match survives

  /** Text that does not start with a word character still does not after
      stage 3. */
  lemma {:induction false} StripTagsStart(t: string)
    requires t == [] || !IsWordChar(t[0])
    ensures StripTags(t) == [] || !IsWordChar(StripTags(t)[0])
    decreases |t|
  {
    if t != [] && TagMatchAt(t) {
      StripTagsStart(t[1 + WordRunLength(t[1..])..]);
    }
  }

  /** After stage 3 no sigil is followed by a word character: the greedy
      `\w+` leaves a non-word character or the end after each deletion. */
  lemma {:induction false} StripTagsLeavesNoMatch(s: string)
    ensures NoTagMatch(StripTags(s))
    decreases |s|
  {
    if s != [] {
      if TagMatchAt(s) {
        StripTagsLeavesNoMatch(s[1 + WordRunLength(s[1..])..]);
      } else {
        var r := StripTags(s);
        var rest := StripTags(s[1..]);
        StripTagsLeavesNoMatch(s[1..]);
        assert r == [s[0]] + rest;
        if |s| > 1 && IsSigil(s[0]) {
          StripTagsStart(s[1..]);
        }
        forall i | 0 <= i < |r| ensures !TagMatchAt(r[i..]) {
          if i > 0 {
            assert r[i..] == rest[i - 1..];
          }
        }
      }
    }
  }

  // ---------------------------------------------------------------------
  // Identity on text a stage has nothing to do with, and strict shortening
  // when it has

  lemma LowercaseIdentity(s: string)
    requires NoUpper(s)
    ensures Lowercase(s) == s
  {
  }

  lemma {:induction false} StripUrlsIdentity(s: string)
    requires NoUrlMatch(s)
    ensures StripUrls(s) == s
    decreases |s|
  {
    if s != [] {
      assert s[0..] == s;
      forall i | 0 <= i < |s| - 1 ensures !UrlMatchAt(s[1..][i..]) {
        assert s[1..][i..] == s[i + 1..];
      }
      StripUrlsIdentity(s[1..]);
    }
  }

  lemma {:induction false} StripUrlsShortens(s: string, i: nat)
    requires i < |s| && UrlMatchAt(s[i..])
    ensures |StripUrls(s)| < |s|
    decreases i
  {
    if i == 0 {
      assert s[0..] == s;
    } else if !UrlMatchAt(s) {
      assert s[1..][i - 1..] == s[i..];
      StripUrlsShortens(s[1..], i - 1);
    }
  }

  lemma {:induction false} StripTagsIdentity(s: string)
    requires NoTagMatch(s)
    ensures StripTags(s) == s
    decreases |s|
  {
    if s != [] {
      assert s[0..] == s;
      forall i | 0 <= i < |s| - 1 ensures !TagMatchAt(s[1..][i..]) {
        assert s[1..][i..] == s[i + 1..];
      }
      StripTagsIdentity(s[1..]);
    }
  }

  lemma {:induction false} StripTagsShortens(s: string, i: nat)
    requires i < |s| && TagMatchAt(s[i..])
    ensures |StripTags(s)| < |s|
    decreases i
  {
    if i == 0 {
      assert s[0..] == s;
    } else if !TagMatchAt(s) {
      assert s[1..][i - 1..] == s[i..];
      StripTagsShortens(s[1..], i - 1);
    }
  }

  /** Characters before the leftmost URL match are kept as they are:
      stage 2 works on the rest of the text as if it stood alone. */
  lemma {:induction false} StripUrlsKeepsPrefix(s: string, i: nat)
    requires i <= |s|
    requires forall j :: 0 <= j < i ==> !UrlMatchAt(s[j..])
    ensures StripUrls(s) == s[..i] + StripUrls(s[i..])
    decreases i
  {
    assert s[0..] == s;
    if i > 0 {
      var t := s[1..];
      forall j | 0 <= j < i - 1 ensures !UrlMatchAt(t[j..]) {
        assert t[j..] == s[j + 1..];
      }
      StripUrlsKeepsPrefix(t, i - 1);
      KeepStep(s, i, StripUrls(t), StripUrls(s[i..]));
    }
  }

  /** `s[0]` followed by the first `i - 1` characters of `s[1..]` and their
      continuation is the first `i` characters of `s` and theirs. */
  lemma KeepStep(s: string, i: nat, r: string, rest: string)
    requires 0 < i <= |s|
    requires r == s[1..][..i - 1] + rest
    ensures [s[0]] + r == s[..i] + rest
  {
    AppendAssociative([s[0]], s[1..][..i - 1], rest);
    assert [s[0]] + s[1..][..i - 1] == s[..i];
  }

  /** `re.sub` deletes the leftmost URL match: everything before it is kept,
      the greedy non-whitespace run at the match is deleted, and the scan
      goes on after that run. */
  lemma StripUrlsLeftmost(s: string, i: nat)
    requires i < |s| && UrlMatchAt(s[i..])
    requires forall j :: 0 <= j < i ==> !UrlMatchAt(s[j..])
    ensures StripUrls(s) == s[..i] + StripUrls(s[i..][|LeadingToken(s[i..])|..])
  {
    StripUrlsKeepsPrefix(s, i);
    StripUrlsAtMatch(s[i..], |LeadingToken(s[i..])|);
  }

  /** At a URL match the scan deletes the non-whitespace run and goes on. */
  lemma StripUrlsAtMatch(u: string, n: nat)
    requires UrlMatchAt(u) && n == |LeadingToken(u)|
    ensures StripUrls(u) == StripUrls(u[n..])
  {
  }

  /** Characters before the leftmost tag match are kept as they are. */
  lemma {:induction false} StripTagsKeepsPrefix(s: string, i: nat)
    requires i <= |s|
    requires forall j :: 0 <= j < i ==> !TagMatchAt(s[j..])
    ensures StripTags(s) == s[..i] + StripTags(s[i..])
    decreases i
  {
    assert s[0..] == s;
    if i > 0 {
      var t := s[1..];
      forall j | 0 <= j < i - 1 ensures !TagMatchAt(t[j..]) {
        assert t[j..] == s[j + 1..];
      }
      StripTagsKeepsPrefix(t, i - 1);
      KeepStep(s, i, StripTags(t), StripTags(s[i..]));
    }
  }

  /** `re.sub` deletes the leftmost mention or hashtag: everything before
      it is kept, the sigil and its whole word run are deleted, and the
      scan goes on after the run. */
  lemma StripTagsLeftmost(s: string, i: nat)
    requires i < |s| && TagMatchAt(s[i..])
    requires forall j :: 0 <= j < i ==> !TagMatchAt(s[j..])
    ensures StripTags(s) == s[..i] + StripTags(s[i..][1 + WordRunLength(s[i..][1..])..])
  {
    StripTagsKeepsPrefix(s, i);
    StripTagsAtMatch(s[i..]);
  }

  /** At a tag match the scan deletes the sigil and its word run and goes
      on. */
  lemma StripTagsAtMatch(u: string)
    requires TagMatchAt(u)
    ensures StripTags(u) == StripTags(u[1 + WordRunLength(u[1..])..])
  {
    StripTagsSkip(u, u[1..], u[1 + WordRunLength(u[1..])..]);
  }

  lemma {:induction false} StripPunctuationAndDigitsIdentity(s: string)
    requires NoPunctuationOrDigit(s)
    ensures StripPunctuationAndDigits(s) == s
    decreases |s|
  {
    if s != [] {
      StripPunctuationAndDigitsIdentity(s[1..]);
    }
  }

  /** Stage 4 works character by character: it distributes over
      concatenation. */
  lemma {:induction false} StripPunctuationAndDigitsAppend(a: string, b: string)
    ensures StripPunctuationAndDigits(a + b)
         == StripPunctuationAndDigits(a) + StripPunctuationAndDigits(b)
    decreases |a|
  {
    if a == [] {
      assert a + b == b;
    } else {
      var c, x := a[0], a[1..] + b;
      assert a + b == [c] + x;
      assert ([c] + x)[1..] == x;
      StripPunctuationAndDigitsAppend(a[1..], b);
      if !IsPunctuationOrDigit(c) {
        AppendAssociative([c], StripPunctuationAndDigits(a[1..]), StripPunctuationAndDigits(b));
      }
    }
  }

  // ---------------------------------------------------------------------
  // The whole normaliser

  /** Text on which no stage has anything left to do. */
  predicate IsNormalised(s: string) {
    NoUpper(s) && NoUrlMatch(s) && NoTagMatch(s) && NoPunctuationOrDigit(s) && IsCollapsed(s)
  }

  /** The fixed points of the normaliser are exactly the normalised texts.
      Its outputs always satisfy every part but `NoUrlMatch`, which stage 4
      can undo by joining two pieces into a URL (see `NotIdempotent`). */
  lemma CleanFixedPoints(s: string)
    ensures CleanTweetText(s) == s <==> IsNormalised(s)
  {
    var noUrls := StripUrls(Lowercase(s));
    var noTags := StripTags(noUrls);
    var noPunct := StripPunctuationAndDigits(noTags);
    if IsNormalised(s) {
      LowercaseIdentity(s);
      StripUrlsIdentity(s);
      StripTagsIdentity(s);
      StripPunctuationAndDigitsIdentity(s);
      CollapseFixedPoint(s);
    } else if CleanTweetText(s) == s {
      LowercaseIdentity(s);
      assert |noUrls| == |s| && |noTags| == |s|;
      if !NoUrlMatch(s) {
        var i :| 0 <= i < |s| && UrlMatchAt(s[i..]);
        StripUrlsShortens(s, i);
      }
    }
  }

  /** Text made only of whitespace, punctuation and digits cleans to the
      empty string; so do the empty and the whitespace-only text. */
  lemma CleanOfNoiseIsEmpty(s: string)
    requires forall i :: 0 <= i < |s| ==> IsSpace(s[i]) || IsPunctuationOrDigit(s[i])
    ensures CleanTweetText(s) == ""
  {
    LowercaseIdentity(s);
    var noUrls := StripUrls(s);
    var noTags := StripTags(noUrls);
    var noPunct := StripPunctuationAndDigits(noTags);
    Transitive(noPunct, noTags, noUrls);
    Transitive(noPunct, noUrls, s);
    OnlySpacesLeft(noPunct, s);
  }

  /** What stage 4 leaves of noise is whitespace. */
  lemma OnlySpacesLeft(r: string, s: string)
    requires forall i :: 0 <= i < |s| ==> IsSpace(s[i]) || IsPunctuationOrDigit(s[i])
    requires IsSubsequence(r, s) && NoPunctuationOrDigit(r)
    ensures forall i :: 0 <= i < |r| ==> IsSpace(r[i])
  {
    Elements(r, s);
    forall i | 0 <= i < |r| ensures IsSpace(r[i]) {
      var j :| 0 <= j < |s| && s[j] == r[i];
    }
  }

  // ---------------------------------------------------------------------
  // Locality: stages 2 and 3 treat text before a whitespace character
  // independently of what follows it

  /** The leading token ends at or before a whitespace character. */
  lemma {:induction false} LeadingTokenAppend(a: string, b: string)
    requires a != [] && IsSpace(a[|a| - 1])
    ensures LeadingToken(a + b) == LeadingToken(a)
    decreases |a|
  {
    if !IsSpace(a[0]) {
      assert (a + b)[1..] == a[1..] + b;
      LeadingTokenAppend(a[1..], b);
    }
  }

  lemma {:induction false} StripUrlsAppend(a: string, b: string)
    requires a != [] && IsSpace(a[|a| - 1])
    ensures StripUrls(a + b) == StripUrls(a) + StripUrls(b)
    decreases |a|
  {
    StripUrlsAppendHead(a, b);
    if UrlMatchAt(a) {
      StripUrlsAppend(a[|LeadingToken(a)|..], b);
    } else {
      if |a| > 1 {
        StripUrlsAppend(a[1..], b);
      }
      StripUrlsAppendKeep(a, b);
    }
  }

  /** How stage 2 starts on `a + b` is decided by `a` alone. */
  lemma StripUrlsAppendHead(a: string, b: string)
    requires a != [] && IsSpace(a[|a| - 1])
    ensures |LeadingToken(a)| < |a|
    ensures UrlMatchAt(a) ==> StripUrls(a + b) == StripUrls(a[|LeadingToken(a)|..] + b)
    ensures !UrlMatchAt(a) ==> StripUrls(a + b) == [a[0]] + StripUrls(a[1..] + b)
  {
    var n := |LeadingToken(a)|;
    LeadingTokenAppend(a, b);
    assert (a + b)[..n] == a[..n];
    UrlMatchByToken(a + b, a);
    UrlMatchByToken(a, a + b);
    assert (a + b)[n..] == a[n..] + b;
    assert (a + b)[1..] == a[1..] + b;
  }

  lemma StripUrlsAppendKeep(a: string, b: string)
    requires a != [] && !UrlMatchAt(a)
    requires StripUrls(a + b) == [a[0]] + StripUrls(a[1..] + b)
    requires |a| > 1 ==> StripUrls(a[1..] + b) == StripUrls(a[1..]) + StripUrls(b)
    ensures StripUrls(a + b) == StripUrls(a) + StripUrls(b)
  {
    if |a| == 1 {
      assert a[1..] + b == b;
    } else {
      AppendAssociative([a[0]], StripUrls(a[1..]), StripUrls(b));
    }
  }

  /** A word run ends at or before a whitespace character. */
  lemma {:induction false} WordRunAppend(a: string, b: string)
    requires a != [] && IsSpace(a[|a| - 1])
    ensures WordRunLength(a + b) == WordRunLength(a)
    decreases |a|
  {
    if IsWordChar(a[0]) {
      assert (a + b)[1..] == a[1..] + b;
      WordRunAppend(a[1..], b);
    }
  }

  lemma {:induction false} StripTagsAppend(a: string, b: string)
    requires a != [] && IsSpace(a[|a| - 1])
    ensures StripTags(a + b) == StripTags(a) + StripTags(b)
    decreases |a|
  {
    StripTagsAppendHead(a, b);
    if TagMatchAt(a) {
      var rest := a[1 + WordRunLength(a[1..])..];
      assert rest[|rest| - 1] == a[|a| - 1];
      StripTagsAppend(rest, b);
      StripTagsAppendDrop(a, b, rest);
    } else {
      if |a| > 1 {
        StripTagsAppend(a[1..], b);
      }
      StripTagsAppendKeep(a, b);
    }
  }

  /** How stage 3 starts on `a + b` is decided by `a` alone. */
  lemma StripTagsAppendHead(a: string, b: string)
    requires a != [] && IsSpace(a[|a| - 1])
    ensures TagMatchAt(a) ==> 1 + WordRunLength(a[1..]) < |a|
    ensures TagMatchAt(a) ==> StripTags(a + b) == StripTags(a[1 + WordRunLength(a[1..])..] + b)
    ensures !TagMatchAt(a) ==> StripTags(a + b) == [a[0]] + StripTags(a[1..] + b)
  {
    var ab := a + b;
    assert ab[1..] == a[1..] + b;
    if |a| == 1 {
      assert !TagMatchAt(ab);
    } else {
      assert ab[0] == a[0] && ab[1] == a[1];
      if TagMatchAt(a) {
        StripTagsAppendMatch(a, b);
      }
    }
  }

  lemma StripTagsAppendMatch(a: string, b: string)
    requires |a| > 1 && IsSpace(a[|a| - 1]) && TagMatchAt(a) && TagMatchAt(a + b)
    ensures 1 + WordRunLength(a[1..]) < |a|
    ensures StripTags(a + b) == StripTags(a[1 + WordRunLength(a[1..])..] + b)
  {
    var t := a[1..];
    assert t[|t| - 1] == a[|a| - 1];
    WordRunAppend(t, b);
    var n := 1 + WordRunLength(t);
    assert !IsWordChar(t[|t| - 1]);
    SliceAppend(a, b, 1);
    SliceAppend(a, b, n);
    StripTagsSkipAppend(a, b, t, n);
  }

  lemma StripTagsSkipAppend(a: string, b: string, t: string, n: nat)
    requires |a| > 1 && TagMatchAt(a + b) && t == a[1..] && n == 1 + WordRunLength(t) && n <= |a|
    requires WordRunLength(t + b) == WordRunLength(t)
    requires (a + b)[1..] == t + b && (a + b)[n..] == a[n..] + b
    ensures StripTags(a + b) == StripTags(a[n..] + b)
  {
    StripTagsSkip(a + b, t + b, a[n..] + b);
  }

  /** Dropping a prefix of `a` from `a + b`. */
  lemma SliceAppend(a: string, b: string, k: nat)
    requires k <= |a|
    ensures (a + b)[k..] == a[k..] + b
  {
  }

  /** Unfolding of stage 3 at a match, with the tail named. */
  lemma StripTagsSkip(s: string, t: string, u: string)
    requires TagMatchAt(s) && t == s[1..] && u == s[1 + WordRunLength(t)..]
    ensures StripTags(s) == StripTags(u)
  {
  }

  lemma StripTagsAppendDrop(a: string, b: string, rest: string)
    requires TagMatchAt(a) && rest == a[1 + WordRunLength(a[1..])..]
    requires StripTags(a + b) == StripTags(rest + b)
    requires StripTags(rest + b) == StripTags(rest) + StripTags(b)
    ensures StripTags(a + b) == StripTags(a) + StripTags(b)
  {
    StripTagsSkip(a, a[1..], rest);
  }

  lemma StripTagsAppendKeep(a: string, b: string)
    requires a != [] && !TagMatchAt(a)
    requires StripTags(a + b) == [a[0]] + StripTags(a[1..] + b)
    requires |a| > 1 ==> StripTags(a[1..] + b) == StripTags(a[1..]) + StripTags(b)
    ensures StripTags(a + b) == StripTags(a) + StripTags(b)
  {
    if |a| == 1 {
      assert a[1..] + b == b;
    } else {
      AppendAssociative([a[0]], StripTags(a[1..]), StripTags(b));
    }
  }

  /** Every URL match starts with `h` or `w` and holds a `p` or starts
      `www`, so text with neither `p` nor `w` has none. */
  lemma NoUrlMatchWithoutPOrW(s: string)
    requires forall i :: 0 <= i < |s| ==> s[i] != 'p' && s[i] != 'w'
    ensures NoUrlMatch(s)
  {
    forall i | 0 <= i < |s| ensures !UrlMatchAt(s[i..]) {
      var u := s[i..];
      assert u[0] == s[i];
      if |u| > 3 {
        assert u[3] == s[i + 3];
      }
      NoUrlMatchAtWithoutPOrW(u);
    }
  }

  lemma NoUrlMatchAtWithoutPOrW(u: string)
    requires u != [] && u[0] != 'w'
    requires |u| > 3 ==> u[3] != 'p'
    ensures !UrlMatchAt(u)
  {
    if |u| > 3 {
      assert u[..3][0] == u[0] && u[..4][3] == u[3];
      if |u| > 5 {
        assert u[..5][3] == u[3];
      }
    }
  }

  lemma NoTagMatchWithoutSigil(s: string)
    requires forall i :: 0 <= i < |s| ==> !IsSigil(s[i])
    ensures NoTagMatch(s)
  {
  }
}
