/** Worked inputs for `clean_tweet_text`, each proved from the general
    lemmas about the five stages.

    The examples take their strings as parameters pinned by `requires
    x == "..."`, and the longer ones are cut into named pieces that
    `Regroup1` to `Regroup3` re-associate. The verifier evaluates a function
    applied to a string literal eagerly, character by character, and on
    the whole example that evaluation exhausts its resource budget; a
    parameter is not evaluated, so each stage is reasoned about through
    the general lemmas instead. */
module NormaliserVectors {
  import opened CharClasses
  import opened Subsequences
  import opened Whitespace
  import opened Normaliser

  /** Whitespace alone has no words. */
  lemma {:induction false} WordsOfSpaces(u: string)
    requires forall i :: 0 <= i < |u| ==> IsSpace(u[i])
    ensures Words(u) == []
    decreases |u|
  {
    if u != [] {
      WordsOfSpaces(u[1..]);
      assert Words(u) == Words(u[1..]);
    }
  }

  /** A token followed by whitespace is the only word. */
  lemma WordsOfPaddedToken(w: string, u: string)
    requires IsToken(w) && u != []
    requires forall i :: 0 <= i < |u| ==> IsSpace(u[i])
    ensures Words(w + u) == [w]
  {
    var s := w + u;
    TrimStartIdentity(s);
    LeadingTokenOf(w, u);
    assert s[|w|..] == u;
    WordsOfSpaces(u);
  }

  /** The mixed example: a URL, a hashtag, a mention, punctuation and
      digits all go, and the upper-case `C` is lowered. */
  lemma MixedTweet(text: string, a: string, url: string, c: string)
    requires a == "Check this out! " && url == "http://x.co" && c == " #AI @bob 123"
    requires text == a + (url + c)
    ensures CleanTweetText(text) == "check this out"
  {
    var a1, url1, c1 := "check this out! ", "http://x.co", " #ai @bob 123";
    LoweredPieces(a, url, c, a1, url1, c1);
    LoweredMixedTweet(a1, url1, c1);
    var a2, ai, bob, n := "check this out!  ", "#ai ", "@bob ", "123";
    Regroup1(a1, c1, a2, ai, bob, n);
    UrlFreeMixedTweet(a2, ai, bob, n);
    var words, bang, gap := "check this out", "!", "    ";
    Regroup2(a2, n, words, bang, gap);
    TagFreeMixedTweet(words, bang, gap, n);
    CollapseOfExample(words, gap);
  }

  lemma LoweredPieces(a: string, url: string, c: string, a1: string, url1: string, c1: string)
    requires a == "Check this out! " && url == "http://x.co" && c == " #AI @bob 123"
    requires a1 == "check this out! " && url1 == "http://x.co" && c1 == " #ai @bob 123"
    ensures Lowercase(a + (url + c)) == a1 + (url1 + c1)
  {
  }

  lemma Regroup1(a1: string, c1: string, a2: string, ai: string, bob: string, n: string)
    requires a1 == "check this out! " && c1 == " #ai @bob 123"
    requires a2 == "check this out!  " && ai == "#ai " && bob == "@bob " && n == "123"
    ensures a1 + c1 == a2 + (ai + (bob + n))
  {
  }

  lemma Regroup2(a2: string, n: string, words: string, bang: string, gap: string)
    requires a2 == "check this out!  " && n == "123"
    requires words == "check this out" && bang == "!" && gap == "    "
    ensures a2 + " " + " " + n == words + (bang + (gap + n))
  {
  }

  lemma Regroup3(words: string, gap: string, w1: string, w2: string, w3: string)
    requires words == "check this out" && gap == "    "
    requires w1 == "check" && w2 == "this" && w3 == "out"
    ensures words + gap == w1 + " " + (w2 + " " + (w3 + gap))
    ensures words == w1 + " " + (w2 + " " + w3)
    ensures IsToken(w1) && IsToken(w2) && IsToken(w3) && gap != []
    ensures forall i :: 0 <= i < |gap| ==> IsSpace(gap[i])
  {
  }

  lemma CollapseOfExample(words: string, gap: string)
    requires words == "check this out" && gap == "    "
    ensures CollapseWhitespace(words + gap) == "check this out"
  {
    var w1, w2, w3 := "check", "this", "out";
    Regroup3(words, gap, w1, w2, w3);
    PaddedCollapse(words + gap, w1, w2, w3, gap);
  }

  /** Stage 2 on the lowered example deletes exactly `http://x.co`. */
  lemma LoweredMixedTweet(a: string, url: string, c: string)
    requires a == "check this out! " && url == "http://x.co" && c == " #ai @bob 123"
    ensures StripUrls(a + (url + c)) == a + c
  {
    NoUrlMatchWithoutPOrW(a);
    NoUrlMatchWithoutPOrW(c);
    assert url[..4] == "http";
    UrlBetweenSpaces(a, url, c);
  }

  /** A URL token between whitespace is deleted, and nothing else. */
  lemma UrlBetweenSpaces(a: string, url: string, c: string)
    requires a != [] && IsSpace(a[|a| - 1]) && NoUrlMatch(a)
    requires IsToken(url) && UrlMatchAt(url)
    requires c != [] && IsSpace(c[0]) && NoUrlMatch(c)
    ensures StripUrls(a + (url + c)) == a + c
  {
    UrlFreeBeforeSpace(a, url + c);
    UrlThenSpace(url + c, url, c);
    StripUrlsIdentity(c);
  }

  lemma UrlFreeBeforeSpace(a: string, z: string)
    requires a != [] && IsSpace(a[|a| - 1]) && NoUrlMatch(a)
    ensures StripUrls(a + z) == a + StripUrls(z)
  {
    StripUrlsAppend(a, z);
    StripUrlsIdentity(a);
  }

  /** A URL token followed by whitespace is deleted up to the whitespace. */
  lemma UrlThenSpace(s: string, url: string, c: string)
    requires s == url + c && IsToken(url) && (c == [] || IsSpace(c[0]))
    requires UrlMatchAt(url)
    ensures StripUrls(s) == StripUrls(c)
  {
    LeadingTokenOf(url, c);
    assert s[..|url|] == url;
    UrlMatchByToken(url, s);
    assert s[|url|..] == c;
  }

  /** Stage 3 then deletes `#ai` and `@bob`. */
  lemma UrlFreeMixedTweet(a: string, ai: string, bob: string, n: string)
    requires a == "check this out!  " && ai == "#ai " && bob == "@bob " && n == "123"
    ensures StripTags(a + (ai + (bob + n))) == a + " " + " " + n
  {
    NoTagMatchWithoutSigil(a);
    NoTagMatchWithoutSigil(n);
    TwoTagsBetweenSpaces(a, ai, bob, n);
  }

  /** Two tags, each followed by whitespace, are deleted and leave that
      whitespace. */
  lemma TwoTagsBetweenSpaces(a: string, t1: string, t2: string, n: string)
    requires a != [] && IsSpace(a[|a| - 1]) && NoTagMatch(a) && NoTagMatch(n)
    requires |t1| > 2 && IsSigil(t1[0]) && t1[|t1| - 1] == ' '
    requires forall i :: 1 <= i < |t1| - 1 ==> IsWordChar(t1[i])
    requires |t2| > 2 && IsSigil(t2[0]) && t2[|t2| - 1] == ' '
    requires forall i :: 1 <= i < |t2| - 1 ==> IsWordChar(t2[i])
    ensures StripTags(a + (t1 + (t2 + n))) == a + " " + " " + n
  {
    TagFreeBeforeSpace(a, t1 + (t2 + n));
    TagBeforeRest(t1, t2 + n);
    TagBeforeRest(t2, n);
    StripTagsIdentity(n);
  }

  /** Text without tags that ends in whitespace is kept whatever follows. */
  lemma TagFreeBeforeSpace(a: string, z: string)
    requires a != [] && IsSpace(a[|a| - 1]) && NoTagMatch(a)
    ensures StripTags(a + z) == a + StripTags(z)
  {
    StripTagsAppend(a, z);
    StripTagsIdentity(a);
  }

  /** A tag followed by a space leaves the space whatever follows. */
  lemma TagBeforeRest(t: string, z: string)
    requires |t| > 2 && IsSigil(t[0]) && t[|t| - 1] == ' '
    requires forall i :: 1 <= i < |t| - 1 ==> IsWordChar(t[i])
    ensures StripTags(t + z) == " " + StripTags(z)
  {
    StripTagsAppend(t, z);
    TagThenSpace(t, |t| - 2);
  }

  /** A sigil, a run of word characters and one whitespace character
      leave only the whitespace. */
  lemma TagThenSpace(s: string, k: nat)
    requires |s| == k + 2 && k > 0 && IsSigil(s[0]) && IsSpace(s[k + 1])
    requires forall i :: 1 <= i <= k ==> IsWordChar(s[i])
    ensures StripTags(s) == [s[k + 1]]
  {
    WordRunOf(s[1..], k);
    assert s[k + 1..] == [s[k + 1]];
  }

  lemma {:induction false} WordRunOf(t: string, k: nat)
    requires k < |t| && !IsWordChar(t[k])
    requires forall i :: 0 <= i < k ==> IsWordChar(t[i])
    ensures WordRunLength(t) == k
    decreases k
  {
    if k > 0 {
      WordRunOf(t[1..], k - 1);
    }
  }

  /** Stage 4 then deletes `!` and `123`. */
  lemma TagFreeMixedTweet(words: string, bang: string, gap: string, n: string)
    requires words == "check this out" && bang == "!" && gap == "    " && n == "123"
    ensures StripPunctuationAndDigits(words + (bang + (gap + n))) == words + gap
  {
    assert NoPunctuationOrDigit(words) && NoPunctuationOrDigit(gap);
    NoiseBetween(words, bang, gap, n);
  }

  /** Stage 4 keeps clean pieces and drops pieces that are all noise. */
  lemma NoiseBetween(w: string, x: string, g: string, y: string)
    requires NoPunctuationOrDigit(w) && NoPunctuationOrDigit(g)
    requires forall i :: 0 <= i < |x| ==> IsPunctuationOrDigit(x[i])
    requires forall i :: 0 <= i < |y| ==> IsPunctuationOrDigit(y[i])
    ensures StripPunctuationAndDigits(w + (x + (g + y))) == w + g
  {
    CleanBeforeRest(w, x + (g + y));
    NoiseBeforeRest(x, g + y);
    CleanBeforeRest(g, y);
    NoiseStripped(y);
    assert g + [] == g;
  }

  lemma CleanBeforeRest(w: string, z: string)
    requires NoPunctuationOrDigit(w)
    ensures StripPunctuationAndDigits(w + z) == w + StripPunctuationAndDigits(z)
  {
    StripPunctuationAndDigitsAppend(w, z);
    StripPunctuationAndDigitsIdentity(w);
  }

  lemma NoiseBeforeRest(x: string, z: string)
    requires forall i :: 0 <= i < |x| ==> IsPunctuationOrDigit(x[i])
    ensures StripPunctuationAndDigits(x + z) == StripPunctuationAndDigits(z)
  {
    StripPunctuationAndDigitsAppend(x, z);
    NoiseStripped(x);
  }

  lemma NoiseStripped(s: string)
    requires forall i :: 0 <= i < |s| ==> IsPunctuationOrDigit(s[i])
    ensures StripPunctuationAndDigits(s) == ""
  {
    var r := StripPunctuationAndDigits(s);
    if r != [] {
      Subsequences.Elements(r, s);
    }
  }

  /** Stage 5 on three words and trailing whitespace. */
  lemma PaddedCollapse(s: string, w1: string, w2: string, w3: string, u: string)
    requires IsToken(w1) && IsToken(w2) && IsToken(w3) && u != []
    requires forall i :: 0 <= i < |u| ==> IsSpace(u[i])
    requires s == w1 + " " + (w2 + " " + (w3 + u))
    ensures CollapseWhitespace(s) == w1 + " " + (w2 + " " + w3)
  {
    var j2 := w2 + " " + (w3 + u);
    WordsAfterToken(w1, j2);
    WordsAfterToken(w2, w3 + u);
    WordsOfPaddedToken(w3, u);
    CollapseIsJoinOfWords(s);
    JoinCons(w2, [w3]);
    JoinCons(w1, [w2] + [w3]);
  }

  /** Joining a word in front of a non-empty list of words. */
  lemma JoinCons(w: string, ws: seq<string>)
    requires ws != []
    ensures JoinWords([w] + ws) == w + " " + JoinWords(ws)
  {
    assert ([w] + ws)[1..] == ws;
  }

  /** The literal `http` with nothing after it is not a URL match (the
      pattern needs at least one more non-whitespace character), so it
      survives unchanged. */
  lemma BareHttp(s: string)
    requires s == "http"
    ensures CleanTweetText(s) == s
  {
    assert IsNormalised(s) by {
      assert NoUpper(s) && NoPunctuationOrDigit(s) && IsCollapsed(s);
      forall i | 0 <= i < |s| ensures !UrlMatchAt(s[i..]) {
        if i == 0 {
          assert s[..3][0] != "www"[0];
        }
      }
      NoTagMatchWithoutSigil(s);
    }
    CleanFixedPoints(s);
  }

  /** The empty text, whitespace only and punctuation only all clean to
      the empty string. */
  lemma EmptyText()
    ensures CleanTweetText("") == ""
  {
    CleanOfNoiseIsEmpty("");
  }

  lemma WhitespaceOnly(s: string)
    requires s == "   \t\n "
    ensures CleanTweetText(s) == ""
  {
    assert forall i :: 0 <= i < |s| ==> IsSpace(s[i]);
    CleanOfNoiseIsEmpty(s);
  }

  lemma PunctuationOnly(s: string)
    requires s == "!!! ... ???"
    ensures CleanTweetText(s) == ""
  {
    assert forall i :: 0 <= i < |s| ==> IsSpace(s[i]) || IsPunctuationOrDigit(s[i]);
    CleanOfNoiseIsEmpty(s);
  }

  /** The normaliser is not idempotent: stage 4 can splice the letters of
      `http` together after stage 2 has run, so an output can still hold a
      URL match, and cleaning it again deletes it. Here the input is
      `ht.tpx`. */
  lemma NotIdempotent(s: string, x: string, dot: string, y: string)
    requires x == "ht" && dot == "." && y == "tpx" && s == x + (dot + y)
    ensures CleanTweetText(s) == "httpx"
    ensures !NoUrlMatch(CleanTweetText(s))
    ensures CleanTweetText(CleanTweetText(s)) == ""
  {
    var t := SplicedUrl(s, x, dot, y);
    HttpxFacts(t);
    UrlCleanedAway(t);
  }

  /** Stages 1 to 3 leave `ht.tpx` alone; stage 4 then makes `httpx`,
      which is already collapsed. */
  lemma SplicedUrl(s: string, x: string, dot: string, y: string) returns (t: string)
    requires x == "ht" && dot == "." && y == "tpx" && s == x + (dot + y)
    ensures t == "httpx" && CleanTweetText(s) == t
  {
    t := SplicedStages(s, x, dot, y);
    HttpxFacts(t);
    CollapseFixedPoint(t);
  }

  lemma SplicedStages(s: string, x: string, dot: string, y: string) returns (t: string)
    requires x == "ht" && dot == "." && y == "tpx" && s == x + (dot + y)
    ensures t == "httpx"
    ensures StripPunctuationAndDigits(StripTags(StripUrls(Lowercase(s)))) == t
  {
    SplicedFacts(s, x, dot, y);
    FirstStagesIdentity(s);
    t := x + y;
    NoiseBetweenWords(x, dot, y);
  }

  /** Text with no upper case, no URL match and no tag match passes the
      first three stages unchanged. */
  lemma FirstStagesIdentity(s: string)
    requires NoUpper(s) && NoUrlMatch(s) && NoTagMatch(s)
    ensures StripTags(StripUrls(Lowercase(s))) == s
  {
    LowercaseIdentity(s);
    StripUrlsIdentity(s);
    StripTagsIdentity(s);
  }

  /** Stage 4 closes the gap left by a noise piece between clean pieces. */
  lemma NoiseBetweenWords(x: string, dot: string, y: string)
    requires NoPunctuationOrDigit(x) && NoPunctuationOrDigit(y)
    requires forall i :: 0 <= i < |dot| ==> IsPunctuationOrDigit(dot[i])
    ensures StripPunctuationAndDigits(x + (dot + y)) == x + y
  {
    CleanBeforeRest(x, dot + y);
    NoiseBeforeRest(dot, y);
    StripPunctuationAndDigitsIdentity(y);
  }

  lemma SplicedFacts(s: string, x: string, dot: string, y: string)
    requires x == "ht" && dot == "." && y == "tpx" && s == x + (dot + y)
    ensures NoUpper(s) && NoUrlMatch(s) && NoTagMatch(s)
    ensures NoPunctuationOrDigit(x) && NoPunctuationOrDigit(y)
    ensures forall i :: 0 <= i < |dot| ==> IsPunctuationOrDigit(dot[i])
    ensures x + y == "httpx"
  {
    assert s == "ht.tpx";
    forall i | 0 <= i < |s| ensures !UrlMatchAt(s[i..]) {
      if i == 0 {
        assert s[..4][2] != "http"[2];
        assert s[..3][0] != "www"[0];
        assert s[..5][2] != "https"[2];
      } else if i == 1 {
        assert s[1..][..4][0] != "http"[0];
        assert s[1..][..3][0] != "www"[0];
      } else if i == 2 {
        assert s[2..][..3][0] != "www"[0];
      }
    }
    NoTagMatchWithoutSigil(s);
  }

  lemma HttpxFacts(t: string)
    requires t == "httpx"
    ensures IsCollapsed(t) && IsToken(t) && UrlMatchAt(t) && NoUpper(t)
  {
    assert t[..4] == "http";
  }

  /** Cleaning `httpx` deletes all of it. */
  lemma UrlCleanedAway(t: string)
    requires IsToken(t) && UrlMatchAt(t) && NoUpper(t)
    ensures !NoUrlMatch(t)
    ensures CleanTweetText(t) == ""
  {
    assert t[0..] == t;
    LowercaseIdentity(t);
    UrlThenSpace(t, t, []);
    assert t + [] == t;
    EmptyText();
  }
}
