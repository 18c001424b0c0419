/** The cleaning step of the pipeline's `main` (src/data_cleaning.py):
    add a `cleaned_text` column computed by `clean_tweet_text`, then drop
    every row whose cleaned text is empty and count how many were dropped.
    A data frame is a sequence of rows; reading and writing the CSV files
    are not modelled. */
module RowFilter {
  import opened Subsequences
  import opened Normaliser

  /** One row of the raw tweet table, with the columns the acquisition
      script writes. */
  datatype Tweet = Tweet(id: int, authorId: int, createdAt: string, text: string, retweets: int, likes: int)

  /** A row after the `cleaned_text` column has been added. */
  datatype CleanedTweet = CleanedTweet(tweet: Tweet, cleanedText: string)

  predicate IsEmptyAfterCleaning(row: CleanedTweet) {
    |row.cleanedText| == 0
  }

  /** `df['cleaned_text'] = df['text'].apply(clean_tweet_text)`: every row
      keeps its place and its columns and gains the cleaned text. */
  function AddCleanedText(rows: seq<Tweet>): (df: seq<CleanedTweet>)
    ensures |df| == |rows|
    ensures forall i :: 0 <= i < |rows| ==> df[i].tweet == rows[i] && df[i].cleanedText == CleanTweetText(rows[i].text)
    decreases |rows|
  {
    if rows == [] then []
    else
      var rest := AddCleanedText(rows[1..]);
      var df := [CleanedTweet(rows[0], CleanTweetText(rows[0].text))] + rest;
      ConsCleaned(rows, rest, df);
      df
  }

  lemma ConsCleaned(rows: seq<Tweet>, rest: seq<CleanedTweet>, df: seq<CleanedTweet>)
    requires rows != [] && |rest| == |rows| - 1
    requires forall j :: 0 <= j < |rest| ==>
      rest[j].tweet == rows[1..][j] && rest[j].cleanedText == CleanTweetText(rows[1..][j].text)
    requires df == [CleanedTweet(rows[0], CleanTweetText(rows[0].text))] + rest
    ensures |df| == |rows|
    ensures forall i :: 0 <= i < |rows| ==> df[i].tweet == rows[i] && df[i].cleanedText == CleanTweetText(rows[i].text)
  {
    forall i | 0 <= i < |rows| ensures df[i].tweet == rows[i] && df[i].cleanedText == CleanTweetText(rows[i].text) {
      if i > 0 {
        assert df[i] == rest[i - 1];
        assert rows[i] == rows[1..][i - 1];
      } else {
        assert df[0] == CleanedTweet(rows[0], CleanTweetText(rows[0].text));
      }
    }
  }

  /** The original columns, without `cleaned_text`. */
  function Columns(df: seq<CleanedTweet>): (rows: seq<Tweet>)
    ensures |rows| == |df|
  {
    seq(|df|, i requires 0 <= i < |df| => df[i].tweet)
  }

  /** `df[df['cleaned_text'].str.len() > 0]`: the rows with a non-empty
      cleaned text, in their original order. */
  function KeepNonEmpty(df: seq<CleanedTweet>): (kept: seq<CleanedTweet>)
    ensures IsSubsequence(kept, df)
    ensures forall i :: 0 <= i < |kept| ==> !IsEmptyAfterCleaning(kept[i])
    ensures |kept| == |df| - CountEmpty(df)
    decreases |df|
  {
    if df == [] then []
    else
      var rest := KeepNonEmpty(df[1..]);
      if IsEmptyAfterCleaning(df[0]) then
        DropPrefix(rest, df, 1);
        rest
      else
        KeepHead(rest, df);
        [df[0]] + rest
  }

  /** The number of rows whose cleaned text is empty. */
  function CountEmpty(df: seq<CleanedTweet>): (n: nat)
    ensures n <= |df|
    decreases |df|
  {
    if df == [] then 0
    else (if IsEmptyAfterCleaning(df[0]) then 1 else 0) + CountEmpty(df[1..])
  }

  /** The outcome of the cleaning step: the filtered frame and
      `removed_count`. */
  datatype Outcome = Outcome(df: seq<CleanedTweet>, removedCount: int)

  /** Lines 59 to 65 of `main`: add the column, remember the row count,
      filter, and report how many rows the filter removed. */
  method CleanFrame(rows: seq<Tweet>) returns (out: Outcome)
    ensures out.df == KeepNonEmpty(AddCleanedText(rows))
    ensures IsSubsequence(out.df, AddCleanedText(rows))
    ensures forall i :: 0 <= i < |out.df| ==> |out.df[i].cleanedText| > 0
    ensures forall i :: 0 <= i < |out.df| ==> out.df[i].cleanedText == CleanTweetText(out.df[i].tweet.text)
    ensures out.removedCount == |rows| - |out.df|
    ensures out.removedCount == CountEmpty(AddCleanedText(rows))
    ensures 0 <= out.removedCount && |out.df| <= |rows|
  {
    var df := AddCleanedText(rows);
    var initialCount := |df|;
    df := KeepNonEmpty(df);
    var removedCount := initialCount - |df|;
    CleanedTextOfKept(rows);
    out := Outcome(df, removedCount);
  }

  // ---------------------------------------------------------------------
  // Lemmas

  /** Dropping the added column gives back the table that was read. */
  lemma ColumnsOfAddCleanedText(rows: seq<Tweet>)
    ensures Columns(AddCleanedText(rows)) == rows
  {
  }

  /** Every kept row still carries the cleaned form of its own text. */
  lemma CleanedTextOfKept(rows: seq<Tweet>)
    ensures forall i :: 0 <= i < |KeepNonEmpty(AddCleanedText(rows))| ==>
      KeepNonEmpty(AddCleanedText(rows))[i].cleanedText
        == CleanTweetText(KeepNonEmpty(AddCleanedText(rows))[i].tweet.text)
  {
    var df := AddCleanedText(rows);
    var kept := KeepNonEmpty(df);
    Elements(kept, df);
    forall i | 0 <= i < |kept| ensures kept[i].cleanedText == CleanTweetText(kept[i].tweet.text) {
      var j :| 0 <= j < |df| && df[j] == kept[i];
    }
  }

  /** The filter keeps a row exactly when its cleaned text is non-empty. */
  lemma {:induction false} KeepNonEmptyMembers(df: seq<CleanedTweet>, row: CleanedTweet)
    ensures row in KeepNonEmpty(df) <==> row in df && !IsEmptyAfterCleaning(row)
    decreases |df|
  {
    if df != [] {
      KeepNonEmptyMembers(df[1..], row);
      assert row in df <==> row == df[0] || row in df[1..] by {
        assert df == [df[0]] + df[1..];
      }
    }
  }

  /** A row of the raw table reaches the output exactly when its text does
      not clean to the empty string. */
  lemma RowKeptIff(rows: seq<Tweet>, i: int)
    requires 0 <= i < |rows|
    ensures CleanedTweet(rows[i], CleanTweetText(rows[i].text)) in KeepNonEmpty(AddCleanedText(rows))
        <==> |CleanTweetText(rows[i].text)| > 0
  {
    var df := AddCleanedText(rows);
    assert df[i] == CleanedTweet(rows[i], CleanTweetText(rows[i].text));
    KeepNonEmptyMembers(df, df[i]);
  }

  /** A frame with no empty cleaned text passes the filter unchanged. */
  lemma {:induction false} KeepNonEmptyIdentity(df: seq<CleanedTweet>)
    requires forall i :: 0 <= i < |df| ==> !IsEmptyAfterCleaning(df[i])
    ensures KeepNonEmpty(df) == df
    decreases |df|
  {
    if df != [] {
      KeepNonEmptyIdentity(df[1..]);
      assert df == [df[0]] + df[1..];
    }
  }

  /** Filtering twice removes nothing more. */
  lemma KeepNonEmptyIdempotent(df: seq<CleanedTweet>)
    ensures KeepNonEmpty(KeepNonEmpty(df)) == KeepNonEmpty(df)
  {
    KeepNonEmptyIdentity(KeepNonEmpty(df));
  }

  /** The filter distributes over concatenation, so frames can be cleaned
      in chunks. */
  lemma {:induction false} KeepNonEmptyAppend(a: seq<CleanedTweet>, b: seq<CleanedTweet>)
    ensures KeepNonEmpty(a + b) == KeepNonEmpty(a) + KeepNonEmpty(b)
    ensures CountEmpty(a + b) == CountEmpty(a) + CountEmpty(b)
    decreases |a|
  {
    if a == [] {
      assert a + b == b;
    } else {
      assert (a + b)[0] == a[0];
      assert (a + b)[1..] == a[1..] + b;
      KeepNonEmptyAppend(a[1..], b);
      if !IsEmptyAfterCleaning(a[0]) {
        assert [a[0]] + (KeepNonEmpty(a[1..]) + KeepNonEmpty(b))
            == ([a[0]] + KeepNonEmpty(a[1..])) + KeepNonEmpty(b);
      }
    }
  }
}
