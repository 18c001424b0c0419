/** A worked frame for the cleaning step of `main`, proved from the
    lemmas about the row filter and the worked inputs of the normaliser. */
module RowFilterVectors {
  import opened Normaliser
  import opened NormaliserVectors
  import opened RowFilter

  /** A two-row frame whose first row survives the filter and whose
      second does not. */
  lemma TwoRowFrame(x: CleanedTweet, y: CleanedTweet)
    requires !IsEmptyAfterCleaning(x) && IsEmptyAfterCleaning(y)
    ensures KeepNonEmpty([x, y]) == [x]
    ensures CountEmpty([x, y]) == 1
  {
    assert [x, y] == [x] + [y];
    KeepNonEmptyAppend([x], [y]);
    SingleRow(x);
    SingleRow(y);
    assert [x] + [] == [x];
  }

  lemma SingleRow(x: CleanedTweet)
    ensures KeepNonEmpty([x]) == if IsEmptyAfterCleaning(x) then [] else [x]
    ensures CountEmpty([x]) == if IsEmptyAfterCleaning(x) then 1 else 0
  {
    assert [x][1..] == [];
  }

  /** The column map on two rows. */
  lemma AddCleanedTextPair(a: Tweet, b: Tweet)
    ensures AddCleanedText([a, b])
         == [CleanedTweet(a, CleanTweetText(a.text)), CleanedTweet(b, CleanTweetText(b.text))]
  {
    assert [a, b][1..] == [b];
    assert [b][1..] == [];
  }

  /** A tweet reading `http` survives with cleaned text `http`; a tweet of
      punctuation only is removed and counted. */
  lemma TwoRowExample(a: Tweet, b: Tweet)
    requires a.text == "http" && b.text == "!!! ... ???"
    ensures KeepNonEmpty(AddCleanedText([a, b])) == [CleanedTweet(a, "http")]
    ensures CountEmpty(AddCleanedText([a, b])) == 1
  {
    BareHttp(a.text);
    PunctuationOnly(b.text);
    AddCleanedTextPair(a, b);
    TwoRowFrame(CleanedTweet(a, "http"), CleanedTweet(b, ""));
  }
}
