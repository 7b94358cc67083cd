/**
 * Lemmas about concrete inputs: texts the feed accepts and rejects,
 * and cursors that decode, fail, or lose part of their `cid`.
 */
module Scenarios {
  import opened Wrappers
  import opened JsText
  import opened JsNumber
  import opened Posts
  import opened AlphabeticalWords
  import opened FeedHandler

  /** The first letters of a three-word list, element by element. */
  lemma FirstLettersOfThree(a: string, b: string, c: string)
    ensures FirstLetters([a, b, c]) == [FirstLetter(a), FirstLetter(b), FirstLetter(c)]
  {
  }

  /** Three strings in order, pair by pair, form a sorted list. */
  lemma SortedOfThree(a: string, b: string, c: string)
    requires Le(a, b) && Le(b, c)
    ensures Sorted([a, b, c])
  {
    LeTransitive(a, b, c);
  }

  /** Three words whose first letters are in order pair by pair have sorted first letters. */
  lemma InitialsAreSorted(a: string, b: string, c: string)
    requires Le(FirstLetter(a), FirstLetter(b)) && Le(FirstLetter(b), FirstLetter(c))
    ensures Sorted(FirstLetters([a, b, c]))
  {
    FirstLettersOfThree(a, b, c);
    SortedOfThree(FirstLetter(a), FirstLetter(b), FirstLetter(c));
  }

  /** Two neighbouring words whose first letters are out of order make the first letters unsorted. */
  lemma InitialsOutOfOrder(words: seq<string>, i: nat)
    requires i + 1 < |words| && !Le(FirstLetter(words[i]), FirstLetter(words[i + 1]))
    ensures !Sorted(FirstLetters(words))
  {
    var letters := FirstLetters(words);
    assert !Le(letters[i], letters[i + 1]);
  }

  /** `Ant Bee Cat` is Latin-1 and lower-cases to `ant`, `bee`, `cat` joined by single spaces. */
  lemma AntBeeCatWords()
    ensures AllAtMost("Ant Bee Cat", 0xFF)
    ensures Lower("Ant Bee Cat") == Join(["ant", "bee", "cat"], " ")
    ensures NoSpaces(["ant", "bee", "cat"])
  {
  }

  /** First letters a, b, c are in order: accepted. */
  lemma AcceptsAntBeeCat(create: CreateOp)
    requires create.record.text == "Ant Bee Cat"
    ensures SubscriptionFilter(create)
  {
    InitialsAreSorted("ant", "bee", "cat");
    AntBeeCatWords();
    FilterOnJoinedWords(create, ["ant", "bee", "cat"]);
  }

  /** `bee ant cat` is Latin-1 and lower-cases to `bee`, `ant`, `cat` joined by single spaces. */
  lemma BeeAntCatWords()
    ensures AllAtMost("bee ant cat", 0xFF)
    ensures Lower("bee ant cat") == Join(["bee", "ant", "cat"], " ")
    ensures NoSpaces(["bee", "ant", "cat"])
  {
  }

  /** First letters b, a, c are out of order: rejected. */
  lemma RejectsBeeAntCat(create: CreateOp)
    requires create.record.text == "bee ant cat"
    ensures !SubscriptionFilter(create)
  {
    var words := ["bee", "ant", "cat"];
    InitialsOutOfOrder(words, 0);
    BeeAntCatWords();
    FilterOnJoinedWords(create, words);
  }

  /** `#hashtag only` is Latin-1 and lower-cases to `#hashtag`, `only` joined by single spaces. */
  lemma HashtagOnlyWords()
    ensures AllAtMost("#hashtag only", 0xFF)
    ensures Lower("#hashtag only") == Join(["#hashtag", "only"], " ")
    ensures NoSpaces(["#hashtag", "only"])
  {
  }

  /**
   * A leading `#` is not rejected: `'#'` sorts before `'o'`, and the filter
   * has no test that the first word starts with a letter or digit.
   */
  lemma AcceptsHashtagFirstWord(create: CreateOp)
    requires create.record.text == "#hashtag only"
    ensures SubscriptionFilter(create)
  {
    var words := ["#hashtag", "only"];
    InitialsOfTwoSorted("#hashtag", "only");
    HashtagOnlyWords();
    FilterOnJoinedWords(create, words);
  }

  /** Two words whose first letters are in order have sorted first letters. */
  lemma InitialsOfTwoSorted(a: string, b: string)
    requires Le(FirstLetter(a), FirstLetter(b))
    ensures Sorted(FirstLetters([a, b]))
  {
    var letters := FirstLetters([a, b]);
    assert letters[0] == FirstLetter(a) && letters[1] == FirstLetter(b);
  }

  /** `ant  bee` is Latin-1 and lower-cases to `ant`, the empty word, `bee` joined by single spaces. */
  lemma DoubleSpaceWords()
    ensures AllAtMost("ant  bee", 0xFF)
    ensures Lower("ant  bee") == Join(["ant", "", "bee"], " ")
    ensures NoSpaces(["ant", "", "bee"])
  {
  }

  /** Two spaces make an empty word whose letter `""` sorts before `"a"`: rejected. */
  lemma RejectsDoubleSpace(create: CreateOp)
    requires create.record.text == "ant  bee"
    ensures !SubscriptionFilter(create)
  {
    var words := ["ant", "", "bee"];
    InitialsOutOfOrder(words, 0);
    DoubleSpaceWords();
    FilterOnJoinedWords(create, words);
  }

  /** ` ant bee` is Latin-1 and lower-cases to the empty word, `ant`, `bee` joined by single spaces. */
  lemma LeadingSpaceWords()
    ensures AllAtMost(" ant bee", 0xFF)
    ensures Lower(" ant bee") == Join(["", "ant", "bee"], " ")
    ensures NoSpaces(["", "ant", "bee"])
  {
  }

  /** A leading space puts the empty word first, where it is in order: accepted. */
  lemma AcceptsLeadingSpace(create: CreateOp)
    requires create.record.text == " ant bee"
    ensures SubscriptionFilter(create)
  {
    InitialsAreSorted("", "ant", "bee");
    LeadingSpaceWords();
    FilterOnJoinedWords(create, ["", "ant", "bee"]);
  }

  /** Two colon-free parts joined by `::` split back into those two parts. */
  lemma SplitTwoParts(a: string, b: string)
    requires ':' !in a && ':' !in b
    ensures Split(a + CursorSeparator + b, CursorSeparator) == [a, b]
  {
    FreeWhenFirstCharAbsent(b, CursorSeparator);
    SplitSingleIff(b, CursorSeparator);
    SplitAfterColonFree(a, b);
  }

  /**
   * A cursor with a second `::` decodes to the first two parts: whatever
   * follows the second `::` is dropped.
   */
  lemma CursorKeepsSecondPartOnly(time: int, a: string, b: string)
    requires -MaxTimeValue <= time <= MaxTimeValue
    requires a != "" && ':' !in a && ':' !in b
    ensures ParseCursor(Some(ToDecimal(time) + CursorSeparator + (a + CursorSeparator + b)))
      == Ok(Some(Position(time, a)))
  {
    var d := ToDecimal(time);
    SplitThreeParts(d, a, b);
    DecodesToRenderedTime(d + CursorSeparator + (a + CursorSeparator + b), time, a);
  }

  /** Three colon-free parts joined by `::` split back into those three parts. */
  lemma SplitThreeParts(a: string, b: string, c: string)
    requires ':' !in a && ':' !in b && ':' !in c
    ensures Split(a + CursorSeparator + (b + CursorSeparator + c), CursorSeparator) == [a, b, c]
  {
    SplitTwoParts(b, c);
    SplitAfterColonFree(a, b + CursorSeparator + c);
  }

  /** A row whose `cid` contains `::` gets a cursor that points somewhere else. */
  lemma CursorTruncatesCid(p: Post, a: string, b: string)
    requires -MaxTimeValue <= p.indexedAt <= MaxTimeValue
    requires a != "" && ':' !in a && ':' !in b && p.cid == a + CursorSeparator + b
    ensures ParseCursor(Some(RenderCursor(p))) == Ok(Some(Position(p.indexedAt, a)))
    ensures ParseCursor(Some(RenderCursor(p))) != Ok(Some(Position(p.indexedAt, p.cid)))
  {
    CursorKeepsSecondPartOnly(p.indexedAt, a, b);
  }

  /** A row with an empty `cid` gets a cursor the handler then refuses as malformed. */
  lemma EmptyCidCursorIsMalformed(p: Post)
    requires p.cid == ""
    ensures ParseCursor(Some(RenderCursor(p))) == Err(MalformedCursor)
  {
    var d := ToDecimal(p.indexedAt);
    SplitAfterColonFree(d, "");
    assert Split("", CursorSeparator) == [""];
  }

  /** A non-empty cursor without `:` is malformed. */
  lemma CursorWithoutSeparatorIsMalformed(cursor: string)
    requires cursor != "" && ':' !in cursor
    ensures ParseCursor(Some(cursor)) == Err(MalformedCursor)
  {
    FreeWhenFirstCharAbsent(cursor, CursorSeparator);
    SplitSingleIff(cursor, CursorSeparator);
  }

  /**
   * A cursor whose time part has no digits passes the malformed-cursor test
   * and then fails on the invalid Date instead.
   */
  lemma NonNumericTimeIsInvalidDate(time: string, cid: string)
    requires time != "" && ':' !in time && ParseInt(time).None?
    requires cid != "" && ':' !in cid
    ensures ParseCursor(Some(time + CursorSeparator + cid)) == Err(InvalidTimeValue)
  {
    SplitTwoParts(time, cid);
    var parts := Split(time + CursorSeparator + cid, CursorSeparator);
    assert parts[0] == time && parts[1] == cid && |parts| == 2;
  }

  /**
   * A row that ties the last returned row on both `indexedAt` and `cid`
   * is not selected by the cursor of that page, whether or not it was returned.
   */
  lemma TiedRowIsNotAfterCursor(t: Table, last: Post, u: Uri)
    requires u in t && t[u].indexedAt == last.indexedAt && t[u].cid == last.cid
    ensures u !in Matching(t, Some(PositionOf(last)))
  {
    BelowIrreflexive(last.cid);
  }

  /**
   * Two rows of this feed at the same time with the same `cid`: a page of
   * one returns `u1`, and the next cursor skips `u2` although the first
   * query selected it.
   */
  lemma TiedRowIsSkipped()
    ensures var t := map[
        "u1" := Post("u1", "c", Shortname, None, None, 5),
        "u2" := Post("u2", "c", Shortname, None, None, 5)];
      && IsPage(t, None, 1, ["u1"])
      && "u2" in Matching(t, None)
      && "u2" !in Matching(t, Some(PositionOf(t["u1"])))
  {
    var t := map[
      "u1" := Post("u1", "c", Shortname, None, None, 5),
      "u2" := Post("u2", "c", Shortname, None, None, 5)];
    var m := Matching(t, None);
    assert m == {"u1", "u2"} by {
      assert "u1" in m && "u2" in m;
    }
    BelowIrreflexive("c");
    TiedRowIsNotAfterCursor(t, t["u1"], "u2");
  }
}
