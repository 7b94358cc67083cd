/**
 * The "alphabeticwords" feed policy: which created posts enter the feed, and
 * the row each accepted post becomes.
 */
module AlphabeticalWords {
  import opened Wrappers
  import opened JsText
  import opened Posts

  /** The feed's record name, stored in the `feed` column of every row it writes. */
  const Shortname: string := "alphabeticwords"

  /** The highest code unit `isASCII` admits: 0xFF in extended mode, 0x7F otherwise. */
  function AsciiBound(extended: bool): int
  {
    if extended then 0xFF else 0x7F
  }

  /**
   * `isASCII(s, extended)`: the regular expression `^[\x00-\xFF]*$` (or
   * `^[\x00-\x7F]*$`) matched one character class step at a time.
   */
  function IsAscii(s: string, extended: bool): (r: bool)
    ensures r <==> AllAtMost(s, AsciiBound(extended))
  {
    if |s| == 0 then true
    else
      var ok := s[0] as int <= AsciiBound(extended) && IsAscii(s[1..], extended);
      assert AllAtMost(s, AsciiBound(extended)) ==> AllAtMost(s[1..], AsciiBound(extended));
      ok
  }

  /** `word.substring(0, 1)`: the first character as a string, `""` for the empty word. */
  function FirstLetter(word: string): (r: string)
    ensures |r| <= 1 && r <= word
    ensures |r| == 1 <==> |word| > 0
  {
    if |word| == 0 then "" else word[..1]
  }

  /** `words.map(word => word.substring(0, 1))`. */
  function FirstLetters(words: seq<string>): (r: seq<string>)
    ensures |r| == |words|
    ensures forall i | 0 <= i < |words| :: r[i] == FirstLetter(words[i])
  {
    seq(|words|, i requires 0 <= i < |words| => FirstLetter(words[i]))
  }

  /** `text.toLowerCase().split(" ")` on Latin-1 text. */
  function Words(text: string): (words: seq<string>)
    requires AllAtMost(text, 0xFF)
    ensures |words| >= 1
  {
    Split(Lower(text), " ")
  }

  /**
   * `subscriptionFilter`: accept a create when its text is extended ASCII, has
   * at least two space-separated words, and the list of the words' first
   * letters equals its own sorted copy.
   */
  function SubscriptionFilter(create: CreateOp): (accepted: bool)
    ensures accepted ==> AllAtMost(create.record.text, 0xFF)
    ensures accepted ==> ' ' in create.record.text
  {
    var text := create.record.text;
    if !IsAscii(text, true) then false
    else
      var words := Words(text);
      if |words| <= 1 then false
      else
        var firstLetters := FirstLetters(words);
        TextWithoutSpaceIsOneWord(text);
        firstLetters == Sort(firstLetters)
  }

  /** A Latin-1 text splits into at least two words exactly when it contains a space. */
  lemma TextWithoutSpaceIsOneWord(text: string)
    requires AllAtMost(text, 0xFF)
    ensures |Words(text)| <= 1 <==> ' ' !in text
  {
    FreeOfChar(Lower(text), ' ');
    SplitSingleIff(Lower(text), " ");
    LowerKeepsSpaces(text);
  }

  /**
   * What the filter decides, stated without the sort: a create is accepted
   * exactly when its text is Latin-1, contains a space, and the first letters
   * of its lower-cased words are non-decreasing (an empty word's letter `""`
   * sorting before every other).
   */
  lemma {:induction false} FilterCharacterization(create: CreateOp)
    ensures SubscriptionFilter(create) <==>
      && AllAtMost(create.record.text, 0xFF)
      && ' ' in create.record.text
      && Sorted(FirstLetters(Words(create.record.text)))
  {
    var text := create.record.text;
    if AllAtMost(text, 0xFF) {
      TextWithoutSpaceIsOneWord(text);
      SortFixpointIff(FirstLetters(Words(text)));
    }
  }

  /** No word holds a space. */
  predicate NoSpaces(words: seq<string>)
  {
    forall k | 0 <= k < |words| :: ' ' !in words[k]
  }

  /**
   * On a text whose lower-cased form is `words` joined by single spaces, the
   * filter only asks whether the words' first letters are in order.
   */
  lemma FilterOnJoinedWords(create: CreateOp, words: seq<string>)
    requires AllAtMost(create.record.text, 0xFF)
    requires |words| >= 2 && NoSpaces(words)
    requires Lower(create.record.text) == Join(words, " ")
    ensures SubscriptionFilter(create) <==> Sorted(FirstLetters(words))
  {
    var text := create.record.text;
    SplitJoinedWords(words, ' ');
    assert Words(text) == words;
    TextWithoutSpaceIsOneWord(text);
    FilterCharacterization(create);
  }

  /** A text with a character above U+00FF is never accepted. */
  lemma RejectsBeyondLatin1(create: CreateOp, i: nat)
    requires i < |create.record.text| && create.record.text[i] as int > 0xFF
    ensures !SubscriptionFilter(create)
  {
  }

  /** A text without a space, the empty text included, is a single word and is rejected. */
  lemma RejectsSingleWord(create: CreateOp)
    requires ' ' !in create.record.text
    ensures !SubscriptionFilter(create)
  {
  }

  /** The decision reads nothing of the create but its text. */
  lemma FilterDependsOnlyOnText(a: CreateOp, b: CreateOp)
    requires a.record.text == b.record.text
    ensures SubscriptionFilter(a) == SubscriptionFilter(b)
  {
  }

  /** Every row of the table was written by this feed. */
  predicate OnlyThisFeed(t: Table)
  {
    forall u | u in t :: t[u].feed == Shortname
  }

  /**
   * `mapToPost`: the row for an accepted create, stamped with the time `now`
   * at which it is mapped.
   */
  function MapToPost(create: CreateOp, now: int): (p: Post)
    ensures p.uri == create.uri && p.cid == create.cid
    ensures p.feed == Shortname
    ensures p.replyParent == (if create.record.reply.Some? then Some(create.record.reply.value.parent) else None)
    ensures p.replyRoot == (if create.record.reply.Some? then Some(create.record.reply.value.root) else None)
    ensures p.indexedAt == now
  {
    Post(
      create.uri,
      create.cid,
      Shortname,
      match create.record.reply { case Some(r) => Some(r.parent) case None => None },
      match create.record.reply { case Some(r) => Some(r.root) case None => None },
      now
    )
  }
}
