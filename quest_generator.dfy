/**
 * The quest generator: the text the language model produced after the
 * "### Quest:" marker if there is any, and otherwise the fallback chain:
 * the quest of the first example whose prompt equals the keyword
 * (ignoring case), a lightly varied copy of the quest of the first example
 * whose prompt contains or is contained in the keyword, or a generic quest
 * built around the keyword.
 *
 * The model itself is not modelled: its decoded output is an input, `None`
 * when it could not be loaded or run. The random choices of the variation
 * step are an input too, one `Draw` per round.
 */
module QuestGenerator {
  import opened Wrappers
  import opened PyStr
  import opened ExampleStore

  // ---------------------------------------------------------------- model path

  /** The marker after which the model's answer starts. */
  const Marker := "### Quest:"

  /** `text.split("### Quest:")[1].strip()`, or `None` where indexing the split would raise. */
  function ExtractQuest(text: string): (r: Option<string>)
    ensures r.Some? <==> Contains(text, Marker)
  {
    var parts := Split(text, Marker);
    SplitPieces(text, Marker);
    if |parts| < 2 then None else Some(Strip(parts[1]))
  }

  /**
   * With the first marker at `i` and the next one at `j` (or no further marker
   * and `j` the end of the text), the model's answer is the stripped text
   * between the two.
   */
  lemma ExtractQuestBetweenMarkers(text: string, i: nat, j: nat)
    requires OccursAt(text, Marker, i) && NextAt(text, Marker, 0, i)
    requires NextAt(text, Marker, i + |Marker|, j)
    ensures ExtractQuest(text) == Some(Strip(text[i + |Marker|..j]))
  {
    SplitSecond(text, Marker, i, j);
  }

  /** The model path fails: the model is unavailable, or its output holds no marker. */
  predicate ModelFails(decoded: Option<string>) {
    decoded.None? || !Contains(decoded.value, Marker)
  }

  // ------------------------------------------------------------ example search

  /** The two searches of the fallback chain. */
  datatype MatchKind = Exact | Partial

  /**
   * Exact: the prompts are equal once lowered. Partial: either lowered prompt
   * occurs in the other.
   */
  predicate Matches(kind: MatchKind, e: Example, keyword: string) {
    var p, k := Lower(e.prompt), Lower(keyword);
    match kind
    case Exact => p == k
    case Partial => Contains(p, k) || Contains(k, p)
  }

  /** Example `i` matches and none before it does. */
  predicate IsFirstMatch(examples: seq<Example>, kind: MatchKind, keyword: string, i: nat) {
    && i < |examples|
    && Matches(kind, examples[i], keyword)
    && forall j :: 0 <= j < i ==> !Matches(kind, examples[j], keyword)
  }

  /** No example matches. */
  predicate NoneMatch(examples: seq<Example>, kind: MatchKind, keyword: string) {
    forall j :: 0 <= j < |examples| ==> !Matches(kind, examples[j], keyword)
  }

  /** The position of the first matching example, in list order. */
  function FirstMatch(examples: seq<Example>, kind: MatchKind, keyword: string): (r: Option<nat>)
    ensures r.Some? ==> IsFirstMatch(examples, kind, keyword, r.value)
    ensures r.None? <==> NoneMatch(examples, kind, keyword)
    decreases |examples|
  {
    if examples == [] then None
    else if Matches(kind, examples[0], keyword) then Some(0)
    else
      var rest := examples[1..];
      assert forall k :: 1 <= k < |examples| ==> examples[k] == rest[k - 1];
      match FirstMatch(rest, kind, keyword)
      case None => None
      case Some(i) => Some(i + 1)
  }

  /** The first match is the one `FirstMatch` reports. */
  lemma FirstMatchAt(examples: seq<Example>, kind: MatchKind, keyword: string, i: nat)
    requires IsFirstMatch(examples, kind, keyword, i)
    ensures FirstMatch(examples, kind, keyword) == Some(i)
  {
  }

  /** A string contains itself, so an exact match is always a partial match too. */
  lemma ExactIsPartial(e: Example, keyword: string)
    ensures Matches(Exact, e, keyword) ==> Matches(Partial, e, keyword)
  {
    var k := Lower(keyword);
    assert OccursAt(k, k, 0) by {
      assert k[0..|k|] == k;
    }
  }

  /** The exact-match loop: the quest of the first example whose prompt equals the keyword, ignoring case. */
  method FindExact(examples: seq<Example>, keyword: string) returns (quest: Option<string>)
    ensures NoneMatch(examples, Exact, keyword) <==> quest.None?
    ensures forall i: nat :: IsFirstMatch(examples, Exact, keyword, i) ==> quest == Some(examples[i].quest)
  {
    for i := 0 to |examples|
      invariant forall j :: 0 <= j < i ==> !Matches(Exact, examples[j], keyword)
    {
      if Lower(examples[i].prompt) == Lower(keyword) {
        return Some(examples[i].quest);
      }
    }
    return None;
  }

  /** The partial-match loop's search: the first example whose prompt contains, or is contained in, the keyword. */
  method FindPartial(examples: seq<Example>, keyword: string) returns (index: Option<nat>)
    ensures index == FirstMatch(examples, Partial, keyword)
  {
    var k := Lower(keyword);
    for i := 0 to |examples|
      invariant forall j :: 0 <= j < i ==> !Matches(Partial, examples[j], keyword)
    {
      var p := Lower(examples[i].prompt);
      assert Matches(Partial, examples[i], keyword) <==> Contains(p, k) || Contains(k, p);
      if Contains(p, k) || Contains(k, p) {
        FirstMatchAt(examples, Partial, keyword, i);
        return Some(i);
      }
    }
    assert NoneMatch(examples, Partial, keyword);
    return None;
  }

  // ---------------------------------------------------------------- variation

  /** At most this many positions are drawn. */
  const MaxRounds: nat := 3

  /** `min(3, n)`: the number of rounds for a quest of `n` words. */
  function Rounds(n: nat): (r: nat)
    ensures r <= MaxRounds && r <= n
    ensures r == n || r == MaxRounds
  {
    if n < MaxRounds then n else MaxRounds
  }

  /**
   * The random choices of one round, each reduced modulo the size of what it
   * picks from: the word position, the example supplying a replacement, and
   * the replacement word within that example's quest.
   */
  datatype Draw = Draw(position: nat, example: nat, word: nat)

  /** A word that may be replaced: longer than four characters and starting with a lower-case letter. */
  predicate Eligible(w: string) {
    |w| > 4 && IsLowerAscii(w[0])
  }

  /** `w` is a whitespace-delimited word of some stored quest. */
  predicate InPool(w: string, examples: seq<Example>) {
    exists j :: 0 <= j < |examples| && w in Words(examples[j].quest)
  }

  /** The positions at which two word lists differ. */
  function Changed(before: seq<string>, after: seq<string>): set<nat> {
    set k: nat | k < |before| && k < |after| && before[k] != after[k]
  }

  /** One round: if the drawn word is eligible, replace it by a word drawn from a drawn example's quest. */
  function Substitute(words: seq<string>, examples: seq<Example>, d: Draw): (r: seq<string>)
    requires |words| > 0 && |examples| > 0
    ensures |r| == |words|
  {
    var idx := d.position % |words|;
    if Eligible(words[idx]) then
      var pool := Words(examples[d.example % |examples|].quest);
      if |pool| > 0 then words[idx := pool[d.word % |pool|]] else words
    else words
  }

  /** The rounds in order, one per draw. */
  function Vary(words: seq<string>, examples: seq<Example>, draws: seq<Draw>): (r: seq<string>)
    requires |examples| > 0 && (draws != [] ==> |words| > 0)
    ensures |r| == |words|
    decreases |draws|
  {
    if draws == [] then words
    else Substitute(Vary(words, examples, draws[..|draws| - 1]), examples, draws[|draws| - 1])
  }

  /** The rounds up to draw `i` followed by round `i` are the rounds up to draw `i + 1`. */
  lemma VaryStep(words: seq<string>, examples: seq<Example>, draws: seq<Draw>, i: nat)
    requires |examples| > 0 && |words| > 0 && i < |draws|
    ensures Vary(words, examples, draws[..i + 1]) == Substitute(Vary(words, examples, draws[..i]), examples, draws[i])
  {
    assert draws[..i + 1][..i] == draws[..i];
  }

  /** The partial-match answer: the quest's words after `min(3, n)` rounds, joined by single spaces. */
  function Varied(quest: string, examples: seq<Example>, draws: seq<Draw>): string
    requires |examples| > 0 && |draws| >= MaxRounds
  {
    var words := Words(quest);
    JoinWith(Vary(words, examples, draws[..Rounds(|words|)]), " ")
  }

  /** The variation loop, replacing words of the list in place. */
  method VaryQuest(quest: string, examples: seq<Example>, draws: seq<Draw>) returns (varied: string)
    requires |examples| > 0 && |draws| >= MaxRounds
    ensures varied == Varied(quest, examples, draws)
  {
    var words := Words(quest);
    ghost var original := words;
    var rounds := if |words| < MaxRounds then |words| else MaxRounds;
    for i := 0 to rounds
      invariant words == Vary(original, examples, draws[..i])
    {
      ghost var before := words;
      var idx := draws[i].position % |words|;
      if |words[idx]| > 4 && IsLowerAscii(words[idx][0]) {
        var replacement := examples[draws[i].example % |examples|];
        var replacementWords := Words(replacement.quest);
        if |replacementWords| > 0 {
          words := words[idx := replacementWords[draws[i].word % |replacementWords|]];
        }
      }
      assert words == Substitute(before, examples, draws[i]);
      VaryStep(original, examples, draws, i);
    }
    varied := JoinWith(words, " ");
  }

  /** A subset is no larger than its superset. */
  lemma {:induction false} SubsetSize(a: set<nat>, b: set<nat>)
    requires a <= b
    ensures |a| <= |b|
    decreases |b|
  {
    if a != {} {
      var x :| x in a;
      SubsetSize(a - {x}, b - {x});
    }
  }

  /** One round changes nothing but the drawn position. */
  lemma SubstituteElsewhere(words: seq<string>, examples: seq<Example>, d: Draw)
    requires |words| > 0 && |examples| > 0
    ensures forall k :: 0 <= k < |words| && k != d.position % |words| ==>
      Substitute(words, examples, d)[k] == words[k]
  {
  }

  /** If one round changes the drawn position, it held an eligible word and now holds a word of some stored quest. */
  lemma SubstituteDrawn(words: seq<string>, examples: seq<Example>, d: Draw)
    requires |words| > 0 && |examples| > 0
    ensures var idx := d.position % |words|;
      Substitute(words, examples, d)[idx] != words[idx] ==>
        Eligible(words[idx]) && InPool(Substitute(words, examples, d)[idx], examples)
  {
    var idx := d.position % |words|;
    if Eligible(words[idx]) {
      var j := d.example % |examples|;
      var pool := Words(examples[j].quest);
      if |pool| > 0 {
        DrawnWordInPool(examples, j, d.word % |pool|);
      }
    }
  }

  /** A word drawn from a stored quest is in the pool. */
  lemma DrawnWordInPool(examples: seq<Example>, j: nat, m: nat)
    requires j < |examples| && m < |Words(examples[j].quest)|
    ensures InPool(Words(examples[j].quest)[m], examples)
  {
    assert Words(examples[j].quest)[m] in Words(examples[j].quest);
  }

  /** Changing one more position grows the set of changed positions by at most one. */
  lemma ChangedGrowsByOne(original: seq<string>, before: seq<string>, after: seq<string>, idx: nat)
    requires |before| == |original| && |after| == |original|
    requires forall k :: 0 <= k < |original| && k != idx ==> after[k] == before[k]
    ensures |Changed(original, after)| <= |Changed(original, before)| + 1
  {
    assert Changed(original, after) <= Changed(original, before) + {idx};
    SubsetSize(Changed(original, after), Changed(original, before) + {idx});
  }

  /**
   * After the rounds: at most one position changed per draw; a changed position
   * held an eligible word, and now holds a word of some stored quest; and a
   * list of words stays a list of words.
   */
  lemma {:induction false} VaryChanges(words: seq<string>, examples: seq<Example>, draws: seq<Draw>)
    requires |examples| > 0 && (draws != [] ==> |words| > 0)
    ensures |Changed(words, Vary(words, examples, draws))| <= |draws|
    ensures forall k :: 0 <= k < |words| && Vary(words, examples, draws)[k] != words[k] ==>
      Eligible(words[k]) && InPool(Vary(words, examples, draws)[k], examples)
    ensures (forall k :: 0 <= k < |words| ==> IsWord(words[k])) ==>
      forall k :: 0 <= k < |words| ==> IsWord(Vary(words, examples, draws)[k])
    decreases |draws|
  {
    if draws == [] {
      assert Changed(words, words) == {};
    } else {
      var earlier := draws[..|draws| - 1];
      var d := draws[|draws| - 1];
      VaryChanges(words, examples, earlier);
      var before := Vary(words, examples, earlier);
      var after := Vary(words, examples, draws);
      assert after == Substitute(before, examples, d);
      SubstituteElsewhere(before, examples, d);
      SubstituteDrawn(before, examples, d);
      ChangedGrowsByOne(words, before, after, d.position % |before|);
      InPoolWords(after, examples, before, words);
    }
  }

  /** Pool words are words, so a position holding a pool word or an unchanged word holds a word. */
  lemma InPoolWords(after: seq<string>, examples: seq<Example>, before: seq<string>, original: seq<string>)
    requires |after| == |before| == |original|
    requires forall k :: 0 <= k < |original| && after[k] != before[k] ==> InPool(after[k], examples)
    ensures (forall k :: 0 <= k < |original| ==> IsWord(before[k])) ==>
      forall k :: 0 <= k < |original| ==> IsWord(after[k])
  {
    forall k | 0 <= k < |original| && after[k] != before[k]
      ensures IsWord(after[k])
    {
      var j :| 0 <= j < |examples| && after[k] in Words(examples[j].quest);
      var ws := Words(examples[j].quest);
      var m :| 0 <= m < |ws| && ws[m] == after[k];
    }
  }

  // ---------------------------------------------------------------- generic quest

  const GenericOpening := "Embark on an epic quest to "
  const GenericClosing := " in the forgotten lands. Battle fierce enemies, solve ancient puzzles, and claim legendary treasures that grant magical powers. Your success will determine the fate of the realm."

  /** The last resort: a fixed template around the keyword, which it contains verbatim. */
  function GenericQuest(keyword: string): (r: string)
    ensures Contains(r, keyword)
    ensures |r| > |keyword|
  {
    var r := GenericOpening + keyword + GenericClosing;
    assert OccursAt(r, keyword, |GenericOpening|) by {
      assert r[|GenericOpening|..|GenericOpening| + |keyword|] == keyword;
    }
    r
  }

  // ---------------------------------------------------------------- the whole chain

  /** The fallback chain: exact match, then partial match with variation, then the generic quest. */
  function Fallback(examples: seq<Example>, keyword: string, draws: seq<Draw>): string
    requires |draws| >= MaxRounds
  {
    match FirstMatch(examples, Exact, keyword)
    case Some(i) => examples[i].quest
    case None =>
      match FirstMatch(examples, Partial, keyword)
      case Some(j) => Varied(examples[j].quest, examples, draws)
      case None => GenericQuest(keyword)
  }

  /** `generate_quest`: the model's answer when it has one, otherwise the fallback chain. */
  function Generated(examples: seq<Example>, keyword: string, decoded: Option<string>, draws: seq<Draw>): string
    requires |draws| >= MaxRounds
  {
    if decoded.Some? && ExtractQuest(decoded.value).Some? then ExtractQuest(decoded.value).value
    else Fallback(examples, keyword, draws)
  }

  /** `generate_quest`, step by step as the source runs it. */
  method GenerateQuest(examples: seq<Example>, keyword: string, decoded: Option<string>, draws: seq<Draw>)
    returns (quest: string)
    requires |draws| >= MaxRounds
    ensures quest == Generated(examples, keyword, decoded, draws)
  {
    if decoded.Some? {
      var extracted := ExtractQuest(decoded.value);
      if extracted.Some? {
        return extracted.value;
      }
    }
    var exact := FindExact(examples, keyword);
    if exact.Some? {
      return exact.value;
    }
    var partial := FindPartial(examples, keyword);
    if partial.Some? {
      quest := VaryQuest(examples[partial.value].quest, examples, draws);
      return;
    }
    quest := GenericQuest(keyword);
  }

  // ---------------------------------------------------------------- properties

  /** When the model yields a marker, its answer is returned and no example is consulted. */
  lemma ModelAnswerWins(examples: seq<Example>, keyword: string, text: string, draws: seq<Draw>)
    requires |draws| >= MaxRounds && Contains(text, Marker)
    ensures Generated(examples, keyword, Some(text), draws) == ExtractQuest(text).value
  {
  }

  /** Without a model answer, the first exact match's quest is returned unchanged. */
  lemma ExactMatchReturnsQuest(examples: seq<Example>, keyword: string, decoded: Option<string>,
                               draws: seq<Draw>, i: nat)
    requires |draws| >= MaxRounds && ModelFails(decoded)
    requires IsFirstMatch(examples, Exact, keyword, i)
    ensures Generated(examples, keyword, decoded, draws) == examples[i].quest
  {
    var m := FirstMatch(examples, Exact, keyword);
    assert m.Some?;
    assert m.value == i;
  }

  /**
   * Without a model answer or an exact match, the answer comes from the first
   * partial match: it has as many words as that example's quest, at most
   * `min(3, n)` of them differ, and each one that differs replaced an eligible
   * word by a word of some stored quest.
   */
  lemma PartialMatchShape(examples: seq<Example>, keyword: string, decoded: Option<string>,
                          draws: seq<Draw>, j: nat)
    requires |draws| >= MaxRounds && ModelFails(decoded)
    requires NoneMatch(examples, Exact, keyword)
    requires IsFirstMatch(examples, Partial, keyword, j)
    ensures |Words(Generated(examples, keyword, decoded, draws))| == |Words(examples[j].quest)|
    ensures |Changed(Words(examples[j].quest), Words(Generated(examples, keyword, decoded, draws)))|
              <= Rounds(|Words(examples[j].quest)|)
    ensures forall k ::
      (0 <= k < |Words(examples[j].quest)| &&
       Words(Generated(examples, keyword, decoded, draws))[k] != Words(examples[j].quest)[k]) ==>
        && Eligible(Words(examples[j].quest)[k])
        && InPool(Words(Generated(examples, keyword, decoded, draws))[k], examples)
  {
    assert FirstMatch(examples, Partial, keyword) == Some(j);
    var original := Words(examples[j].quest);
    var rounds := draws[..Rounds(|original|)];
    var varied := Vary(original, examples, rounds);
    VaryChanges(original, examples, rounds);
    WordsOfJoin(varied);
    assert Generated(examples, keyword, decoded, draws) == JoinWith(varied, " ");
  }

  /**
   * Without a model answer, when no stored prompt contains or is contained in
   * the keyword, the generic quest is returned.
   */
  lemma GenericWhenNoMatch(examples: seq<Example>, keyword: string, decoded: Option<string>, draws: seq<Draw>)
    requires |draws| >= MaxRounds && ModelFails(decoded)
    requires NoneMatch(examples, Partial, keyword)
    ensures Generated(examples, keyword, decoded, draws) == GenericQuest(keyword)
    ensures Contains(Generated(examples, keyword, decoded, draws), keyword)
  {
    forall i | 0 <= i < |examples| ensures !Matches(Exact, examples[i], keyword) {
      ExactIsPartial(examples[i], keyword);
    }
  }

  /** The empty string has no words. */
  lemma NoWordsInEmpty()
    ensures Words("") == []
  {
    assert LStrip("", IsSpace) == "";
  }

  /** When every stored quest has at least one word, the fallback chain never answers with the empty string. */
  lemma FallbackNonEmpty(examples: seq<Example>, keyword: string, draws: seq<Draw>)
    requires |draws| >= MaxRounds
    requires forall i :: 0 <= i < |examples| ==> Words(examples[i].quest) != []
    ensures Fallback(examples, keyword, draws) != ""
  {
    NoWordsInEmpty();
    match FirstMatch(examples, Exact, keyword)
    case Some(i) =>
    case None =>
      match FirstMatch(examples, Partial, keyword)
      case Some(j) =>
        var original := Words(examples[j].quest);
        var rounds := draws[..Rounds(|original|)];
        var varied := Vary(original, examples, rounds);
        VaryChanges(original, examples, rounds);
        WordsOfJoin(varied);
      case None =>
  }

  /** With the built-in store and no model, the keyword "dragon" yields the built-in dragon quest. */
  lemma BuiltinDragon(draws: seq<Draw>)
    requires |draws| >= MaxRounds
    ensures Generated(Builtins, "dragon", None, draws) == Builtins[0].quest
  {
    ExactMatchReturnsQuest(Builtins, "dragon", None, draws, 0);
  }
}
