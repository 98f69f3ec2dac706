/**
 * The `/generate` request handler (and its `/generate_quest` alias): it
 * rejects a missing prompt, asks the generator for a quest, cleans echoed
 * request/response text out of it, rejects a degenerate result and counts
 * every successful response.
 *
 * The regular-expression search of the cleanup is an oracle passed in by the
 * caller; wall-clock timing, Flask routing and the status endpoint are not
 * modelled.
 */
module Server {
  import opened Wrappers
  import opened PyStr
  import opened ExampleStore
  import opened QuestGenerator

  /**
   * The quest as the handler holds it: a string, or, when the split cleanup
   * extracts nothing, the list of pieces the raw text was split into.
   */
  datatype QuestValue = Text(text: string) | Pieces(pieces: seq<string>)

  /** The JSON body of a response (the success body's `elapsed_time` is not modelled). */
  datatype Body = QuestBody(quest: QuestValue, prompt: string) | ErrorBody(error: string)

  datatype Response = Response(status: nat, body: Body)

  /**
   * What the case-insensitive search for an echoed `{"prompt": ..., "quest": ...}`
   * object reports: no match, the captured quest text, or the error raised when
   * the prompt, pasted into the pattern unescaped, makes the pattern invalid.
   */
  datatype RegexOutcome = NoMatch | Captured(group: string) | PatternError(message: string)

  /** The search applied to (prompt, raw generator output). */
  type RegexSearch = (string, string) -> RegexOutcome

  const PromptRequired := "Prompt is required"
  const InvalidQuest := "Failed to generate a valid quest"
  const PromptKey := "{\"prompt\":"
  const QuestKey := "\"quest\":"

  /** The request carries no usable prompt: the key is missing or the value is empty. */
  predicate PromptMissing(prompt: Option<string>) {
    prompt.None? || prompt.value == ""
  }

  /** The cleaned quest is rejected: an empty or prompt-equal string, or an empty list. */
  predicate IsDegenerate(quest: QuestValue, prompt: string) {
    match quest
    case Text(s) => s == "" || s == prompt
    case Pieces(ps) => ps == []
  }

  /** The characters of the cleanup's `strip('" ')`. */
  predicate IsQuoteOrSpace(c: char) {
    c == '"' || c == ' '
  }

  /**
   * `part.split('"quest":')[1].split('}')[0].strip('" ').strip()`, or `None`
   * where indexing the first split raises because the key is absent.
   */
  function PartQuest(part: string): (r: Option<string>)
    ensures r.Some? <==> Contains(part, QuestKey)
  {
    var afterKey := Split(part, QuestKey);
    SplitPieces(part, QuestKey);
    if |afterKey| < 2 then None
    else Some(Strip(StripWith(Split(afterKey[1], "}")[0], IsQuoteOrSpace)))
  }

  /** A one-character string occurs at `k` exactly when that character is at `k`. */
  lemma OccursAtChar(s: string, c: char, k: nat)
    ensures OccursAt(s, [c], k) <==> k < |s| && s[k] == c
  {
    if k < |s| {
      assert s[k..k + 1] == [s[k]];
    }
  }

  /**
   * With the first `"quest":` key at `i`, the next one at `j` (or none, and `j`
   * the end), and the first `}` after the key at `c` (or none before `j`, and
   * `c == j`), the piece's quest is the text from after the key up to `c`,
   * stripped of quotes and spaces, then of whitespace.
   */
  lemma PartQuestBetween(part: string, i: nat, j: nat, c: nat)
    requires OccursAt(part, QuestKey, i) && NextAt(part, QuestKey, 0, i)
    requires NextAt(part, QuestKey, i + |QuestKey|, j)
    requires i + |QuestKey| <= c <= j
    requires forall k :: i + |QuestKey| <= k < c ==> part[k] != '}'
    requires c == j || part[c] == '}'
    ensures PartQuest(part) == Some(Strip(StripWith(part[i + |QuestKey|..c], IsQuoteOrSpace)))
  {
    var start := i + |QuestKey|;
    SplitSecond(part, QuestKey, i, j);
    FirstBrace(part, start, j, c);
  }

  /** In `part[start..j]`, the text before the first `}` is `part[start..c]`. */
  lemma FirstBrace(part: string, start: nat, j: nat, c: nat)
    requires start <= c <= j <= |part|
    requires forall k :: start <= k < c ==> part[k] != '}'
    requires c == j || part[c] == '}'
    ensures Split(part[start..j], "}")[0] == part[start..c]
  {
    var between := part[start..j];
    var cut := c - start;
    forall k: nat | k < cut ensures !OccursAt(between, "}", k) {
      OccursAtChar(between, '}', k);
    }
    if cut < |between| {
      OccursAtChar(between, '}', cut);
    }
    SplitFirst(between, "}", cut);
    assert between[..cut] == part[start..c];
  }

  /** The split cleanup takes its answer from this piece: it mentions the prompt, ignoring case, and holds the key. */
  predicate Yields(prompt: string, part: string) {
    Contains(Lower(part), Lower(prompt)) && Contains(part, QuestKey)
  }

  /** The position of the first piece the split cleanup takes its answer from. */
  function FirstYield(prompt: string, parts: seq<string>): (r: Option<nat>)
    ensures r.Some? ==> && r.value < |parts| && Yields(prompt, parts[r.value])
                        && forall k :: 0 <= k < r.value ==> !Yields(prompt, parts[k])
    ensures r.None? <==> forall k :: 0 <= k < |parts| ==> !Yields(prompt, parts[k])
    decreases |parts|
  {
    if parts == [] then None
    else if Yields(prompt, parts[0]) then Some(0)
    else
      var rest := parts[1..];
      assert forall k :: 1 <= k < |parts| ==> parts[k] == rest[k - 1];
      match FirstYield(prompt, rest)
      case None => None
      case Some(k) => Some(k + 1)
  }

  /**
   * The cleanup when the search does not match: the quest of the first piece
   * (split at `{"prompt":`) that mentions the prompt and holds a `"quest":`
   * key; otherwise the list of pieces.
   */
  function SplitCleaned(prompt: string, raw: string): QuestValue {
    var parts := Split(raw, PromptKey);
    match FirstYield(prompt, parts)
    case Some(k) => Text(PartQuest(parts[k]).value)
    case None => Pieces(parts)
  }

  /**
   * The cleanup: the stripped captured text when the search matches, the split
   * cleanup when it does not; a pattern error is raised to the handler.
   */
  function Cleaned(prompt: string, raw: string, search: RegexSearch): Result<QuestValue, string> {
    match search(prompt, raw)
    case PatternError(message) => Failure(message)
    case Captured(group) => Success(Text(Strip(group)))
    case NoMatch => Success(SplitCleaned(prompt, raw))
  }

  /** The cleanup as the source runs it: the regex first, then the split cleanup. */
  method CleanQuest(prompt: string, raw: string, search: RegexSearch) returns (r: Result<QuestValue, string>)
    ensures r == Cleaned(prompt, raw, search)
  {
    match search(prompt, raw) {
      case PatternError(message) =>
        return Failure(message);
      case Captured(group) =>
        return Success(Text(Strip(group)));
      case NoMatch =>
        var quest := SplitCleanup(prompt, raw);
        return Success(quest);
    }
  }

  /** The split cleanup's loop: the list replaces the string, and the loop breaks at the first extraction. */
  method SplitCleanup(prompt: string, raw: string) returns (quest: QuestValue)
    ensures quest == SplitCleaned(prompt, raw)
  {
    var parts := Split(raw, PromptKey);
    quest := Pieces(parts);
    for i := 0 to |parts|
      invariant quest == Pieces(parts)
      invariant forall k :: 0 <= k < i ==> !Yields(prompt, parts[k])
    {
      var extracted := TryPart(prompt, parts[i]);
      if extracted.Some? {
        quest := Text(extracted.value);
        FirstYieldAt(prompt, parts, i);
        break;
      }
    }
    if quest.Pieces? {
      PiecesWhenNothingExtracted(prompt, raw);
    }
  }

  /**
   * One pass of the split cleanup's loop: a piece that does not mention the
   * prompt is passed over, and one that does goes through the `try` block.
   */
  method TryPart(prompt: string, part: string) returns (extracted: Option<string>)
    ensures extracted.Some? <==> Yields(prompt, part)
    ensures extracted.Some? ==> extracted == PartQuest(part)
  {
    if !Contains(Lower(part), Lower(prompt)) {
      return None;
    }
    extracted := PartQuest(part);
  }

  /** The first piece that yields is the one `FirstYield` reports. */
  lemma FirstYieldAt(prompt: string, parts: seq<string>, i: nat)
    requires i < |parts| && Yields(prompt, parts[i])
    requires forall k :: 0 <= k < i ==> !Yields(prompt, parts[k])
    ensures FirstYield(prompt, parts) == Some(i)
  {
  }

  /** The whole `/generate` exchange for one request. */
  function Handle(prompt: Option<string>, examples: seq<Example>, decoded: Option<string>,
                  draws: seq<Draw>, search: RegexSearch): Response
    requires |draws| >= MaxRounds
  {
    if PromptMissing(prompt) then Response(400, ErrorBody(PromptRequired))
    else
      var p := prompt.value;
      match Cleaned(p, Generated(examples, p, decoded, draws), search)
      case Failure(message) => Response(500, ErrorBody(message))
      case Success(quest) =>
        if IsDegenerate(quest, p) then Response(500, ErrorBody(InvalidQuest))
        else Response(200, QuestBody(quest, p))
  }

  /** The web application: the example store loaded at start-up and the process-wide request counter. */
  class QuestApp {
    const examples: seq<Example>
    var requestCount: nat

    constructor (file: DataFile)
      ensures examples == Loaded(file)
      ensures requestCount == 0
    {
      var loaded := LoadExamples(file);
      examples := loaded;
      requestCount := 0;
    }

    /** `POST /generate`: answers the request and counts it when, and only when, it succeeds. */
    method Generate(prompt: Option<string>, decoded: Option<string>, draws: seq<Draw>, search: RegexSearch)
      returns (response: Response)
      requires |draws| >= MaxRounds
      modifies this
      ensures response == Handle(prompt, examples, decoded, draws, search)
      ensures requestCount == old(requestCount) + (if response.status == 200 then 1 else 0)
    {
      if PromptMissing(prompt) {
        return Response(400, ErrorBody(PromptRequired));
      }
      var p := prompt.value;
      var quest := GenerateQuest(examples, p, decoded, draws);
      var cleaned := CleanQuest(p, quest, search);
      if cleaned.Failure? {
        return Response(500, ErrorBody(cleaned.error));
      }
      if IsDegenerate(cleaned.value, p) {
        return Response(500, ErrorBody(InvalidQuest));
      }
      requestCount := requestCount + 1;
      response := Response(200, QuestBody(cleaned.value, p));
    }

    /** `POST /generate_quest`: the legacy route, answered by the same handler. */
    method GenerateQuestEndpoint(prompt: Option<string>, decoded: Option<string>, draws: seq<Draw>,
                                 search: RegexSearch)
      returns (response: Response)
      requires |draws| >= MaxRounds
      modifies this
      ensures response == Handle(prompt, examples, decoded, draws, search)
      ensures requestCount == old(requestCount) + (if response.status == 200 then 1 else 0)
    {
      response := Generate(prompt, decoded, draws, search);
    }
  }

  // ---------------------------------------------------------------- properties

  /**
   * Every response is 200, 400 or 500; 400 is exactly the missing-prompt
   * case, with its fixed message; a 200 echoes the prompt and carries the
   * cleaned quest, which is not degenerate.
   */
  lemma HandleOutcomes(prompt: Option<string>, examples: seq<Example>, decoded: Option<string>,
                       draws: seq<Draw>, search: RegexSearch)
    requires |draws| >= MaxRounds
    ensures var r := Handle(prompt, examples, decoded, draws, search);
      && r.status in {200, 400, 500}
      && (r.status == 400 <==> PromptMissing(prompt))
      && (r.status == 400 ==> r.body == ErrorBody(PromptRequired))
      && (r.status == 200 ==>
            && r.body.QuestBody?
            && r.body.prompt == prompt.value
            && Cleaned(prompt.value, Generated(examples, prompt.value, decoded, draws), search)
                 == Success(r.body.quest)
            && !IsDegenerate(r.body.quest, prompt.value))
  {
  }

  /** A cleaned quest that is the empty string or the prompt itself is answered with 500. */
  lemma DegenerateRejected(p: string, examples: seq<Example>, decoded: Option<string>,
                           draws: seq<Draw>, search: RegexSearch)
    requires |draws| >= MaxRounds && p != ""
    requires Cleaned(p, Generated(examples, p, decoded, draws), search) in {Success(Text("")), Success(Text(p))}
    ensures Handle(Some(p), examples, decoded, draws, search) == Response(500, ErrorBody(InvalidQuest))
  {
  }

  /** Without a regex match, the quest comes from the first piece that mentions the prompt and holds the key. */
  lemma SplitCleanupUsesFirstYield(prompt: string, raw: string, k: nat)
    requires k < |Split(raw, PromptKey)| && Yields(prompt, Split(raw, PromptKey)[k])
    requires forall m :: 0 <= m < k ==> !Yields(prompt, Split(raw, PromptKey)[m])
    ensures SplitCleaned(prompt, raw) == Text(PartQuest(Split(raw, PromptKey)[k]).value)
  {
    FirstYieldAt(prompt, Split(raw, PromptKey), k);
  }

  /**
   * When nothing is extracted, the quest is the list of pieces: never empty,
   * rejoining to the raw text, and therefore never degenerate.
   */
  lemma PiecesWhenNothingExtracted(prompt: string, raw: string)
    requires forall k :: 0 <= k < |Split(raw, PromptKey)| ==> !Yields(prompt, Split(raw, PromptKey)[k])
    ensures SplitCleaned(prompt, raw) == Pieces(Split(raw, PromptKey))
    ensures Split(raw, PromptKey) != []
    ensures JoinWith(Split(raw, PromptKey), PromptKey) == raw
    ensures !IsDegenerate(SplitCleaned(prompt, raw), prompt)
  {
    assert FirstYield(prompt, Split(raw, PromptKey)).None?;
    JoinSplit(raw, PromptKey);
  }

  /**
   * A generator answer with neither a `{"prompt":` nor a `"quest":` in it, and
   * no regex match, is answered with 200 and a one-element list holding the
   * answer, even when the answer is empty or equal to the prompt.
   */
  lemma PlainAnswerIsWrapped(p: string, examples: seq<Example>, decoded: Option<string>,
                             draws: seq<Draw>, search: RegexSearch)
    requires |draws| >= MaxRounds && p != ""
    requires search(p, Generated(examples, p, decoded, draws)) == NoMatch
    requires !Contains(Generated(examples, p, decoded, draws), PromptKey)
    requires !Contains(Generated(examples, p, decoded, draws), QuestKey)
    ensures Handle(Some(p), examples, decoded, draws, search)
              == Response(200, QuestBody(Pieces([Generated(examples, p, decoded, draws)]), p))
  {
    var raw := Generated(examples, p, decoded, draws);
    assert Split(raw, PromptKey) == [raw];
    assert !Yields(p, raw);
  }
}
