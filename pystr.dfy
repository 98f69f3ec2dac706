/**
 * The handful of Python `str` operations the quest generator and the request
 * handler are built from: `isspace`, `lower`, `in`, `split(sep)`, `sep.join`,
 * `split()` and `strip`. Each is defined once here with the contract that
 * characterises it, so that the generator and handler can be reasoned about
 * in terms of positions in the string.
 */
module PyStr {
  import opened Wrappers

  /** Python's `str.isspace()` for a single character. */
  predicate IsSpace(c: char) {
    || c == ' '
    || '\t' <= c <= '\r'
    || '\U{1C}' <= c <= '\U{1F}'
    || c == '\U{85}' || c == '\U{A0}' || c == '\U{1680}'
    || '\U{2000}' <= c <= '\U{200A}'
    || c == '\U{2028}' || c == '\U{2029}' || c == '\U{202F}' || c == '\U{205F}' || c == '\U{3000}'
  }

  /** Python's `c.islower()` restricted to ASCII. */
  predicate IsLowerAscii(c: char) {
    'a' <= c <= 'z'
  }

  /** Python's `c.lower()` restricted to ASCII. */
  function LowerChar(c: char): (r: char)
    ensures 'A' <= c <= 'Z' ==> IsLowerAscii(r)
    ensures !('A' <= c <= 'Z') ==> r == c
  {
    if 'A' <= c <= 'Z' then (c as int + 32) as char else c
  }

  /** Python's `s.lower()` restricted to ASCII: every upper-case letter is lowered, nothing else moves. */
  function Lower(s: string): (r: string)
    ensures |r| == |s|
    ensures forall i :: 0 <= i < |s| ==> r[i] == LowerChar(s[i])
  {
    seq(|s|, i requires 0 <= i < |s| => LowerChar(s[i]))
  }

  /** `sub` occurs in `s` starting at index `k`. */
  predicate OccursAt(s: string, sub: string, k: nat) {
    k + |sub| <= |s| && s[k..k + |sub|] == sub
  }

  /** An occurrence in a suffix of `s` is an occurrence in `s`, shifted by the length dropped. */
  lemma OccursAtDrop(s: string, sub: string, d: nat, k: nat)
    requires d <= |s|
    ensures OccursAt(s[d..], sub, k) <==> OccursAt(s, sub, d + k)
  {
    if d + k + |sub| <= |s| {
      assert s[d..][k..k + |sub|] == s[d + k..d + k + |sub|];
    }
  }

  /** Python's `s.find(sub)`: the first index at which `sub` occurs, if any. */
  function IndexOf(s: string, sub: string): (r: Option<nat>)
    ensures r.Some? ==> OccursAt(s, sub, r.value)
    ensures r.Some? ==> forall k: nat :: k < r.value ==> !OccursAt(s, sub, k)
    ensures r.None? ==> forall k: nat :: !OccursAt(s, sub, k)
    decreases |s|
  {
    if |s| < |sub| then None
    else if s[..|sub|] == sub then Some(0)
    else
      var rest := IndexOf(s[1..], sub);
      assert !OccursAt(s, sub, 0) by {
        assert s[..|sub|] == s[0..|sub|];
      }
      match rest
      case None =>
        assert forall k: nat :: !OccursAt(s, sub, k) by {
          forall k: nat ensures !OccursAt(s, sub, k) {
            if k > 0 { OccursAtDrop(s, sub, 1, k - 1); }
          }
        }
        None
      case Some(i) =>
        assert forall k: nat :: k < i + 1 ==> !OccursAt(s, sub, k) by {
          forall k: nat | k < i + 1 ensures !OccursAt(s, sub, k) {
            if k > 0 { OccursAtDrop(s, sub, 1, k - 1); }
          }
        }
        OccursAtDrop(s, sub, 1, i);
        Some(i + 1)
  }

  /** An occurrence with none before it is the one `IndexOf` finds. */
  lemma IndexOfFirst(s: string, sub: string, i: nat)
    requires OccursAt(s, sub, i) && NextAt(s, sub, 0, i)
    ensures IndexOf(s, sub) == Some(i)
  {
  }

  /** Python's `sub in s`. */
  predicate Contains(s: string, sub: string) {
    IndexOf(s, sub).Some?
  }

  /** Python's `s.split(sep)` for a non-empty separator: the pieces between successive occurrences. */
  function Split(s: string, sep: string): (parts: seq<string>)
    requires sep != []
    ensures |parts| >= 1
    decreases |s|
  {
    match IndexOf(s, sep)
    case None => [s]
    case Some(i) => [s[..i]] + Split(s[i + |sep|..], sep)
  }

  /** A split has a second piece exactly when the separator occurs. */
  lemma SplitPieces(s: string, sep: string)
    requires sep != []
    ensures |Split(s, sep)| >= 2 <==> Contains(s, sep)
  {
    match IndexOf(s, sep)
    case None =>
    case Some(i) =>
      assert |Split(s[i + |sep|..], sep)| >= 1;
  }

  /** No piece of a split contains the separator. */
  lemma {:induction false} SplitPiecesFree(s: string, sep: string)
    requires sep != []
    ensures forall k :: 0 <= k < |Split(s, sep)| ==> !Contains(Split(s, sep)[k], sep)
    decreases |s|
  {
    match IndexOf(s, sep)
    case None =>
      assert Split(s, sep) == [s];
    case Some(i) =>
      var rest := s[i + |sep|..];
      SplitPiecesFree(rest, sep);
      SplitAt(s, sep, i);
      BeforeFirstFree(s, sep, i);
      ConsFree(s[..i], Split(rest, sep), sep);
  }

  /** The text before the first occurrence does not contain the separator. */
  lemma BeforeFirstFree(s: string, sep: string, i: nat)
    requires sep != [] && IndexOf(s, sep) == Some(i)
    ensures !Contains(s[..i], sep)
  {
    match IndexOf(s[..i], sep)
    case None =>
    case Some(m) =>
      assert s[..i][m..m + |sep|] == s[m..m + |sep|];
      assert OccursAt(s, sep, m);
      assert false;
  }

  /** Prepending a piece free of the separator to pieces free of it keeps them all free of it. */
  lemma ConsFree(first: string, more: seq<string>, sep: string)
    requires !Contains(first, sep)
    requires forall k :: 0 <= k < |more| ==> !Contains(more[k], sep)
    ensures forall k :: 0 <= k < |[first] + more| ==> !Contains(([first] + more)[k], sep)
  {
  }

  /** Python's `sep.join(parts)`. */
  function JoinWith(parts: seq<string>, sep: string): string
    decreases |parts|
  {
    if |parts| == 0 then ""
    else if |parts| == 1 then parts[0]
    else parts[0] + sep + JoinWith(parts[1..], sep)
  }

  /** Joining a first piece onto at least one more puts the separator between them. */
  lemma JoinCons(first: string, more: seq<string>, sep: string)
    requires more != []
    ensures JoinWith([first] + more, sep) == first + sep + JoinWith(more, sep)
  {
    assert ([first] + more)[1..] == more;
  }

  /** Joining the pieces of a split with the same separator gives back the string. */
  lemma {:induction false} JoinSplit(s: string, sep: string)
    requires sep != []
    ensures JoinWith(Split(s, sep), sep) == s
    decreases |s|
  {
    match IndexOf(s, sep)
    case None =>
      assert Split(s, sep) == [s];
    case Some(i) =>
      var rest := s[i + |sep|..];
      JoinSplit(rest, sep);
      SplitAt(s, sep, i);
      JoinCons(s[..i], Split(rest, sep), sep);
      AroundOccurrence(s, sep, i);
  }

  /** An occurrence of `sub` at `i` splits `s` into the text before it, `sub`, and the text after it. */
  lemma AroundOccurrence(s: string, sub: string, i: nat)
    requires OccursAt(s, sub, i)
    ensures s == s[..i] + sub + s[i + |sub|..]
  {
    assert s == s[..i] + s[i..i + |sub|] + s[i + |sub|..];
  }

  /**
   * The next occurrence of `sub` in `s` at or after `lo` is at `j`, or there
   * is none and `j` is the length of `s`.
   */
  predicate NextAt(s: string, sub: string, lo: nat, j: nat) {
    && lo <= j <= |s|
    && (forall k: nat :: lo <= k < j ==> !OccursAt(s, sub, k))
    && (j == |s| || OccursAt(s, sub, j))
  }

  /** The first piece of a split is the text before the first occurrence of the separator (or all of it). */
  lemma SplitFirst(s: string, sep: string, j: nat)
    requires sep != [] && NextAt(s, sep, 0, j)
    ensures Split(s, sep)[0] == s[..j]
  {
    match IndexOf(s, sep)
    case None =>
      assert j == |s|;
    case Some(i) =>
      assert i == j;
  }

  /**
   * The second piece of a split is the text between the first occurrence of
   * the separator, at `i`, and the next one, at `j` (or the end of `s`).
   */
  lemma SplitSecond(s: string, sep: string, i: nat, j: nat)
    requires sep != [] && OccursAt(s, sep, i) && NextAt(s, sep, 0, i)
    requires NextAt(s, sep, i + |sep|, j)
    ensures |Split(s, sep)| >= 2 && Split(s, sep)[1] == s[i + |sep|..j]
  {
    IndexOfFirst(s, sep, i);
    SplitSecondOf(s, sep, i, j);
  }

  /** With `IndexOf` at `i`, the second piece runs from after the separator to the next occurrence at `j`. */
  lemma SplitSecondOf(s: string, sep: string, i: nat, j: nat)
    requires sep != [] && IndexOf(s, sep) == Some(i)
    requires NextAt(s, sep, i + |sep|, j)
    ensures |Split(s, sep)| >= 2 && Split(s, sep)[1] == s[i + |sep|..j]
  {
    SplitFirstOfSuffix(s, sep, i + |sep|, j);
    SecondIsFirstOfRest(s, sep, i);
  }

  /** The second piece of a split is the first piece of the split of the text after the first separator. */
  lemma SecondIsFirstOfRest(s: string, sep: string, i: nat)
    requires sep != [] && IndexOf(s, sep) == Some(i)
    ensures |Split(s, sep)| >= 2 && Split(s, sep)[1] == Split(s[i + |sep|..], sep)[0]
  {
    SplitAt(s, sep, i);
    SecondOfCons(s[..i], Split(s[i + |sep|..], sep));
  }

  /** The second element of `[a] + t` is the first of `t`. */
  lemma SecondOfCons(a: string, t: seq<string>)
    requires |t| >= 1
    ensures |[a] + t| >= 2 && ([a] + t)[1] == t[0]
  {
  }

  /** The first piece of the split of `s[d..]` ends at the next occurrence at or after `d`. */
  lemma SplitFirstOfSuffix(s: string, sep: string, d: nat, j: nat)
    requires sep != [] && NextAt(s, sep, d, j)
    ensures Split(s[d..], sep)[0] == s[d..j]
  {
    NextInSuffix(s, sep, d, j);
    SplitFirst(s[d..], sep, j - d);
    SliceOfSuffix(s, d, j);
  }

  /** A prefix of a suffix is a slice. */
  lemma SliceOfSuffix(s: string, d: nat, j: nat)
    requires d <= j <= |s|
    ensures s[d..][..j - d] == s[d..j]
  {
  }

  /** Once the first occurrence is at `i`, the split is the text before it followed by the split of the text after it. */
  lemma SplitAt(s: string, sep: string, i: nat)
    requires sep != [] && IndexOf(s, sep) == Some(i)
    ensures Split(s, sep) == [s[..i]] + Split(s[i + |sep|..], sep)
  {
  }

  /** The next occurrence at or after `d` in `s` is, in `s[d..]`, the first one, shifted by `d`. */
  lemma NextInSuffix(s: string, sub: string, d: nat, j: nat)
    requires NextAt(s, sub, d, j)
    ensures NextAt(s[d..], sub, 0, j - d)
  {
    NoneInSuffix(s, sub, d, j);
    if j < |s| {
      OccursAtDrop(s, sub, d, j - d);
    }
  }

  /** No occurrence in `s` between `d` and `j` means none in `s[d..]` before `j - d`. */
  lemma NoneInSuffix(s: string, sub: string, d: nat, j: nat)
    requires d <= j <= |s|
    requires forall k: nat :: d <= k < j ==> !OccursAt(s, sub, k)
    ensures forall k: nat :: k < j - d ==> !OccursAt(s[d..], sub, k)
  {
    forall k: nat | k < j - d ensures !OccursAt(s[d..], sub, k) {
      OccursAtDrop(s, sub, d, k);
    }
  }

  /** Python's `s.lstrip(chars)`, with the characters to drop given as a predicate. */
  function LStrip(s: string, drop: char -> bool): (r: string)
    ensures |r| <= |s| && r == s[|s| - |r|..]
    ensures forall k :: 0 <= k < |s| - |r| ==> drop(s[k])
    ensures r != [] ==> !drop(r[0])
    decreases |s|
  {
    if |s| > 0 && drop(s[0]) then LStrip(s[1..], drop) else s
  }

  /** Python's `s.rstrip(chars)`, with the characters to drop given as a predicate. */
  function RStrip(s: string, drop: char -> bool): (r: string)
    ensures |r| <= |s| && r == s[..|r|]
    ensures forall k :: |r| <= k < |s| ==> drop(s[k])
    ensures r != [] ==> !drop(r[|r| - 1])
    decreases |s|
  {
    if |s| > 0 && drop(s[|s| - 1]) then RStrip(s[..|s| - 1], drop) else s
  }

  /** Stripping both ends leaves a piece of `s` at offset `k` with only dropped characters around it. */
  predicate StrippedAt(s: string, r: string, drop: char -> bool, k: nat) {
    && OccursAt(s, r, k)
    && (forall i :: 0 <= i < k ==> drop(s[i]))
    && (forall i :: k + |r| <= i < |s| ==> drop(s[i]))
  }

  /** A prefix of the suffix `s[k..]` occurs in `s` at `k`. */
  lemma PrefixOfSuffixOccurs(s: string, k: nat, r: string)
    requires k <= |s| && |r| <= |s| - k && r == s[k..][..|r|]
    ensures OccursAt(s, r, k)
  {
    assert s[k..k + |r|] == s[k..][..|r|];
  }

  lemma StripBothEnds(s: string, drop: char -> bool)
    ensures StrippedAt(s, RStrip(LStrip(s, drop), drop), drop, |s| - |LStrip(s, drop)|)
  {
    var t := LStrip(s, drop);
    var r := RStrip(t, drop);
    var k := |s| - |t|;
    PrefixOfSuffixOccurs(s, k, r);
    DroppedAfter(s, k, |r|, drop);
  }

  /** What `rstrip` dropped from the suffix `s[k..]` is dropped from `s` after `k + n`. */
  lemma DroppedAfter(s: string, k: nat, n: nat, drop: char -> bool)
    requires k + n <= |s|
    requires forall i :: n <= i < |s[k..]| ==> drop(s[k..][i])
    ensures forall i :: k + n <= i < |s| ==> drop(s[i])
  {
    forall i | k + n <= i < |s| ensures drop(s[i]) {
      assert s[i] == s[k..][i - k];
    }
  }

  /**
   * Python's `s.strip(chars)`: the result is a contiguous piece of `s`, everything
   * around it is dropped, and it neither starts nor ends with a dropped character.
   */
  function StripWith(s: string, drop: char -> bool): (r: string)
    ensures exists k: nat :: StrippedAt(s, r, drop, k)
    ensures r != [] ==> !drop(r[0]) && !drop(r[|r| - 1])
  {
    StripBothEnds(s, drop);
    RStrip(LStrip(s, drop), drop)
  }

  /** Python's `s.strip()`. */
  function Strip(s: string): string {
    StripWith(s, IsSpace)
  }

  /** A whitespace-delimited word as produced by Python's `s.split()`. */
  predicate IsWord(w: string) {
    w != [] && forall k :: 0 <= k < |w| ==> !IsSpace(w[k])
  }

  /** The longest prefix of `s` holding no whitespace. */
  function WordPrefix(s: string): (w: string)
    ensures |w| <= |s| && w == s[..|w|]
    ensures forall k :: 0 <= k < |w| ==> !IsSpace(w[k])
    ensures |w| < |s| ==> IsSpace(s[|w|])
    decreases |s|
  {
    if |s| > 0 && !IsSpace(s[0]) then [s[0]] + WordPrefix(s[1..]) else []
  }

  /** Python's `s.split()` with no argument: the maximal runs of non-whitespace characters. */
  function Words(s: string): (ws: seq<string>)
    ensures forall k :: 0 <= k < |ws| ==> IsWord(ws[k])
    decreases |s|
  {
    var t := LStrip(s, IsSpace);
    if t == [] then []
    else
      var w := WordPrefix(t);
      assert |w| > 0;
      [w] + Words(t[|w|..])
  }

  /** A word followed by whitespace (or nothing) is its own longest whitespace-free prefix. */
  lemma {:induction false} WordPrefixOfWord(w: string, rest: string)
    requires forall k :: 0 <= k < |w| ==> !IsSpace(w[k])
    requires rest == [] || IsSpace(rest[0])
    ensures WordPrefix(w + rest) == w
    decreases |w|
  {
    if w != [] {
      assert (w + rest)[1..] == w[1..] + rest;
      WordPrefixOfWord(w[1..], rest);
    }
  }

  /** Leading whitespace does not change the words of a string. */
  lemma WordsAfterSpace(s: string)
    ensures Words(" " + s) == Words(s)
  {
    assert (" " + s)[1..] == s;
    assert LStrip(" " + s, IsSpace) == LStrip(s, IsSpace);
  }

  /** A word followed by whitespace (or nothing) is the first word, and the rest supplies the others. */
  lemma WordsOfWordThen(w: string, rest: string)
    requires IsWord(w)
    requires rest == [] || IsSpace(rest[0])
    ensures Words(w + rest) == [w] + Words(rest)
  {
    var s := w + rest;
    assert LStrip(s, IsSpace) == s;
    WordPrefixOfWord(w, rest);
    assert s[|w|..] == rest;
  }

  /** A lone word splits into itself. */
  lemma WordsOfWord(w: string)
    requires IsWord(w)
    ensures Words(w) == [w]
  {
    assert LStrip(w, IsSpace) == w;
    WordPrefixOfWord(w, []);
    assert w + [] == w;
    assert w[|w|..] == [];
    assert LStrip([], IsSpace) == [];
  }

  /** A word, a space and more text: the word comes first, and the text supplies the others. */
  lemma WordsOfWordThenSpace(w: string, more: string)
    requires IsWord(w)
    ensures Words(w + (" " + more)) == [w] + Words(more)
  {
    WordsOfWordThen(w, " " + more);
    WordsAfterSpace(more);
  }

  /**
   * Splitting on whitespace undoes joining with one space: `' '.join(ws).split() == ws`
   * whenever every element of `ws` is a word.
   */
  lemma {:induction false} WordsOfJoin(ws: seq<string>)
    requires forall k :: 0 <= k < |ws| ==> IsWord(ws[k])
    ensures Words(JoinWith(ws, " ")) == ws
    decreases |ws|
  {
    if |ws| == 0 {
      assert Words("") == [] by {
        assert LStrip("", IsSpace) == "";
      }
    } else if |ws| == 1 {
      WordsOfWord(ws[0]);
    } else {
      var tail := ws[1..];
      var joined := JoinWith(tail, " ");
      assert JoinWith(ws, " ") == ws[0] + (" " + joined) by {
        assert JoinWith(ws, " ") == ws[0] + " " + joined;
      }
      WordsOfWordThenSpace(ws[0], joined);
      WordsOfJoin(tail);
      assert [ws[0]] + tail == ws;
    }
  }

  /** Every character of `g` is whitespace. */
  predicate AllSpace(g: string) {
    forall k :: 0 <= k < |g| ==> IsSpace(g[k])
  }

  /** `gaps[0] + ws[0] + gaps[1] + ... + ws[n - 1] + gaps[n]`. */
  function Interleave(gaps: seq<string>, ws: seq<string>): string
    requires |gaps| == |ws| + 1
    decreases |ws|
  {
    if ws == [] then gaps[0] else gaps[0] + ws[0] + Interleave(gaps[1..], ws[1..])
  }

  /** The runs of whitespace around and between the words of `s`; the first and last may be empty. */
  function Gaps(s: string): seq<string>
    decreases |s|
  {
    var t := LStrip(s, IsSpace);
    var lead := s[..|s| - |t|];
    if t == [] then [lead]
    else
      var w := WordPrefix(t);
      assert |w| > 0;
      [lead] + Gaps(t[|w|..])
  }

  /**
   * `s.split()` gives all the maximal whitespace-free runs of `s`, in order:
   * `s` is its words interleaved with runs of whitespace, and every run between
   * two words is non-empty.
   */
  lemma {:induction false} WordsLayout(s: string)
    ensures |Gaps(s)| == |Words(s)| + 1
    ensures forall k :: 0 <= k < |Gaps(s)| ==> AllSpace(Gaps(s)[k])
    ensures forall k :: 0 < k < |Words(s)| ==> Gaps(s)[k] != []
    ensures Interleave(Gaps(s), Words(s)) == s
    decreases |s|
  {
    var t := LStrip(s, IsSpace);
    LeadIsSpace(s);
    if t == [] {
      NoWords(s);
    } else {
      var rest := t[|WordPrefix(t)|..];
      WordsLayout(rest);
      WordsStep(s);
      RestStartsWithSpace(t);
      FirstGapOfRest(rest);
      WordsLayoutStep(s[..|s| - |t|], WordPrefix(t), Gaps(rest), Words(rest), rest);
      LeadWordRest(s);
    }
  }

  /** A string of whitespace only has no words and is its own single gap. */
  lemma NoWords(s: string)
    requires LStrip(s, IsSpace) == []
    ensures Words(s) == [] && Gaps(s) == [s]
  {
    assert s[..|s|] == s;
  }

  /** The whitespace that `lstrip` drops is all whitespace. */
  lemma LeadIsSpace(s: string)
    ensures AllSpace(s[..|s| - |LStrip(s, IsSpace)|])
  {
  }

  /** After the first word of a string, whatever is left starts with whitespace. */
  lemma RestStartsWithSpace(t: string)
    ensures var rest := t[|WordPrefix(t)|..]; rest == [] || IsSpace(rest[0])
  {
  }

  /** When the text after a word has words, the gap before its first word is not empty. */
  lemma FirstGapOfRest(r: string)
    requires r == [] || IsSpace(r[0])
    ensures Words(r) != [] ==> Gaps(r)[0] != []
  {
    if r == [] {
      assert LStrip(r, IsSpace) == [];
    }
  }

  /** Unfolding `Words` and `Gaps` once on a string that holds a word. */
  lemma WordsStep(s: string)
    requires LStrip(s, IsSpace) != []
    ensures var t := LStrip(s, IsSpace);
      var rest := t[|WordPrefix(t)|..];
      && Words(s) == [WordPrefix(t)] + Words(rest)
      && Gaps(s) == [s[..|s| - |t|]] + Gaps(rest)
  {
  }

  /** The leading whitespace, the first word and the rest make up the string. */
  lemma LeadWordRest(s: string)
    requires LStrip(s, IsSpace) != []
    ensures var t := LStrip(s, IsSpace);
      s == s[..|s| - |t|] + WordPrefix(t) + t[|WordPrefix(t)|..]
  {
    var t := LStrip(s, IsSpace);
    SliceTwice(s, |s| - |t|, |WordPrefix(t)|);
  }

  /** Cutting at `n` and then `m` further on gives three slices that make up `s`. */
  lemma SliceTwice(s: string, n: nat, m: nat)
    requires n + m <= |s|
    ensures s == s[..n] + s[n..][..m] + s[n..][m..]
  {
    assert s[n..] == s[n..][..m] + s[n..][m..];
  }

  /** One step of `WordsLayout`: a leading run and a word in front of a layout of `rest`. */
  lemma WordsLayoutStep(lead: string, w: string, g: seq<string>, ws: seq<string>, rest: string)
    requires AllSpace(lead)
    requires |g| == |ws| + 1
    requires forall k :: 0 <= k < |g| ==> AllSpace(g[k])
    requires forall k :: 0 < k < |ws| ==> g[k] != []
    requires ws != [] ==> g[0] != []
    requires Interleave(g, ws) == rest
    ensures |[lead] + g| == |[w] + ws| + 1
    ensures forall k :: 0 <= k < |[lead] + g| ==> AllSpace(([lead] + g)[k])
    ensures forall k :: 0 < k < |[w] + ws| ==> ([lead] + g)[k] != []
    ensures Interleave([lead] + g, [w] + ws) == lead + w + rest
  {
    assert ([lead] + g)[1..] == g;
    assert ([w] + ws)[1..] == ws;
  }
}
