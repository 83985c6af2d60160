/** The heuristic originality scorer of the TypeScript backend
    (backend/src/services/plagiarismService.ts): three suspicious-phrase
    patterns, a short-content rule and a repeated-word rule, summed into a
    score. It does not consult the corpus. */
module Heuristic {
  import opened Records
  import opened Text

  /** A case-insensitive pattern `/(?:a|b|...)/i`, given by its alternatives
      (all lower-case). */
  type Pattern = seq<string>

  const Patterns: seq<Pattern> := [
    ["this is a test", "sample text", "lorem ipsum"],
    ["copy", "paste", "stolen", "plagiarized"],
    ["i did not write this", "not my work"]]

  const PatternPoints: nat := 25
  const ShortLength: nat := 100
  const ShortPoints: nat := 20
  /** Only words longer than this are counted. */
  const MinWordLength: nat := 3
  /** A word counted more often than this is repeated. */
  const RepeatLimit: nat := 3
  const PointsPerRepeat: nat := 5
  const MaxRepeatPoints: nat := 30
  /** A score above this flags the content. */
  const FlagAbove: nat := 50
  const NoPlagiarism := "No plagiarism detected"
  const PatternNote := "Suspicious pattern detected: "
  const ShortNote := "Content too short to be original work\n"
  const RepeatNoteHead := "Repeated words detected: "

  function Min(a: int, b: int): int {
    if a < b then a else b
  }

  /** `pattern.source`. */
  function Source(p: Pattern): string {
    "(?:" + Join(p, '|') + ")"
  }

  /** `pattern.test(content)`: some alternative occurs in the content,
      ignoring ASCII case. */
  function Fires(p: Pattern, content: string): bool {
    if |p| == 0 then false
    else Contains(LowerAll(content), p[|p| - 1]) || Fires(p[..|p| - 1], content)
  }

  lemma {:induction false} FiresSpec(p: Pattern, content: string)
    ensures Fires(p, content) <==> exists k :: 0 <= k < |p| && Contains(LowerAll(content), p[k])
  {
    if |p| > 0 {
      var init := p[..|p| - 1];
      FiresSpec(init, content);
      assert forall k :: 0 <= k < |init| ==> init[k] == p[k];
    }
  }

  /** How many of the patterns fire. */
  function FiredCount(ps: seq<Pattern>, content: string): (n: nat)
    ensures n <= |ps|
  {
    if |ps| == 0 then 0
    else FiredCount(ps[..|ps| - 1], content) + (if Fires(ps[|ps| - 1], content) then 1 else 0)
  }

  /** No pattern fires exactly when the count is zero. */
  lemma {:induction false} FiredCountZero(ps: seq<Pattern>, content: string)
    ensures FiredCount(ps, content) == 0 <==> forall k :: 0 <= k < |ps| ==> !Fires(ps[k], content)
  {
    if |ps| > 0 {
      var init := ps[..|ps| - 1];
      FiredCountZero(init, content);
      assert forall k :: 0 <= k < |init| ==> init[k] == ps[k];
    }
  }

  /** One line per firing pattern, in pattern order. */
  function PatternDetails(ps: seq<Pattern>, content: string): string {
    if |ps| == 0 then ""
    else PatternDetails(ps[..|ps| - 1], content)
         + (if Fires(ps[|ps| - 1], content) then PatternNote + Source(ps[|ps| - 1]) + "\n" else "")
  }

  /** The pattern lines are present exactly when a pattern fires, and start
      with the pattern note. */
  lemma {:induction false} PatternDetailsHead(ps: seq<Pattern>, content: string)
    ensures PatternDetails(ps, content) == "" <==> FiredCount(ps, content) == 0
    ensures PatternDetails(ps, content) != "" ==> PatternDetails(ps, content)[0] == 'S'
  {
    if |ps| > 0 {
      PatternDetailsHead(ps[..|ps| - 1], content);
    }
  }

  /** `content.toLowerCase().replace(/\s+/g, ' ').trim()` */
  function NormalizedContent(content: string): string {
    Trim(CollapseSpaces(LowerAll(content)))
  }

  /** `normalizedContent.split(' ')` */
  function Words(content: string): seq<string> {
    Split(NormalizedContent(content), ' ')
  }

  predicate Counted(w: string) {
    |w| > MinWordLength
  }

  /** The keys of the word-count dictionary in insertion order: each counted
      word once, at its first occurrence. */
  function KeyOrder(words: seq<string>): (r: seq<string>)
    ensures forall w :: w in r <==> w in words && Counted(w)
    ensures forall i, j :: 0 <= i < j < |r| ==> r[i] != r[j]
  {
    if |words| == 0 then []
    else
      var init := KeyOrder(words[..|words| - 1]);
      var last := words[|words| - 1];
      assert words == words[..|words| - 1] + [last];
      if Counted(last) && last !in init then init + [last] else init
  }

  /** An entry `[word, count]` of the dictionary. */
  datatype WordCount = WordCount(word: string, count: nat)

  /** The entries for `keys` whose count in `words` exceeds the limit, in
      key order. */
  function RepeatedAmong(keys: seq<string>, words: seq<string>): seq<WordCount> {
    if |keys| == 0 then []
    else
      var init := RepeatedAmong(keys[..|keys| - 1], words);
      var k := keys[|keys| - 1];
      if multiset(words)[k] > RepeatLimit then init + [WordCount(k, multiset(words)[k])] else init
  }

  /** `Object.entries(wordCounts).filter(([_, count]) => count > 3)` */
  function Repeated(words: seq<string>): seq<WordCount> {
    RepeatedAmong(KeyOrder(words), words)
  }

  lemma {:induction false} RepeatedAmongSpec(keys: seq<string>, words: seq<string>)
    ensures forall e :: e in RepeatedAmong(keys, words) <==>
              e.word in keys && e.count == multiset(words)[e.word] && e.count > RepeatLimit
    ensures (forall i, j :: 0 <= i < j < |keys| ==> keys[i] != keys[j]) ==>
              forall i, j :: 0 <= i < j < |RepeatedAmong(keys, words)| ==>
                RepeatedAmong(keys, words)[i].word != RepeatedAmong(keys, words)[j].word
  {
    if |keys| > 0 {
      var init := keys[..|keys| - 1];
      RepeatedAmongSpec(init, words);
      assert keys == init + [keys[|keys| - 1]];
    }
  }

  /** A word is reported as repeated exactly when it is longer than three
      characters and occurs more than three times, with its true count; each
      such word is reported once. */
  lemma RepeatedSpec(words: seq<string>)
    ensures forall e :: e in Repeated(words) <==>
              Counted(e.word) && e.count == multiset(words)[e.word] && e.count > RepeatLimit
    ensures forall i, j :: 0 <= i < j < |Repeated(words)| ==> Repeated(words)[i].word != Repeated(words)[j].word
  {
    RepeatedAmongSpec(KeyOrder(words), words);
  }

  /** `${word}(${count})` */
  function Entry(e: WordCount): string {
    e.word + "(" + NatToString(e.count) + ")"
  }

  /** The entries joined by ", ". */
  function EntryList(es: seq<WordCount>): string {
    if |es| == 0 then ""
    else if |es| == 1 then Entry(es[0])
    else Entry(es[0]) + ", " + EntryList(es[1..])
  }

  function RepeatNote(es: seq<WordCount>): string {
    RepeatNoteHead + EntryList(es) + "\n"
  }

  /** The points before capping: 25 per firing pattern, 20 for short
      content, 5 per repeated word up to 30. */
  function RawScore(patterns: seq<Pattern>, content: string, rep: seq<WordCount>): nat {
    PatternPoints * FiredCount(patterns, content)
    + (if |content| < ShortLength then ShortPoints else 0)
    + (if |rep| > 0 then Min(PointsPerRepeat * |rep|, MaxRepeatPoints) else 0)
  }

  /** The details text before the empty-text replacement and the trim. */
  function RawDetails(patterns: seq<Pattern>, content: string, rep: seq<WordCount>): string {
    PatternDetails(patterns, content) + ShortPart(content) + RepeatPart(rep)
  }

  /** The short-content line, when the content is under 100 characters. */
  function ShortPart(content: string): string {
    if |content| < ShortLength then ShortNote else ""
  }

  /** The repeated-words line, when some word is repeated. */
  function RepeatPart(rep: seq<WordCount>): string {
    if |rep| > 0 then RepeatNote(rep) else ""
  }

  /** The returned object for a raw score and details text: flagged above
      50, the score capped at 100, an empty text replaced, then trimmed. */
  function Outcome(raw: nat, d: string): PlagiarismResult {
    PlagiarismResult(raw > FlagAbove, Min(raw, 100), Trim(if d == "" then NoPlagiarism else d), None)
  }

  /** The result, given the list of repeated-word entries. */
  function Assemble(patterns: seq<Pattern>, content: string, rep: seq<WordCount>): PlagiarismResult {
    Outcome(RawScore(patterns, content, rep), RawDetails(patterns, content, rep))
  }

  /** What `checkPlagiarism(content)` returns, with the dictionary behaving
      as a true map from words to counts. */
  function HeuristicSpec(content: string): PlagiarismResult {
    Assemble(Patterns, content, Repeated(Words(content)))
  }

  /** The score of the assembled result lies in [0, 100]; content is
      flagged exactly when the score exceeds 50; without a firing pattern
      it is never flagged (20 + 30 is not above 50). */
  lemma AssembleScore(patterns: seq<Pattern>, content: string, rep: seq<WordCount>)
    ensures var r := Assemble(patterns, content, rep);
      && 0 <= r.score <= 100
      && (r.isPlagiarized <==> r.score > FlagAbove)
      && (FiredCount(patterns, content) == 0 ==> !r.isPlagiarized)
      && r.matches.None?
  {
  }

  /** The details say "No plagiarism detected" exactly when no rule fired. */
  lemma AssembleDetails(patterns: seq<Pattern>, content: string, rep: seq<WordCount>)
    ensures Assemble(patterns, content, rep).details == NoPlagiarism <==>
              FiredCount(patterns, content) == 0 && |content| >= ShortLength && |rep| == 0
  {
    var d := RawDetails(patterns, content, rep);
    RawDetailsEmpty(patterns, content, rep);
    if d != "" {
      DetailsHead(patterns, content, rep);
    }
    OutcomeDetails(RawScore(patterns, content, rep), d);
  }

  /** Details that are empty or start with a note's capital letter give the
      replacement text exactly when they are empty. */
  lemma OutcomeDetails(raw: nat, d: string)
    requires d == "" || d[0] == 'S' || d[0] == 'C' || d[0] == 'R'
    ensures Outcome(raw, d).details == NoPlagiarism <==> d == ""
  {
    if d == "" {
      TrimmedFixed(NoPlagiarism);
    } else {
      TrimKeepsHead(d);
      assert Trim(d)[0] != NoPlagiarism[0];
    }
  }

  /** The details text is empty exactly when no rule fired. */
  lemma RawDetailsEmpty(patterns: seq<Pattern>, content: string, rep: seq<WordCount>)
    ensures RawDetails(patterns, content, rep) == "" <==>
              FiredCount(patterns, content) == 0 && |content| >= ShortLength && |rep| == 0
  {
    PatternDetailsHead(patterns, content);
    assert |ShortNote| > 0;
    assert |rep| > 0 ==> |RepeatNote(rep)| > 0;
  }

  /** Non-empty details start with the first note's capital letter. */
  lemma DetailsHead(patterns: seq<Pattern>, content: string, rep: seq<WordCount>)
    requires RawDetails(patterns, content, rep) != ""
    ensures var d := RawDetails(patterns, content, rep); d[0] == 'S' || d[0] == 'C' || d[0] == 'R'
  {
    var p := PatternDetails(patterns, content);
    var sn := ShortPart(content);
    var rn := RepeatPart(rep);
    var d := p + sn + rn;
    assert RawDetails(patterns, content, rep) == d;
    PatternDetailsHead(patterns, content);
    if p != "" {
      assert d[0] == p[0];
    } else if sn != "" {
      assert d[0] == sn[0] == 'C';
    } else {
      assert d == rn;
      assert rn[0] == 'R';
    }
  }

  /** The pattern loop: 25 points and one line per firing pattern. */
  method ScanPatterns(patterns: seq<Pattern>, content: string) returns (score: nat, details: string)
    ensures score == PatternPoints * FiredCount(patterns, content)
    ensures details == PatternDetails(patterns, content)
  {
    score := 0;
    details := "";
    for i := 0 to |patterns|
      invariant score == PatternPoints * FiredCount(patterns[..i], content)
      invariant details == PatternDetails(patterns[..i], content)
    {
      assert patterns[..i + 1][..i] == patterns[..i] && patterns[..i + 1][i] == patterns[i];
      if Fires(patterns[i], content) {
        score := score + PatternPoints;
        details := details + PatternNote + Source(patterns[i]) + "\n";
      }
    }
    assert patterns[..|patterns|] == patterns;
  }

  /** The `forEach` over the words: counts every word longer than three
      characters, recording keys in insertion order. */
  method CountWords(words: seq<string>) returns (counts: map<string, nat>, order: seq<string>)
    ensures order == KeyOrder(words)
    ensures forall w :: w in counts <==> w in order
    ensures forall w :: w in counts ==> counts[w] == multiset(words)[w]
  {
    counts := map[];
    order := [];
    for i := 0 to |words|
      invariant order == KeyOrder(words[..i])
      invariant forall w :: w in counts <==> w in order
      invariant forall w :: w in counts ==> counts[w] == multiset(words[..i])[w]
    {
      var word := words[i];
      assert words[..i + 1] == words[..i] + [word];
      if |word| > MinWordLength {
        if word in counts {
          counts := counts[word := counts[word] + 1];
        } else {
          counts := counts[word := 1];
          order := order + [word];
        }
      }
    }
    assert words[..|words|] == words;
  }

  /** The word-counting step and the entries whose count exceeds three. */
  method RepeatedWords(words: seq<string>) returns (repeated: seq<WordCount>)
    ensures repeated == Repeated(words)
  {
    var counts, order := CountWords(words);
    repeated := RepeatedEntries(counts, order, words);
  }

  /** The entries whose count exceeds three, in key order. */
  method RepeatedEntries(counts: map<string, nat>, order: seq<string>, ghost words: seq<string>)
    returns (repeated: seq<WordCount>)
    requires forall w :: w in order ==> w in counts && counts[w] == multiset(words)[w]
    ensures repeated == RepeatedAmong(order, words)
  {
    repeated := [];
    for j := 0 to |order|
      invariant repeated == RepeatedAmong(order[..j], words)
    {
      assert order[..j + 1][..j] == order[..j];
      var count := counts[order[j]];
      if count > RepeatLimit {
        repeated := repeated + [WordCount(order[j], count)];
      }
    }
    assert order[..|order|] == order;
  }

  /** The body of `checkPlagiarism(content)` for a list of patterns, with
      `wordCounts` a true dictionary. */
  method ScoreContent(patterns: seq<Pattern>, content: string) returns (r: PlagiarismResult)
    ensures r == Assemble(patterns, content, Repeated(Words(content)))
  {
    var repeated := RepeatedInContent(content);
    r := ScoreWith(patterns, content, repeated);
  }

  /** The three rules and the final assembly, given the repeated-word
      entries of the content. */
  method ScoreWith(patterns: seq<Pattern>, content: string, repeated: seq<WordCount>)
    returns (r: PlagiarismResult)
    ensures r == Assemble(patterns, content, repeated)
  {
    var patternScore, patternNotes := ScanPatterns(patterns, content);
    var shortScore, shortNote := 0, "";
    if |content| < ShortLength {
      shortScore, shortNote := ShortPoints, ShortNote;
    }
    var repeatScore, repeatNote := 0, "";
    if |repeated| > 0 {
      repeatScore, repeatNote := Min(PointsPerRepeat * |repeated|, MaxRepeatPoints), RepeatNote(repeated);
    }
    assert shortNote == ShortPart(content) && repeatNote == RepeatPart(repeated);
    assert patternScore + shortScore + repeatScore == RawScore(patterns, content, repeated);
    r := Conclude(patternScore + shortScore + repeatScore, patternNotes + shortNote + repeatNote);
  }

  /** The words of the normalised content, counted, and the entries whose
      count exceeds three. */
  method RepeatedInContent(content: string) returns (repeated: seq<WordCount>)
    ensures repeated == Repeated(Words(content))
  {
    var normalized := NormalizedContent(content);
    var words := Split(normalized, ' ');
    repeated := RepeatedWords(words);
  }

  /** The flag, the cap, the empty-text replacement and the final `trim`. */
  method Conclude(score: nat, details: string) returns (r: PlagiarismResult)
    ensures r == Outcome(score, details)
  {
    var isPlagiarized := score > FlagAbove;
    var d := details;
    if d == "" {
      d := NoPlagiarism;
    }
    r := PlagiarismResult(isPlagiarized, Min(score, 100), Trim(d), None);
  }

  /** `checkPlagiarism(content)`: score in [0, 100], flagged exactly above
      50, never flagged without a suspicious phrase. */
  method CheckPlagiarismHeuristic(content: string) returns (r: PlagiarismResult)
    ensures r == HeuristicSpec(content)
    ensures 0 <= r.score <= 100 && (r.isPlagiarized <==> r.score > FlagAbove)
  {
    r := ScoreContent(Patterns, content);
    AssembleScore(Patterns, content, Repeated(Words(content)));
  }

  // ---------------------------------------------------------------------
  // The dictionary as written: a plain object with a prototype
  // ---------------------------------------------------------------------

  /** Keys that a plain object inherits under an all-lower-case name:
      `constructor` starts from a function, so its "count" becomes a string
      and `count > 3` is false; assigning a string to `__proto__` is ignored,
      so it never becomes an entry. */
  predicate PrototypeKey(w: string) {
    w == "constructor" || w == "__proto__"
  }

  function WithoutPrototypeKeys(es: seq<WordCount>): (r: seq<WordCount>)
    ensures forall e :: e in r <==> e in es && !PrototypeKey(e.word)
  {
    if |es| == 0 then []
    else
      var rest := WithoutPrototypeKeys(es[1..]);
      assert forall e :: e in es <==> e == es[0] || e in es[1..];
      if PrototypeKey(es[0].word) then rest else [es[0]] + rest
  }

  /** The repeated-word entries the source as written reports. */
  function RepeatedAsWritten(words: seq<string>): seq<WordCount> {
    WithoutPrototypeKeys(Repeated(words))
  }

  /** What `checkPlagiarism(content)` returns as written. */
  function HeuristicAsWritten(content: string): (r: PlagiarismResult)
    ensures 0 <= r.score <= 100 && (r.isPlagiarized <==> r.score > FlagAbove)
    ensures FiredCount(Patterns, content) == 0 ==> !r.isPlagiarized
    ensures r.matches.None?
  {
    AssembleScore(Patterns, content, RepeatedAsWritten(Words(content)));
    Assemble(Patterns, content, RepeatedAsWritten(Words(content)))
  }

  /** "constructor" written four times is a repeated word, yet the source
      as written does not report it. */
  lemma ConstructorNotReported()
    ensures var ws := ["constructor", "constructor", "constructor", "constructor"];
      Repeated(ws) == [WordCount("constructor", 4)] && RepeatedAsWritten(ws) == []
  {
    var c := "constructor";
    assert Counted(c) && PrototypeKey(c);
    RepeatedFour(c);
    var es := [WordCount(c, 4)];
    assert es[1..] == [];
  }

  /** A counted word written four times is the one repeated word. */
  lemma RepeatedFour(c: string)
    requires Counted(c)
    ensures Repeated([c, c, c, c]) == [WordCount(c, 4)]
  {
    var ws := [c, c, c, c];
    KeyOrderFour(c);
    assert multiset(ws)[c] == 4;
    assert [c][..0] == [];
    assert RepeatedAmong([c], ws) == RepeatedAmong([], ws) + [WordCount(c, 4)];
  }

  lemma KeyOrderFour(c: string)
    requires Counted(c)
    ensures KeyOrder([c, c, c, c]) == [c]
  {
    assert [c, c, c, c][..3] == [c, c, c] && [c, c, c][..2] == [c, c] && [c, c][..1] == [c] && [c][..0] == [];
    assert KeyOrder([c]) == [c];
    assert KeyOrder([c, c]) == [c];
    assert KeyOrder([c, c, c]) == [c];
  }

  /** Apart from the two inherited names, the source as written reports
      exactly the words the map-based count does, so the scores differ only
      through those names. */
  lemma AsWrittenAgrees(content: string)
    requires forall e :: e in Repeated(Words(content)) ==> !PrototypeKey(e.word)
    ensures HeuristicAsWritten(content) == HeuristicSpec(content)
  {
    NoPrototypeKeysKept(Repeated(Words(content)));
  }

  lemma {:induction false} NoPrototypeKeysKept(es: seq<WordCount>)
    requires forall e :: e in es ==> !PrototypeKey(e.word)
    ensures WithoutPrototypeKeys(es) == es
  {
    if |es| > 0 {
      NoPrototypeKeysKept(es[1..]);
    }
  }
}
