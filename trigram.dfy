/** The trigram originality checker of the compiled backend
    (backend/dist/services/plagiarismService.js): text normalisation,
    3-word shingles, containment of the candidate's shingles in each work of
    another owner, the per-work match threshold, and the aggregate score. */
module Trigram {
  import opened Records
  import opened Text

  /** A work matches when its similarity exceeds 15/100. */
  const MatchPercent: nat := 15
  /** A submission is flagged when its score reaches 40. */
  const FlagScore: int := 40
  /** At most this many overlapping phrases are kept per match. */
  const MaxPhrases: nat := 20
  const NoPlagiarism := "No plagiarism detected"
  const SimilaritiesFound := "Potential similarities found"

  // ---------------------------------------------------------------------
  // Normalisation: lowercase, /[^a-z0-9\s]/ -> ' ', /\s+/ -> ' ', trim
  // ---------------------------------------------------------------------

  predicate IsWordChar(c: char) {
    'a' <= c <= 'z' || '0' <= c <= '9'
  }

  function ReplaceNonWord(s: string): (r: string)
    ensures |r| == |s|
    ensures forall i :: 0 <= i < |s| ==> r[i] == (if IsWordChar(s[i]) || IsSpace(s[i]) then s[i] else ' ')
  {
    seq(|s|, i requires 0 <= i < |s| => if IsWordChar(s[i]) || IsSpace(s[i]) then s[i] else ' ')
  }

  /** Text made of word characters and whitespace collapses to word
      characters and single spaces. */
  lemma {:induction false} CollapseShape(s: string)
    requires forall i :: 0 <= i < |s| ==> IsWordChar(s[i]) || IsSpace(s[i])
    ensures forall i :: 0 <= i < |CollapseSpaces(s)| ==> IsWordChar(CollapseSpaces(s)[i]) || CollapseSpaces(s)[i] == ' '
    ensures NoAdjacent(CollapseSpaces(s), ' ')
    decreases |s|
  {
    if |s| > 0 {
      var r := CollapseSpaces(s);
      if IsSpace(s[0]) {
        var t := TrimStart(s[1..]);
        assert forall i :: 0 <= i < |t| ==> t[i] == s[|s| - |t| + i];
        CollapseShape(t);
        assert r == [' '] + CollapseSpaces(t);
        ShapeCons(' ', CollapseSpaces(t));
      } else {
        CollapseShape(s[1..]);
        assert r == [s[0]] + CollapseSpaces(s[1..]);
        ShapeCons(s[0], CollapseSpaces(s[1..]));
      }
    }
  }

  /** A word character, or a space not followed by one, in front of
      collapsed text gives collapsed text. */
  lemma ShapeCons(x: char, u: string)
    requires IsWordChar(x) || x == ' '
    requires x == ' ' ==> u == [] || u[0] != ' '
    requires forall i :: 0 <= i < |u| ==> IsWordChar(u[i]) || u[i] == ' '
    requires NoAdjacent(u, ' ')
    ensures forall i :: 0 <= i < |[x] + u| ==> IsWordChar(([x] + u)[i]) || ([x] + u)[i] == ' '
    ensures NoAdjacent([x] + u, ' ')
  {
    var r := [x] + u;
    forall i, j | 0 <= i < |r| && 0 <= j < |r| && j == i + 1
      ensures !(r[i] == ' ' && r[j] == ' ')
    {
      if i > 0 {
        assert r[i] == u[i - 1] && r[j] == u[j - 1];
      }
    }
  }

  /** The normalisation of plagiarismService.js:9: lower-case, every
      non-word character to a space, whitespace runs to one space, trim. */
  function Normalize(text: string): (r: string)
    ensures |r| <= |text|
    ensures r == [] || (r[0] != ' ' && r[|r| - 1] != ' ')
  {
    Trim(CollapseSpaces(ReplaceNonWord(LowerAll(text))))
  }

  /** The shape of normalised text: lowercase letters, digits and single
      spaces, with no space at either end. */
  predicate Canonical(s: string) {
    (forall i :: 0 <= i < |s| ==> IsWordChar(s[i]) || s[i] == ' ')
    && (|s| > 0 ==> s[0] != ' ' && s[|s| - 1] != ' ')
    && NoAdjacent(s, ' ')
  }

  /** Word characters and single spaces only (ends not yet trimmed). */
  predicate Collapsed(s: string) {
    (forall i :: 0 <= i < |s| ==> IsWordChar(s[i]) || s[i] == ' ')
    && NoAdjacent(s, ' ')
  }

  lemma TrimCollapsed(c: string)
    requires Collapsed(c)
    ensures Canonical(Trim(c))
  {
    var r := Trim(c);
    TrimPiece(c);
    CollapsedPiece(c, r, |c| - |TrimStart(c)|);
    assert r != [] ==> !IsSpace(r[0]) && !IsSpace(r[|r| - 1]);
  }

  /** A contiguous piece of collapsed text is collapsed. */
  lemma CollapsedPiece(c: string, r: string, a: int)
    requires Collapsed(c) && OccursAt(c, r, a)
    ensures Collapsed(r)
  {
    forall i | 0 <= i < |r|
      ensures IsWordChar(r[i]) || r[i] == ' '
    {
      assert r[i] == c[a + i];
    }
    forall i, j | 0 <= i < |r| && 0 <= j < |r| && j == i + 1
      ensures !(r[i] == ' ' && r[j] == ' ')
    {
      assert r[i] == c[a + i] && r[j] == c[a + j];
    }
  }

  lemma NormalizeCanonical(text: string)
    ensures Canonical(Normalize(text))
  {
    var u := ReplaceNonWord(LowerAll(text));
    CollapseShape(u);
    TrimCollapsed(CollapseSpaces(u));
  }

  lemma {:induction false} CollapseFixed(s: string)
    requires forall i :: 0 <= i < |s| ==> IsWordChar(s[i]) || s[i] == ' '
    requires NoAdjacent(s, ' ')
    ensures CollapseSpaces(s) == s
  {
    if |s| > 0 {
      var t := s[1..];
      forall i | 0 <= i < |t|
        ensures IsWordChar(t[i]) || t[i] == ' '
      {
        assert t[i] == s[i + 1];
      }
      NoAdjacentTail(s, ' ');
      CollapseFixed(t);
      if s[0] == ' ' {
        if t != [] {
          assert t[0] == s[1] != ' ';
        }
        assert TrimStart(t) == t;
        assert CollapseSpaces(s) == [' '] + CollapseSpaces(t);
      } else {
        assert !IsSpace(s[0]);
        assert CollapseSpaces(s) == [s[0]] + CollapseSpaces(t);
      }
      assert s == [s[0]] + t;
    }
  }

  /** Normalised text is a fixed point of normalisation. */
  lemma CanonicalFixed(s: string)
    requires Canonical(s)
    ensures Normalize(s) == s
  {
    WordTextFixed(s);
    CollapseFixed(s);
    TrimmedFixed(s);
  }

  /** Lowercase letters, digits and spaces pass the first two steps of
      normalisation unchanged. */
  lemma WordTextFixed(s: string)
    requires forall i :: 0 <= i < |s| ==> IsWordChar(s[i]) || s[i] == ' '
    ensures LowerAll(s) == s && ReplaceNonWord(s) == s
  {
    assert LowerAll(s) == s;
    assert ReplaceNonWord(s) == s;
  }

  /** Normalising twice is normalising once. */
  lemma NormalizeIdempotent(text: string)
    ensures Canonical(Normalize(text))
    ensures Normalize(Normalize(text)) == Normalize(text)
  {
    NormalizeCanonical(text);
    CanonicalFixed(Normalize(text));
  }

  // ---------------------------------------------------------------------
  // Tokens and shingles
  // ---------------------------------------------------------------------

  /** `normalized.split(' ').filter(Boolean)` */
  function Tokens(normalized: string): seq<string> {
    NonEmpty(Split(normalized, ' '))
  }

  /** The n-word windows of `arr`, each joined by one space, in order. */
  function Ngrams(arr: seq<string>, n: nat): seq<string> {
    seq(if |arr| >= n then |arr| - n + 1 else 0, i requires 0 <= i <= |arr| - n => Join(arr[i..i + n], ' '))
  }

  /** `makeNgrams`: pushes one joined window per start index. */
  method MakeNgrams(arr: seq<string>, n: nat) returns (out: seq<string>)
    ensures |out| == if |arr| >= n then |arr| - n + 1 else 0
    ensures forall i :: 0 <= i < |out| ==> out[i] == Join(arr[i..i + n], ' ')
    ensures out == Ngrams(arr, n)
  {
    out := [];
    var i := 0;
    while i <= |arr| - n
      invariant 0 <= i <= (if |arr| >= n then |arr| - n + 1 else 0)
      invariant |out| == i
      invariant forall k :: 0 <= k < i ==> out[k] == Join(arr[k..k + n], ' ')
    {
      out := out + [Join(arr[i..i + n], ' ')];
      i := i + 1;
    }
  }

  predicate Distinct(s: seq<string>) {
    forall i, j :: 0 <= i < j < |s| ==> s[i] != s[j]
  }

  /** `new Set(items)` in its iteration order: first occurrences only. */
  function Dedup(items: seq<string>): (r: seq<string>)
    ensures Distinct(r)
    ensures forall x :: x in r <==> x in items
    ensures |r| <= |items|
  {
    if |items| == 0 then []
    else
      var d := Dedup(items[..|items| - 1]);
      var last := items[|items| - 1];
      assert items == items[..|items| - 1] + [last];
      if last in d then d else d + [last]
  }

  lemma {:induction false} DistinctCard(s: seq<string>)
    requires Distinct(s)
    ensures |set x | x in s| == |s|
  {
    if |s| > 0 {
      var init := s[..|s| - 1];
      DistinctCard(init);
      assert (set x | x in s) == (set x | x in init) + {s[|s| - 1]};
      assert s[|s| - 1] !in init;
    }
  }

  /** The candidate's shingle set, in insertion order. */
  function Trigrams(text: string): seq<string> {
    Dedup(Ngrams(Tokens(Normalize(text)), 3))
  }

  /** The shingle set of text that is already normalised. */
  function ShingleSet(normalized: string): set<string> {
    set t | t in Ngrams(Tokens(normalized), 3)
  }

  /** Another work's shingle set, used for membership only. */
  function TrigramSet(text: string): set<string> {
    ShingleSet(Normalize(text))
  }

  lemma DedupCard(items: seq<string>)
    ensures |Dedup(items)| == |set x | x in items|
  {
    var d := Dedup(items);
    DistinctCard(d);
    assert (set x | x in d) == (set x | x in items);
  }

  lemma TrigramsAreTrigramSet(text: string)
    ensures forall t :: t in Trigrams(text) <==> t in TrigramSet(text)
    ensures |Trigrams(text)| == |TrigramSet(text)|
  {
    DedupCard(Ngrams(Tokens(Normalize(text)), 3));
  }

  /** Text of fewer than three tokens has no shingles. */
  lemma FewTokensNoTrigrams(text: string)
    requires |Tokens(Normalize(text))| < 3
    ensures Trigrams(text) == [] && TrigramSet(text) == {}
  {
  }

  // ---------------------------------------------------------------------
  // Overlap with one other work
  // ---------------------------------------------------------------------

  /** The candidate shingles (in order) that the other work also has. */
  function Shared(tris: seq<string>, other: set<string>): (r: seq<string>)
    ensures |r| <= |tris|
  {
    if |tris| == 0 then []
    else
      var p := Shared(tris[..|tris| - 1], other);
      if tris[|tris| - 1] in other then p + [tris[|tris| - 1]] else p
  }

  /** Exactly the candidate shingles in `other` are kept, without repeats
      when the candidates have none. */
  lemma {:induction false} SharedSpec(tris: seq<string>, other: set<string>)
    ensures forall x :: x in Shared(tris, other) <==> x in tris && x in other
    ensures Distinct(tris) ==> Distinct(Shared(tris, other))
  {
    if |tris| > 0 {
      var init := tris[..|tris| - 1];
      var last := tris[|tris| - 1];
      assert tris == init + [last];
      SharedSpec(init, other);
    }
  }

  /** The overlap loop: counts and collects candidate shingles the other work has. */
  method Overlap(tris: seq<string>, other: set<string>) returns (overlap: nat, phrases: seq<string>)
    ensures phrases == Shared(tris, other)
    ensures overlap == |phrases|
  {
    overlap, phrases := 0, [];
    var i := 0;
    while i < |tris|
      invariant 0 <= i <= |tris|
      invariant phrases == Shared(tris[..i], other)
      invariant overlap == |phrases|
    {
      SharedStep(tris, i, other);
      if tris[i] in other {
        overlap := overlap + 1;
        phrases := phrases + [tris[i]];
      }
      i := i + 1;
    }
    assert tris[..|tris|] == tris;
  }

  lemma SharedStep(tris: seq<string>, i: nat, other: set<string>)
    requires i < |tris|
    ensures Shared(tris[..i + 1], other)
            == if tris[i] in other then Shared(tris[..i], other) + [tris[i]] else Shared(tris[..i], other)
  {
    assert tris[..i + 1][..i] == tris[..i];
  }

  /** The overlap counted by the loop is the size of the intersection of the
      two shingle sets. */
  lemma OverlapIsIntersection(text: string, other: set<string>)
    ensures |Shared(Trigrams(text), other)| == |TrigramSet(text) * other|
  {
    TrigramsAreTrigramSet(text);
    SharedCard(Trigrams(text), TrigramSet(text), other);
  }

  lemma SharedCard(tris: seq<string>, mine: set<string>, other: set<string>)
    requires Distinct(tris)
    requires forall t :: t in tris <==> t in mine
    ensures |Shared(tris, other)| == |mine * other|
  {
    var sh := Shared(tris, other);
    SharedSpec(tris, other);
    DistinctCard(sh);
    assert (set x | x in sh) == mine * other;
  }

  /** `Math.max(trigrams.size, 1)` */
  function Denom(tris: seq<string>): nat {
    if |tris| > 1 then |tris| else 1
  }

  /** The threshold test against the shingle set `other` of work `w`. */
  function MatchWith(tris: seq<string>, w: Work, other: set<string>): Option<Match> {
    var phrases := Shared(tris, other);
    if 100 * |phrases| > MatchPercent * Denom(tris) then
      Some(Match(w.id, w.title, Ratio(|phrases|, Denom(tris)),
                 phrases[..if |phrases| < MaxPhrases then |phrases| else MaxPhrases]))
    else None
  }

  /** One iteration of the comparison loop: a match, or nothing. */
  function CompareWith(tris: seq<string>, w: Work): Option<Match> {
    if Normalize(w.content) == "" then None
    else MatchWith(tris, w, TrigramSet(w.content))
  }

  /** The `matches` array after the loop has visited `ws`, in corpus order. */
  function MatchesAgainst(tris: seq<string>, ws: seq<Work>): (r: seq<Match>)
    ensures Bounded(r)
  {
    if |ws| == 0 then []
    else
      var prev := MatchesAgainst(tris, ws[..|ws| - 1]);
      match CompareWith(tris, ws[|ws| - 1])
      case None => prev
      case Some(m) => prev + [m]
  }

  /** `currentUserId ? allWorks.filter(w => w.userId !== currentUserId) : allWorks` */
  function OtherWorks(all: seq<Work>, currentUserId: Option<string>): (r: seq<Work>)
    ensures forall w :: w in r <==> w in all && !(Truthy(currentUserId) && w.userId == currentUserId.value)
  {
    if |all| == 0 then []
    else
      var rest := OtherWorks(all[1..], currentUserId);
      assert forall w :: w in all <==> w == all[0] || w in all[1..];
      if Truthy(currentUserId) && all[0].userId == currentUserId.value then rest else [all[0]] + rest
  }

  lemma {:induction false} OtherWorksAppend(a: seq<Work>, b: seq<Work>, currentUserId: Option<string>)
    ensures OtherWorks(a + b, currentUserId) == OtherWorks(a, currentUserId) + OtherWorks(b, currentUserId)
  {
    if |a| > 0 {
      OtherWorksAppend(a[1..], b, currentUserId);
      assert (a + b)[1..] == a[1..] + b;
    } else {
      assert a + b == b;
    }
  }

  // ---------------------------------------------------------------------
  // Aggregate score
  // ---------------------------------------------------------------------

  /** `Math.max` on two fractions, compared by cross-multiplication. */
  function MaxRatio(m: Ratio, p: Ratio): Ratio {
    if p.num * m.den > m.num * p.den then p else m
  }

  /** Every similarity is a fraction in [0, 1] with a positive denominator. */
  predicate Bounded(ms: seq<Match>) {
    forall k :: 0 <= k < |ms| ==> 1 <= ms[k].similarity.den && ms[k].similarity.num <= ms[k].similarity.den
  }

  /** `matches.reduce((m, p) => Math.max(m, p.similarity), 0)` */
  function Best(ms: seq<Match>): (b: Ratio)
    requires Bounded(ms)
    ensures 1 <= b.den && b.num <= b.den
  {
    if |ms| == 0 then Ratio(0, 1)
    else MaxRatio(Best(ms[..|ms| - 1]), ms[|ms| - 1].similarity)
  }

  /** `Math.round(100 * r)`, i.e. floor(100 * r + 1/2). */
  function RoundPercent(r: Ratio): int
    requires r.den >= 1
  {
    (200 * r.num + r.den) / (2 * r.den)
  }

  function Clean(): PlagiarismResult {
    PlagiarismResult(false, 0, NoPlagiarism, Some([]))
  }

  /** The result assembled from the list of matches once the loop is done. */
  function Assess(ms: seq<Match>): PlagiarismResult
    requires Bounded(ms)
  {
    var score := RoundPercent(Best(ms));
    PlagiarismResult(score >= FlagScore, score,
                     if |ms| > 0 then SimilaritiesFound else NoPlagiarism, Some(ms))
  }

  /** What `checkPlagiarism(content, currentUserId)` returns for the corpus
      snapshot `all` (the result of `getAllWorks`). */
  function CheckPlagiarismSpec(content: string, currentUserId: Option<string>, all: seq<Work>): PlagiarismResult {
    var others := OtherWorks(all, currentUserId);
    if |others| == 0 then Clean()
    else Assess(MatchesAgainst(Trigrams(content), others))
  }

  /** The best similarity is at least every match's, and is either 0 (no
      matches) or the similarity of one of them. */
  lemma {:induction false} BestLemma(ms: seq<Match>)
    requires Bounded(ms)
    ensures forall k :: 0 <= k < |ms| ==> Best(ms).num * ms[k].similarity.den >= ms[k].similarity.num * Best(ms).den
    ensures |ms| == 0 ==> Best(ms) == Ratio(0, 1)
    ensures Best(ms) == Ratio(0, 1) || exists k :: 0 <= k < |ms| && Best(ms) == ms[k].similarity
  {
    if |ms| > 0 {
      var init := ms[..|ms| - 1];
      BestLemma(init);
      var b := Best(init);
      var p := ms[|ms| - 1].similarity;
      if p.num * b.den > b.num * p.den {
        forall k | 0 <= k < |init|
          ensures p.num * init[k].similarity.den >= init[k].similarity.num * p.den
        {
          var q := init[k].similarity;
          RatioTransitive(p, b, q);
        }
        assert Best(ms) == ms[|ms| - 1].similarity;
      } else {
        if b != Ratio(0, 1) {
          var k :| 0 <= k < |init| && b == init[k].similarity;
          assert Best(ms) == ms[k].similarity;
        }
      }
    }
  }

  /** p >= b and b >= q give p >= q, for fractions with positive denominators. */
  lemma RatioTransitive(p: Ratio, b: Ratio, q: Ratio)
    requires p.den >= 1 && b.den >= 1 && q.den >= 1
    requires p.num * b.den >= b.num * p.den
    requires b.num * q.den >= q.num * b.den
    ensures p.num * q.den >= q.num * p.den
  {
    assert p.num * b.den * q.den >= b.num * p.den * q.den by {
      MulMono(p.num * b.den, b.num * p.den, q.den);
    }
    assert b.num * q.den * p.den >= q.num * b.den * p.den by {
      MulMono(b.num * q.den, q.num * b.den, p.den);
    }
    assert (p.num * q.den) * b.den >= (q.num * p.den) * b.den;
    MulCancel(p.num * q.den, q.num * p.den, b.den);
  }

  lemma MulMono(x: int, y: int, z: nat)
    requires x >= y
    ensures x * z >= y * z
  {
  }

  lemma MulCancel(x: int, y: int, z: int)
    requires z >= 1 && x * z >= y * z
    ensures x >= y
  {
  }

  lemma DivAtLeast(a: int, b: int, k: int)
    requires a >= 0 && b >= 1
    ensures a / b >= k <==> a >= k * b
  {
    var q, r := a / b, a % b;
    assert a == b * q + r && 0 <= r < b;
    if q >= k {
      MulMono(q, k, b);
    } else {
      MulMono(k, q + 1, b);
      assert a < b * (q + 1);
    }
  }

  /** The score of a fraction in [0, 1] lies in [0, 100], and reaches 40
      exactly when the fraction is at least 79/200 (0.395 rounds up). */
  lemma RoundPercentFacts(r: Ratio)
    requires 1 <= r.den && r.num <= r.den
    ensures 0 <= RoundPercent(r) <= 100
    ensures RoundPercent(r) >= FlagScore <==> 200 * r.num >= 79 * r.den
    ensures r.num == 0 ==> RoundPercent(r) == 0
    ensures r.num == r.den ==> RoundPercent(r) == 100
  {
    DivAtLeast(200 * r.num + r.den, 2 * r.den, 101);
    DivAtLeast(200 * r.num + r.den, 2 * r.den, 100);
    DivAtLeast(200 * r.num + r.den, 2 * r.den, 40);
    DivAtLeast(200 * r.num + r.den, 2 * r.den, 1);
  }

  /** The result for a list of matches: the score lies in [0, 100]; the
      work is flagged exactly when the score reaches 40, which is exactly
      when some match has containment of at least 79/200; the details text
      tells whether anything matched; no matches means score 0. */
  lemma AssessFacts(ms: seq<Match>)
    requires Bounded(ms)
    ensures var r := Assess(ms);
      && r.matches == Some(ms)
      && 0 <= r.score <= 100
      && (r.isPlagiarized <==> r.score >= FlagScore)
      && (r.isPlagiarized <==>
            exists k :: 0 <= k < |ms| && 200 * ms[k].similarity.num >= 79 * ms[k].similarity.den)
      && (r.details == SimilaritiesFound <==> |ms| > 0)
      && (r.details == NoPlagiarism <==> |ms| == 0)
      && (|ms| == 0 ==> r.score == 0)
  {
    var b := Best(ms);
    BestLemma(ms);
    RoundPercentFacts(b);
    if k :| 0 <= k < |ms| && 200 * ms[k].similarity.num >= 79 * ms[k].similarity.den {
      RatioTransitive(b, ms[k].similarity, Ratio(79, 200));
    }
  }

  /** When a work is matched: its normalised text is non-empty and more than
      15% of the submission's shingles occur in it; the match records the
      work, the fraction shared, and at most 20 of the shared shingles. */
  lemma CompareWithFacts(tris: seq<string>, w: Work)
    ensures CompareWith(tris, w).Some? <==>
              Normalize(w.content) != ""
              && 100 * |Shared(tris, TrigramSet(w.content))| > MatchPercent * Denom(tris)
    ensures CompareWith(tris, w).Some? ==>
              var m := CompareWith(tris, w).value;
              && m.workId == w.id && m.workTitle == w.title
              && m.similarity == Ratio(|Shared(tris, TrigramSet(w.content))|, Denom(tris))
              && |m.overlappingPhrases| <= MaxPhrases
              && forall p :: p in m.overlappingPhrases ==> p in tris && p in TrigramSet(w.content)
  {
    MatchWithFacts(tris, w, TrigramSet(w.content));
  }

  lemma MatchWithFacts(tris: seq<string>, w: Work, other: set<string>)
    ensures MatchWith(tris, w, other).Some? <==>
              100 * |Shared(tris, other)| > MatchPercent * Denom(tris)
    ensures MatchWith(tris, w, other).Some? ==>
              var m := MatchWith(tris, w, other).value;
              && m.workId == w.id && m.workTitle == w.title
              && m.similarity == Ratio(|Shared(tris, other)|, Denom(tris))
              && |m.overlappingPhrases| <= MaxPhrases
              && forall p :: p in m.overlappingPhrases ==> p in tris && p in other
  {
    if MatchWith(tris, w, other).Some? {
      var sh := Shared(tris, other);
      SharedSpec(tris, other);
      var m := MatchWith(tris, w, other).value;
      assert forall p :: p in m.overlappingPhrases ==> p in sh;
    }
  }

  /** Every work whose comparison succeeds is listed in the matches. */
  lemma {:induction false} MatchesAgainstIn(tris: seq<string>, ws: seq<Work>, k: nat)
    requires k < |ws| && CompareWith(tris, ws[k]).Some?
    ensures CompareWith(tris, ws[k]).value in MatchesAgainst(tris, ws)
  {
    if k < |ws| - 1 {
      MatchesAgainstIn(tris, ws[..|ws| - 1], k);
    }
  }

  /** Every listed match comes from comparing with one of the works. */
  lemma {:induction false} MatchesAgainstFrom(tris: seq<string>, ws: seq<Work>, m: Match)
    requires m in MatchesAgainst(tris, ws)
    ensures exists k :: 0 <= k < |ws| && CompareWith(tris, ws[k]) == Some(m)
  {
    var init := ws[..|ws| - 1];
    var prev := MatchesAgainst(tris, init);
    var last := CompareWith(tris, ws[|ws| - 1]);
    assert MatchesAgainst(tris, ws) == if last.Some? then prev + [last.value] else prev;
    if m in prev {
      MatchesAgainstFrom(tris, init, m);
      var k :| 0 <= k < |init| && CompareWith(tris, init[k]) == Some(m);
      assert ws[k] == init[k];
    } else {
      assert last == Some(m);
    }
  }

  /** The checker's result always carries a match list, a score in [0, 100]
      and the flag `score >= 40`; with no works of other owners it is clean. */
  lemma ResultFacts(content: string, currentUserId: Option<string>, all: seq<Work>)
    ensures var r := CheckPlagiarismSpec(content, currentUserId, all);
      && r.matches.Some?
      && 0 <= r.score <= 100
      && (r.isPlagiarized <==> r.score >= FlagScore)
      && (r.details == SimilaritiesFound <==> |r.matches.value| > 0)
      && (|r.matches.value| == 0 ==> r.score == 0 && !r.isPlagiarized)
  {
    var others := OtherWorks(all, currentUserId);
    if |others| > 0 {
      AssessFacts(MatchesAgainst(Trigrams(content), others));
    }
  }

  lemma {:induction false} NoneOwnedByOthers(ws: seq<Work>, u: string)
    requires u != ""
    requires forall k :: 0 <= k < |ws| ==> ws[k].userId == u
    ensures OtherWorks(ws, Some(u)) == []
  {
    if |ws| > 0 {
      NoneOwnedByOthers(ws[1..], u);
    }
  }

  /** With only the submitter's own works in the corpus the result is clean. */
  lemma OnlyOwnWorksClean(content: string, u: string, all: seq<Work>)
    requires u != ""
    requires forall k :: 0 <= k < |all| ==> all[k].userId == u
    ensures CheckPlagiarismSpec(content, Some(u), all) == Clean()
  {
    NoneOwnedByOthers(all, u);
  }

  lemma {:induction false} NoMatchesWithoutTrigrams(ws: seq<Work>)
    ensures MatchesAgainst([], ws) == []
  {
    if |ws| > 0 {
      NoMatchesWithoutTrigrams(ws[..|ws| - 1]);
      var w := ws[|ws| - 1];
      NoMatchWithout(w, TrigramSet(w.content));
      assert CompareWith([], w) == None;
    }
  }

  lemma NoMatchWithout(w: Work, other: set<string>)
    ensures MatchWith([], w, other) == None
  {
    assert Shared([], other) == [];
  }

  /** Text of fewer than three tokens never matches anything: it has no
      shingles, the denominator is 1 and every containment is 0. */
  lemma FewTokensClean(content: string, currentUserId: Option<string>, all: seq<Work>)
    requires |Tokens(Normalize(content))| < 3
    ensures Trigrams(content) == [] && Denom(Trigrams(content)) == 1
    ensures CheckPlagiarismSpec(content, currentUserId, all).matches == Some([])
    ensures CheckPlagiarismSpec(content, currentUserId, all).score == 0
    ensures !CheckPlagiarismSpec(content, currentUserId, all).isPlagiarized
  {
    FewTokensNoTrigrams(content);
    var others := OtherWorks(all, currentUserId);
    NoMatchesWithoutTrigrams(others);
    ResultFacts(content, currentUserId, all);
  }

  lemma OtherWorksDropOwn(u: string, a: seq<Work>, own: seq<Work>, b: seq<Work>)
    requires u != ""
    requires forall k :: 0 <= k < |own| ==> own[k].userId == u
    ensures OtherWorks(a + own + b, Some(u)) == OtherWorks(a + b, Some(u))
  {
    OtherWorksAppend(a + own, b, Some(u));
    OtherWorksAppend(a, own, Some(u));
    OtherWorksAppend(a, b, Some(u));
    NoneOwnedByOthers(own, u);
    assert OtherWorks(a, Some(u)) + [] == OtherWorks(a, Some(u));
  }

  /** Self-exclusion: works of the submitting user, wherever they sit in the
      corpus, change nothing in the result. */
  lemma OwnWorksIgnored(content: string, u: string, a: seq<Work>, own: seq<Work>, b: seq<Work>)
    requires u != ""
    requires forall k :: 0 <= k < |own| ==> own[k].userId == u
    ensures CheckPlagiarismSpec(content, Some(u), a + own + b) == CheckPlagiarismSpec(content, Some(u), a + b)
  {
    OtherWorksDropOwn(u, a, own, b);
  }

  lemma MatchOwner(tris: seq<string>, u: string, all: seq<Work>, m: Match)
    requires m in MatchesAgainst(tris, OtherWorks(all, Some(u)))
    ensures exists w :: w in all && !(u != "" && w.userId == u) && w.id == m.workId && w.title == m.workTitle
  {
    var others := OtherWorks(all, Some(u));
    MatchesAgainstFrom(tris, others, m);
    var k :| 0 <= k < |others| && CompareWith(tris, others[k]) == Some(m);
    CompareWithFacts(tris, others[k]);
    assert others[k] in others;
  }

  /** Every listed match names a work of another owner, never the submitter's. */
  lemma MatchesAreOtherOwners(content: string, u: string, all: seq<Work>, m: Match)
    requires u != ""
    requires m in CheckPlagiarismSpec(content, Some(u), all).matches.value
    ensures exists w :: w in all && w.userId != u && w.id == m.workId && w.title == m.workTitle
  {
    MatchOwner(Trigrams(content), u, all, m);
  }

  lemma {:induction false} SharedAll(tris: seq<string>, other: set<string>)
    requires forall x :: x in tris ==> x in other
    ensures Shared(tris, other) == tris
  {
    if |tris| > 0 {
      SharedAll(tris[..|tris| - 1], other);
      assert tris[..|tris| - 1] + [tris[|tris| - 1]] == tris;
    }
  }

  /** Comparing text with a work of the same normalised text, of at least
      three tokens, finds every shingle shared. */
  lemma SelfComparison(content: string, w: Work)
    requires Normalize(w.content) == Normalize(content)
    requires |Tokens(Normalize(content))| >= 3
    ensures CompareWith(Trigrams(content), w).Some?
    ensures CompareWith(Trigrams(content), w).value.similarity
            == Ratio(|Trigrams(content)|, |Trigrams(content)|)
    ensures |Trigrams(content)| >= 1
  {
    var tris := Trigrams(content);
    TrigramsAreTrigramSet(content);
    assert TrigramSet(w.content) == TrigramSet(content);
    SharedAll(tris, TrigramSet(content));
    var grams := Ngrams(Tokens(Normalize(content)), 3);
    assert grams[0] in tris;
  }

  /** A submission whose normalised text equals that of another owner's
      work, with at least three tokens, is listed as matching that work with
      containment 1, scores 100 and is flagged. */
  lemma IdenticalContentFlagged(content: string, u: string, all: seq<Work>, w: Work)
    requires u != "" && w in all && w.userId != u
    requires Normalize(w.content) == Normalize(content)
    requires |Tokens(Normalize(content))| >= 3
    ensures CheckPlagiarismSpec(content, Some(u), all).score == 100
    ensures CheckPlagiarismSpec(content, Some(u), all).isPlagiarized
    ensures exists m :: m in CheckPlagiarismSpec(content, Some(u), all).matches.value
              && m.workId == w.id && m.similarity.num == m.similarity.den
  {
    var tris := Trigrams(content);
    var others := OtherWorks(all, Some(u));
    assert w in others;
    var k :| 0 <= k < |others| && others[k] == w;
    SelfComparison(content, w);
    CompareWithFacts(tris, w);
    var ms := MatchesAgainst(tris, others);
    MatchesAgainstIn(tris, others, k);
    var m := CompareWith(tris, w).value;
    var j :| 0 <= j < |ms| && ms[j] == m;
    FullMatchScores(ms, j);
  }

  /** One match with containment 1 makes the aggregate score 100. */
  lemma FullMatchScores(ms: seq<Match>, j: nat)
    requires Bounded(ms) && j < |ms| && ms[j].similarity.num == ms[j].similarity.den
    ensures Assess(ms).score == 100 && Assess(ms).isPlagiarized
  {
    BestLemma(ms);
    var b := Best(ms);
    var d := ms[j].similarity.den;
    assert b.num * d >= d * b.den;
    MulCancel(b.num, b.den, d);
    RoundPercentFacts(b);
  }

  /** One iteration of the comparison loop of `checkPlagiarism`. */
  method CompareOne(trigrams: seq<string>, w: Work) returns (m: Option<Match>)
    ensures m == CompareWith(trigrams, w)
  {
    var otherNorm := Normalize(w.content);
    m := None;
    if otherNorm != "" {
      var otherTrigrams := OtherShingles(otherNorm);
      m := MatchOne(trigrams, w, otherTrigrams);
    }
  }

  /** `new Set(makeNgrams(otherTokens, 3))` for a normalised text. */
  method OtherShingles(otherNorm: string) returns (otherTrigrams: set<string>)
    ensures otherTrigrams == ShingleSet(otherNorm)
  {
    var otherGrams := MakeNgrams(Tokens(otherNorm), 3);
    otherTrigrams := set t | t in otherGrams;
  }

  /** The overlap count and the threshold test against one work's shingles. */
  method MatchOne(trigrams: seq<string>, w: Work, otherTrigrams: set<string>) returns (m: Option<Match>)
    ensures m == MatchWith(trigrams, w, otherTrigrams)
  {
    var overlap, phrases := Overlap(trigrams, otherTrigrams);
    var denom := if |trigrams| > 1 then |trigrams| else 1;
    m := None;
    if 100 * overlap > MatchPercent * denom {
      var kept := if |phrases| < MaxPhrases then |phrases| else MaxPhrases;
      m := Some(Match(w.id, w.title, Ratio(overlap, denom), phrases[..kept]));
    }
  }

  /** `new Set(makeNgrams(tokens, 3))` for the normalised submission. */
  method CandidateShingles(normalized: string) returns (trigrams: seq<string>)
    ensures trigrams == Dedup(Ngrams(Tokens(normalized), 3))
  {
    var grams := MakeNgrams(Tokens(normalized), 3);
    trigrams := Dedup(grams);
  }

  /** The loop over the other works, collecting the matches in order. */
  method CompareAll(trigrams: seq<string>, otherWorks: seq<Work>) returns (matches: seq<Match>)
    ensures matches == MatchesAgainst(trigrams, otherWorks)
  {
    matches := [];
    var i := 0;
    while i < |otherWorks|
      invariant 0 <= i <= |otherWorks|
      invariant matches == MatchesAgainst(trigrams, otherWorks[..i])
    {
      assert otherWorks[..i + 1][..i] == otherWorks[..i];
      var m := CompareOne(trigrams, otherWorks[i]);
      if m.Some? {
        matches := matches + [m.value];
      }
      i := i + 1;
    }
    assert otherWorks[..|otherWorks|] == otherWorks;
  }

  /** `checkPlagiarism(content, currentUserId)`, reading the corpus snapshot
      `allWorks` returned by `getAllWorks`. */
  method CheckPlagiarism(content: string, currentUserId: Option<string>, allWorks: seq<Work>)
    returns (r: PlagiarismResult)
    ensures r == CheckPlagiarismSpec(content, currentUserId, allWorks)
    ensures r.matches.Some? && 0 <= r.score <= 100
    ensures r.isPlagiarized <==> r.score >= FlagScore
  {
    var normalized := Normalize(content);
    var trigrams := CandidateShingles(normalized);
    var otherWorks := OtherWorks(allWorks, currentUserId);
    if |otherWorks| == 0 {
      r := PlagiarismResult(false, 0, NoPlagiarism, Some([]));
      ResultFacts(content, currentUserId, allWorks);
      return;
    }
    var matches := CompareAll(trigrams, otherWorks);
    var best := Best(matches);
    var score := RoundPercent(best);
    var details := if |matches| > 0 then SimilaritiesFound else NoPlagiarism;
    r := PlagiarismResult(score >= FlagScore, score, details, Some(matches));
    ResultFacts(content, currentUserId, allWorks);
  }

  /** The notification `checkPlagiarismWithNotification` sends: to the
      user, about the checked work, with the corpus works whose id is among
      the matched ones. */
  datatype PlagiarismAlert = PlagiarismAlert(
    userEmail: string,
    workTitle: string,
    workId: string,
    result: PlagiarismResult,
    similarWorks: seq<Work>)

  function WorksWithIds(all: seq<Work>, ids: seq<string>): (r: seq<Work>)
    ensures forall w :: w in r <==> w in all && w.id in ids
  {
    if |all| == 0 then []
    else
      var rest := WorksWithIds(all[1..], ids);
      assert forall w :: w in all <==> w == all[0] || w in all[1..];
      if all[0].id in ids then [all[0]] + rest else rest
  }

  /** `allWorks.filter(w => matches.map(m => m.workId).includes(w.id))`:
      the corpus works named by some match. */
  method MatchedWorks(allWorks: seq<Work>, matches: seq<Match>) returns (similar: seq<Work>)
    ensures forall w :: w in similar <==> w in allWorks && exists m :: m in matches && m.workId == w.id
  {
    var ids := seq(|matches|, k requires 0 <= k < |matches| => matches[k].workId);
    similar := WorksWithIds(allWorks, ids);
    forall w: Work
      ensures w.id in ids <==> exists m :: m in matches && m.workId == w.id
    {
      if w.id in ids {
        var k :| 0 <= k < |ids| && ids[k] == w.id;
        assert matches[k] in matches;
      }
      if m :| m in matches && m.workId == w.id {
        var k :| 0 <= k < |matches| && matches[k] == m;
        assert ids[k] == w.id;
      }
    }
  }

  /** `checkPlagiarismWithNotification`: the result is exactly that of
      `checkPlagiarism(content, userId)`; an alert goes out only for a
      flagged result with at least one match. Sending is a side effect whose
      failure is caught, so it cannot change the result. */
  method CheckPlagiarismWithNotification(content: string, workId: string, userId: string,
                                         userEmail: string, workTitle: string, allWorks: seq<Work>)
    returns (r: PlagiarismResult, alert: Option<PlagiarismAlert>)
    ensures r == CheckPlagiarismSpec(content, Some(userId), allWorks)
    ensures alert.Some? <==> r.isPlagiarized && |r.matches.value| > 0
    ensures alert.Some? ==>
              alert.value.result == r && alert.value.userEmail == userEmail
              && alert.value.workId == workId && alert.value.workTitle == workTitle
              && forall w :: w in alert.value.similarWorks <==>
                   w in allWorks && exists m :: m in r.matches.value && m.workId == w.id
  {
    r := CheckPlagiarism(content, Some(userId), allWorks);
    alert := None;
    if r.isPlagiarized && |r.matches.value| > 0 {
      var similar := MatchedWorks(allWorks, r.matches.value);
      alert := Some(PlagiarismAlert(userEmail, workTitle, workId, r, similar));
    }
  }
}
