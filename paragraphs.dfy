/** How the certificate handler of backend/src/routes/license.ts cuts a
    work's content into paragraphs: CRLF becomes LF, the text is split at
    every run of two or more line feeds, each piece is trimmed and empty
    pieces are dropped. */
module ParagraphSplit {
  import opened Text

  /** `replace(/\r\n/g, '\n')`: pairs are replaced left to right without
      overlap. */
  function NormalizeNewlines(s: string): (r: string)
    ensures |r| <= |s|
    ensures '\r' !in s ==> r == s
  {
    if |s| == 0 then ""
    else if |s| >= 2 && s[0] == '\r' && s[1] == '\n' then "\n" + NormalizeNewlines(s[2..])
    else
      assert '\r' !in s ==> '\r' !in s[1..] by {
        assert forall c :: c in s[1..] ==> c in s by {
          forall c | c in s[1..] ensures c in s {
            var i :| 0 <= i < |s[1..]| && s[1..][i] == c;
            assert s[i + 1] == c;
          }
        }
      }
      [s[0]] + NormalizeNewlines(s[1..])
  }

  /** Every line feed written as CRLF, as a Windows editor saves text. */
  function ToCrlf(s: string): string {
    if |s| == 0 then ""
    else if s[0] == '\n' then "\r\n" + ToCrlf(s[1..])
    else [s[0]] + ToCrlf(s[1..])
  }

  /** CRLF files give the same text as LF files. */
  lemma {:induction false} CrlfNormalized(s: string)
    requires '\r' !in s
    ensures NormalizeNewlines(ToCrlf(s)) == s
  {
    if |s| > 0 {
      CrlfNormalized(s[1..]);
      var t := ToCrlf(s[1..]);
      if s[0] == '\n' {
        assert ("\r\n" + t)[2..] == t;
      } else {
        assert ([s[0]] + t)[1..] == t;
      }
      assert s == [s[0]] + s[1..];
    }
  }

  /** No blank-line separator (two adjacent line feeds) inside `p`. */
  predicate NoBlank(p: string) {
    NoAdjacent(p, '\n')
  }

  /** The text after its leading line feeds. */
  function DropNewlines(s: string): (r: string)
    ensures |r| <= |s| && r == s[|s| - |r|..]
    ensures r == [] || r[0] != '\n'
    ensures |s| > 0 && s[0] == '\n' ==> |r| < |s|
  {
    if |s| > 0 && s[0] == '\n' then DropNewlines(s[1..]) else s
  }

  /** `split(/\n\n+/)`: the pieces between maximal runs of at least two
      line feeds, in order; a lone line feed stays inside its piece. */
  function SplitBlank(s: string): (r: seq<string>)
    ensures |r| >= 1
    ensures |r[0]| <= |s| && r[0] == s[..|r[0]|]
    decreases |s|
  {
    if |s| == 0 then [""]
    else if |s| >= 2 && s[0] == '\n' && s[1] == '\n' then [""] + SplitBlank(DropNewlines(s))
    else
      var rest := SplitBlank(s[1..]);
      [[s[0]] + rest[0]] + rest[1..]
  }

  /** No piece holds a blank line. */
  lemma {:induction false} SplitBlankNoBlank(s: string)
    ensures forall k :: 0 <= k < |SplitBlank(s)| ==> NoBlank(SplitBlank(s)[k])
    decreases |s|
  {
    if |s| == 0 {
    } else if |s| >= 2 && s[0] == '\n' && s[1] == '\n' {
      SplitBlankNoBlank(DropNewlines(s));
    } else {
      var rest := SplitBlank(s[1..]);
      SplitBlankNoBlank(s[1..]);
      var head := [s[0]] + rest[0];
      forall i, j | 0 <= i < |head| && 0 <= j < |head| && j == i + 1
        ensures !(head[i] == '\n' && head[j] == '\n')
      {
        if i > 0 {
          assert head[i] == rest[0][i - 1] && head[j] == rest[0][i];
        } else {
          assert head[1] == s[1];
        }
      }
      assert SplitBlank(s) == [head] + rest[1..];
    }
  }

  function TrimEach(ps: seq<string>): (r: seq<string>)
    ensures |r| == |ps| && forall k :: 0 <= k < |ps| ==> r[k] == Trim(ps[k])
  {
    seq(|ps|, k requires 0 <= k < |ps| => Trim(ps[k]))
  }

  /** The paragraphs of a work's content. */
  function Paragraphs(content: string): seq<string> {
    NonEmpty(TrimEach(SplitBlank(NormalizeNewlines(content))))
  }

  /** Trimming keeps a piece free of blank lines. */
  lemma TrimNoBlank(p: string)
    requires NoBlank(p)
    ensures NoBlank(Trim(p))
  {
    TrimSpec(p);
    var a :| OccursAt(p, Trim(p), a);
    var t := Trim(p);
    forall i | 0 <= i < |t| - 1
      ensures !(t[i] == '\n' && t[i + 1] == '\n')
    {
      assert t[i] == p[a + i] && t[i + 1] == p[a + i + 1];
    }
  }

  /** Every paragraph is non-empty, trimmed, and holds no blank line. */
  lemma ParagraphShape(content: string)
    ensures forall q :: q in Paragraphs(content) ==> q != "" && IsTrimmed(q) && NoBlank(q)
  {
    var pieces := SplitBlank(NormalizeNewlines(content));
    var trimmed := TrimEach(pieces);
    SplitBlankNoBlank(NormalizeNewlines(content));
    forall q | q in Paragraphs(content)
      ensures q != "" && IsTrimmed(q) && NoBlank(q)
    {
      var k :| 0 <= k < |trimmed| && trimmed[k] == q;
      TrimSpec(pieces[k]);
      TrimNoBlank(pieces[k]);
    }
  }

  /** `paragraphs.join('\n\n')` */
  function JoinBlank(ps: seq<string>): string {
    if |ps| == 0 then ""
    else if |ps| == 1 then ps[0]
    else ps[0] + "\n\n" + JoinBlank(ps[1..])
  }

  /** A piece fit to be a paragraph on its own. */
  predicate Paragraph(p: string) {
    p != "" && IsTrimmed(p) && NoBlank(p) && '\r' !in p
  }

  lemma {:induction false} JoinBlankHead(ps: seq<string>)
    requires |ps| >= 1 && ps[0] != ""
    ensures |JoinBlank(ps)| > 0 && JoinBlank(ps)[0] == ps[0][0]
  {
  }

  lemma {:induction false} JoinBlankNoCr(ps: seq<string>)
    requires forall k :: 0 <= k < |ps| ==> '\r' !in ps[k]
    ensures '\r' !in JoinBlank(ps)
  {
    if |ps| > 1 {
      JoinBlankNoCr(ps[1..]);
      var j := JoinBlank(ps);
      var rest := JoinBlank(ps[1..]);
      assert j == ps[0] + "\n\n" + rest;
      forall i | 0 <= i < |j|
        ensures j[i] != '\r'
      {
        if i < |ps[0]| {
          assert j[i] == ps[0][i];
        } else if i >= |ps[0]| + 2 {
          assert j[i] == rest[i - |ps[0]| - 2];
        }
      }
    }
  }

  lemma {:induction false} SplitBlankNone(p: string)
    requires NoBlank(p)
    ensures SplitBlank(p) == [p]
  {
    if |p| > 0 {
      NoAdjacentTail(p, '\n');
      SplitBlankNone(p[1..]);
      assert p == [p[0]] + p[1..];
    }
  }

  /** One character, then a separator. */
  lemma SplitBlankSingle(c: char, u: string)
    requires c != '\n'
    requires u == [] || u[0] != '\n'
    ensures SplitBlank([c] + "\n\n" + u) == [[c]] + SplitBlank(u)
  {
    var s := [c] + "\n\n" + u;
    var t := s[1..];
    assert t == "\n\n" + u;
    assert t[1..] == "\n" + u;
    assert t[1..][1..] == u;
    assert DropNewlines(u) == u;
    assert DropNewlines(t[1..]) == u;
    assert DropNewlines(t) == u;
    assert SplitBlank(t) == [""] + SplitBlank(u);
    assert [c] + "" == [c];
  }

  /** A character that does not start a separator joins the first piece. */
  lemma SplitBlankCons(c: char, t: string, first: string, others: seq<string>)
    requires !(c == '\n' && |t| > 0 && t[0] == '\n')
    requires SplitBlank(t) == [first] + others
    ensures SplitBlank([c] + t) == [[c] + first] + others
  {
    assert ([c] + t)[1..] == t;
  }

  lemma {:induction false} SplitBlankPrefix(a: string, u: string)
    requires a != "" && NoBlank(a) && a[|a| - 1] != '\n'
    requires u == [] || u[0] != '\n'
    ensures SplitBlank(a + "\n\n" + u) == [a] + SplitBlank(u)
  {
    if |a| == 1 {
      SplitBlankSingle(a[0], u);
      assert a == [a[0]];
    } else {
      var a' := a[1..];
      var t := a' + "\n\n" + u;
      assert !(a[0] == '\n' && a[1] == '\n');
      assert t[0] == a[1];
      NoAdjacentTail(a, '\n');
      SplitBlankPrefix(a', u);
      SplitBlankCons(a[0], t, a', SplitBlank(u));
      ConsSplit(a, "\n\n", u);
      assert [a[0]] + a' == a;
    }
  }

  lemma ConsSplit(a: string, sep: string, u: string)
    requires a != ""
    ensures a + sep + u == [a[0]] + (a[1..] + sep + u)
  {
    assert a == [a[0]] + a[1..];
  }

  lemma {:induction false} SplitBlankJoin(ps: seq<string>)
    requires |ps| >= 1
    requires forall k :: 0 <= k < |ps| ==> Paragraph(ps[k])
    ensures SplitBlank(JoinBlank(ps)) == ps
  {
    if |ps| == 1 {
      SplitBlankNone(ps[0]);
    } else {
      var u := JoinBlank(ps[1..]);
      JoinBlankHead(ps[1..]);
      assert ps[1..][0] == ps[1];
      SplitBlankPrefix(ps[0], u);
      SplitBlankJoin(ps[1..]);
      assert ps == [ps[0]] + ps[1..];
    }
  }

  lemma {:induction false} NonEmptyKeeps(ps: seq<string>)
    requires forall k :: 0 <= k < |ps| ==> ps[k] != ""
    ensures NonEmpty(ps) == ps
  {
    if |ps| > 0 {
      NonEmptyKeeps(ps[1..]);
      assert ps == [ps[0]] + ps[1..];
    }
  }

  lemma TrimEachFixed(ps: seq<string>)
    requires forall k :: 0 <= k < |ps| ==> IsTrimmed(ps[k])
    ensures TrimEach(ps) == ps
  {
    forall k | 0 <= k < |ps| ensures Trim(ps[k]) == ps[k] {
      TrimmedFixed(ps[k]);
    }
  }

  /** Order is preserved and nothing is lost: paragraphs joined with a blank
      line are cut back into exactly the same paragraphs. */
  lemma ParagraphsRoundTrip(ps: seq<string>)
    requires forall k :: 0 <= k < |ps| ==> Paragraph(ps[k])
    ensures Paragraphs(JoinBlank(ps)) == ps
  {
    var j := JoinBlank(ps);
    JoinBlankNoCr(ps);
    assert NormalizeNewlines(j) == j;
    if |ps| == 0 {
      assert SplitBlank(j) == [""];
      assert TrimEach([""]) == [""];
    } else {
      SplitBlankJoin(ps);
      TrimEachFixed(ps);
      NonEmptyKeeps(ps);
    }
  }
}
