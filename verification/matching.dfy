/**
 * The presence tests that decide whether an item extracted from the p-code still appears in
 * the VBA source, and the counting loop that turns a set of items into a missing fraction.
 *
 * The current version's comment test builds a regular expression. It is modelled here by what
 * that expression matches: the comment's words, each matched literally, in order, with a run
 * of 1 to 50 whitespace or apostrophe characters between each two.
 */
module Matching {
  import opened Outcomes
  import opened Text

  /** `curr_id in vba`. */
  predicate IdPresent(vba: string, id: string) {
    Contains(vba, id)
  }

  /** The literal appears in the source between double quotes or between apostrophes. */
  predicate StrPresent(vba: string, s: string) {
    Contains(vba, "\"" + s + "\"") || Contains(vba, "'" + s + "'")
  }

  /** The characters of the class `[\s\r\n']` that may separate two words of a comment. */
  predicate IsGapChar(c: char) {
    IsSpace(c) || c == '\''
  }

  /** The longest run allowed between two words: the `{1,50}` of the pattern. */
  const MaxGap := 50

  /** The words of a comment: apostrophes become spaces, the text is split on single spaces,
      and empty pieces are dropped. */
  function Words(c: string): (ws: seq<string>)
    ensures forall k :: 0 <= k < |ws| ==> ws[k] != [] && ' ' !in ws[k] && '\'' !in ws[k]
  {
    var spaced := ReplaceChar(c, '\'', " ");
    SplitKeepsOut(spaced, ' ', '\'');
    NonEmpty(Split(spaced, ' '))
  }

  /** The parts that are not empty, in order. */
  function NonEmpty(parts: seq<string>): (r: seq<string>)
    ensures forall k :: 0 <= k < |r| ==> r[k] != [] && r[k] in parts
  {
    if parts == [] then []
    else
      var last := parts[|parts| - 1];
      var init := NonEmpty(parts[..|parts| - 1]);
      if last == [] then init else init + [last]
  }

  /** The text that the escaped form of a word matches. Each of `\ ( ) [ ] + ^ . $ ? * , |` is
      escaped once and stands for itself; `{` is never escaped, but it stands for itself as
      well, because every `}` after it has a backslash before it and so no `{m,n}` repetition
      can form; `}` is escaped twice, which turns it into an escaped backslash followed by a
      literal `}`, so the source must hold `\}` where the comment has `}`. A word without `}`
      is matched as it is. */
  function WordText(w: string): (r: string)
    ensures '}' !in w ==> r == w
  {
    ReplaceChar(w, '}', "\\}")
  }

  /** One piece of the comment pattern: a word matched literally, or a separator run. */
  datatype Piece = Lit(text: string) | Gap

  /** Dropping empty parts keeps every non-empty one: the `continue` skips only empty
      pieces. */
  lemma {:induction false} NonEmptyKeepsWords(parts: seq<string>)
    ensures forall k :: 0 <= k < |parts| && parts[k] != [] ==> parts[k] in NonEmpty(parts)
  {
    if parts != [] {
      var init := parts[..|parts| - 1];
      NonEmptyKeepsWords(init);
      forall k | 0 <= k < |parts| && parts[k] != [] ensures parts[k] in NonEmpty(parts) {
        if k < |init| {
          assert parts[k] == init[k];
        }
      }
    }
  }

  /** The pattern for a list of words, as the loop of `_missing_comments` builds it: each
      word's literal, with a separator run before every word but the first. */
  function Pattern(ws: seq<string>): seq<Piece>
  {
    if ws == [] then []
    else
      var init := Pattern(ws[..|ws| - 1]);
      var last := Lit(WordText(ws[|ws| - 1]));
      if init == [] then [last] else init + [Gap, last]
  }

  /** The pattern alternates: the words' literals in order, with a separator run between
      each two. */
  lemma {:induction false} PatternShape(ws: seq<string>)
    ensures |Pattern(ws)| == if ws == [] then 0 else 2 * |ws| - 1
    ensures forall j :: 0 <= j < |ws| ==> Pattern(ws)[2 * j] == Lit(WordText(ws[j]))
    ensures forall j :: 0 <= j < |ws| - 1 ==> Pattern(ws)[2 * j + 1] == Gap
  {
    if ws != [] {
      var init := ws[..|ws| - 1];
      PatternShape(init);
      var p, q := Pattern(ws), Pattern(init);
      var last := Lit(WordText(ws[|ws| - 1]));
      assert p == if q == [] then [last] else q + [Gap, last];
      forall j | 0 <= j < |ws| ensures p[2 * j] == Lit(WordText(ws[j])) {
        if j < |init| {
          assert p[2 * j] == q[2 * j] && init[j] == ws[j];
        }
      }
      forall j | 0 <= j < |ws| - 1 ensures p[2 * j + 1] == Gap {
        if j < |init| - 1 {
          assert p[2 * j + 1] == q[2 * j + 1];
        }
      }
    }
  }

  /** `text[lo..hi]` is a run of separator characters. */
  predicate GapRun(text: string, lo: int, hi: int)
    requires 0 <= lo <= hi <= |text|
  {
    forall m | lo <= m < hi :: IsGapChar(text[m])
  }

  /** The pieces match `text` starting at `p` (the match may end anywhere). */
  predicate MatchesFrom(pat: seq<Piece>, text: string, p: nat)
    requires p <= |text|
    decreases |pat|
  {
    if pat == [] then true
    else match pat[0]
      case Lit(t) => OccursAt(text, t, p) && MatchesFrom(pat[1..], text, p + |t|)
      case Gap => exists q | p < q <= p + MaxGap && q <= |text| :: GapRun(text, p, q) && MatchesFrom(pat[1..], text, q)
  }

  /** `re.search(pat, vba)` finds a match. */
  predicate Search(pat: seq<Piece>, text: string) {
    exists p | 0 <= p <= |text| :: MatchesFrom(pat, text, p)
  }

  /** A comment is present when it is a substring of the source, or else when its words occur
      in order with separator runs between them. */
  predicate CommentPresent(vba: string, c: string) {
    Contains(vba, c) || Search(Pattern(Words(c)), vba)
  }

  /** Splitting a text made only of separators gives only empty parts. */
  lemma {:induction false} SplitOnlySeparators(s: string, sep: char)
    requires forall k :: 0 <= k < |s| ==> s[k] == sep
    ensures forall k :: 0 <= k < |Split(s, sep)| ==> Split(s, sep)[k] == []
    decreases |s|
  {
    match IndexOf(s, sep)
    case None =>
    case Some(i) =>
      assert i == 0;
      SplitOnlySeparators(s[1..], sep);
  }

  /** Dropping empty parts from a list of empty parts leaves nothing. */
  lemma {:induction false} NonEmptyOfEmpties(parts: seq<string>)
    requires forall k :: 0 <= k < |parts| ==> parts[k] == []
    ensures NonEmpty(parts) == []
  {
    if parts != [] {
      NonEmptyOfEmpties(parts[..|parts| - 1]);
    }
  }

  /** A comment made only of spaces and apostrophes has no words, so its pattern is empty and
      matches anywhere: such a comment is always present. */
  lemma OnlySeparatorsAlwaysPresent(vba: string, c: string)
    requires forall k :: 0 <= k < |c| ==> c[k] == ' ' || c[k] == '\''
    ensures Words(c) == []
    ensures CommentPresent(vba, c)
  {
    var spaced := ReplaceChar(c, '\'', " ");
    ReplaceCharOneForOne(c, '\'', " ");
    assert forall k :: 0 <= k < |spaced| ==> spaced[k] == ' ';
    SplitOnlySeparators(spaced, ' ');
    NonEmptyOfEmpties(Split(spaced, ' '));
    assert MatchesFrom([], vba, 0);
  }

  /** A match of the pieces contains every word literal of the pieces. */
  lemma {:induction false} MatchHoldsLiterals(pat: seq<Piece>, text: string, p: nat, k: nat)
    requires p <= |text| && k < |pat| && pat[k].Lit?
    requires MatchesFrom(pat, text, p)
    ensures Contains(text, pat[k].text)
    decreases |pat|
  {
    match pat[0]
    case Lit(t) =>
      if k > 0 {
        MatchHoldsLiterals(pat[1..], text, p + |t|, k - 1);
      } else {
        assert OccursAt(text, t, p);
      }
    case Gap =>
      var q :| p < q <= p + MaxGap && q <= |text| && GapRun(text, p, q) && MatchesFrom(pat[1..], text, q);
      MatchHoldsLiterals(pat[1..], text, q, k - 1);
  }

  /** A comment found through its pattern contains, literally, every one of its words. */
  lemma WordsOfFoundComment(vba: string, c: string, k: nat)
    requires k < |Words(c)| && Search(Pattern(Words(c)), vba)
    ensures Contains(vba, WordText(Words(c)[k]))
  {
    var ws := Words(c);
    PatternShape(ws);
    var p :| 0 <= p <= |vba| && MatchesFrom(Pattern(ws), vba, p);
    assert Pattern(ws)[2 * k] == Lit(WordText(ws[k]));
    MatchHoldsLiterals(Pattern(ws), vba, p, 2 * k);
  }

  /** A one-word comment is present exactly when the comment or its word's literal is a
      substring: for one word the pattern search is a substring test. */
  lemma OneWordComment(vba: string, c: string)
    requires |Words(c)| == 1
    ensures CommentPresent(vba, c) <==> Contains(vba, c) || Contains(vba, WordText(Words(c)[0]))
  {
    var t := WordText(Words(c)[0]);
    assert Pattern(Words(c)) == [Lit(t)];
    if Contains(vba, t) {
      var i :| 0 <= i <= |vba| - |t| && OccursAt(vba, t, i);
      assert MatchesFrom([Lit(t)], vba, i);
    }
    if Search([Lit(t)], vba) {
      var p :| 0 <= p <= |vba| && MatchesFrom([Lit(t)], vba, p);
      assert OccursAt(vba, t, p);
    }
  }

  /** Words without spaces or apostrophes, joined by single spaces, are split back into
      exactly those words. */
  lemma {:induction false} WordsOfSpacedWords(ws: seq<string>)
    requires |ws| >= 1
    requires forall k :: 0 <= k < |ws| ==> ws[k] != [] && ' ' !in ws[k]
    requires '\'' !in Join(ws, ' ')
    ensures Words(Join(ws, ' ')) == ws
  {
    SplitJoin(ws, ' ');
    NonEmptyKeeps(ws);
  }

  /** Dropping empty parts from a list without any leaves it as it is. */
  lemma {:induction false} NonEmptyKeeps(parts: seq<string>)
    requires forall k :: 0 <= k < |parts| ==> parts[k] != []
    ensures NonEmpty(parts) == parts
  {
    if parts != [] {
      NonEmptyKeeps(parts[..|parts| - 1]);
    }
  }

  /** The words of a plain three-word comment. */
  lemma WordsOfPlainComment()
    ensures Words("Check the doc") == ["Check", "the", "doc"]
  {
    var ws := ["Check", "the", "doc"];
    assert Join(ws, ' ') == "Check the doc" by {
      assert ws[1..] == ["the", "doc"] && ws[1..][1..] == ["doc"];
    }
    WordsOfSpacedWords(ws);
  }

  /** Three words give three literals with a separator run between each two. */
  lemma PatternOfThreeWords(a: string, b: string, c: string)
    ensures Pattern([a, b, c]) == [Lit(WordText(a)), Gap, Lit(WordText(b)), Gap, Lit(WordText(c))]
  {
    var ws := [a, b, c];
    assert ws[..1] == [a] && ws[..2][..1] == [a];
    assert ws[..2] == [a, b];
    PatternOfTwoWords(a, b);
  }

  /** The source text of a comment re-wrapped over two lines. */
  const Rewrapped := "' Check the\n    ' doc"

  /** A literal that occurs at `p`, followed by a match of the remaining pieces. */
  lemma MatchLit(pat: seq<Piece>, text: string, p: nat)
    requires pat != [] && pat[0].Lit? && p + |pat[0].text| <= |text|
    requires OccursAt(text, pat[0].text, p) && MatchesFrom(pat[1..], text, p + |pat[0].text|)
    ensures MatchesFrom(pat, text, p)
  {
  }

  /** A separator run from `p` to `q`, followed by a match of the remaining pieces. */
  lemma MatchGap(pat: seq<Piece>, text: string, p: nat, q: nat)
    requires pat != [] && pat[0] == Gap && p < q <= p + MaxGap && q <= |text|
    requires GapRun(text, p, q) && MatchesFrom(pat[1..], text, q)
    ensures MatchesFrom(pat, text, p)
  {
  }

  /** The pieces of the three-word comment match the re-wrapped text. */
  lemma RewrappedMatch()
    ensures MatchesFrom([Lit("Check"), Gap, Lit("the"), Gap, Lit("doc")], Rewrapped, 2)
  {
    var vba := Rewrapped;
    var pat := [Lit("Check"), Gap, Lit("the"), Gap, Lit("doc")];
    assert vba[18..21] == "doc";
    MatchLit(pat[4..], vba, 18);
    assert GapRun(vba, 11, 18);
    MatchGap(pat[3..], vba, 11, 18);
    assert vba[8..11] == "the";
    MatchLit(pat[2..], vba, 8);
    assert GapRun(vba, 7, 8);
    MatchGap(pat[1..], vba, 7, 8);
    assert vba[2..7] == "Check";
    MatchLit(pat, vba, 2);
  }

  /** The re-wrapped text does not hold the comment as a substring. */
  lemma RewrappedNotSubstring()
    ensures !Contains(Rewrapped, "Check the doc")
  {
    var c := "Check the doc";
    forall i | 0 <= i <= |Rewrapped| - |c| ensures !OccursAt(Rewrapped, c, i) {
      assert Rewrapped[i + 11] != c[11] || Rewrapped[i] != c[0];
    }
  }

  /** The three words have no `}`, so their literals are the words themselves. */
  lemma PlainWordTexts()
    ensures WordText("Check") == "Check" && WordText("the") == "the" && WordText("doc") == "doc"
  {
    assert '}' !in "Check";
    assert '}' !in "the";
    assert '}' !in "doc";
  }

  /** The pattern of the plain three-word comment. */
  lemma PlainCommentPattern()
    ensures Pattern(Words("Check the doc")) == [Lit("Check"), Gap, Lit("the"), Gap, Lit("doc")]
  {
    WordsOfPlainComment();
    PatternOfThreeWords("Check", "the", "doc");
    PlainWordTexts();
  }

  /** A comment that is re-wrapped in the source (its last word moved to the next line, after
      an indent and a comment apostrophe) is still found, though it is not a substring. */
  lemma RewrappedCommentFound()
    ensures CommentPresent(Rewrapped, "Check the doc")
  {
    PlainCommentPattern();
    RewrappedMatch();
    assert MatchesFrom(Pattern(Words("Check the doc")), Rewrapped, 2);
  }

  /** The source text of the comment `a b}` re-wrapped, with the `}` written as `\}`. */
  const BraceWrapped := "a\n' b\\}"

  /** The `}` of a word is escaped into `\}`. */
  lemma BraceWordText()
    ensures WordText("b}") == "b\\}"
  {
    assert "b}"[1..] == "}" && "}"[1..] == [];
  }

  /** The comment `a b}` has the two words `a` and `b}`. */
  lemma BraceWords()
    ensures Words("a b}") == ["a", "b}"]
  {
    var ws := ["a", "b}"];
    assert Join(ws, ' ') == "a b}" by {
      assert ws[1..] == ["b}"];
    }
    WordsOfSpacedWords(ws);
  }

  /** The comment `a b}` becomes a literal, a separator run, and the literal `b\}`. */
  lemma BracePattern()
    ensures Pattern(Words("a b}")) == [Lit("a"), Gap, Lit("b\\}")]
  {
    BraceWords();
    BraceWordText();
    PatternOfTwoWords("a", "b}");
    assert '}' !in "a";
  }

  /** Two words give two literals with a separator run between them. */
  lemma PatternOfTwoWords(a: string, b: string)
    ensures Pattern([a, b]) == [Lit(WordText(a)), Gap, Lit(WordText(b))]
  {
    assert [a, b][..1] == [a];
    assert Pattern([a]) == [Lit(WordText(a))];
  }

  /** The pieces of `a b}` match the source that writes `b\}`. */
  lemma BraceMatch()
    ensures MatchesFrom([Lit("a"), Gap, Lit("b\\}")], BraceWrapped, 0)
  {
    var vba := BraceWrapped;
    var pat := [Lit("a"), Gap, Lit("b\\}")];
    assert vba[4..7] == "b\\}";
    MatchLit(pat[2..], vba, 4);
    assert GapRun(vba, 1, 4);
    MatchGap(pat[1..], vba, 1, 4);
    assert vba[0..1] == "a";
    MatchLit(pat, vba, 0);
  }

  /** A `}` must be preceded by a backslash in the source: the comment `a b}`, re-wrapped onto
      a second line, is found where the source holds `b\}`. */
  lemma BraceNeedsBackslash()
    ensures WordText("b}") == "b\\}"
    ensures CommentPresent(BraceWrapped, "a b}")
  {
    BraceWordText();
    BracePattern();
    BraceMatch();
  }

  /** The same re-wrapped comment with the `}` written bare. */
  const BraceBare := "a\n' b}"

  /** Every character of a word's literal occurs in a source where the comment is found by
      its pattern. */
  lemma FoundWordChar(vba: string, c: string, k: nat, ch: char)
    requires k < |Words(c)| && Search(Pattern(Words(c)), vba) && ch in WordText(Words(c)[k])
    ensures ch in vba
  {
    var w := WordText(Words(c)[k]);
    WordsOfFoundComment(vba, c, k);
    var j :| 0 <= j < |w| && w[j] == ch;
    assert OccursAt(w, [ch], j);
    ContainsTransitive(vba, w, [ch]);
    ContainsOneChar(vba, ch);
  }

  /** In a source without a backslash, the pattern of `a b}` never matches: its last literal
      is `b\}`. */
  lemma BracePatternNeedsBackslash(vba: string)
    requires '\\' !in vba
    ensures !Search(Pattern(Words("a b}")), vba)
  {
    BraceWords();
    BraceWordText();
    if Search(Pattern(Words("a b}")), vba) {
      FoundWordChar(vba, "a b}", 1, '\\');
    }
  }

  /** The bare text does not hold the comment as a substring. */
  lemma BraceBareNotSubstring()
    ensures !Contains(BraceBare, "a b}")
  {
    var vba := BraceBare;
    forall i | 0 <= i <= |vba| - 4 ensures !OccursAt(vba, "a b}", i) {
      assert vba[i] != 'a' || vba[i + 1] != ' ';
    }
  }

  /** Where the source writes the `}` bare, the re-wrapped comment `a b}` is reported
      missing. */
  lemma BraceWithoutBackslashMissed()
    ensures !CommentPresent(BraceBare, "a b}")
  {
    BraceBareNotSubstring();
    assert '\\' !in BraceBare;
    BracePatternNeedsBackslash(BraceBare);
  }

  /** The stored comment `"_"` is present exactly when the source holds an underscore
      anywhere. */
  lemma UnderscoreCommentPresence(vba: string)
    ensures CommentPresent(vba, "_") <==> '_' in vba
  {
    assert CommentPresent(vba, "_") <==> Contains(vba, "_") by {
      assert Words("_") == ["_"] by {
        assert Join(["_"], ' ') == "_";
        WordsOfSpacedWords(["_"]);
      }
      assert WordText("_") == "_";
      OneWordComment(vba, "_");
    }
    ContainsOneChar(vba, '_');
  }

  /** Dropping empty parts, one more part at a time. */
  lemma NonEmptyStep(parts: seq<string>, i: nat)
    requires i < |parts|
    ensures NonEmpty(parts[..i + 1]) == NonEmpty(parts[..i]) + (if parts[i] == [] then [] else [parts[i]])
  {
    assert parts[..i + 1][..i] == parts[..i];
  }

  /** The pattern of one more word. */
  lemma PatternSnoc(ws: seq<string>, w: string)
    ensures Pattern(ws + [w]) ==
      if Pattern(ws) == [] then [Lit(WordText(w))] else Pattern(ws) + [Gap, Lit(WordText(w))]
  {
    assert (ws + [w])[..|ws|] == ws;
  }

  /** What one more piece of the split comment does to the words and the pattern, branch by
      branch as the loop of `AppendWords` tests it. */
  lemma AppendStep(parts: seq<string>, i: nat, ws: seq<string>, pat: seq<Piece>)
    requires i < |parts| && ws == NonEmpty(parts[..i]) && pat == Pattern(ws)
    ensures |parts[i]| == 0 ==> NonEmpty(parts[..i + 1]) == ws
    ensures |parts[i]| != 0 ==> NonEmpty(parts[..i + 1]) == ws + [parts[i]]
    ensures |parts[i]| != 0 && |pat| == 0 ==> Pattern(ws + [parts[i]]) == pat + [Lit(WordText(parts[i]))]
    ensures |parts[i]| != 0 && |pat| > 0 ==> Pattern(ws + [parts[i]]) == pat + [Gap] + [Lit(WordText(parts[i]))]
  {
    NonEmptyStep(parts, i);
    PatternSnoc(ws, parts[i]);
  }

  /** The loop of `_missing_comments` that builds the pattern: apostrophes become spaces, the
      text is split on spaces, empty pieces are skipped, and each word's literal is appended,
      after a separator run when the pattern is not empty yet. */
  method BuildPattern(c: string) returns (pat: seq<Piece>)
    ensures pat == Pattern(Words(c))
  {
    pat := AppendWords(Split(ReplaceChar(c, '\'', " "), ' '));
  }

  /** The loop over the split comment in `BuildPattern`. */
  method AppendWords(parts: seq<string>) returns (pat: seq<Piece>)
    ensures pat == Pattern(NonEmpty(parts))
  {
    pat := [];
    ghost var ws: seq<string> := [];
    var i := 0;
    assert parts[..0] == [];
    while i < |parts|
      invariant 0 <= i <= |parts|
      invariant ws == NonEmpty(parts[..i])
      invariant pat == Pattern(ws)
    {
      AppendStep(parts, i, ws, pat);
      var word := parts[i];
      if |word| != 0 {
        if |pat| > 0 {
          pat := pat + [Gap];
        }
        pat := pat + [Lit(WordText(word))];
        ws := ws + [word];
      }
      i := i + 1;
    }
    assert parts[..i] == parts;
  }

  /** How an item is tested for presence: by substring (identifiers, and comments in the
      older version), as a quoted literal, or by the comment pattern. */
  datatype Test = Substring | Quoted | CommentPattern

  predicate Present(test: Test, vba: string, x: string) {
    match test
    case Substring => IdPresent(vba, x)
    case Quoted => StrPresent(vba, x)
    case CommentPattern => CommentPresent(vba, x)
  }

  /** The empty identifier is always present, so it is never counted as missing. */
  lemma EmptyIdPresent(vba: string, items: set<string>)
    ensures Present(Substring, vba, "")
    ensures "" !in Absent(Substring, vba, items)
  {
    assert OccursAt(vba, "", 0);
  }

  /** The items of `items` that the test does not find in the source. */
  function Absent(test: Test, vba: string, items: set<string>): (r: set<string>)
    ensures r <= items
  {
    set x | x in items && !Present(test, vba, x)
  }

  /** The fraction `_missing_*` returns, as its numerator and denominator. The empty set gives
      `0/0`, which stands for the 0.0 the source returns. */
  datatype Ratio = Ratio(missing: nat, total: nat)

  /** The fraction is strictly greater than `tenths / 10`, compared exactly. */
  predicate Exceeds(r: Ratio, tenths: nat) {
    r.missing * 10 > r.total * tenths
  }

  /** The fraction `_missing_*` returns for a set of items. */
  function MissingRatio(test: Test, vba: string, items: set<string>): Ratio {
    Ratio(|Absent(test, vba, items)|, |items|)
  }

  lemma SubsetCard(a: set<string>, b: set<string>)
    requires a <= b
    ensures |a| <= |b|
  {
    assert b == a + (b - a);
  }

  /** The fraction lies between 0 and 1; it is 0 when every item is present and 1 when none
      is; an empty set gives 0, which exceeds no threshold. */
  lemma MissingRatioBounds(test: Test, vba: string, items: set<string>)
    ensures MissingRatio(test, vba, items).missing <= MissingRatio(test, vba, items).total
    ensures (forall x | x in items :: Present(test, vba, x)) <==> MissingRatio(test, vba, items).missing == 0
    ensures (forall x | x in items :: !Present(test, vba, x)) <==>
      MissingRatio(test, vba, items).missing == MissingRatio(test, vba, items).total
    ensures items == {} ==> forall tenths :: !Exceeds(MissingRatio(test, vba, items), tenths)
  {
    var a := Absent(test, vba, items);
    SubsetCard(a, items);
    forall x | x in items && !Present(test, vba, x) ensures x in a {
    }
    if |a| == |items| {
      if exists x | x in items :: x !in a {
        var x :| x in items && x !in a;
        SubsetCard(a, items - {x});
      }
    }
    if forall x | x in items :: !Present(test, vba, x) {
      assert a == items;
    }
  }

  /** When nothing of a non-empty set is found, the fraction is 1 and exceeds every threshold
      below 1. */
  lemma AllAbsentExceeds(test: Test, vba: string, items: set<string>, tenths: nat)
    requires items != {} && tenths < 10
    requires forall x | x in items :: !Present(test, vba, x)
    ensures Exceeds(MissingRatio(test, vba, items), tenths)
  {
    assert Absent(test, vba, items) == items;
    WholeExceeds(MissingRatio(test, vba, items), tenths);
  }

  /** A fraction of 1 exceeds every threshold below 1. */
  lemma WholeExceeds(r: Ratio, tenths: nat)
    requires r.missing == r.total > 0 && tenths < 10
    ensures Exceeds(r, tenths)
  {
    assert r.total * 10 == r.total * tenths + r.total * (10 - tenths);
  }

  /** A fraction above any threshold has at least one missing item. */
  lemma ExceedsHasMissing(r: Ratio, tenths: nat)
    requires Exceeds(r, tenths)
    ensures r.missing > 0
  {
  }

  /** Raising the threshold can only turn an excess off. */
  lemma ExceedsMonotone(r: Ratio, lower: nat, higher: nat)
    requires lower <= higher && Exceeds(r, higher)
    ensures Exceeds(r, lower)
  {
    assert r.total * lower <= r.total * higher;
  }

  /** One presence test as the source runs it: for a comment, the substring test first, and
      the pattern only when that fails. */
  method TestPresence(test: Test, vba: string, x: string) returns (found: bool)
    ensures found == Present(test, vba, x)
  {
    match test
    case Substring => found := IdPresent(vba, x);
    case Quoted => found := StrPresent(vba, x);
    case CommentPattern =>
      if Contains(vba, x) {
        return true;
      }
      var pat := BuildPattern(x);
      found := Search(pat, vba);
  }

  /** The absent items of one more item. */
  lemma AbsentStep(test: Test, vba: string, done: set<string>, x: string)
    requires x !in done
    ensures |Absent(test, vba, done + {x})| ==
      |Absent(test, vba, done)| + (if Present(test, vba, x) then 0 else 1)
  {
    if Present(test, vba, x) {
      assert Absent(test, vba, done + {x}) == Absent(test, vba, done);
    } else {
      assert Absent(test, vba, done + {x}) == Absent(test, vba, done) + {x};
    }
  }

  /** The counting loop of `_missing_ids`, `_missing_strs` and `_missing_comments`: one pass
      over the set, adding one for each item the test does not find. */
  method CountMissing(test: Test, vba: string, items: set<string>) returns (r: Ratio)
    ensures r == MissingRatio(test, vba, items)
  {
    var missing := 0;
    var todo := items;
    while todo != {}
      invariant todo <= items
      invariant missing == |Absent(test, vba, items - todo)|
      decreases |todo|
    {
      var x :| x in todo;
      var done := items - todo;
      assert items - (todo - {x}) == done + {x};
      AbsentStep(test, vba, done, x);
      var found := TestPresence(test, vba, x);
      if !found {
        missing := missing + 1;
      }
      todo := todo - {x};
    }
    assert items - todo == items;
    r := Ratio(missing, |items|);
  }
}
