/**
 * The older version of the detector (`vba_seismograph.py`). It shares the line scanner and the
 * literal extractor with the current version, but filters identifiers only by containment
 * and a shorter denylist, keeps comments as they are, tests every item by plain substring
 * (literals by their quoted forms) and flags a document as soon as one item of any category is
 * missing.
 */
module Seismograph1 {
  import opened Outcomes
  import opened Text
  import opened Scanner
  import opened Extract
  import opened Matching
  import Seismograph3

  /** The older denylist: names that the p-code declares but the VBA source need not contain. */
  const CommonIds1: set<string> := {
    "Word", "VBA", "Win16", "Win32", "Win64", "Mac", "VBA6", "VBA7", "Project1", "stdole",
    "Project", "ThisDocument", "_Evaluate", "Normal", "Office", "Document"
  }

  /** The current denylist only grew. */
  lemma DenylistGrew()
    ensures CommonIds1 < Seismograph3.CommonIds
    ensures Seismograph3.CommonIds - CommonIds1 == {"VBAProject", "Excel", "Add", "MSForms", "UserForm"}
  {
  }

  // ----- The identifier filter -----

  /** A raw identifier survives the older filter: it occurs in the instruction listing and is
      not denylisted. */
  predicate Kept1(instructions: string, raw: string) {
    Contains(instructions, raw) && raw !in CommonIds1
  }

  /** The raw identifiers kept against an instruction listing. */
  function KeptIds1(raw: set<string>, instructions: string): set<string> {
    set x | x in raw && Kept1(instructions, x)
  }

  /** The older filter. Without an instruction listing, the containment test on the first
      identifier looked at raises, so only an empty set of identifiers gets through. */
  function FilteredIds1(raw: set<string>, instructions: Option<string>): (r: Result<set<string>>)
    ensures r.Err? <==> instructions.None? && raw != {}
    ensures r.Ok? ==> r.value <= raw
  {
    match instructions
    case None => if raw == {} then Ok({}) else Err(NoInstructionText)
    case Some(text) => Ok(KeptIds1(raw, text))
  }

  /** The kept identifiers of one more raw identifier. */
  lemma KeptIds1Step(done: set<string>, x: string, instructions: string)
    ensures KeptIds1(done + {x}, instructions) ==
      KeptIds1(done, instructions) + (if Kept1(instructions, x) then {x} else {})
  {
  }

  /** What looking at one more identifier does to the kept set, branch by branch. */
  lemma FilterStep(ids: set<string>, todo: set<string>, x: string, instructions: string, tmp: set<string>)
    requires x in todo && todo <= ids && tmp == KeptIds1(ids - todo, instructions)
    ensures Kept1(instructions, x) ==> tmp + {x} == KeptIds1(ids - (todo - {x}), instructions)
    ensures !Kept1(instructions, x) ==> tmp == KeptIds1(ids - (todo - {x}), instructions)
  {
    assert ids - (todo - {x}) == (ids - todo) + {x};
    KeptIds1Step(ids - todo, x, instructions);
  }

  /** The loop over the raw identifiers that fills `tmp`. */
  method FilterIds1(ids: set<string>, instructions: Option<string>) returns (r: Result<set<string>>)
    ensures r == FilteredIds1(ids, instructions)
  {
    var tmp := {};
    var todo := ids;
    while todo != {}
      invariant todo <= ids
      invariant instructions.None? ==> todo == ids && tmp == {}
      invariant instructions.Some? ==> tmp == KeptIds1(ids - todo, instructions.value)
      decreases |todo|
    {
      var currId :| currId in todo;
      if instructions.None? {
        return Err(NoInstructionText);
      }
      FilterStep(ids, todo, currId, instructions.value, tmp);
      todo := todo - {currId};
      if Contains(instructions.value, currId) && currId !in CommonIds1 {
        tmp := tmp + {currId};
      }
    }
    assert ids - todo == ids;
    return Ok(tmp);
  }

  /** `_get_pcode_ids` of the older version. */
  function PcodeIds1(pcode: string): Result<set<string>> {
    var lines := Split(pcode, '\n');
    FilteredIds1(IdsBefore(lines, |lines|), InstructionsBefore(lines, |lines|))
  }

  /** `_get_pcode_ids`: the line scan, then the filter. */
  method GetPcodeIds1(pcode: string) returns (r: Result<set<string>>)
    ensures r == PcodeIds1(pcode)
  {
    var lines := Split(pcode, '\n');
    var raw, instructions := ScanLines(lines);
    r := FilterIds1(raw, instructions);
  }

  /** The older version fails on a disassembly with identifiers but no `Line #` header; otherwise
      it returns exactly the identifiers some table line adds that occur in the instruction
      listing and are not denylisted, with no boundary test, no prefix test and no removal of
      underscores. */
  lemma PcodeIds1Meaning(pcode: string, x: string)
    ensures var lines := Split(pcode, '\n');
      PcodeIds1(pcode).Err? <==> InstructionsBefore(lines, |lines|).None? && IdsBefore(lines, |lines|) != {}
    ensures var lines := Split(pcode, '\n');
      PcodeIds1(pcode).Ok? ==>
        (x in PcodeIds1(pcode).value <==>
          (exists k | 0 <= k < |lines| :: AddsId(lines, k, x)) &&
          InstructionsBefore(lines, |lines|).Some? && Kept1(InstructionsBefore(lines, |lines|).value, x))
  {
    var lines := Split(pcode, '\n');
    IdsBeforeMeaning(lines, |lines|, x);
  }

  /** Every raw identifier the current filter keeps against a listing, the older filter keeps
      too: the current tests include the older ones. */
  lemma KeptByBoth(instructions: string, raw: string)
    requires Seismograph3.Kept(Some(instructions), raw)
    ensures Kept1(instructions, raw)
  {
    DenylistGrew();
  }

  // ----- Comments -----

  /** `_get_pcode_comments` of the older version: comments are kept as they are. */
  method GetPcodeComments1(pcode: string) returns (r: Result<set<string>>)
    ensures r == Extracted(Comments1, Split(pcode, '\n'))
  {
    r := Collect(Comments1, Split(pcode, '\n'));
  }

  /** Both comment extractors look at the same lines, so they fail on the same disassemblies. */
  lemma CommentExtractorsFailAlike(lines: seq<string>, n: nat)
    requires n <= |lines|
    ensures WellFormedBefore(Comments1, lines, n) == WellFormedBefore(Comments3, lines, n)
  {
    forall k: nat | k < n ensures WellFormedAt(Comments1, lines)(k) == WellFormedAt(Comments3, lines)(k) {
      CommentRulesSameLines(lines[k]);
    }
  }

  /** Both comment extractors take the same lines for comment instructions. */
  lemma CommentRulesSameLines(line: string)
    ensures IsInstr(Comments1, line) == IsInstr(Comments3, line)
    ensures Malformed(Comments1, line) == Malformed(Comments3, line)
  {
    assert Opcode(Comments1) == Opcode(Comments3);
  }

  /** A comment the current version misses on a line, the older version misses too: either the
      two store the same text, or the current one stores `_`, which is then nowhere in the
      source, while the older one stores a text ending in `_`. */
  lemma CommentMissedByBoth(text: string, line: string)
    requires !CommentPresent(text, ItemOfLine(Comments3, line))
    ensures !Contains(text, ItemOfLine(Comments1, line))
  {
    var c := ItemOfLine(Comments3, line);
    assert !Contains(text, c);
    match QuotedTail(Strip(line))
    case None =>
      assert OccursAt(text, c, 0);
    case Some(t) =>
      ItemMissedByBoth(text, t);
  }

  /** The same for the quoted text of a line. */
  lemma ItemMissedByBoth(text: string, t: string)
    requires !Contains(text, ItemOf(Comments3, t))
    ensures !Contains(text, ItemOf(Comments1, t))
  {
    if EndsWith(t, "_") {
      UnderscoreCommentCollapses(t);
      if Contains(text, t) {
        assert OccursAt(t, "_", |t| - 1);
        ContainsTransitive(text, t, "_");
      }
    }
  }

  // ----- The presence tests -----

  /** What `_missing_ids`, `_missing_strs` and `_missing_comments` report: some item is not
      found. */
  predicate SomeAbsent(test: Test, vba: string, items: set<string>) {
    exists x | x in items :: !Present(test, vba, x)
  }

  /** An item is missing exactly when the current version's fraction for the same items is not
      zero. */
  lemma SomeAbsentIffNonzero(test: Test, vba: string, items: set<string>)
    ensures SomeAbsent(test, vba, items) <==> MissingRatio(test, vba, items).missing > 0
    ensures items == {} ==> !SomeAbsent(test, vba, items)
  {
    MissingRatioBounds(test, vba, items);
  }

  /** The loop of the older `_missing_*` functions: set the flag for each item not found. */
  method AnyMissing(test: Test, vba: string, items: set<string>) returns (missing: bool)
    requires test != CommentPattern
    ensures missing == SomeAbsent(test, vba, items)
  {
    missing := false;
    var todo := items;
    while todo != {}
      invariant todo <= items
      invariant missing == SomeAbsent(test, vba, items - todo)
      decreases |todo|
    {
      var x :| x in todo;
      var done := items - todo;
      assert items - (todo - {x}) == done + {x};
      var found := TestPresence(test, vba, x);
      if !found {
        missing := true;
      }
      todo := todo - {x};
      assert missing == SomeAbsent(test, vba, done + {x}) by {
        if SomeAbsent(test, vba, done + {x}) && !SomeAbsent(test, vba, done) {
          assert !Present(test, vba, x);
        }
      }
    }
    assert items - todo == items;
  }

  // ----- The verdict -----

  /** The three categories of items of a disassembly. */
  datatype Items = Items(ids: set<string>, strs: set<string>, comments: set<string>)

  /** The items of the older version, or the failure of an extractor: identifiers, then
      literals, then comments. No sensitivity is involved, so the threshold never fails. */
  function PcodeItems1(pcode: string): (r: Result<Items>)
    ensures r.Err? ==> r.failure != ThresholdUnbound
  {
    var lines := Split(pcode, '\n');
    match PcodeIds1(pcode)
    case Err(f) => Err(f)
    case Ok(ids) =>
      match Extracted(LitStrs, lines)
      case Err(f) => Err(f)
      case Ok(strs) =>
        match Extracted(Comments1, lines)
        case Err(f) => Err(f)
        case Ok(comments) => Ok(Items(ids, strs, comments))
  }

  /** One missing item of any category is enough. Comments are tested by plain substring. */
  predicate Stomped1(vba: string, items: Items) {
    SomeAbsent(Substring, vba, items.ids) || SomeAbsent(Quoted, vba, items.strs) ||
    SomeAbsent(Substring, vba, items.comments)
  }

  /** The verdict of the older `detect_stomping_via_pcode` once the disassembly and the source
      exist. The source is used as it is. */
  function Decide1(pcode: string, vba: string): Result<bool> {
    match PcodeItems1(pcode)
    case Err(f) => Err(f)
    case Ok(items) => Ok(Stomped1(vba, items))
  }

  /** `detect_stomping_via_pcode` of the older version from the disassembly on: each category
      with a missing item sets `stomped`. */
  method DetectStomping1(pcode: string, vba: string) returns (r: Result<bool>)
    ensures r == Decide1(pcode, vba)
  {
    var pcodeIds := GetPcodeIds1(pcode);
    if pcodeIds.Err? {
      return Err(pcodeIds.failure);
    }
    var stomped := false;
    var missingIds := AnyMissing(Substring, vba, pcodeIds.value);
    if missingIds {
      stomped := true;
    }
    var pcodeStrs := GetPcodeStrs(pcode);
    if pcodeStrs.Err? {
      return Err(pcodeStrs.failure);
    }
    var missingStrs := AnyMissing(Quoted, vba, pcodeStrs.value);
    if missingStrs {
      stomped := true;
    }
    var pcodeComments := GetPcodeComments1(pcode);
    if pcodeComments.Err? {
      return Err(pcodeComments.failure);
    }
    var missingComments := AnyMissing(Substring, vba, pcodeComments.value);
    if missingComments {
      stomped := true;
    }
    return Ok(stomped);
  }

  /** The failures and their order: the identifiers fail first, then the literals, then the
      comments. */
  lemma Decide1Failures(pcode: string, vba: string)
    ensures PcodeIds1(pcode).Err? ==> Decide1(pcode, vba) == Err(NoInstructionText)
    ensures var lines := Split(pcode, '\n');
      PcodeIds1(pcode).Ok? && !WellFormedBefore(LitStrs, lines, |lines|) ==>
        Decide1(pcode, vba) == Err(LitStrWithoutQuote)
    ensures var lines := Split(pcode, '\n');
      Decide1(pcode, vba).Ok? <==>
        PcodeIds1(pcode).Ok? && WellFormedBefore(LitStrs, lines, |lines|) &&
        WellFormedBefore(Comments1, lines, |lines|)
  {
  }

  /** The older verdict has no tolerance: it is the current flagging rule with a threshold of
      zero, applied to the older items. */
  lemma NoTolerance(vba: string, items: Items)
    ensures Stomped1(vba, items) <==>
      Seismograph3.Flagged(
        Seismograph3.Fractions(MissingRatio(Substring, vba, items.ids), MissingRatio(Quoted, vba, items.strs),
          MissingRatio(Substring, vba, items.comments)),
        0)
  {
    SomeAbsentIffNonzero(Substring, vba, items.ids);
    SomeAbsentIffNonzero(Quoted, vba, items.strs);
    SomeAbsentIffNonzero(Substring, vba, items.comments);
  }

  /** An identifier the current version misses, the older version misses too, unless it fails
      for want of an instruction listing. */
  lemma IdsMissedByBoth(pcode: string, text: string)
    requires PcodeIds1(pcode).Ok?
    requires MissingRatio(Substring, text, Seismograph3.PcodeIds(pcode)).missing > 0
    ensures SomeAbsent(Substring, text, PcodeIds1(pcode).value)
  {
    var lines := Split(pcode, '\n');
    FilteredMissedByBoth(IdsBefore(lines, |lines|), InstructionsBefore(lines, |lines|), text);
  }

  /** The same on the raw identifiers and the instruction listing of one scan: a kept
      identifier the current filter misses comes from a raw identifier that the older filter
      keeps and that is missing too. */
  lemma FilteredMissedByBoth(raw: set<string>, instructions: Option<string>, text: string)
    requires FilteredIds1(raw, instructions).Ok?
    requires MissingRatio(Substring, text, Seismograph3.FilteredIds(raw, instructions)).missing > 0
    ensures SomeAbsent(Substring, text, FilteredIds1(raw, instructions).value)
  {
    var ids := Seismograph3.FilteredIds(raw, instructions);
    SomeAbsentIffNonzero(Substring, text, ids);
    var x :| x in ids && !IdPresent(text, x);
    var r :| r in raw && Seismograph3.Kept(instructions, r) && Trim(r, Underscore) == x;
    assert instructions.Some?;
    KeptByBoth(instructions.value, r);
    assert r in FilteredIds1(raw, instructions).value;
    RawMissed(text, r, x);
  }

  /** A raw identifier whose trimmed form is not in the source is not there either. */
  lemma RawMissed(text: string, raw: string, x: string)
    requires Trim(raw, Underscore) == x && !IdPresent(text, x)
    ensures !Present(Substring, text, raw)
  {
    if Contains(text, raw) {
      TrimContained(raw, Underscore);
      ContainsTransitive(text, raw, x);
    }
  }

  /** A comment the current version misses, the older version misses too. */
  lemma CommentsMissedByBoth(lines: seq<string>, text: string)
    requires Extracted(Comments3, lines).Ok? && Extracted(Comments1, lines).Ok?
    requires MissingRatio(CommentPattern, text, Extracted(Comments3, lines).value).missing > 0
    ensures SomeAbsent(Substring, text, Extracted(Comments1, lines).value)
  {
    var comments := Extracted(Comments3, lines).value;
    assert comments == ItemsBefore(Comments3, lines, |lines|);
    SomeAbsentIffNonzero(CommentPattern, text, comments);
    var c :| c in comments && !CommentPresent(text, c);
    var k := YieldingLine(Comments3, lines, |lines|, c);
    var c1 := ItemOfLine(Comments1, lines[k]);
    CommentMissedByBoth(text, lines[k]);
    assert IsInstr(Comments3, lines[k]);
    CommentRulesSameLines(lines[k]);
    LineYields(Comments1, lines, |lines|, k);
    assert c1 in Extracted(Comments1, lines).value;
    assert !Present(Substring, text, c1);
  }

  /** The older version is at least as strict as the current one at any sensitivity, the high
      one included: a document the current version flags, the older version flags too when
      given the same rewritten source, unless it fails for want of an instruction listing. */
  lemma AtLeastAsStrict(pcode: string, vba: string, sensitivity: string)
    requires Seismograph3.Decide(pcode, vba, sensitivity) == Ok(true)
    ensures var text := Seismograph3.Normalize(vba);
      Decide1(pcode, text) == Ok(true) || Decide1(pcode, text) == Err(NoInstructionText)
  {
    var text := Seismograph3.Normalize(vba);
    var lines := Split(pcode, '\n');
    Seismograph3.StompedMissesSomething(pcode, vba, sensitivity);
    Seismograph3.DecideFailures(pcode, vba, sensitivity);
    CommentExtractorsFailAlike(lines, |lines|);
    if PcodeIds1(pcode).Ok? {
      var items := PcodeItems1(pcode).value;
      var fs := Seismograph3.MissingFractions(pcode, text).value;
      if fs.ids.missing > 0 {
        IdsMissedByBoth(pcode, text);
      } else if fs.strs.missing > 0 {
        SomeAbsentIffNonzero(Quoted, text, items.strs);
      } else {
        CommentsMissedByBoth(lines, text);
      }
      assert Stomped1(text, items);
    }
  }

  // ----- The two versions on the raw source -----

  /** A disassembly of one line that is neither a table header nor a listing header has no
      identifiers and no listing. */
  lemma OneLineScan(line: string)
    requires line != IdHeader && !StartsWith(line, LineHeader)
    ensures IdsBefore([line], 1) == {} && InstructionsBefore([line], 1) == None
  {
    var lines := [line];
    assert !OpensInstructions(lines, 0);
    assert !Collects(lines)(0) by {
      assert !InIdSection(lines, 0);
    }
    GatherStep(0, Collects(lines), IdAt(lines));
  }

  /** The items of a one-line disassembly. */
  lemma OneLineItems(rule: Rule, line: string)
    ensures ItemsBefore(rule, [line], 1) == if IsInstr(rule, line) then {ItemOfLine(rule, line)} else {}
  {
    var lines := [line];
    ItemsStep(rule, lines, 0);
    assert ItemsBefore(rule, lines, 0) == {};
  }

  /** A one-line disassembly is well formed unless its line is malformed. */
  lemma OneLineWellFormed(rule: Rule, line: string)
    requires !Malformed(rule, line)
    ensures WellFormedBefore(rule, [line], 1)
  {
    var lines := [line];
    forall k: nat | k < 1 ensures WellFormedAt(rule, lines)(k) {
      assert lines[k] == line;
    }
  }

  /** An extractor over one line that is not malformed: the line's item if it is an
      instruction of the rule, nothing otherwise. */
  lemma OneLineExtract(rule: Rule, line: string)
    requires !Malformed(rule, line)
    ensures Extracted(rule, [line]) == Ok(if IsInstr(rule, line) then {ItemOfLine(rule, line)} else {})
  {
    OneLineItems(rule, line);
    OneLineWellFormed(rule, line);
  }

  /** A comment continued by its own underscore: the disassembly holds `abc_`, the source the
      same comment line. */
  const ContinuedPcode := "QuoteRem 0x0000 0x0004 \"abc_\""
  const ContinuedVba := "' abc_\n"

  /** A disassembly of one well-formed `QuoteRem` line yields no identifiers and no literals,
      and one comment under each version's rule. */
  lemma OneCommentLine(prefix: string, comment: string)
    requires StartsWith(prefix, QuoteRemOp) && '"' !in prefix
    requires '\n' !in prefix && '\n' !in comment
    ensures var line := prefix + "\"" + comment + "\"";
      Split(line, '\n') == [line] &&
      Seismograph3.PcodeIds(line) == {} && PcodeIds1(line) == Ok({}) &&
      Extracted(LitStrs, [line]) == Ok({}) &&
      Extracted(Comments3, [line]) == Ok({ItemOf(Comments3, comment)}) &&
      Extracted(Comments1, [line]) == Ok({comment})
  {
    var line := prefix + "\"" + comment + "\"";
    assert line[0] == 'Q' by {
      assert line[0] == prefix[0] == QuoteRemOp[0];
    }
    assert '\n' !in line;
    assert Split(line, '\n') == [line];
    assert line != IdHeader && !StartsWith(line, LineHeader) by {
      assert IdHeader[0] != 'Q' && LineHeader[0] != 'Q';
    }
    OneLineScan(line);
    ItemOfQuotedInstr(Comments3, prefix, comment);
    ItemOfQuotedInstr(Comments1, prefix, comment);
    LineOutcome(Comments3, line);
    LineOutcome(Comments1, line);
    assert !IsInstr(LitStrs, line) by {
      assert StartsWith(Strip(line), QuoteRemOp);
      assert Strip(line)[0] == 'Q' && LitStrOp[0] == 'L';
    }
    OneLineExtract(LitStrs, line);
    OneLineExtract(Comments3, line);
    OneLineExtract(Comments1, line);
  }

  /** A text without carriage returns or underscores, followed by a continuation, is
      rewritten to the text and a line feed. */
  lemma RewrittenContinuation(a: string)
    requires '\r' !in a && '_' !in a
    ensures Seismograph3.Normalize(a + "_\n") == a + "\n"
  {
    var s := a + "_\n";
    assert '\r' !in s;
    assert ReplaceChar(s, '\r', "") == s;
    assert !Contains(a, "_\n") by {
      forall i | 0 <= i <= |a| - 2 ensures !OccursAt(a, "_\n", i) {
        assert a[i] != '_';
      }
    }
    Seismograph3.JoinContinuationsNoop(a);
    Seismograph3.JoinAroundContinuation(a, "");
    assert a + "_\n" + "" == s;
  }

  /** The stored comment `"_"` is missed by a source without an underscore. */
  lemma UnderscoreCommentMissed(text: string)
    requires '_' !in text
    ensures MissingRatio(CommentPattern, text, {"_"}) == Ratio(1, 1)
  {
    UnderscoreCommentPresence(text);
    assert Absent(CommentPattern, text, {"_"}) == {"_"};
  }

  /** The current version's fractions for one continued comment line, against a source
      without an underscore: no identifiers, no literals, and the one comment missing. */
  lemma ContinuedCommentFractions(prefix: string, comment: string, text: string)
    requires StartsWith(prefix, QuoteRemOp) && '"' !in prefix && '\n' !in prefix && '\n' !in comment
    requires EndsWith(comment, "_") && '_' !in text
    ensures Seismograph3.MissingFractions(prefix + "\"" + comment + "\"", text) ==
      Ok(Seismograph3.Fractions(Ratio(0, 0), Ratio(0, 0), Ratio(1, 1)))
  {
    OneCommentLine(prefix, comment);
    UnderscoreCommentCollapses(comment);
    UnderscoreCommentMissed(text);
    assert Absent(Substring, text, {}) == {} && Absent(Quoted, text, {}) == {};
  }

  /** A comment continued by its own underscore, in a source whose only underscore is that
      one: the current version stores `"_"`, rewrites the underscore away and flags the
      document at every sensitivity. */
  lemma ContinuedCommentFlagged(prefix: string, comment: string, a: string, sensitivity: string)
    requires StartsWith(prefix, QuoteRemOp) && '"' !in prefix && '\n' !in prefix && '\n' !in comment
    requires EndsWith(comment, "_")
    requires '\r' !in a && '_' !in a
    requires Seismograph3.Threshold(sensitivity).Some?
    ensures Seismograph3.Decide(prefix + "\"" + comment + "\"", a + "_\n", sensitivity) == Ok(true)
  {
    RewrittenContinuation(a);
    assert '_' !in a + "\n";
    ContinuedCommentFractions(prefix, comment, a + "\n");
  }

  /** In the same case the older version keeps the comment as it is and finds it, so it does
      not flag the raw source. */
  lemma ContinuedCommentFound1(prefix: string, comment: string, vba: string)
    requires StartsWith(prefix, QuoteRemOp) && '"' !in prefix && '\n' !in prefix && '\n' !in comment
    requires Contains(vba, comment)
    ensures Decide1(prefix + "\"" + comment + "\"", vba) == Ok(false)
  {
    OneCommentLine(prefix, comment);
    var items := PcodeItems1(prefix + "\"" + comment + "\"").value;
    assert items == Items({}, {}, {comment});
    assert !SomeAbsent(Substring, vba, items.comments);
  }

  /** The parts of the example: the instruction's prefix, the comment, and the source
      before its continuation. */
  lemma ContinuedExample() returns (prefix: string, comment: string, a: string)
    ensures ContinuedPcode == prefix + "\"" + comment + "\"" && ContinuedVba == a + "_\n"
    ensures StartsWith(prefix, QuoteRemOp) && '"' !in prefix && '\n' !in prefix && '\n' !in comment
    ensures EndsWith(comment, "_") && '\r' !in a && '_' !in a && Contains(ContinuedVba, comment)
  {
    prefix, comment, a := "QuoteRem 0x0000 0x0004 ", "abc_", "' abc";
    assert OccursAt(ContinuedVba, comment, 2);
  }

  /** On the raw source the older version is not at least as strict: the current version
      stores the comment as `"_"` and rewrites the source to `' abc` with a line feed, which
      holds no underscore, so it flags at every sensitivity; the older version finds `abc_`
      by substring and does not flag. */
  lemma V1NotAsStrictOnRawSource()
    ensures Seismograph3.Decide(ContinuedPcode, ContinuedVba, "high") == Ok(true)
    ensures Seismograph3.Decide(ContinuedPcode, ContinuedVba, "low") == Ok(true)
    ensures Decide1(ContinuedPcode, ContinuedVba) == Ok(false)
  {
    var prefix, comment, a := ContinuedExample();
    ContinuedCommentFlagged(prefix, comment, a, "high");
    ContinuedCommentFlagged(prefix, comment, a, "low");
    ContinuedCommentFound1(prefix, comment, ContinuedVba);
  }
}
