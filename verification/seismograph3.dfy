/**
 * The current version of the detector: the identifier filter of `_get_pcode_ids`, the
 * comment extractor with its trailing-underscore rule, the missing fractions, the rewriting
 * of the VBA source and the thresholded verdict of `detect_stomping_via_pcode`.
 */
module Seismograph3 {
  import opened Outcomes
  import opened Text
  import opened Scanner
  import opened Extract
  import opened Matching

  /** Names that the p-code declares but the VBA source need not contain. */
  const CommonIds: set<string> := {
    "Word", "VBA", "Win16", "Win32", "Win64", "Mac", "VBA6", "VBA7", "Project1", "stdole",
    "VBAProject", "Excel", "Project", "ThisDocument", "_Evaluate", "Normal", "Office", "Add",
    "MSForms", "UserForm", "Document"
  }

  /** The prefix of compiler-generated variables. */
  const BVarPrefix := "_B_var_"

  // ----- The boundary test: `re.findall("." + id + ".", instructions)` -----

  /** The pattern `.id.` matches at `p`: any character but a line feed, the identifier, and
      again any character but a line feed. */
  predicate WindowAt(s: string, id: string, p: int) {
    0 <= p && p + |id| + 2 <= |s| && s[p] != '\n' && OccursAt(s, id, p + 1) && s[p + |id| + 1] != '\n'
  }

  /** A match at `p` whose first and last characters are not alphanumeric: the identifier
      stands on its own there. */
  predicate Standalone(s: string, id: string, p: int) {
    WindowAt(s, id, p) && !IsAlnum(s[p]) && !IsAlnum(s[p + |id| + 1])
  }

  /** Where `findall` finds its matches, scanning from `pos`: the leftmost match, then the
      next one from the end of that match on, so matches never overlap. */
  function Starts(s: string, id: string, pos: nat): (r: seq<nat>)
    ensures forall k :: 0 <= k < |r| ==> pos <= r[k] && WindowAt(s, id, r[k])
    ensures forall k :: 0 <= k < |r| - 1 ==> r[k] + |id| + 2 <= r[k + 1]
    decreases |s| - pos
  {
    if pos + |id| + 2 > |s| then []
    else if WindowAt(s, id, pos) then [pos] + Starts(s, id, pos + |id| + 2)
    else Starts(s, id, pos + 1)
  }

  /** The scan misses no match before its first one: if `.id.` matches anywhere at or after
      `pos`, the scan finds a match, and none later than that one. */
  lemma {:induction false} FirstMatchFound(s: string, id: string, pos: nat, p: int)
    requires pos <= p && WindowAt(s, id, p)
    ensures |Starts(s, id, pos)| > 0 && Starts(s, id, pos)[0] <= p
    decreases |s| - pos
  {
    if !WindowAt(s, id, pos) {
      FirstMatchFound(s, id, pos + 1, p);
    }
  }

  /** Some match that `findall` returns is standalone. */
  predicate FoundStandalone(s: string, id: string) {
    var starts := Starts(s, id, 0);
    exists k | 0 <= k < |starts| :: Standalone(s, id, starts[k])
  }

  /** The loop over the `findall` matches that sets `keep` and stops at the first standalone
      one. */
  method HasStandaloneMatch(instructions: string, id: string) returns (keep: bool)
    ensures keep == FoundStandalone(instructions, id)
  {
    var starts := Starts(instructions, id, 0);
    keep := false;
    var i := 0;
    while i < |starts|
      invariant 0 <= i <= |starts|
      invariant forall k | 0 <= k < i :: !Standalone(instructions, id, starts[k])
    {
      var m := instructions[starts[i]..starts[i] + |id| + 2];
      if !IsAlnum(m[0]) && !IsAlnum(m[|m| - 1]) {
        keep := true;
        break;
      }
      i := i + 1;
    }
  }

  /** A kept identifier has a standalone occurrence in the instructions. */
  lemma StandaloneOccurrence(s: string, id: string)
    requires FoundStandalone(s, id)
    ensures exists p :: Standalone(s, id, p)
    ensures Contains(s, id)
  {
    var starts := Starts(s, id, 0);
    var k :| 0 <= k < |starts| && Standalone(s, id, starts[k]);
    assert Standalone(s, id, starts[k]);
    assert OccursAt(s, id, starts[k] + 1);
  }

  /** The matches do not overlap, so a standalone occurrence that shares its first character
      with the end of an earlier, embedded match is never looked at: in `aX-X-` the scan
      takes `aX-` and stops, and the identifier `X` is dropped although `-X-` stands alone. */
  lemma OverlapHidesStandalone()
    ensures Standalone("aX-X-", "X", 2)
    ensures !FoundStandalone("aX-X-", "X")
  {
    var s := "aX-X-";
    assert s[1..2] == "X";
    assert WindowAt(s, "X", 0);
    assert Starts(s, "X", 3) == [];
    assert Starts(s, "X", 0) == [0];
    assert s[3..4] == "X";
  }

  // ----- Underscore affixes -----

  /** The two `while` loops that remove leading, then trailing underscores. */
  method StripUnderscores(id: string) returns (r: string)
    ensures r == Trim(id, Underscore)
  {
    r := DropLeadingUnderscores(id);
    r := DropTrailingUnderscores(r);
  }

  /** `while curr_id.startswith("_"): curr_id = curr_id[1:]` */
  method DropLeadingUnderscores(id: string) returns (r: string)
    ensures r == TrimLeading(id, Underscore)
  {
    r := id;
    while StartsWith(r, "_")
      invariant TrimLeading(r, Underscore) == TrimLeading(id, Underscore)
      decreases |r|
    {
      LeadingUnderscore(r);
      r := r[1..];
    }
    LeadingUnderscore(r);
  }

  /** One step of the loop, and its exit. */
  lemma LeadingUnderscore(r: string)
    ensures StartsWith(r, "_") ==> TrimLeading(r[1..], Underscore) == TrimLeading(r, Underscore)
    ensures !StartsWith(r, "_") ==> TrimLeading(r, Underscore) == r
  {
    if r != [] {
      assert r[..1] == [r[0]];
    }
  }

  /** `while curr_id.endswith("_"): curr_id = curr_id[:-1]` */
  method DropTrailingUnderscores(id: string) returns (r: string)
    ensures r == TrimTrailing(id, Underscore)
  {
    r := id;
    while EndsWith(r, "_")
      invariant TrimTrailing(r, Underscore) == TrimTrailing(id, Underscore)
      decreases |r|
    {
      TrailingUnderscore(r);
      r := r[..|r| - 1];
    }
    TrailingUnderscore(r);
  }

  /** One step of the loop, and its exit. */
  lemma TrailingUnderscore(r: string)
    ensures EndsWith(r, "_") ==> TrimTrailing(r[..|r| - 1], Underscore) == TrimTrailing(r, Underscore)
    ensures !EndsWith(r, "_") ==> TrimTrailing(r, Underscore) == r
  {
    if r != [] {
      assert r[|r| - 1..] == [r[|r| - 1]];
    }
  }

  // ----- The identifier filter -----

  /** A raw identifier survives the filter: it is in the instructions (when there are any),
      not in the denylist, not a generated variable, and (when there are instructions) the
      boundary test finds it standing on its own. */
  predicate Kept(instructions: Option<string>, raw: string) {
    !(instructions.Some? && !Contains(instructions.value, raw)) &&
    raw !in CommonIds &&
    !StartsWith(raw, BVarPrefix) &&
    (instructions.Some? ==> FoundStandalone(instructions.value, raw))
  }

  /** The kept identifiers, with their underscore affixes removed. */
  function FilteredIds(raw: set<string>, instructions: Option<string>): set<string> {
    set x | x in raw && Kept(instructions, x) :: Trim(x, Underscore)
  }

  /** The filtered set of one more raw identifier. */
  lemma FilteredStep(done: set<string>, x: string, instructions: Option<string>)
    ensures FilteredIds(done + {x}, instructions) ==
      FilteredIds(done, instructions) + (if Kept(instructions, x) then {Trim(x, Underscore)} else {})
  {
  }

  /** The loop over the raw identifiers that fills `tmp`. */
  method FilterIds(ids: set<string>, instructions: Option<string>) returns (tmp: set<string>)
    ensures tmp == FilteredIds(ids, instructions)
  {
    tmp := {};
    var todo := ids;
    while todo != {}
      invariant todo <= ids
      invariant tmp == FilteredIds(ids - todo, instructions)
      decreases |todo|
    {
      var currId :| currId in todo;
      FilteredStep(ids - todo, currId, instructions);
      assert ids - (todo - {currId}) == (ids - todo) + {currId};
      todo := todo - {currId};
      if (instructions.Some? && !Contains(instructions.value, currId)) || currId in CommonIds ||
         StartsWith(currId, BVarPrefix) {
        continue;
      }
      if instructions.Some? {
        var keep := HasStandaloneMatch(instructions.value, currId);
        if !keep {
          continue;
        }
      }
      var stripped := StripUnderscores(currId);
      tmp := tmp + {stripped};
    }
    assert ids - todo == ids;
  }

  /** `_get_pcode_ids` of the current version. */
  function PcodeIds(pcode: string): set<string> {
    var lines := Split(pcode, '\n');
    FilteredIds(IdsBefore(lines, |lines|), InstructionsBefore(lines, |lines|))
  }

  /** `_get_pcode_ids`: the line scan, then the filter. */
  method GetPcodeIds(pcode: string) returns (ids: set<string>)
    ensures ids == PcodeIds(pcode)
  {
    var lines := Split(pcode, '\n');
    var raw, instructions := ScanLines(lines);
    ids := FilterIds(raw, instructions);
  }

  /** Every identifier returned comes from a kept raw identifier by removing its underscore
      affixes, so none starts or ends with `_`. */
  lemma IdsHaveNoUnderscoreAffixes(pcode: string, x: string)
    requires x in PcodeIds(pcode)
    ensures x == [] || (x[0] != '_' && x[|x| - 1] != '_')
    ensures var lines := Split(pcode, '\n');
      exists raw | raw in IdsBefore(lines, |lines|) ::
        Kept(InstructionsBefore(lines, |lines|), raw) && Trim(raw, Underscore) == x
  {
    var lines := Split(pcode, '\n');
    var raw :| raw in IdsBefore(lines, |lines|) && Kept(InstructionsBefore(lines, |lines|), raw) &&
      Trim(raw, Underscore) == x;
  }

  /** With an instruction listing, every kept identifier stands on its own somewhere in it. */
  lemma KeptStandsAlone(instructions: string, raw: string)
    requires Kept(Some(instructions), raw)
    ensures exists p :: Standalone(instructions, raw, p)
  {
    StandaloneOccurrence(instructions, raw);
  }

  /** `__Word` loses its leading underscores. */
  lemma RawWordTrimmed()
    ensures Trim("__Word", Underscore) == "Word"
  {
    assert "__Word" == "__" + "Word" + "";
    TrimOfFramed("__", "Word", "", Underscore);
  }

  /** `__Word` is neither denylisted nor a generated variable. */
  lemma RawWordKept()
    ensures Kept(None, "__Word")
  {
    var raw := "__Word";
    assert raw !in CommonIds;
    assert !StartsWith(raw, BVarPrefix) by {
      assert raw[1] != BVarPrefix[1];
    }
  }

  /** The denylist is consulted before the underscores are removed: without an instruction
      listing, the raw identifier `__Word` comes out as the denylisted `Word`. */
  lemma DenylistBeforeStripping()
    ensures "Word" in CommonIds
    ensures FilteredIds({"__Word"}, None) == {"Word"}
  {
    RawWordTrimmed();
    RawWordKept();
    FilteredSingle("__Word", None);
  }

  /** A single kept identifier comes out with its affixes removed. */
  lemma FilteredSingle(x: string, instructions: Option<string>)
    requires Kept(instructions, x)
    ensures FilteredIds({x}, instructions) == {Trim(x, Underscore)}
  {
    FilteredStep({}, x, instructions);
    assert {} + {x} == {x};
  }

  // ----- Comments -----

  /** `_get_pcode_comments` of the current version. */
  method GetPcodeComments(pcode: string) returns (r: Result<set<string>>)
    ensures r == Extracted(Comments3, Split(pcode, '\n'))
  {
    r := Collect(Comments3, Split(pcode, '\n'));
  }

  /** A `QuoteRem` line whose comment ends in `_` contributes the comment `"_"`, whatever
      the rest of the comment says. */
  lemma ContinuedCommentStoredAsUnderscore(prefix: string, comment: string)
    requires StartsWith(prefix, QuoteRemOp) && '"' !in prefix
    requires EndsWith(comment, "_")
    ensures IsInstr(Comments3, prefix + "\"" + comment + "\"")
    ensures ItemOfLine(Comments3, prefix + "\"" + comment + "\"") == "_"
  {
    ItemOfQuotedInstr(Comments3, prefix, comment);
    UnderscoreCommentCollapses(comment);
  }

  // ----- The VBA source -----

  /** `replace("_\n", "\n")`: each line-continuation underscore directly before a line feed
      is removed, in one left-to-right pass. */
  function JoinContinuations(s: string): (r: string)
    ensures |r| <= |s|
  {
    if |s| < 2 then s
    else if s[0] == '_' && s[1] == '\n' then "\n" + JoinContinuations(s[2..])
    else [s[0]] + JoinContinuations(s[1..])
  }

  /** Rewriting works piece by piece, as long as the cut does not split an underscore from the
      line feed after it. */
  lemma {:induction false} JoinContinuationsAppend(a: string, b: string)
    requires a == [] || b == [] || !(a[|a| - 1] == '_' && b[0] == '\n')
    ensures JoinContinuations(a + b) == JoinContinuations(a) + JoinContinuations(b)
  {
    var ab := a + b;
    if a == [] {
      assert ab == b;
    } else if b == [] {
      assert ab == a;
    } else if |a| == 1 {
      assert ab[0] == a[0] && ab[1] == b[0] && ab[1..] == b;
      assert JoinContinuations(ab) == a + JoinContinuations(b);
    } else if a[0] == '_' && a[1] == '\n' {
      assert ab[0] == '_' && ab[1] == '\n' && ab[2..] == a[2..] + b;
      JoinContinuationsAppend(a[2..], b);
      assert JoinContinuations(ab) == "\n" + (JoinContinuations(a[2..]) + JoinContinuations(b));
    } else {
      assert ab[0] == a[0] && ab[1] == a[1] && ab[1..] == a[1..] + b;
      JoinContinuationsAppend(a[1..], b);
      assert JoinContinuations(ab) == [a[0]] + (JoinContinuations(a[1..]) + JoinContinuations(b));
    }
  }

  /** A text without a continuation is left as it is. */
  lemma {:induction false} JoinContinuationsNoop(s: string)
    requires !Contains(s, "_\n")
    ensures JoinContinuations(s) == s
  {
    if |s| >= 2 {
      assert !(s[0] == '_' && s[1] == '\n') by {
        assert !OccursAt(s, "_\n", 0);
      }
      assert !Contains(s[1..], "_\n") by {
        forall i | 0 <= i <= |s| - 3 ensures !OccursAt(s[1..], "_\n", i) {
          assert !OccursAt(s, "_\n", i + 1);
          assert s[1..][i..i + 2] == s[i + 1..i + 3];
        }
      }
      JoinContinuationsNoop(s[1..]);
    }
  }

  /** One pass only: `__` before a line feed keeps one underscore, so the result may hold a
      continuation again. */
  lemma SinglePass()
    ensures JoinContinuations("__\n") == "_\n"
  {
    assert "__\n"[1..] == "_\n";
    assert "_\n"[2..] == [];
  }

  /** The rewriting of the VBA source at lines 411-412: carriage returns removed, then line
      continuations joined. */
  function Normalize(vba: string): (r: string)
    ensures '\r' !in r
  {
    NoCarriageReturnKept(ReplaceChar(vba, '\r', ""));
    JoinContinuations(ReplaceChar(vba, '\r', ""))
  }

  /** Joining continuations adds no character. */
  lemma {:induction false} NoCarriageReturnKept(s: string)
    requires '\r' !in s
    ensures '\r' !in JoinContinuations(s)
  {
    if |s| >= 2 {
      if s[0] == '_' && s[1] == '\n' {
        assert '\r' !in s[2..] by {
          forall k | 0 <= k < |s| - 2 ensures s[2..][k] != '\r' {
            assert s[2..][k] == s[k + 2];
          }
        }
        NoCarriageReturnKept(s[2..]);
      } else {
        assert '\r' !in s[1..] by {
          forall k | 0 <= k < |s| - 1 ensures s[1..][k] != '\r' {
            assert s[1..][k] == s[k + 1];
          }
        }
        NoCarriageReturnKept(s[1..]);
      }
    }
  }

  /** A source with Unix line ends and no continuation is left as it is. */
  lemma NormalizeNoop(vba: string)
    requires '\r' !in vba && !Contains(vba, "_\n")
    ensures Normalize(vba) == vba
  {
    JoinContinuationsNoop(vba);
  }

  /** Removing carriage returns from a continued line leaves `a _` LF `b`. */
  lemma CarriageReturnsRemoved(a: string, b: string)
    requires '\r' !in a && '\r' !in b
    ensures ReplaceChar(a + "_\r\n" + b, '\r', "") == a + "_\n" + b
  {
    ReplaceCharAppend(a + "_\r\n", b, '\r', "");
    ReplaceCharAppend(a, "_\r\n", '\r', "");
    assert ReplaceChar("_\r\n", '\r', "") == "_\n" by {
      assert "_\r\n"[1..] == "\r\n" && "\r\n"[1..] == "\n";
    }
  }

  /** Joining around one continuation. */
  lemma JoinAroundContinuation(a: string, b: string)
    ensures JoinContinuations(a + "_\n" + b) == JoinContinuations(a) + "\n" + JoinContinuations(b)
  {
    var mid := "_\n";
    calc {
      JoinContinuations(a + mid + b);
      { assert a + mid + b == a + (mid + b); }
      JoinContinuations(a + (mid + b));
      { JoinContinuationsAppend(a, mid + b); }
      JoinContinuations(a) + JoinContinuations(mid + b);
      { JoinContinuationsAppend(mid, b); }
      JoinContinuations(a) + (JoinContinuations(mid) + JoinContinuations(b));
      { assert JoinContinuations(mid) == "\n"; }
      JoinContinuations(a) + "\n" + JoinContinuations(b);
    }
  }

  /** A continued line `a _` CR LF `b` reads as the two lines `a ` and `b`. */
  lemma ContinuationJoined(a: string, b: string)
    requires '\r' !in a && '\r' !in b
    ensures Normalize(a + "_\r\n" + b) == JoinContinuations(a) + "\n" + JoinContinuations(b)
  {
    CarriageReturnsRemoved(a, b);
    JoinAroundContinuation(a, b);
  }

  // ----- The verdict -----

  /** The threshold in tenths: low 0.5, medium 0.3, high 0.1; any other sensitivity leaves
      it unset. Every threshold is a fraction strictly between zero and one. */
  function Threshold(sensitivity: string): (r: Option<nat>)
    ensures r.Some? ==> 0 < r.value < 10
  {
    if sensitivity == "low" then Some(5)
    else if sensitivity == "medium" then Some(3)
    else if sensitivity == "high" then Some(1)
    else None
  }

  /** A stricter sensitivity has a lower threshold, and only the three names bind one. */
  lemma ThresholdsDecrease(sensitivity: string)
    ensures Threshold("high").value < Threshold("medium").value < Threshold("low").value
    ensures Threshold(sensitivity).Some? <==> sensitivity in {"low", "medium", "high"}
  {
  }

  /** The three missing fractions of a run. */
  datatype Fractions = Fractions(ids: Ratio, strs: Ratio, comments: Ratio)

  /** The fractions for a disassembly and a rewritten source, or the failure of an extractor:
      the literals are extracted before the comments. The identifiers never fail. */
  function MissingFractions(pcode: string, text: string): (r: Result<Fractions>)
    ensures r.Err? ==> r.failure == LitStrWithoutQuote || r.failure == QuoteRemWithoutQuote
  {
    var lines := Split(pcode, '\n');
    match Extracted(LitStrs, lines)
    case Err(f) => Err(f)
    case Ok(strs) =>
      match Extracted(Comments3, lines)
      case Err(f) => Err(f)
      case Ok(comments) =>
        Ok(Fractions(MissingRatio(Substring, text, PcodeIds(pcode)), MissingRatio(Quoted, text, strs),
                     MissingRatio(CommentPattern, text, comments)))
  }

  /** Some category misses strictly more than the threshold. */
  predicate Flagged(f: Fractions, tenths: nat) {
    Exceeds(f.ids, tenths) || Exceeds(f.strs, tenths) || Exceeds(f.comments, tenths)
  }

  /** The verdict of `detect_stomping_via_pcode` once the disassembly and the source exist.
      The identifiers cannot fail; an unknown sensitivity fails at the first use of the
      threshold, which comes before the literals are extracted. */
  function Decide(pcode: string, vba: string, sensitivity: string): (r: Result<bool>)
    ensures r.Err? ==> r.failure != NoInstructionText
  {
    match Threshold(sensitivity)
    case None => Err(ThresholdUnbound)
    case Some(t) =>
      match MissingFractions(pcode, Normalize(vba))
      case Err(f) => Err(f)
      case Ok(fs) => Ok(Flagged(fs, t))
  }

  /** `detect_stomping_via_pcode` from the rewriting of the source on: each category that
      misses more than the threshold sets `stomped`. */
  method DetectStomping(pcode: string, vba: string, sensitivity: string) returns (r: Result<bool>)
    ensures r == Decide(pcode, vba, sensitivity)
  {
    var text := Normalize(vba);
    var threshold := Threshold(sensitivity);
    var pcodeIds := GetPcodeIds(pcode);
    var stomped := false;
    var missingIds := CountMissing(Substring, text, pcodeIds);
    if threshold.None? {
      return Err(ThresholdUnbound);
    }
    if Exceeds(missingIds, threshold.value) {
      stomped := true;
    }
    var pcodeStrs := GetPcodeStrs(pcode);
    if pcodeStrs.Err? {
      return Err(pcodeStrs.failure);
    }
    var missingStrs := CountMissing(Quoted, text, pcodeStrs.value);
    if Exceeds(missingStrs, threshold.value) {
      stomped := true;
    }
    var pcodeComments := GetPcodeComments(pcode);
    if pcodeComments.Err? {
      return Err(pcodeComments.failure);
    }
    var missingComments := CountMissing(CommentPattern, text, pcodeComments.value);
    if Exceeds(missingComments, threshold.value) {
      stomped := true;
    }
    return Ok(stomped);
  }

  /** The failures and their order: an unknown sensitivity fails whatever the disassembly
      holds; with a known one, a malformed `LitStr` line fails before any `QuoteRem` line is
      looked at; otherwise the verdict is reached. */
  lemma DecideFailures(pcode: string, vba: string, sensitivity: string)
    ensures Threshold(sensitivity).None? ==> Decide(pcode, vba, sensitivity) == Err(ThresholdUnbound)
    ensures var lines := Split(pcode, '\n');
      Threshold(sensitivity).Some? && !WellFormedBefore(LitStrs, lines, |lines|) ==>
        Decide(pcode, vba, sensitivity) == Err(LitStrWithoutQuote)
    ensures var lines := Split(pcode, '\n');
      Decide(pcode, vba, sensitivity).Ok? <==>
        Threshold(sensitivity).Some? && WellFormedBefore(LitStrs, lines, |lines|) &&
        WellFormedBefore(Comments3, lines, |lines|)
  {
  }

  /** A stricter sensitivity never clears a document that a looser one flags: stomped at low
      implies stomped at medium, and stomped at medium implies stomped at high. Whether the
      run fails does not depend on which of the three is chosen. */
  lemma SensitivityMonotone(pcode: string, vba: string)
    ensures Decide(pcode, vba, "low") == Ok(true) ==> Decide(pcode, vba, "medium") == Ok(true)
    ensures Decide(pcode, vba, "medium") == Ok(true) ==> Decide(pcode, vba, "high") == Ok(true)
    ensures Decide(pcode, vba, "low").Ok? == Decide(pcode, vba, "medium").Ok? == Decide(pcode, vba, "high").Ok?
  {
    assert Threshold("low") == Some(5) && Threshold("medium") == Some(3) && Threshold("high") == Some(1);
    match MissingFractions(pcode, Normalize(vba))
    case Err(_) =>
    case Ok(fs) =>
      FlaggedMonotone(fs, 3, 5);
      FlaggedMonotone(fs, 1, 3);
  }

  /** Raising the threshold can only clear a run. */
  lemma FlaggedMonotone(fs: Fractions, lower: nat, higher: nat)
    requires lower <= higher
    ensures Flagged(fs, higher) ==> Flagged(fs, lower)
  {
    if Exceeds(fs.ids, higher) {
      ExceedsMonotone(fs.ids, lower, higher);
    }
    if Exceeds(fs.strs, higher) {
      ExceedsMonotone(fs.strs, lower, higher);
    }
    if Exceeds(fs.comments, higher) {
      ExceedsMonotone(fs.comments, lower, higher);
    }
  }

  /** An empty disassembly has nothing to miss, so it is never flagged. */
  lemma EmptyDisassemblyNotStomped(vba: string, sensitivity: string)
    requires Threshold(sensitivity).Some?
    ensures Decide("", vba, sensitivity) == Ok(false)
  {
    var lines := Split("", '\n');
    assert lines == [""];
    assert PcodeIds("") == {} by {
      assert !InIdSection(lines, 0);
      assert IdsBefore(lines, 1) == {};
    }
    assert Strip(lines[0]) == "";
    assert !IsInstr(LitStrs, lines[0]) && !IsInstr(Comments3, lines[0]);
    assert ItemsBefore(LitStrs, lines, 1) == {} && WellFormedBefore(LitStrs, lines, 1);
    assert ItemsBefore(Comments3, lines, 1) == {} && WellFormedBefore(Comments3, lines, 1);
    var text := Normalize(vba);
    MissingRatioBounds(Substring, text, {});
    MissingRatioBounds(Quoted, text, {});
    MissingRatioBounds(CommentPattern, text, {});
  }

  /** A flagged document misses at least one identifier, literal or comment. */
  lemma StompedMissesSomething(pcode: string, vba: string, sensitivity: string)
    requires Decide(pcode, vba, sensitivity) == Ok(true)
    ensures MissingFractions(pcode, Normalize(vba)).Ok?
    ensures var fs := MissingFractions(pcode, Normalize(vba)).value;
      fs.ids.missing > 0 || fs.strs.missing > 0 || fs.comments.missing > 0
  {
    var t := Threshold(sensitivity).value;
    var fs := MissingFractions(pcode, Normalize(vba)).value;
    assert Flagged(fs, t);
    if Exceeds(fs.ids, t) {
      ExceedsHasMissing(fs.ids, t);
    } else if Exceeds(fs.strs, t) {
      ExceedsHasMissing(fs.strs, t);
    } else {
      ExceedsHasMissing(fs.comments, t);
    }
  }

  /** A category that is not empty and of which nothing is found flags the document at every
      sensitivity. */
  lemma NothingFoundStomps(pcode: string, vba: string, sensitivity: string)
    requires Decide(pcode, vba, sensitivity).Ok?
    requires PcodeIds(pcode) != {}
    requires forall x | x in PcodeIds(pcode) :: !IdPresent(Normalize(vba), x)
    ensures Decide(pcode, vba, sensitivity) == Ok(true)
  {
    var text := Normalize(vba);
    var fs := MissingFractions(pcode, text).value;
    var t := Threshold(sensitivity).value;
    assert fs.ids == MissingRatio(Substring, text, PcodeIds(pcode));
    AllAbsentExceeds(Substring, text, PcodeIds(pcode), t);
    assert Flagged(fs, t);
  }
}
