/**
 * The line scanner at the start of `_get_pcode_ids`, identical in both versions of the
 * detector: one pass over the lines of a p-code disassembly that collects the entries of
 * the identifier table and the text of the instruction listing.
 *
 * The scan is driven by two flags and a buffer: `skip` (drop the next line),
 * `inIdSection` (inside an identifier table) and `instructions` (absent until the first
 * `Line #` header, then the instruction text so far). `ScanLines` runs it step by step; the
 * predicates below say, line by line and without replaying the loop, what it produces.
 */
module Scanner {
  import opened Outcomes
  import opened Text

  /** The header line of an identifier table. */
  const IdHeader := "Identifiers:"

  /** The prefix of an instruction-listing header such as `Line #0:`. */
  const LineHeader := "Line #"

  /** Line `k` is dropped unread: it follows an `Identifiers:` line that was not itself dropped.
      (`k == |lines|` says whether the scan ends with the flag raised.) */
  predicate Skipped(lines: seq<string>, k: nat)
    requires k <= |lines|
  {
    k > 0 && lines[k - 1] == IdHeader && !Skipped(lines, k - 1)
  }

  /** Line `k` is an `Identifiers:` line that the scanner reads. */
  predicate OpensIdSection(lines: seq<string>, k: nat)
    requires k < |lines|
  {
    lines[k] == IdHeader && !Skipped(lines, k)
  }

  /** Line `k` is a `Line #` line that the scanner reads; the first one starts the buffer. */
  predicate OpensInstructions(lines: seq<string>, k: nat)
    requires k < |lines|
  {
    !Skipped(lines, k) && StartsWith(lines[k], LineHeader)
  }

  /** A line that goes into the instruction buffer once the buffer exists. */
  predicate Recorded(lines: seq<string>, k: nat)
    requires k < |lines|
  {
    !Skipped(lines, k) && lines[k] != IdHeader
  }

  /** The index of the first `Line #` header among the first `n` lines, if any. */
  function HeaderBefore(lines: seq<string>, n: nat): (h: Option<nat>)
    requires n <= |lines|
    ensures h.None? <==> forall k | 0 <= k < n :: !OpensInstructions(lines, k)
    ensures h.Some? ==> h.value < n && OpensInstructions(lines, h.value)
    ensures h.Some? ==> forall k | 0 <= k < h.value :: !OpensInstructions(lines, k)
  {
    if n == 0 then None
    else
      match HeaderBefore(lines, n - 1)
      case Some(h) => Some(h)
      case None => if OpensInstructions(lines, n - 1) then Some(n - 1) else None
  }

  /** The recorded lines among `lines[lo..hi]`, each followed by a line feed. */
  function Appended(lines: seq<string>, lo: nat, hi: nat): (text: string)
    requires hi <= |lines|
    ensures text == [] || text[|text| - 1] == '\n'
  {
    if hi <= lo then []
    else Appended(lines, lo, hi - 1) + (if Recorded(lines, hi - 1) then lines[hi - 1] + "\n" else [])
  }

  /** The instruction buffer after the first `n` lines: absent before the first header, and
      afterwards every recorded line after that header. */
  function InstructionsBefore(lines: seq<string>, n: nat): Option<string>
    requires n <= |lines|
  {
    match HeaderBefore(lines, n)
    case None => None
    case Some(h) => Some(Appended(lines, h + 1, n))
  }

  /** Every line in `lines[from..to]` that the scanner reads holds a colon. */
  predicate ColonRun(lines: seq<string>, from: nat, to: nat)
    requires to <= |lines|
  {
    forall m | from <= m < to :: Skipped(lines, m) || ':' in lines[m]
  }

  /** Before line `k` the scanner is inside an identifier table: an `Identifiers:` line it read
      opened one, and every line it read since holds a colon. */
  predicate InIdSection(lines: seq<string>, k: nat)
    requires k <= |lines|
  {
    exists j | 0 <= j < k :: OpensIdSection(lines, j) && ColonRun(lines, j + 1, k)
  }

  /** The identifier of a table line: the text after its first colon, stripped. */
  function IdOfLine(line: string): string
    requires ':' in line
  {
    Strip(line[IndexOf(line, ':').value + 1..])
  }

  /** Line `k` adds `IdOfLine(lines[k])` to the identifiers. */
  predicate CollectsAt(lines: seq<string>, k: nat)
    requires k < |lines|
  {
    HeaderBefore(lines, k + 1).None? && Recorded(lines, k) && InIdSection(lines, k) && ':' in lines[k]
  }

  /** Line `k` adds the identifier `x`. */
  predicate AddsId(lines: seq<string>, k: nat, x: string)
    requires k < |lines|
  {
    CollectsAt(lines, k) && IdOfLine(lines[k]) == x
  }

  /** Which line indexes add an identifier. */
  function Collects(lines: seq<string>): nat -> bool {
    (k: nat) => k < |lines| && CollectsAt(lines, k)
  }

  /** The identifier a line index would add. */
  function IdAt(lines: seq<string>): nat -> string {
    (k: nat) => if k < |lines| && ':' in lines[k] then IdOfLine(lines[k]) else []
  }

  /** The identifiers collected from the first `n` lines: one per line that adds one. */
  function IdsBefore(lines: seq<string>, n: nat): set<string>
    requires n <= |lines|
  {
    Gather(n, Collects(lines), IdAt(lines))
  }

  /** The identifiers of one more line. */
  lemma IdsStep(lines: seq<string>, k: nat)
    requires k < |lines|
    ensures IdsBefore(lines, k + 1) ==
      IdsBefore(lines, k) + (if CollectsAt(lines, k) then {IdOfLine(lines[k])} else {})
  {
    GatherStep(k, Collects(lines), IdAt(lines));
  }

  /** How reading line `k` changes whether the scanner is in an identifier table. */
  lemma InIdSectionStep(lines: seq<string>, k: nat)
    requires k < |lines|
    ensures Skipped(lines, k) ==> (InIdSection(lines, k + 1) <==> InIdSection(lines, k))
    ensures OpensIdSection(lines, k) ==> InIdSection(lines, k + 1)
    ensures Recorded(lines, k) ==> (InIdSection(lines, k + 1) <==> InIdSection(lines, k) && ':' in lines[k])
  {
    if InIdSection(lines, k + 1) && !OpensIdSection(lines, k) {
      var j :| 0 <= j < k + 1 && OpensIdSection(lines, j) && ColonRun(lines, j + 1, k + 1);
      assert j < k && ColonRun(lines, j + 1, k);
    }
    if InIdSection(lines, k) && (Skipped(lines, k) || ':' in lines[k]) {
      var j :| 0 <= j < k && OpensIdSection(lines, j) && ColonRun(lines, j + 1, k);
      assert ColonRun(lines, j + 1, k + 1);
    }
    if OpensIdSection(lines, k) {
      assert ColonRun(lines, k + 1, k + 1);
    }
  }

  /** How reading line `k` changes the instruction buffer. */
  lemma InstructionsStep(lines: seq<string>, k: nat)
    requires k < |lines|
    ensures InstructionsBefore(lines, k).None? ==>
      InstructionsBefore(lines, k + 1) == if OpensInstructions(lines, k) then Some([]) else None
    ensures InstructionsBefore(lines, k).Some? ==>
      InstructionsBefore(lines, k + 1) ==
        if Recorded(lines, k) then Some(InstructionsBefore(lines, k).value + (lines[k] + "\n"))
        else InstructionsBefore(lines, k)
  {
    match HeaderBefore(lines, k)
    case None =>
      if OpensInstructions(lines, k) {
        assert HeaderBefore(lines, k + 1) == Some(k);
        assert Appended(lines, k + 1, k + 1) == [];
      } else {
        assert HeaderBefore(lines, k + 1).None?;
      }
    case Some(h) =>
      assert HeaderBefore(lines, k + 1) == Some(h);
      var text := Appended(lines, h + 1, k);
      if Recorded(lines, k) {
        assert Appended(lines, h + 1, k + 1) == text + (lines[k] + "\n");
      } else {
        assert Appended(lines, h + 1, k + 1) == text + [];
        assert text + [] == text;
      }
  }

  /** What reading line `k` does, branch by branch as the loop tests it. */
  lemma ScanStep(lines: seq<string>, k: nat)
    requires k < |lines|
    ensures Skipped(lines, k) ==>
      !Skipped(lines, k + 1) && IdsBefore(lines, k + 1) == IdsBefore(lines, k) &&
      InstructionsBefore(lines, k + 1) == InstructionsBefore(lines, k) &&
      InIdSection(lines, k + 1) == InIdSection(lines, k)
    ensures !Skipped(lines, k) && lines[k] == IdHeader ==>
      Skipped(lines, k + 1) && IdsBefore(lines, k + 1) == IdsBefore(lines, k) &&
      InstructionsBefore(lines, k + 1) == InstructionsBefore(lines, k) && InIdSection(lines, k + 1)
    ensures Recorded(lines, k) ==> !Skipped(lines, k + 1)
    ensures Recorded(lines, k) && InstructionsBefore(lines, k).None? && StartsWith(lines[k], LineHeader) ==>
      IdsBefore(lines, k + 1) == IdsBefore(lines, k) && InstructionsBefore(lines, k + 1) == Some([])
    ensures Recorded(lines, k) && InstructionsBefore(lines, k).Some? ==>
      IdsBefore(lines, k + 1) == IdsBefore(lines, k) &&
      InstructionsBefore(lines, k + 1) == Some(InstructionsBefore(lines, k).value + (lines[k] + "\n"))
    ensures Recorded(lines, k) && InstructionsBefore(lines, k).None? && !StartsWith(lines[k], LineHeader) ==>
      InstructionsBefore(lines, k + 1).None? &&
      InIdSection(lines, k + 1) == (InIdSection(lines, k) && ':' in lines[k]) &&
      IdsBefore(lines, k + 1) ==
        IdsBefore(lines, k) + (if InIdSection(lines, k) && ':' in lines[k] then {IdOfLine(lines[k])} else {})
  {
    InIdSectionStep(lines, k);
    InstructionsStep(lines, k);
    IdsStep(lines, k);
    if lines[k] == IdHeader {
      assert !StartsWith(lines[k], LineHeader) by { assert lines[k][0] != LineHeader[0]; }
    }
  }

  /** `for line in pcode.split("\n")` over the lines, updating `skip`, `inIdSection`,
      `instructions` and `ids`. */
  method ScanLines(lines: seq<string>) returns (ids: set<string>, instructions: Option<string>)
    ensures ids == IdsBefore(lines, |lines|)
    ensures instructions == InstructionsBefore(lines, |lines|)
  {
    ids := {};
    instructions := None;
    var inIdSection := false;
    var skip := false;
    var i := 0;
    while i < |lines|
      invariant 0 <= i <= |lines|
      invariant skip == Skipped(lines, i)
      invariant instructions == InstructionsBefore(lines, i)
      invariant instructions.None? ==> inIdSection == InIdSection(lines, i)
      invariant ids == IdsBefore(lines, i)
    {
      var line := lines[i];
      ScanStep(lines, i);
      if skip {
        skip := false;
      } else if line == IdHeader {
        inIdSection := true;
        skip := true;
      } else if StartsWith(line, LineHeader) && instructions.None? {
        instructions := Some("");
      } else if instructions.Some? {
        instructions := Some(instructions.value + (line + "\n"));
      } else if inIdSection {
        if ':' in line {
          ids := ids + {IdOfLine(line)};
        } else {
          inIdSection := false;
        }
      }
      i := i + 1;
    }
  }

  /** An identifier is collected exactly when some line adds it. */
  lemma IdsBeforeMeaning(lines: seq<string>, n: nat, x: string)
    requires n <= |lines|
    ensures x in IdsBefore(lines, n) <==> exists k | 0 <= k < n :: AddsId(lines, k, x)
  {
    GatherMeaning(n, Collects(lines), IdAt(lines), x);
    if x in IdsBefore(lines, n) {
      var k :| 0 <= k < n && Collects(lines)(k) && IdAt(lines)(k) == x;
      assert AddsId(lines, k, x);
    }
    if exists k | 0 <= k < n :: AddsId(lines, k, x) {
      var k :| 0 <= k < n && AddsId(lines, k, x);
      assert Collects(lines)(k) && IdAt(lines)(k) == x;
    }
  }

  /** The line after an `Identifiers:` line that is read is dropped: it neither adds an
      identifier, nor goes into the buffer, nor starts it. */
  lemma LineAfterIdHeaderDropped(lines: seq<string>, k: nat)
    requires k + 1 < |lines| && OpensIdSection(lines, k)
    ensures Skipped(lines, k + 1)
    ensures !CollectsAt(lines, k + 1) && !Recorded(lines, k + 1) && !OpensInstructions(lines, k + 1)
  {
  }

  /** An identifier table ends at the first line read that has no colon: no later line adds an
      identifier until another `Identifiers:` line is read. */
  lemma {:induction false} SectionEndsAtColonlessLine(lines: seq<string>, m: nat, k: nat)
    requires m < k <= |lines|
    requires !Skipped(lines, m) && ':' !in lines[m]
    requires forall j | m < j < k :: !OpensIdSection(lines, j)
    ensures !InIdSection(lines, k)
  {
    assert IdHeader[11] == ':';
    forall j | 0 <= j < k && OpensIdSection(lines, j) ensures !ColonRun(lines, j + 1, k) {
      assert j < m;
      assert !(Skipped(lines, m) || ':' in lines[m]);
    }
  }

  /** Once the first `Line #` header has been read, no identifier is added. */
  lemma {:induction false} NoIdsAfterHeader(lines: seq<string>, n: nat)
    requires n <= |lines| && HeaderBefore(lines, n).Some?
    ensures IdsBefore(lines, n) == IdsBefore(lines, HeaderBefore(lines, n).value)
  {
    var h := HeaderBefore(lines, n).value;
    if n > h + 1 {
      assert HeaderBefore(lines, n - 1) == Some(h);
      NoIdsAfterHeader(lines, n - 1);
      assert HeaderBefore(lines, n) == Some(h);
      assert !CollectsAt(lines, n - 1);
    } else {
      assert !CollectsAt(lines, h);
    }
  }
}
