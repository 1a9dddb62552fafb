/**
 * Extraction of string literals and comments from p-code disassembly lines.
 *
 * Both versions of the detector cut the text of a `LitStr ` or `QuoteRem ` instruction the
 * same way: from just after the first double quote up to, but not including, the last
 * character of the stripped line. `_get_pcode_strs` is the same in both versions and lives
 * here; each version's comment extractor is in its own module.
 */
module Extract {
  import opened Outcomes
  import opened Text

  const LitStrOp := "LitStr "
  const QuoteRemOp := "QuoteRem "

  /** `t[t.index('"') + 1 : -1]`, with `None` where `index` raises. When the first quote is
      the last character, Python's slice is empty. */
  function QuotedTail(t: string): (r: Option<string>)
    ensures r.None? <==> '"' !in t
  {
    match IndexOf(t, '"')
    case None => None
    case Some(q) => if q + 1 < |t| then Some(t[q + 1..|t| - 1]) else Some([])
  }

  /** What the disassembler prints for a quoted operand is cut back to the operand itself. */
  lemma QuotedTailOfQuotedOperand(prefix: string, operand: string)
    requires '"' !in prefix
    ensures QuotedTail(prefix + "\"" + operand + "\"") == Some(operand)
  {
    var t := prefix + "\"" + operand + "\"";
    assert t[..|prefix|] == prefix && t[|prefix|] == '"';
    assert IndexOf(t, '"') == Some(|prefix|);
    assert t[|prefix| + 1..|t| - 1] == operand;
  }

  /** `s.replace('"', '""')`: the escaping of a quote inside a VBA string literal. */
  function EscapeQuotes(s: string): string
  {
    ReplaceChar(s, '"', "\"\"")
  }

  /** How VBA reads the inside of a string literal: `""` stands for one quote, and a lone
      quote cannot occur. */
  function UnescapeQuotes(e: string): Option<string>
  {
    if e == [] then Some([])
    else if e[0] != '"' then
      match UnescapeQuotes(e[1..])
      case None => None
      case Some(rest) => Some([e[0]] + rest)
    else if |e| >= 2 && e[1] == '"' then
      match UnescapeQuotes(e[2..])
      case None => None
      case Some(rest) => Some(['"'] + rest)
    else None
  }

  /** Escaping loses nothing: VBA reads the escaped text back as the original. */
  lemma {:induction false} UnescapeEscapeQuotes(s: string)
    ensures UnescapeQuotes(EscapeQuotes(s)) == Some(s)
  {
    if s != [] {
      UnescapeEscapeQuotes(s[1..]);
      var e := EscapeQuotes(s);
      if s[0] == '"' {
        assert e == "\"\"" + EscapeQuotes(s[1..]);
        assert e[2..] == EscapeQuotes(s[1..]);
      } else {
        assert e == [s[0]] + EscapeQuotes(s[1..]);
        assert e[1..] == EscapeQuotes(s[1..]);
      }
      assert s == [s[0]] + s[1..];
    }
  }

  /** The three per-line extraction rules: string literals (both versions), and comments in
      the older and in the current version. They differ only in the opcode they look for and
      in what they make of the quoted text. */
  datatype Rule = LitStrs | Comments1 | Comments3

  function Opcode(rule: Rule): string {
    if rule == LitStrs then LitStrOp else QuoteRemOp
  }

  /** The failure raised when a line of the rule's opcode holds no quote. */
  function Fault(rule: Rule): Failure {
    if rule == LitStrs then LitStrWithoutQuote else QuoteRemWithoutQuote
  }

  /** What the rule stores for the quoted text `t` of a line. Literals have their quotes
      doubled. The current version's comment rule replaces a comment ending in `_` by its last
      character, which is `_` itself. */
  function ItemOf(rule: Rule, t: string): string {
    match rule
    case LitStrs => EscapeQuotes(t)
    case Comments1 => t
    case Comments3 => if EndsWith(t, "_") then [t[|t| - 1]] else t
  }

  /** Every comment ending in `_` (a continued comment line, say) is stored as `"_"`. */
  lemma UnderscoreCommentCollapses(t: string)
    requires EndsWith(t, "_")
    ensures ItemOf(Comments3, t) == "_"
    ensures t != "_" ==> ItemOf(Comments3, t) != ItemOf(Comments1, t)
  {
    assert t[|t| - 1..] == [t[|t| - 1]];
  }

  /** The stripped line is an instruction of the rule's opcode. */
  predicate IsInstr(rule: Rule, line: string) {
    StartsWith(Strip(line), Opcode(rule))
  }

  /** An instruction of the rule's opcode with no quote on its line: `index` raises. */
  predicate Malformed(rule: Rule, line: string) {
    IsInstr(rule, line) && '"' !in Strip(line)
  }

  /** The item an instruction line contributes (a malformed line raises instead). */
  function ItemOfLine(rule: Rule, line: string): string
  {
    match QuotedTail(Strip(line))
    case None => []
    case Some(t) => ItemOf(rule, t)
  }

  /** A line without surrounding whitespace is its own stripped form. */
  lemma StripUnpadded(s: string)
    requires s != [] && !IsSpace(s[0]) && !IsSpace(s[|s| - 1])
    ensures Strip(s) == s
  {
  }

  /** A disassembled instruction `<opcode><operands> "<operand>"` yields the rule's item for
      exactly the quoted operand. */
  lemma ItemOfQuotedInstr(rule: Rule, prefix: string, operand: string)
    requires StartsWith(prefix, Opcode(rule)) && '"' !in prefix
    ensures IsInstr(rule, prefix + "\"" + operand + "\"")
    ensures ItemOfLine(rule, prefix + "\"" + operand + "\"") == ItemOf(rule, operand)
  {
    var line := prefix + "\"" + operand + "\"";
    var op := Opcode(rule);
    assert line[..|prefix|] == prefix;
    assert line[..|op|] == op by {
      assert line[..|op|] == line[..|prefix|][..|op|];
    }
    assert !IsSpace(line[0]) by {
      assert line[0] == op[0];
      assert op[0] == 'L' || op[0] == 'Q';
    }
    assert Strip(line) == line by {
      StripUnpadded(line);
    }
    QuotedTailOfQuotedOperand(prefix, operand);
    assert QuotedTail(Strip(line)) == Some(operand);
  }

  /** No instruction line of the rule among the first `n` lines is malformed. */
  predicate WellFormedBefore(rule: Rule, lines: seq<string>, n: nat)
    requires n <= |lines|
  {
    forall k: nat | k < n :: WellFormedAt(rule, lines)(k)
  }

  /** Which line indexes hold anything but a malformed instruction line. */
  function WellFormedAt(rule: Rule, lines: seq<string>): nat -> bool {
    (k: nat) => k < |lines| && !Malformed(rule, lines[k])
  }

  /** Which line indexes are instructions of the rule. */
  function Instrs(rule: Rule, lines: seq<string>): nat -> bool {
    (k: nat) => k < |lines| && IsInstr(rule, lines[k])
  }

  /** The item a line index would contribute. */
  function ItemAt(rule: Rule, lines: seq<string>): nat -> string {
    (k: nat) => if k < |lines| then ItemOfLine(rule, lines[k]) else []
  }

  /** The items of the first `n` lines: one per instruction line of the rule. */
  function ItemsBefore(rule: Rule, lines: seq<string>, n: nat): set<string>
    requires n <= |lines|
  {
    Gather(n, Instrs(rule, lines), ItemAt(rule, lines))
  }

  /** Line `k` yields the item `x`. */
  predicate Yields(rule: Rule, lines: seq<string>, k: nat, x: string)
    requires k < |lines|
  {
    IsInstr(rule, lines[k]) && ItemOfLine(rule, lines[k]) == x
  }

  /** An item is extracted exactly when some instruction line yields it. */
  lemma ItemsBeforeMeaning(rule: Rule, lines: seq<string>, n: nat, x: string)
    requires n <= |lines|
    ensures x in ItemsBefore(rule, lines, n) <==> exists k | 0 <= k < n :: Yields(rule, lines, k, x)
  {
    GatherMeaning(n, Instrs(rule, lines), ItemAt(rule, lines), x);
    if x in ItemsBefore(rule, lines, n) {
      var k := YieldingLine(rule, lines, n, x);
    }
    if exists k | 0 <= k < n :: Yields(rule, lines, k, x) {
      var k :| 0 <= k < n && Yields(rule, lines, k, x);
      LineYields(rule, lines, n, k);
    }
  }

  /** A line that yields an extracted item. */
  lemma YieldingLine(rule: Rule, lines: seq<string>, n: nat, x: string) returns (k: nat)
    requires n <= |lines| && x in ItemsBefore(rule, lines, n)
    ensures k < n && Yields(rule, lines, k, x)
  {
    GatherMeaning(n, Instrs(rule, lines), ItemAt(rule, lines), x);
    k :| 0 <= k < n && Instrs(rule, lines)(k) && ItemAt(rule, lines)(k) == x;
  }

  /** Every instruction line's item is extracted. */
  lemma LineYields(rule: Rule, lines: seq<string>, n: nat, k: nat)
    requires k < n <= |lines| && IsInstr(rule, lines[k])
    ensures ItemOfLine(rule, lines[k]) in ItemsBefore(rule, lines, n)
  {
    GatherMeaning(n, Instrs(rule, lines), ItemAt(rule, lines), ItemOfLine(rule, lines[k]));
    assert Instrs(rule, lines)(k) && ItemAt(rule, lines)(k) == ItemOfLine(rule, lines[k]);
  }

  /** An extractor on the lines of a disassembly: the first malformed line raises; otherwise
      every instruction line of the rule contributes its item. */
  function Extracted(rule: Rule, lines: seq<string>): Result<set<string>>
  {
    if WellFormedBefore(rule, lines, |lines|) then Ok(ItemsBefore(rule, lines, |lines|))
    else Err(Fault(rule))
  }

  /** Reading a line that is not an instruction of the rule changes nothing. */
  lemma CollectSkip(rule: Rule, lines: seq<string>, i: nat, t: string)
    requires i < |lines| && t == Strip(lines[i]) && !StartsWith(t, Opcode(rule))
    ensures WellFormedBefore(rule, lines, i + 1) == WellFormedBefore(rule, lines, i)
    ensures ItemsBefore(rule, lines, i + 1) == ItemsBefore(rule, lines, i)
  {
    LineStep(rule, lines, i);
    LineOutcome(rule, lines[i]);
  }

  /** An instruction line without a quote makes the whole disassembly malformed. */
  lemma CollectBad(rule: Rule, lines: seq<string>, i: nat, t: string)
    requires i < |lines| && t == Strip(lines[i]) && StartsWith(t, Opcode(rule)) && QuotedTail(t).None?
    ensures !WellFormedBefore(rule, lines, |lines|)
  {
    LineStep(rule, lines, i);
    LineOutcome(rule, lines[i]);
  }

  /** An instruction line with a quote adds the item cut from its quoted tail. */
  lemma CollectItem(rule: Rule, lines: seq<string>, i: nat, t: string, tail: string)
    requires i < |lines| && t == Strip(lines[i]) && StartsWith(t, Opcode(rule)) && QuotedTail(t) == Some(tail)
    ensures WellFormedBefore(rule, lines, i + 1) == WellFormedBefore(rule, lines, i)
    ensures ItemsBefore(rule, lines, i + 1) == ItemsBefore(rule, lines, i) + {ItemOf(rule, tail)}
  {
    LineStep(rule, lines, i);
    LineOutcome(rule, lines[i]);
  }

  /** One more line, in terms of what the line is. */
  lemma LineStep(rule: Rule, lines: seq<string>, i: nat)
    requires i < |lines|
    ensures WellFormedBefore(rule, lines, i + 1) == (WellFormedBefore(rule, lines, i) && !Malformed(rule, lines[i]))
    ensures Malformed(rule, lines[i]) ==> !WellFormedBefore(rule, lines, |lines|)
    ensures ItemsBefore(rule, lines, i + 1) ==
      ItemsBefore(rule, lines, i) + (if IsInstr(rule, lines[i]) then {ItemOfLine(rule, lines[i])} else {})
  {
    ItemsStep(rule, lines, i);
    var fine := WellFormedAt(rule, lines);
    assert fine(i) == !Malformed(rule, lines[i]);
    if WellFormedBefore(rule, lines, i) && fine(i) {
      forall k: nat | k < i + 1 ensures fine(k) {
        if k < i {
          assert fine(k);
        }
      }
    }
  }

  /** The items of one more line. */
  lemma ItemsStep(rule: Rule, lines: seq<string>, i: nat)
    requires i < |lines|
    ensures ItemsBefore(rule, lines, i + 1) ==
      ItemsBefore(rule, lines, i) + (if IsInstr(rule, lines[i]) then {ItemOfLine(rule, lines[i])} else {})
  {
    GatherStep(i, Instrs(rule, lines), ItemAt(rule, lines));
  }

  /** What a line is, in terms of its stripped text. */
  lemma LineOutcome(rule: Rule, line: string)
    ensures var t := Strip(line);
      IsInstr(rule, line) == StartsWith(t, Opcode(rule)) &&
      Malformed(rule, line) == (StartsWith(t, Opcode(rule)) && QuotedTail(t).None?) &&
      (QuotedTail(t).Some? ==> ItemOfLine(rule, line) == ItemOf(rule, QuotedTail(t).value))
  {
  }

  /** The loop shared by `_get_pcode_strs` and `_get_pcode_comments`: strip each line, and
      for each line of the rule's opcode cut out the quoted text and add its item to a set. */
  method Collect(rule: Rule, lines: seq<string>) returns (r: Result<set<string>>)
    ensures r == Extracted(rule, lines)
  {
    var items := {};
    var i := 0;
    while i < |lines|
      invariant 0 <= i <= |lines|
      invariant WellFormedBefore(rule, lines, i)
      invariant items == ItemsBefore(rule, lines, i)
    {
      var line := Strip(lines[i]);
      if StartsWith(line, Opcode(rule)) {
        var tail := QuotedTail(line);
        if tail.None? {
          CollectBad(rule, lines, i, line);
          return Err(Fault(rule));
        }
        CollectItem(rule, lines, i, line, tail.value);
        items := items + {ItemOf(rule, tail.value)};
      } else {
        CollectSkip(rule, lines, i, line);
      }
      i := i + 1;
    }
    return Ok(items);
  }

  /** `_get_pcode_strs`, the same in both versions. */
  method GetPcodeStrs(pcode: string) returns (r: Result<set<string>>)
    ensures r == Extracted(LitStrs, Split(pcode, '\n'))
  {
    r := Collect(LitStrs, Split(pcode, '\n'));
  }
}
