/**
 * The Python string operations the detector is built from, stated over `seq<char>`:
 * `str.isspace`, `str.isalnum`, `startswith`, `endswith`, `in`, `index`, `strip`,
 * `split` and one-character `replace`.
 */
module Text {
  import opened Outcomes

  /** `str.isspace` on ASCII: tab, line feed, vertical tab, form feed, carriage return,
      the four information separators and space. The regular-expression class `\s`
      uses the same set. */
  predicate IsSpace(c: char) {
    var n := c as int;
    9 <= n <= 13 || 28 <= n <= 32
  }

  /** `str.isalnum` on ASCII letters and digits. */
  predicate IsAlnum(c: char) {
    'a' <= c <= 'z' || 'A' <= c <= 'Z' || '0' <= c <= '9'
  }

  /** The characters that `Trim` removes: whitespace for `strip()`, underscores for the
      affixes removed from identifiers. */
  datatype Pad = Whitespace | Underscore

  predicate IsPad(pad: Pad, c: char) {
    match pad
    case Whitespace => IsSpace(c)
    case Underscore => c == '_'
  }

  /** Every character of `s` is a `pad` character. */
  predicate All(s: string, pad: Pad) {
    forall k :: 0 <= k < |s| ==> IsPad(pad, s[k])
  }

  predicate StartsWith(s: string, prefix: string) {
    |prefix| <= |s| && s[..|prefix|] == prefix
  }

  predicate EndsWith(s: string, suffix: string) {
    |suffix| <= |s| && s[|s| - |suffix|..] == suffix
  }

  /** `needle` occurs in `s` starting at index `i`. */
  predicate OccursAt(s: string, needle: string, i: int) {
    0 <= i && i + |needle| <= |s| && s[i..i + |needle|] == needle
  }

  /** Python's `needle in s` for two strings. */
  predicate Contains(s: string, needle: string) {
    exists i | 0 <= i <= |s| - |needle| :: OccursAt(s, needle, i)
  }

  /** A one-character string is a substring exactly when its character occurs. */
  lemma ContainsOneChar(s: string, c: char)
    ensures Contains(s, [c]) <==> c in s
  {
    if c in s {
      var i :| 0 <= i < |s| && s[i] == c;
      assert OccursAt(s, [c], i);
    }
    if Contains(s, [c]) {
      var i :| 0 <= i <= |s| - 1 && OccursAt(s, [c], i);
      assert s[i] == [c][0];
    }
  }

  /** A substring of a substring is a substring. */
  lemma ContainsTransitive(s: string, a: string, b: string)
    requires Contains(s, a) && Contains(a, b)
    ensures Contains(s, b)
  {
    var i :| 0 <= i <= |s| - |a| && OccursAt(s, a, i);
    var j :| 0 <= j <= |a| - |b| && OccursAt(a, b, j);
    assert s[i + j..i + j + |b|] == b by {
      forall k | 0 <= k < |b| ensures s[i + j..i + j + |b|][k] == b[k] {
        assert b[k] == a[j..j + |b|][k] == a[j + k];
        assert a[j + k] == s[i..i + |a|][j + k];
      }
    }
    assert OccursAt(s, b, i + j);
  }

  /** `s.index(c)`, with `None` where Python raises ValueError. */
  function IndexOf(s: string, c: char): (r: Option<nat>)
    ensures r.None? <==> c !in s
    ensures r.Some? ==> r.value < |s| && s[r.value] == c && c !in s[..r.value]
  {
    if |s| == 0 then None
    else if s[0] == c then Some(0)
    else
      match IndexOf(s[1..], c)
      case None => None
      case Some(i) =>
        assert s[..i + 1] == [s[0]] + s[1..][..i];
        Some(i + 1)
  }

  /** Drops the longest prefix of `s` made of `pad` characters. */
  function TrimLeading(s: string, pad: Pad): (r: string)
    ensures |r| <= |s| && r == s[|s| - |r|..]
    ensures r == [] || !IsPad(pad, r[0])
  {
    if |s| > 0 && IsPad(pad, s[0]) then TrimLeading(s[1..], pad) else s
  }

  /** Drops the longest suffix of `s` made of `pad` characters. */
  function TrimTrailing(s: string, pad: Pad): (r: string)
    ensures |r| <= |s| && r == s[..|r|]
    ensures r == [] || !IsPad(pad, r[|r| - 1])
  {
    if |s| > 0 && IsPad(pad, s[|s| - 1]) then TrimTrailing(s[..|s| - 1], pad) else s
  }

  /** What `TrimLeading` drops is padding. */
  lemma {:induction false} TrimLeadingDropsPad(s: string, pad: Pad)
    ensures All(s[..|s| - |TrimLeading(s, pad)|], pad)
  {
    if |s| > 0 && IsPad(pad, s[0]) {
      TrimLeadingDropsPad(s[1..], pad);
      var r := TrimLeading(s, pad);
      assert s[..|s| - |r|] == [s[0]] + s[1..][..|s| - 1 - |r|];
    }
  }

  /** What `TrimTrailing` drops is padding. */
  lemma {:induction false} TrimTrailingDropsPad(s: string, pad: Pad)
    ensures All(s[|TrimTrailing(s, pad)|..], pad)
  {
    if |s| > 0 && IsPad(pad, s[|s| - 1]) {
      TrimTrailingDropsPad(s[..|s| - 1], pad);
      var r := TrimTrailing(s, pad);
      assert s[|r|..] == s[..|s| - 1][|r|..] + [s[|s| - 1]];
    }
  }

  /** `r` is the window of `s` at `i`, with only `pad` characters outside it. */
  predicate FramedAt(s: string, r: string, i: int, pad: Pad) {
    0 <= i && i + |r| <= |s| && s[i..i + |r|] == r && All(s[..i], pad) && All(s[i + |r|..], pad)
  }

  /** Removes every leading and every trailing `pad` character. */
  function Trim(s: string, pad: Pad): (r: string)
    ensures |r| <= |s|
    ensures r == [] || (!IsPad(pad, r[0]) && !IsPad(pad, r[|r| - 1]))
  {
    TrimTrailing(TrimLeading(s, pad), pad)
  }

  /** Trimming cuts out a window of the text with only padding around it. */
  lemma TrimFramed(s: string, pad: Pad)
    ensures exists i | 0 <= i <= |s| - |Trim(s, pad)| :: FramedAt(s, Trim(s, pad), i, pad)
  {
    var t := TrimLeading(s, pad);
    var r := TrimTrailing(t, pad);
    TrimLeadingDropsPad(s, pad);
    TrimTrailingDropsPad(t, pad);
    var i := |s| - |t|;
    assert t == s[i..];
    assert r == t[..|r|];
    assert s[i..i + |r|] == r;
    assert s[i + |r|..] == t[|r|..];
    assert FramedAt(s, r, i, pad);
    assert r == Trim(s, pad);
  }

  /** What trimming leaves is a substring of the text. */
  lemma TrimContained(s: string, pad: Pad)
    ensures Contains(s, Trim(s, pad))
  {
    TrimFramed(s, pad);
    var r := Trim(s, pad);
    var i :| 0 <= i <= |s| - |r| && FramedAt(s, r, i, pad);
    assert OccursAt(s, r, i);
  }

  /** Trimming removes exactly the padding: a text framed by pad characters, whose own ends
      are not pad characters, is what `Trim` returns. */
  lemma TrimOfFramed(p: string, s: string, q: string, pad: Pad)
    requires All(p, pad) && All(q, pad)
    requires s == [] || (!IsPad(pad, s[0]) && !IsPad(pad, s[|s| - 1]))
    ensures Trim(p + s + q, pad) == s
  {
    if s == [] {
      assert p + s + q == (p + q) + [];
      assert All(p + q, pad) by {
        forall k | 0 <= k < |p + q| ensures IsPad(pad, (p + q)[k]) {
          if k >= |p| {
            assert (p + q)[k] == q[k - |p|];
          }
        }
      }
      TrimLeadingPad(p + q, [], pad);
    } else {
      assert p + s + q == p + (s + q);
      TrimLeadingPad(p, s + q, pad);
      TrimTrailingPad(s, q, pad);
    }
  }

  /** Leading pad characters go, up to the first other character. */
  lemma {:induction false} TrimLeadingPad(p: string, t: string, pad: Pad)
    requires All(p, pad)
    requires t == [] || !IsPad(pad, t[0])
    ensures TrimLeading(p + t, pad) == (if t == [] then [] else t)
  {
    if p != [] {
      assert (p + t)[1..] == p[1..] + t;
      TrimLeadingPad(p[1..], t, pad);
    } else {
      assert p + t == t;
      if t == [] {
        assert TrimLeading(t, pad) == [];
      }
    }
  }

  /** Trailing pad characters go, back to the last other character. */
  lemma {:induction false} TrimTrailingPad(s: string, q: string, pad: Pad)
    requires All(q, pad)
    requires s == [] || !IsPad(pad, s[|s| - 1])
    ensures TrimTrailing(s + q, pad) == s
  {
    if q != [] {
      assert (s + q)[..|s + q| - 1] == s + q[..|q| - 1];
      TrimTrailingPad(s, q[..|q| - 1], pad);
    } else {
      assert s + q == s;
    }
  }

  /** Python's `s.strip()`: `Trim` with whitespace as the padding. */
  function Strip(s: string): (r: string)
    ensures r == [] || (!IsSpace(r[0]) && !IsSpace(r[|r| - 1]))
  {
    Trim(s, Whitespace)
  }

  /** The inverse of `Split`: the parts with `sep` between each two. */
  function Join(parts: seq<string>, sep: char): string
    requires |parts| >= 1
  {
    if |parts| == 1 then parts[0] else parts[0] + [sep] + Join(parts[1..], sep)
  }

  /** Python's `s.split(sep)` for a one-character separator: one more part than there are
      separators, and the empty string gives `[""]`. */
  function Split(s: string, sep: char): (parts: seq<string>)
    ensures |parts| >= 1
    ensures forall k :: 0 <= k < |parts| ==> sep !in parts[k]
    decreases |s|
  {
    match IndexOf(s, sep)
    case None => [s]
    case Some(i) => [s[..i]] + Split(s[i + 1..], sep)
  }

  /** A character that is not in the text is in none of its parts. */
  lemma {:induction false} SplitKeepsOut(s: string, sep: char, c: char)
    requires c !in s
    ensures forall k :: 0 <= k < |Split(s, sep)| ==> c !in Split(s, sep)[k]
    decreases |s|
  {
    match IndexOf(s, sep)
    case None =>
    case Some(i) =>
      var rest := s[i + 1..];
      assert c !in rest by {
        forall k | 0 <= k < |rest| ensures rest[k] != c {
          assert rest[k] == s[i + 1 + k];
        }
      }
      assert c !in s[..i] by {
        forall k | 0 <= k < i ensures s[..i][k] != c {
          assert s[..i][k] == s[k];
        }
      }
      SplitKeepsOut(rest, sep, c);
      assert Split(s, sep) == [s[..i]] + Split(rest, sep);
  }

  /** Joining the parts with the separator gives back the split text. */
  lemma {:induction false} JoinSplit(s: string, sep: char)
    ensures Join(Split(s, sep), sep) == s
    decreases |s|
  {
    match IndexOf(s, sep)
    case None =>
    case Some(i) =>
      var rest := Split(s[i + 1..], sep);
      assert Split(s, sep) == [s[..i]] + rest;
      assert ([s[..i]] + rest)[1..] == rest;
      JoinSplit(s[i + 1..], sep);
      assert s == s[..i] + [sep] + s[i + 1..];
  }

  /** Splitting undoes joining, as long as no part holds the separator. */
  lemma {:induction false} SplitJoin(parts: seq<string>, sep: char)
    requires |parts| >= 1
    requires forall k :: 0 <= k < |parts| ==> sep !in parts[k]
    ensures Split(Join(parts, sep), sep) == parts
  {
    if |parts| > 1 {
      var s := Join(parts, sep);
      var p := parts[0];
      assert s[..|p|] == p && s[|p|] == sep;
      assert IndexOf(s, sep) == Some(|p|);
      assert s[|p| + 1..] == Join(parts[1..], sep);
      SplitJoin(parts[1..], sep);
    }
  }

  /** Python's `s.replace(c, with)` for a one-character pattern. */
  function ReplaceChar(s: string, c: char, with: string): (r: string)
    ensures c !in with ==> c !in r
    ensures c !in s ==> r == s
  {
    if s == [] then []
    else (if s[0] == c then with else [s[0]]) + ReplaceChar(s[1..], c, with)
  }

  /** A one-character replacement maps the text character by character. */
  lemma {:induction false} ReplaceCharOneForOne(s: string, c: char, with: string)
    requires |with| == 1
    ensures |ReplaceChar(s, c, with)| == |s|
    ensures forall k :: 0 <= k < |s| ==> ReplaceChar(s, c, with)[k] == (if s[k] == c then with[0] else s[k])
  {
    if s != [] {
      var tail := ReplaceChar(s[1..], c, with);
      ReplaceCharOneForOne(s[1..], c, with);
      var head := if s[0] == c then with else [s[0]];
      var r := ReplaceChar(s, c, with);
      assert r == head + tail;
      assert |head| == 1 && r[0] == head[0];
      forall k | 0 < k < |s| ensures r[k] == (if s[k] == c then with[0] else s[k]) {
        assert r[k] == tail[k - 1];
        assert s[1..][k - 1] == s[k];
      }
    }
  }

  /** Replacing distributes over concatenation. */
  lemma {:induction false} ReplaceCharAppend(a: string, b: string, c: char, with: string)
    ensures ReplaceChar(a + b, c, with) == ReplaceChar(a, c, with) + ReplaceChar(b, c, with)
  {
    var ab := a + b;
    if a == [] {
      assert ab == b;
    } else {
      var head := if a[0] == c then with else [a[0]];
      assert ab[0] == a[0] && ab[1..] == a[1..] + b;
      ReplaceCharAppend(a[1..], b, c, with);
      assert ReplaceChar(ab, c, with) == head + (ReplaceChar(a[1..], c, with) + ReplaceChar(b, c, with));
    }
  }

  /** The set a loop builds when, for each index `k` below `n` that it keeps, it adds
      `item(k)`. */
  function Gather<T>(n: nat, keep: nat -> bool, item: nat -> T): set<T>
  {
    set k | 0 <= k < n && keep(k) :: item(k)
  }

  /** One more index adds its item if it is kept, and nothing otherwise. */
  lemma GatherStep<T>(n: nat, keep: nat -> bool, item: nat -> T)
    ensures Gather(n + 1, keep, item) == Gather(n, keep, item) + (if keep(n) then {item(n)} else {})
  {
  }

  /** What a gathered set holds. */
  lemma GatherMeaning<T>(n: nat, keep: nat -> bool, item: nat -> T, x: T)
    ensures x in Gather(n, keep, item) <==> exists k | 0 <= k < n :: keep(k) && item(k) == x
  {
  }
}
