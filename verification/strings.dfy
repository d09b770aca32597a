/**
 * The Python `str` operations the coach and its scrapers rely on, written over Dafny strings:
 * `s.find(sub, start)`, `sub in s`, `sep.join(parts)`, `s.split(sep)`,
 * `s.strip()` and the decimal rendering of an `int` inside an f-string.
 */
module Strings {

  /** `sub` occurs in `s` starting at position `i`. */
  predicate OccursAt(s: string, sub: string, i: int) {
    0 <= i && i + |sub| <= |s| && s[i..i + |sub|] == sub
  }

  /** `sub` occurs in `s` from position `i` on, compared one character at a time. */
  predicate MatchesAt(s: string, sub: string, i: nat)
    decreases |sub|
  {
    sub == [] || (i < |s| && s[i] == sub[0] && MatchesAt(s, sub[1..], i + 1))
  }

  /** The character-by-character comparison agrees with comparing the slice. */
  lemma {:induction false} MatchesAtOccurs(s: string, sub: string, i: nat)
    requires i + |sub| <= |s|
    ensures MatchesAt(s, sub, i) <==> OccursAt(s, sub, i)
    decreases |sub|
  {
    if sub != [] {
      MatchesAtOccurs(s, sub[1..], i + 1);
      assert s[i..i + |sub|] == [s[i]] + s[i + 1..i + 1 + |sub[1..]|];
      assert sub == [sub[0]] + sub[1..];
    }
  }

  /** Python's `sub in s`. */
  predicate Contains(s: string, sub: string) {
    exists i | 0 <= i <= |s| :: OccursAt(s, sub, i)
  }

  /**
   * Python's `s.find(sub, start)` for a non-negative `start`: a position at or
   * after `start` where `sub` fits in `s`, or -1 (also when `start` is past
   * the end, even for an empty `sub`). `FindSpec` states which position.
   */
  function Find(s: string, sub: string, start: nat): (r: int)
    ensures r == -1 || (start <= r && r + |sub| <= |s|)
    decreases |s| - start
  {
    if start + |sub| > |s| then -1
    else if MatchesAt(s, sub, start) then start
    else Find(s, sub, start + 1)
  }

  /**
   * `find` returns the first occurrence of `sub` at or after `start`, and -1
   * exactly when there is none.
   */
  lemma {:induction false} FindSpec(s: string, sub: string, start: nat)
    ensures var r := Find(s, sub, start);
      && (r != -1 ==> OccursAt(s, sub, r) && forall i | start <= i < r :: !OccursAt(s, sub, i))
      && (r == -1 ==> forall i | start <= i :: !OccursAt(s, sub, i))
    decreases |s| - start
  {
    if start + |sub| <= |s| {
      MatchesAtOccurs(s, sub, start);
      if !MatchesAt(s, sub, start) {
        FindSpec(s, sub, start + 1);
      }
    }
  }

  /** `find` from the beginning succeeds exactly when `sub in s`. */
  lemma FindFromZero(s: string, sub: string)
    ensures Find(s, sub, 0) != -1 <==> Contains(s, sub)
  {
    var r := Find(s, sub, 0);
    FindSpec(s, sub, 0);
    if Contains(s, sub) {
      var i :| 0 <= i <= |s| && OccursAt(s, sub, i);
      assert r != -1;
    }
  }

  /** An occurrence inside a slice is an occurrence in the whole string. */
  lemma OccursInSlice(s: string, sub: string, lo: int, hi: int, q: int)
    requires 0 <= lo <= hi <= |s|
    requires OccursAt(s[lo..hi], sub, q)
    ensures OccursAt(s, sub, lo + q) && lo + q + |sub| <= hi
  {
    forall k | 0 <= k < |sub|
      ensures s[lo + q..lo + q + |sub|][k] == sub[k]
    {
      assert s[lo..hi][q..q + |sub|][k] == sub[k];
    }
  }

  /** Python's `sep.join(parts)`. */
  function Join(parts: seq<string>, sep: string): string {
    if |parts| == 0 then ""
    else if |parts| == 1 then parts[0]
    else parts[0] + sep + Join(parts[1..], sep)
  }

  /** Joining one more part appends the separator and that part. */
  lemma {:induction false} JoinSnoc(parts: seq<string>, p: string, sep: string)
    requires parts != []
    ensures Join(parts + [p], sep) == Join(parts, sep) + sep + p
  {
    if |parts| == 1 {
      assert (parts + [p])[1..] == [p];
    } else {
      assert (parts + [p])[1..] == parts[1..] + [p];
      JoinSnoc(parts[1..], p, sep);
    }
  }

  /** An occurrence stays an occurrence when text is put in front. */
  lemma OccursShift(p: string, t: string, sub: string, q: int)
    requires OccursAt(t, sub, q)
    ensures OccursAt(p + t, sub, |p| + q)
  {
    assert (p + t)[|p| + q..|p| + q + |sub|] == t[q..q + |sub|];
  }

  /** A string put between two others occurs right after the first one. */
  lemma EmbeddedAt(pre: string, s: string, post: string)
    ensures (pre + s + post)[|pre|..|pre| + |s|] == s
    ensures OccursAt(pre + s + post, s, |pre|) && Contains(pre + s + post, s)
  {
    var t := pre + s + post;
    assert t[|pre|..|pre| + |s|] == s;
    assert OccursAt(t, s, |pre|);
  }

  /** Every part occurs in the joined string. */
  lemma {:induction false} JoinContainsPart(parts: seq<string>, sep: string, i: nat)
    requires i < |parts|
    ensures Contains(Join(parts, sep), parts[i])
  {
    var j := Join(parts, sep);
    if i == 0 {
      assert j[0..|parts[0]|] == parts[0];
      assert OccursAt(j, parts[0], 0);
    } else {
      JoinContainsPart(parts[1..], sep, i - 1);
      var rest := Join(parts[1..], sep);
      var q :| 0 <= q <= |rest| && OccursAt(rest, parts[i], q);
      OccursShift(parts[0] + sep, rest, parts[i], q);
    }
  }

  /**
   * Python's `s.split(sep)` for a non-empty separator: the pieces between
   * the non-overlapping occurrences of `sep`, found left to right.
   */
  function Split(s: string, sep: string): (r: seq<string>)
    requires sep != []
    ensures |r| >= 1
    decreases |s|
  {
    var i := Find(s, sep, 0);
    if i == -1 then [s] else [s[..i]] + Split(s[i + |sep|..], sep)
  }

  /** Joining the pieces of a split with the same separator gives back the string. */
  lemma {:induction false} SplitJoin(s: string, sep: string)
    requires sep != []
    ensures Join(Split(s, sep), sep) == s
    decreases |s|
  {
    var i := Find(s, sep, 0);
    if i != -1 {
      var rest := s[i + |sep|..];
      var tail := Split(rest, sep);
      SplitJoin(rest, sep);
      FindSpec(s, sep, 0);
      assert Split(s, sep) == [s[..i]] + tail;
      assert ([s[..i]] + tail)[1..] == tail;
      assert Join(Split(s, sep), sep) == s[..i] + sep + Join(tail, sep);
      assert s[i..i + |sep|] == sep;
      assert s == s[..i] + s[i..i + |sep|] + rest;
    }
  }

  /** No piece of a split contains the separator. */
  lemma {:induction false} SplitPiecesFree(s: string, sep: string)
    requires sep != []
    ensures forall k | 0 <= k < |Split(s, sep)| :: !Contains(Split(s, sep)[k], sep)
    decreases |s|
  {
    var i := Find(s, sep, 0);
    if i == -1 {
      FindFromZero(s, sep);
    } else {
      var rest := s[i + |sep|..];
      SplitPiecesFree(rest, sep);
      FindSpec(s, sep, 0);
      if Contains(s[..i], sep) {
        var q :| 0 <= q <= i && OccursAt(s[..i], sep, q);
        assert s[0..i] == s[..i];
        OccursInSlice(s, sep, 0, i, q);
        assert false;
      }
    }
  }

  /** Python's `s.split(sep)[-1]`. */
  function LastPiece(s: string, sep: string): string
    requires sep != []
  {
    var pieces := Split(s, sep);
    pieces[|pieces| - 1]
  }

  /**
   * `s.split(sep)[-1]` is the whole string when `sep` does not occur, and
   * otherwise a suffix of `s` right after an occurrence of `sep`; it never
   * contains `sep`.
   */
  lemma LastPieceSpec(s: string, sep: string)
    requires sep != []
    ensures var t := LastPiece(s, sep);
      && !Contains(t, sep)
      && (!Contains(s, sep) ==> t == s)
      && (Contains(s, sep) ==>
            |t| + |sep| <= |s| && s[|s| - |t|..] == t && OccursAt(s, sep, |s| - |t| - |sep|))
  {
    var pieces := Split(s, sep);
    var t := pieces[|pieces| - 1];
    SplitPiecesFree(s, sep);
    FindFromZero(s, sep);
    if Contains(s, sep) {
      var i := Find(s, sep, 0);
      assert |pieces| >= 2;
      var front := pieces[..|pieces| - 1];
      assert pieces == front + [t];
      SplitJoin(s, sep);
      JoinSnoc(front, t, sep);
      var pre := Join(front, sep);
      assert s == pre + sep + t;
      assert s[|s| - |t|..] == t;
      assert s[|pre|..|pre| + |sep|] == sep;
    }
  }

  /** Python's `str.isspace()` for one character: the characters `strip()` removes. */
  predicate IsSpace(c: char) {
    || c == ' '
    || '\t' <= c <= '\r'
    || '\U{1c}' <= c <= '\U{1f}'
    || c == '\U{85}'
    || c == '\U{a0}'
    || c == '\U{1680}'
    || '\U{2000}' <= c <= '\U{200a}'
    || c == '\U{2028}'
    || c == '\U{2029}'
    || c == '\U{202f}'
    || c == '\U{205f}'
    || c == '\U{3000}'
  }

  /** Python's `s.rstrip()`. */
  function TrimEnd(s: string): (r: string)
    ensures |r| <= |s| && r == s[..|r|]
    ensures forall k | |r| <= k < |s| :: IsSpace(s[k])
    ensures r == [] || !IsSpace(r[|r| - 1])
  {
    if s == [] || !IsSpace(s[|s| - 1]) then s else TrimEnd(s[..|s| - 1])
  }

  /** Python's `s.lstrip()`. */
  function TrimStart(s: string): (r: string)
    ensures |r| <= |s| && r == s[|s| - |r|..]
    ensures forall k | 0 <= k < |s| - |r| :: IsSpace(s[k])
    ensures r == [] || !IsSpace(r[0])
  {
    if s == [] || !IsSpace(s[0]) then s else TrimStart(s[1..])
  }

  /** `r` is the slice of `s` at `i`, with only whitespace before and after it. */
  predicate TrimmedSliceAt(s: string, r: string, i: int) {
    && 0 <= i <= |s| - |r|
    && r == s[i..i + |r|]
    && (forall k | 0 <= k < i :: IsSpace(s[k]))
    && (forall k | i + |r| <= k < |s| :: IsSpace(s[k]))
  }

  /** Python's `s.strip()`. */
  function Strip(s: string): string {
    TrimStart(TrimEnd(s))
  }

  /** `s.strip()` neither starts nor ends with whitespace. */
  lemma StripEnds(s: string)
    ensures var r := Strip(s); r == [] || (!IsSpace(r[0]) && !IsSpace(r[|r| - 1]))
  {
    var e := TrimEnd(s);
    var r := TrimStart(e);
    if r != [] {
      assert r[|r| - 1] == e[|e| - 1];
    }
  }

  /** `s.strip()` is a slice of `s` with only whitespace outside it. */
  lemma StripSlice(s: string)
    ensures TrimmedSliceAt(s, Strip(s), |TrimEnd(s)| - |Strip(s)|)
  {
    var e := TrimEnd(s);
    var r := TrimStart(e);
    var i := |e| - |r|;
    assert r == e[i..];
    assert e[i..] == s[i..|e|];
    forall k | 0 <= k < i ensures IsSpace(s[k]) {
      assert s[k] == e[k];
    }
  }

  /** The character for a decimal digit. */
  function DigitChar(d: nat): (c: char)
    requires d < 10
    ensures '0' <= c <= '9'
  {
    ('0' as int + d) as char
  }

  /** Python's `f"{n}"` for a non-negative integer: its decimal digits. */
  function NatToString(n: nat): (r: string)
    ensures |r| >= 1
    ensures forall k | 0 <= k < |r| :: '0' <= r[k] <= '9'
  {
    if n < 10 then [DigitChar(n)] else NatToString(n / 10) + [DigitChar(n % 10)]
  }

  /** Python's `int(s)` for a string of decimal digits. */
  function ParseNat(s: string): nat
    requires forall k | 0 <= k < |s| :: '0' <= s[k] <= '9'
  {
    if s == [] then 0 else ParseNat(s[..|s| - 1]) * 10 + (s[|s| - 1] as int - '0' as int)
  }

  /** Reading back the decimal rendering of `n` gives `n`. */
  lemma {:induction false} ParseNatToString(n: nat)
    ensures ParseNat(NatToString(n)) == n
  {
    var r := NatToString(n);
    if n >= 10 {
      ParseNatToString(n / 10);
      assert r[..|r| - 1] == NatToString(n / 10);
    }
  }

  /** Distinct numbers render to distinct decimal strings. */
  lemma NatToStringInjective(a: nat, b: nat)
    ensures NatToString(a) == NatToString(b) ==> a == b
  {
    ParseNatToString(a);
    ParseNatToString(b);
  }

  /** Two strings with a common prefix are equal only if the rests are. */
  lemma PrefixCancel(p: string, a: string, b: string)
    ensures p + a == p + b ==> a == b
  {
    if p + a == p + b {
      assert a == (p + a)[|p|..];
      assert b == (p + b)[|p|..];
    }
  }

  /** `prefix + f"{i}"` keys are pairwise distinct for distinct `i`. */
  lemma NumberedKeysDistinct(prefix: string, a: nat, b: nat)
    ensures a != b ==> prefix + NatToString(a) != prefix + NatToString(b)
  {
    PrefixCancel(prefix, NatToString(a), NatToString(b));
    NatToStringInjective(a, b);
  }
}
