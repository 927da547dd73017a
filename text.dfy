/**
 * The parts of JavaScript's String and Array methods that the mapping engine
 * relies on (toLowerCase, regex replace, split, join, trim, includes,
 * lastIndexOf), modelled on sequences of characters.
 */
module Text {
  import opened Wrappers

  // ----- Lower-casing ---------------------------------------------------------

  predicate IsAsciiUpper(c: char) { 'A' <= c <= 'Z' }

  function LowerChar(c: char): char {
    if IsAsciiUpper(c) then (c as int + 32) as char else c
  }

  /** String.prototype.toLowerCase on ASCII letters; every other character is kept. */
  function ToLower(s: string): string {
    seq(|s|, i requires 0 <= i < |s| => LowerChar(s[i]))
  }

  /** Lower-casing leaves no ASCII capital behind, and doing it twice changes nothing more. */
  lemma ToLowerIdempotent(s: string)
    ensures |ToLower(s)| == |s|
    ensures forall i :: 0 <= i < |s| ==> !IsAsciiUpper(ToLower(s)[i])
    ensures ToLower(ToLower(s)) == ToLower(s)
  {
  }

  /** Lower-casing keeps a string that is already lower-case alphanumeric. */
  lemma ToLowerKeepsLowerAlnum(s: string)
    ensures AllLowerAlnum(s) ==> ToLower(s) == s
  {
    if AllLowerAlnum(s) {
      assert forall i :: 0 <= i < |s| ==> ToLower(s)[i] == s[i];
    }
  }

  // ----- Character classes ----------------------------------------------------

  predicate IsLowerAlnum(c: char) { 'a' <= c <= 'z' || '0' <= c <= '9' }

  predicate AllLowerAlnum(s: string) {
    forall i :: 0 <= i < |s| ==> IsLowerAlnum(s[i])
  }

  predicate IsNotLowerAlnum(c: char) { !IsLowerAlnum(c) }

  /** The characters of `s` from index `i` on that are in [a-z0-9], in order. */
  function KeepLowerAlnumFrom(s: string, i: nat): string
    decreases |s| - i
  {
    if i >= |s| then []
    else if IsLowerAlnum(s[i]) then [s[i]] + KeepLowerAlnumFrom(s, i + 1)
    else KeepLowerAlnumFrom(s, i + 1)
  }

  /** `.replace(/[^a-z0-9]/g, '')`: the characters of `s` that are in [a-z0-9], in order. */
  function KeepLowerAlnum(s: string): string {
    KeepLowerAlnumFrom(s, 0)
  }

  lemma {:induction false} KeepLowerAlnumFromSpec(s: string, i: nat)
    requires i <= |s|
    ensures AllLowerAlnum(KeepLowerAlnumFrom(s, i))
    ensures |KeepLowerAlnumFrom(s, i)| <= |s| - i
    ensures AllLowerAlnum(s[i..]) ==> KeepLowerAlnumFrom(s, i) == s[i..]
    decreases |s| - i
  {
    if i < |s| {
      KeepLowerAlnumFromSpec(s, i + 1);
      if AllLowerAlnum(s[i..]) {
        assert s[i..][0] == s[i];
        var t := s[i + 1..];
        assert AllLowerAlnum(t) by {
          forall k | 0 <= k < |t| ensures IsLowerAlnum(t[k]) {
            assert t[k] == s[i..][k + 1];
          }
        }
        assert s[i..] == [s[i]] + s[i + 1..];
      }
    }
  }

  /** The result holds only [a-z0-9], is no longer than `s`, and is `s` itself when nothing needs removing. */
  lemma KeepLowerAlnumSpec(s: string)
    ensures AllLowerAlnum(KeepLowerAlnum(s))
    ensures |KeepLowerAlnum(s)| <= |s|
    ensures AllLowerAlnum(s) ==> KeepLowerAlnum(s) == s
  {
    KeepLowerAlnumFromSpec(s, 0);
    assert s[0..] == s;
  }

  /**
   * The characters ECMAScript's String.prototype.trim removes: WhiteSpace
   * (TAB, VT, FF, ZWNBSP and every space separator) and LineTerminator.
   */
  predicate IsJsWhitespace(c: char) {
    var n := c as int;
    n == 0x09 || n == 0x0A || n == 0x0B || n == 0x0C || n == 0x0D || n == 0x20
    || n == 0xA0 || n == 0x1680 || (0x2000 <= n <= 0x200A) || n == 0x2028
    || n == 0x2029 || n == 0x202F || n == 0x205F || n == 0x3000 || n == 0xFEFF
  }

  predicate AllWhitespace(s: string) {
    forall i :: 0 <= i < |s| ==> IsJsWhitespace(s[i])
  }

  /** Neither end of the string is whitespace. */
  predicate IsTrimmed(s: string) {
    s == [] || (!IsJsWhitespace(s[0]) && !IsJsWhitespace(s[|s| - 1]))
  }

  // ----- Trimming -------------------------------------------------------------

  /** The first index from `i` on that is not whitespace, or |s|. */
  function TrimLo(s: string, i: nat): (r: nat)
    requires i <= |s|
    ensures i <= r <= |s|
    decreases |s| - i
  {
    if i < |s| && IsJsWhitespace(s[i]) then TrimLo(s, i + 1) else i
  }

  /** Just past the last index in [lo, j) that is not whitespace, or lo. */
  function TrimHi(s: string, lo: nat, j: nat): (r: nat)
    requires lo <= j <= |s|
    ensures lo <= r <= j
    decreases j
  {
    if j > lo && IsJsWhitespace(s[j - 1]) then TrimHi(s, lo, j - 1) else j
  }

  /** String.prototype.trim: leading and trailing whitespace removed. */
  function Trim(s: string): string {
    s[TrimLo(s, 0)..TrimHi(s, TrimLo(s, 0), |s|)]
  }

  lemma {:induction false} TrimLoSpec(s: string, i: nat)
    requires i <= |s|
    ensures AllWhitespace(s[i..TrimLo(s, i)])
    ensures TrimLo(s, i) < |s| ==> !IsJsWhitespace(s[TrimLo(s, i)])
    decreases |s| - i
  {
    if i < |s| && IsJsWhitespace(s[i]) {
      TrimLoSpec(s, i + 1);
      var r := TrimLo(s, i);
      forall k | 0 <= k < |s[i..r]| ensures IsJsWhitespace(s[i..r][k]) {
        if k > 0 { assert s[i..r][k] == s[i + 1..r][k - 1]; }
      }
    }
  }

  lemma {:induction false} TrimHiSpec(s: string, lo: nat, j: nat)
    requires lo <= j <= |s|
    ensures AllWhitespace(s[TrimHi(s, lo, j)..j])
    ensures TrimHi(s, lo, j) > lo ==> !IsJsWhitespace(s[TrimHi(s, lo, j) - 1])
    ensures forall k :: lo <= k < j && !IsJsWhitespace(s[k]) ==> k < TrimHi(s, lo, j)
    decreases j
  {
    if j > lo && IsJsWhitespace(s[j - 1]) {
      TrimHiSpec(s, lo, j - 1);
      var r := TrimHi(s, lo, j);
      forall k | 0 <= k < |s[r..j]| ensures IsJsWhitespace(s[r..j][k]) {
        assert s[r..j][k] == s[r + k];
        if r + k < j - 1 { assert s[r..j - 1][k] == s[r + k]; }
      }
    }
  }

  /**
   * The trimmed string is a contiguous piece of `s` with no whitespace at
   * either end, and everything cut away is whitespace.
   */
  lemma TrimSpec(s: string)
    ensures IsTrimmed(Trim(s))
    ensures exists lo, hi :: (0 <= lo <= hi <= |s| && Trim(s) == s[lo..hi]
      && AllWhitespace(s[..lo]) && AllWhitespace(s[hi..]))
  {
    var lo := TrimLo(s, 0);
    var hi := TrimHi(s, lo, |s|);
    TrimLoSpec(s, 0);
    TrimHiSpec(s, lo, |s|);
    assert s[0..lo] == s[..lo];
    assert s[hi..|s|] == s[hi..];
    assert Trim(s) == s[lo..hi];
    if hi > lo {
      assert Trim(s)[0] == s[lo];
      assert Trim(s)[|Trim(s)| - 1] == s[hi - 1];
    }
  }

  /** Trimming removes characters and never brings one in. */
  lemma TrimKeepsOut(s: string, c: char)
    requires c !in s
    ensures c !in Trim(s)
  {
    var lo := TrimLo(s, 0);
    var hi := TrimHi(s, lo, |s|);
    assert Trim(s) == s[lo..hi];
    assert forall k :: 0 <= k < hi - lo ==> s[lo..hi][k] == s[lo + k];
  }

  /** A string without whitespace at its ends is its own trim. */
  lemma TrimOfTrimmed(s: string)
    requires IsTrimmed(s)
    ensures Trim(s) == s
  {
    assert TrimLo(s, 0) == 0;
    assert TrimHi(s, 0, |s|) == |s|;
  }

  /** Trimming is idempotent. */
  lemma TrimIdempotent(s: string)
    ensures Trim(Trim(s)) == Trim(s)
  {
    TrimSpec(s);
    TrimOfTrimmed(Trim(s));
  }

  /** A string trims to nothing exactly when it is all whitespace. */
  lemma TrimEmptyIff(s: string)
    ensures Trim(s) == [] <==> AllWhitespace(s)
  {
    var lo := TrimLo(s, 0);
    var hi := TrimHi(s, lo, |s|);
    TrimLoSpec(s, 0);
    TrimHiSpec(s, lo, |s|);
    assert s[0..lo] == s[..lo];
    if lo == |s| {
      assert s[..lo] == s;
    } else {
      assert !IsJsWhitespace(s[lo]);
      assert hi > lo;
      assert Trim(s)[0] == s[lo];
    }
  }

  /** A list without repeated elements. */
  predicate NoDuplicates(xs: seq<string>) {
    forall i, j :: 0 <= i < j < |xs| ==> xs[i] != xs[j]
  }

  // ----- Splitting and joining ------------------------------------------------

  predicate NoneWhere(s: string, isSep: char -> bool) {
    forall i :: 0 <= i < |s| ==> !isSep(s[i])
  }

  /**
   * The split of `s[start..]` at every separator, where `s[start..i]` has
   * already been scanned and holds none.
   */
  function SplitFrom(s: string, isSep: char -> bool, start: nat, i: nat): seq<string>
    requires start <= i <= |s|
    decreases |s| - i
  {
    if i == |s| then [s[start..]]
    else if isSep(s[i]) then [s[start..i]] + SplitFrom(s, isSep, i + 1, i + 1)
    else SplitFrom(s, isSep, start, i + 1)
  }

  /** String.prototype.split at every character satisfying `isSep`. */
  function SplitWhere(s: string, isSep: char -> bool): seq<string> {
    SplitFrom(s, isSep, 0, 0)
  }

  lemma {:induction false} SplitFromSpec(s: string, isSep: char -> bool, start: nat, i: nat)
    requires start <= i <= |s| && NoneWhere(s[start..i], isSep)
    ensures |SplitFrom(s, isSep, start, i)| >= 1
    ensures forall k :: 0 <= k < |SplitFrom(s, isSep, start, i)| ==> NoneWhere(SplitFrom(s, isSep, start, i)[k], isSep)
    ensures |SplitFrom(s, isSep, start, i)| == 1 <==> NoneWhere(s[start..], isSep)
    ensures |SplitFrom(s, isSep, start, i)| == 1 ==> SplitFrom(s, isSep, start, i)[0] == s[start..]
    decreases |s| - i
  {
    if i == |s| {
      assert s[start..i] == s[start..];
    } else {
      if isSep(s[i]) {
        SplitFromSpec(s, isSep, i + 1, i + 1);
        assert s[start..][i - start] == s[i];
      } else {
        var t := s[start..i + 1];
        assert NoneWhere(t, isSep) by {
          forall k | 0 <= k < |t| ensures !isSep(t[k]) {
            if k < i - start { assert t[k] == s[start..i][k]; }
          }
        }
        SplitFromSpec(s, isSep, start, i + 1);
      }
    }
  }

  /**
   * One more piece than there are separators: a single piece, equal to `s`,
   * exactly when `s` holds no separator; and no piece holds a separator.
   */
  lemma SplitWhereSpec(s: string, isSep: char -> bool)
    ensures |SplitWhere(s, isSep)| >= 1
    ensures forall k :: 0 <= k < |SplitWhere(s, isSep)| ==> NoneWhere(SplitWhere(s, isSep)[k], isSep)
    ensures |SplitWhere(s, isSep)| == 1 <==> NoneWhere(s, isSep)
    ensures |SplitWhere(s, isSep)| == 1 ==> SplitWhere(s, isSep)[0] == s
  {
    SplitFromSpec(s, isSep, 0, 0);
    assert s[0..] == s;
  }

  /** The separator characters of `s` from index `i` on, in order. */
  function SepsFrom(s: string, isSep: char -> bool, i: nat): (r: string)
    ensures forall k :: 0 <= k < |r| ==> isSep(r[k])
    decreases |s| - i
  {
    if i >= |s| then []
    else if isSep(s[i]) then [s[i]] + SepsFrom(s, isSep, i + 1)
    else SepsFrom(s, isSep, i + 1)
  }

  function Seps(s: string, isSep: char -> bool): string {
    SepsFrom(s, isSep, 0)
  }

  /** `parts[0] + seps[0] + parts[1] + ... + seps[n - 1] + parts[n]`. */
  function Interleave(parts: seq<string>, seps: string): string
    requires |parts| == |seps| + 1
    decreases |seps|
  {
    if seps == [] then parts[0]
    else parts[0] + [seps[0]] + Interleave(parts[1..], seps[1..])
  }

  lemma {:induction false} SplitFromRebuild(s: string, isSep: char -> bool, start: nat, i: nat)
    requires start <= i <= |s|
    ensures |SplitFrom(s, isSep, start, i)| == |SepsFrom(s, isSep, i)| + 1
    ensures Interleave(SplitFrom(s, isSep, start, i), SepsFrom(s, isSep, i)) == s[start..]
    decreases |s| - i
  {
    if i < |s| {
      if isSep(s[i]) {
        SplitFromRebuild(s, isSep, i + 1, i + 1);
        var parts := SplitFrom(s, isSep, start, i);
        var seps := SepsFrom(s, isSep, i);
        assert parts[1..] == SplitFrom(s, isSep, i + 1, i + 1);
        assert seps[1..] == SepsFrom(s, isSep, i + 1);
        assert s[start..] == s[start..i] + [s[i]] + s[i + 1..];
      } else {
        SplitFromRebuild(s, isSep, start, i + 1);
      }
    }
  }

  /**
   * The pieces rebuild `s`: one more piece than there are separators, and
   * putting the separator characters back between them, in order, gives `s`.
   */
  lemma SplitWhereRebuild(s: string, isSep: char -> bool)
    ensures |SplitWhere(s, isSep)| == |Seps(s, isSep)| + 1
    ensures Interleave(SplitWhere(s, isSep), Seps(s, isSep)) == s
  {
    SplitFromRebuild(s, isSep, 0, 0);
    assert s[0..] == s;
  }

  /** The index of the first separator in `t` at or after `i`, or `|t|` when there is none. */
  function FirstSepFrom(t: string, isSep: char -> bool, i: nat): nat
    decreases |t| - i
  {
    if i >= |t| then |t|
    else if isSep(t[i]) then i
    else FirstSepFrom(t, isSep, i + 1)
  }

  /** Past a separator-free prefix, the first separator is the one that follows it. */
  lemma {:induction false} FirstSepAfter(t: string, a: string, c: char, rest: string, isSep: char -> bool, i: nat)
    requires t == a + [c] + rest && NoneWhere(a, isSep) && isSep(c) && i <= |a|
    ensures FirstSepFrom(t, isSep, i) == |a|
    decreases |a| - i
  {
    if i < |a| {
      assert t[i] == a[i];
      FirstSepAfter(t, a, c, rest, isSep, i + 1);
    } else {
      assert t[i] == c;
    }
  }

  /** Separator-free pieces are determined by what they rebuild with a fixed run of separators. */
  lemma {:induction false} InterleaveUnique(p1: seq<string>, p2: seq<string>, seps: string, isSep: char -> bool)
    requires |p1| == |seps| + 1 && |p2| == |seps| + 1
    requires forall k :: 0 <= k < |seps| ==> isSep(seps[k])
    requires forall k :: 0 <= k < |p1| ==> NoneWhere(p1[k], isSep)
    requires forall k :: 0 <= k < |p2| ==> NoneWhere(p2[k], isSep)
    requires Interleave(p1, seps) == Interleave(p2, seps)
    ensures p1 == p2
    decreases |seps|
  {
    if seps != [] {
      var a, b := p1[0], p2[0];
      var t := Interleave(p1, seps);
      assert NoneWhere(a, isSep) && NoneWhere(b, isSep);
      assert t == a + [seps[0]] + Interleave(p1[1..], seps[1..]);
      assert t == b + [seps[0]] + Interleave(p2[1..], seps[1..]);
      FirstSepAfter(t, a, seps[0], Interleave(p1[1..], seps[1..]), isSep, 0);
      FirstSepAfter(t, b, seps[0], Interleave(p2[1..], seps[1..]), isSep, 0);
      assert a == t[..|a|] == b;
      assert Interleave(p1[1..], seps[1..]) == t[|a| + 1..] == Interleave(p2[1..], seps[1..]);
      InterleaveUnique(p1[1..], p2[1..], seps[1..], isSep);
      assert p1 == [a] + p1[1..] && p2 == [b] + p2[1..];
    }
  }

  /** Any separator-free pieces that rebuild `s` are exactly the split of `s`. */
  lemma SplitWhereUnique(s: string, isSep: char -> bool, parts: seq<string>)
    requires |parts| == |Seps(s, isSep)| + 1
    requires forall k :: 0 <= k < |parts| ==> NoneWhere(parts[k], isSep)
    requires Interleave(parts, Seps(s, isSep)) == s
    ensures parts == SplitWhere(s, isSep)
  {
    SplitWhereSpec(s, isSep);
    SplitWhereRebuild(s, isSep);
    InterleaveUnique(parts, SplitWhere(s, isSep), Seps(s, isSep), isSep);
  }

  /** With no separator left to scan, the rest of `s` is one last piece. */
  lemma {:induction false} SplitFromNoSep(s: string, isSep: char -> bool, start: nat, i: nat)
    requires start <= i <= |s| && NoneWhere(s[i..], isSep)
    ensures SplitFrom(s, isSep, start, i) == [s[start..]]
    decreases |s| - i
  {
    if i < |s| {
      assert s[i..][0] == s[i];
      var t := s[i + 1..];
      assert NoneWhere(t, isSep) by {
        forall k | 0 <= k < |t| ensures !isSep(t[k]) {
          assert t[k] == s[i..][k + 1];
        }
      }
      SplitFromNoSep(s, isSep, start, i + 1);
    }
  }

  /** The next separator at or after `i`, at index `k`, closes the current piece. */
  lemma {:induction false} SplitFromSep(s: string, isSep: char -> bool, start: nat, i: nat, k: nat)
    requires start <= i <= k < |s| && NoneWhere(s[i..k], isSep) && isSep(s[k])
    ensures SplitFrom(s, isSep, start, i) == [s[start..k]] + SplitFrom(s, isSep, k + 1, k + 1)
    decreases k - i
  {
    if i < k {
      assert s[i..k][0] == s[i];
      var t := s[i + 1..k];
      assert NoneWhere(t, isSep) by {
        forall j | 0 <= j < |t| ensures !isSep(t[j]) {
          assert t[j] == s[i..k][j + 1];
        }
      }
      SplitFromSep(s, isSep, start, i + 1, k);
    }
  }

  /** `s.split(c)` for a single separator character. */
  function SplitOn(s: string, c: char): seq<string> {
    SplitWhere(s, x => x == c)
  }

  /** A single piece exactly when `c` does not occur; no piece holds `c`. */
  lemma SplitOnSpec(s: string, c: char)
    ensures |SplitOn(s, c)| >= 1
    ensures |SplitOn(s, c)| == 1 <==> c !in s
    ensures |SplitOn(s, c)| == 1 ==> SplitOn(s, c)[0] == s
    ensures forall k :: 0 <= k < |SplitOn(s, c)| ==> c !in SplitOn(s, c)[k]
  {
    var parts := SplitOn(s, c);
    SplitWhereSpec(s, x => x == c);
    assert NoneWhere(s, x => x == c) <==> c !in s;
    forall k | 0 <= k < |parts| ensures c !in parts[k] {
      assert NoneWhere(parts[k], x => x == c);
    }
  }

  /** A string with exactly one `c`, at index `k`, splits into the pieces before and after it. */
  lemma SplitOnOne(s: string, c: char, k: nat)
    requires k < |s| && s[k] == c && c !in s[..k] && c !in s[k + 1..]
    ensures SplitOn(s, c) == [s[..k], s[k + 1..]]
  {
    assert NoneWhere(s[0..k], x => x == c) by { assert s[0..k] == s[..k]; }
    SplitFromSep(s, x => x == c, 0, 0, k);
    SplitFromNoSep(s, x => x == c, k + 1, k + 1);
    assert s[0..k] == s[..k];
  }

  /** Array.prototype.join. */
  function Join(parts: seq<string>, sep: string): string
    decreases |parts|
  {
    if |parts| == 0 then ""
    else if |parts| == 1 then parts[0]
    else parts[0] + sep + Join(parts[1..], sep)
  }

  lemma {:induction false} JoinSplitFrom(s: string, c: char, start: nat, i: nat)
    requires start <= i <= |s|
    ensures Join(SplitFrom(s, x => x == c, start, i), [c]) == s[start..]
    decreases |s| - i
  {
    if i < |s| {
      if s[i] == c {
        JoinSplitFrom(s, c, i + 1, i + 1);
        var rest := SplitFrom(s, x => x == c, i + 1, i + 1);
        SplitFromSpec(s, x => x == c, i + 1, i + 1);
        assert s[start..] == s[start..i] + [c] + s[i + 1..];
        if |rest| == 1 {
          assert ([s[start..i]] + rest)[1..] == rest;
        } else {
          assert ([s[start..i]] + rest)[1..] == rest;
        }
      } else {
        JoinSplitFrom(s, c, start, i + 1);
      }
    }
  }

  /** Splitting on a character and joining with that character gives the string back. */
  lemma JoinSplitOn(s: string, c: char)
    ensures Join(SplitOn(s, c), [c]) == s
  {
    JoinSplitFrom(s, c, 0, 0);
    assert s[0..] == s;
  }

  /** Joining one more part adds the separator and the part at the end. */
  lemma {:induction false} JoinAppend(parts: seq<string>, p: string, sep: string)
    ensures Join(parts + [p], sep) == if parts == [] then p else Join(parts, sep) + sep + p
    decreases |parts|
  {
    if |parts| >= 2 {
      assert (parts + [p])[1..] == parts[1..] + [p];
      JoinAppend(parts[1..], p, sep);
    } else if |parts| == 1 {
      assert (parts + [p])[1..] == [p];
    }
  }

  /** Joining non-empty trimmed parts gives a trimmed string that is empty only when there are no parts. */
  lemma {:induction false} JoinTrimmed(parts: seq<string>, sep: string)
    requires forall i :: 0 <= i < |parts| ==> parts[i] != [] && IsTrimmed(parts[i])
    ensures IsTrimmed(Join(parts, sep))
    ensures Join(parts, sep) == [] <==> parts == []
    ensures parts != [] ==> |Join(parts, sep)| >= |parts[0]| && Join(parts, sep)[..|parts[0]|] == parts[0]
    decreases |parts|
  {
    if |parts| >= 2 {
      JoinTrimmed(parts[1..], sep);
      var j := parts[0] + sep + Join(parts[1..], sep);
      assert j[0] == parts[0][0];
      assert j[|j| - 1] == Join(parts[1..], sep)[|Join(parts[1..], sep)| - 1];
      assert j[..|parts[0]|] == parts[0];
    }
  }

  // ----- Searching ------------------------------------------------------------

  /** `p[k..]` occurs in `s` starting at index `i + k`, checked one character at a time. */
  predicate MatchesAt(s: string, p: string, i: nat, k: nat)
    decreases |p| - k
  {
    k >= |p| || (i + k < |s| && s[i + k] == p[k] && MatchesAt(s, p, i, k + 1))
  }

  /** `sub` occurs in `s` starting at index `i`. */
  predicate OccursAt(s: string, sub: string, i: nat) {
    i + |sub| <= |s| && MatchesAt(s, sub, i, 0)
  }

  lemma {:induction false} MatchesAtIff(s: string, p: string, i: nat, k: nat)
    requires k <= |p| && i + |p| <= |s|
    ensures MatchesAt(s, p, i, k) <==> s[i + k..i + |p|] == p[k..]
    decreases |p| - k
  {
    if k < |p| {
      MatchesAtIff(s, p, i, k + 1);
      assert s[i + k..i + |p|] == [s[i + k]] + s[i + k + 1..i + |p|];
      assert p[k..] == [p[k]] + p[k + 1..];
    }
  }

  /** An occurrence at `i` is a slice of `s` equal to `sub`. */
  lemma OccursAtIff(s: string, sub: string, i: nat)
    ensures OccursAt(s, sub, i) <==> i + |sub| <= |s| && s[i..i + |sub|] == sub
  {
    if i + |sub| <= |s| {
      MatchesAtIff(s, sub, i, 0);
      assert sub[0..] == sub;
    }
  }

  /** String.prototype.startsWith. */
  predicate StartsWith(s: string, p: string) {
    OccursAt(s, p, 0)
  }

  /** `sub` occurs in `s` at some index from `i` on. */
  predicate ContainsFrom(s: string, sub: string, i: nat)
    decreases |s| - i
  {
    i + |sub| <= |s| && (MatchesAt(s, sub, i, 0) || ContainsFrom(s, sub, i + 1))
  }

  /** String.prototype.includes. */
  predicate Contains(s: string, sub: string) {
    ContainsFrom(s, sub, 0)
  }

  lemma {:induction false} ContainsFromIff(s: string, sub: string, i: nat)
    requires i <= |s|
    ensures ContainsFrom(s, sub, i) <==> exists j: nat :: i <= j && OccursAt(s, sub, j)
    decreases |s| - i
  {
    assert OccursAt(s, sub, i) <==> i + |sub| <= |s| && MatchesAt(s, sub, i, 0);
    if i < |s| {
      ContainsFromIff(s, sub, i + 1);
    }
    forall j: nat | i <= j && OccursAt(s, sub, j) ensures ContainsFrom(s, sub, i) {
      if j > i {
        assert i + 1 <= j && OccursAt(s, sub, j);
      }
    }
  }

  /** `includes` holds exactly when `sub` occurs at some index. */
  lemma ContainsIff(s: string, sub: string)
    ensures Contains(s, sub) <==> exists i: nat :: OccursAt(s, sub, i)
  {
    ContainsFromIff(s, sub, 0);
  }

  /** String.prototype.lastIndexOf for one character; None stands for -1. */
  function LastIndexOf(s: string, c: char): (r: Option<nat>)
    ensures r.Some? ==> r.value < |s| && s[r.value] == c && c !in s[r.value + 1..]
    ensures r.None? <==> c !in s
    decreases |s|
  {
    if s == [] then None
    else if s[|s| - 1] == c then Some(|s| - 1)
    else
      var r := LastIndexOf(s[..|s| - 1], c);
      assert s == s[..|s| - 1] + [s[|s| - 1]];
      r
  }

  // ----- Replacing the first match of an alternation --------------------------

  /** The first of `alts`, from the `j`-th on, that occurs in `s` at index `i`. */
  function AltAt(s: string, alts: seq<string>, i: nat, j: nat): (r: Option<nat>)
    ensures r.Some? ==> j <= r.value < |alts| && OccursAt(s, alts[r.value], i)
    decreases |alts| - j
  {
    if j >= |alts| then None
    else if i + |alts[j]| <= |s| && MatchesAt(s, alts[j], i, 0) then Some(j)
    else AltAt(s, alts, i, j + 1)
  }

  /**
   * The leftmost index from `i` on at which some alternative occurs, with the
   * first alternative that occurs there: how a regex alternation is searched.
   */
  function LeftmostFrom(s: string, alts: seq<string>, i: nat): (r: Option<(nat, nat)>)
    ensures r.Some? ==> i <= r.value.0 && r.value.1 < |alts| && OccursAt(s, alts[r.value.1], r.value.0)
    decreases |s| - i
  {
    if i > |s| then None
    else match AltAt(s, alts, i, 0)
      case Some(k) => Some((i, k))
      case None => LeftmostFrom(s, alts, i + 1)
  }

  /**
   * `s.replace(/a0|a1|.../, r)` without the `g` flag: at the leftmost
   * position where some alternative matches, the first alternative that
   * matches there is replaced by `r`; with no match `s` is returned.
   */
  function ReplaceFirst(s: string, alts: seq<string>, r: string): string {
    match LeftmostFrom(s, alts, 0)
    case None => s
    case Some((i, k)) => s[..i] + r + s[i + |alts[k]|..]
  }

  lemma {:induction false} AltAtSpec(s: string, alts: seq<string>, i: nat, j: nat)
    ensures AltAt(s, alts, i, j).Some? ==> forall q :: j <= q < AltAt(s, alts, i, j).value ==> !OccursAt(s, alts[q], i)
    ensures AltAt(s, alts, i, j).None? ==> forall q :: j <= q < |alts| ==> !OccursAt(s, alts[q], i)
    decreases |alts| - j
  {
    if j < |alts| && !OccursAt(s, alts[j], i) {
      AltAtSpec(s, alts, i, j + 1);
    }
  }

  lemma {:induction false} LeftmostFromSpec(s: string, alts: seq<string>, i: nat)
    ensures LeftmostFrom(s, alts, i).Some? ==> var (p, k) := LeftmostFrom(s, alts, i).value;
      (forall q :: 0 <= q < k ==> !OccursAt(s, alts[q], p))
      && forall p', q :: i <= p' < p && 0 <= q < |alts| ==> !OccursAt(s, alts[q], p')
    ensures LeftmostFrom(s, alts, i).None? ==> forall p', q :: i <= p' && 0 <= q < |alts| ==> !OccursAt(s, alts[q], p')
    decreases |s| - i
  {
    AltAtSpec(s, alts, i, 0);
    if i <= |s| && AltAt(s, alts, i, 0).None? {
      LeftmostFromSpec(s, alts, i + 1);
    }
  }

  /**
   * The replacement happens at the leftmost index where an alternative
   * occurs, using the first alternative that occurs there; with no
   * occurrence anywhere the string is unchanged.
   */
  lemma ReplaceFirstSpec(s: string, alts: seq<string>, r: string)
    ensures LeftmostFrom(s, alts, 0).None? ==>
      ReplaceFirst(s, alts, r) == s
      && forall p, q :: 0 <= p <= |s| && 0 <= q < |alts| ==> !OccursAt(s, alts[q], p)
    ensures LeftmostFrom(s, alts, 0).Some? ==> var (p, k) := LeftmostFrom(s, alts, 0).value;
      OccursAt(s, alts[k], p)
      && ReplaceFirst(s, alts, r) == s[..p] + r + s[p + |alts[k]|..]
      && (forall q :: 0 <= q < k ==> !OccursAt(s, alts[q], p))
      && forall p', q :: 0 <= p' < p && 0 <= q < |alts| ==> !OccursAt(s, alts[q], p')
  {
    LeftmostFromSpec(s, alts, 0);
  }

  /** When `s` contains none of the alternatives, nothing is replaced. */
  lemma ReplaceFirstNotContained(s: string, alts: seq<string>, r: string)
    requires forall j :: 0 <= j < |alts| ==> !Contains(s, alts[j])
    ensures ReplaceFirst(s, alts, r) == s
  {
    if LeftmostFrom(s, alts, 0).Some? {
      var (p, k) := LeftmostFrom(s, alts, 0).value;
      ContainsIff(s, alts[k]);
    }
  }

  /** Replacing with lower-case alphanumerics keeps a lower-case alphanumeric string so. */
  lemma ReplaceFirstLowerAlnum(s: string, alts: seq<string>, r: string)
    requires AllLowerAlnum(s) && AllLowerAlnum(r)
    ensures AllLowerAlnum(ReplaceFirst(s, alts, r))
  {
    if LeftmostFrom(s, alts, 0).Some? {
      var (p, k) := LeftmostFrom(s, alts, 0).value;
      var t := ReplaceFirst(s, alts, r);
      forall n | 0 <= n < |t| ensures IsLowerAlnum(t[n]) {
        if n < p {
          assert t[n] == s[n];
        } else if n < p + |r| {
          assert t[n] == r[n - p];
        } else {
          assert t[n] == s[n - |r| + |alts[k]|];
        }
      }
    }
  }

  // ----- Rewriting twice ------------------------------------------------------

  /**
   * No occurrence of `r` can start at an index `k >= lo` inside an occurrence
   * of `a`: wherever such an `a[k]` is `r`'s first character, `a` goes on with
   * a character other than `r`'s second.
   */
  predicate Blocked(a: string, r: string, lo: nat) {
    |r| >= 2 && forall k :: lo <= k < |a| && a[k] == r[0] ==> k + 1 < |a| && a[k + 1] != r[1]
  }

  /** `Blocked` checked one index at a time, from `k` on. */
  predicate BlockedFrom(a: string, r: string, k: nat)
    requires |r| >= 2
    decreases |a| - k
  {
    k >= |a| || ((a[k] == r[0] ==> k + 1 < |a| && a[k + 1] != r[1]) && BlockedFrom(a, r, k + 1))
  }

  lemma {:induction false} BlockedFromSpec(a: string, r: string, k: nat)
    requires |r| >= 2
    ensures BlockedFrom(a, r, k) <==> Blocked(a, r, k)
    decreases |a| - k
  {
    if k < |a| {
      BlockedFromSpec(a, r, k + 1);
    }
  }

  /** A blocked `r` never starts inside an occurrence of `a`. */
  lemma BlockedMiss(t: string, a: string, x: nat, r: string, y: nat, lo: nat)
    requires Blocked(a, r, lo) && x + lo <= y < x + |a|
    ensures !(OccursAt(t, a, x) && OccursAt(t, r, y))
  {
    OccursAtIff(t, a, x);
    OccursAtIff(t, r, y);
    if OccursAt(t, a, x) && y + |r| <= |t| && t[y] == r[0] {
      var k := y - x;
      assert t[x..x + |a|][k] == a[k];
      assert t[x..x + |a|][k + 1] == a[k + 1];
      assert t[y..y + |r|][1] != r[1];
    }
  }

  /**
   * A string a rewrite with `alts` leaves alone once more: either no
   * alternative occurs in it, or its leftmost match is the first alternative.
   */
  predicate Settled(s: string, alts: seq<string>) {
    var l := LeftmostFrom(s, alts, 0);
    l.None? || l.value.1 == 0
  }

  /** With no alternative occurring anywhere, there is no leftmost match. */
  lemma NoLeftmost(s: string, alts: seq<string>)
    requires forall p, q :: 0 <= p <= |s| && 0 <= q < |alts| ==> !OccursAt(s, alts[q], p)
    ensures LeftmostFrom(s, alts, 0).None?
  {
    ReplaceFirstSpec(s, alts, []);
  }

  /** An occurrence of the first alternative with nothing occurring before it is the leftmost match. */
  lemma LeftmostIs(s: string, alts: seq<string>, p: nat)
    requires 0 < |alts| && OccursAt(s, alts[0], p)
    requires forall p', q :: 0 <= p' < p && 0 <= q < |alts| ==> !OccursAt(s, alts[q], p')
    ensures LeftmostFrom(s, alts, 0) == Some((p, 0))
  {
    ReplaceFirstSpec(s, alts, []);
    assert LeftmostFrom(s, alts, 0).Some?;
    var (p2, k) := LeftmostFrom(s, alts, 0).value;
    assert p2 == p;
    assert k == 0;
  }

  /** Rewriting a settled string with the first alternative gives it back unchanged. */
  lemma SettledFixed(s: string, alts: seq<string>)
    requires 0 < |alts| && Settled(s, alts)
    ensures ReplaceFirst(s, alts, alts[0]) == s
  {
    ReplaceFirstSpec(s, alts, alts[0]);
    if LeftmostFrom(s, alts, 0).Some? {
      var p := LeftmostFrom(s, alts, 0).value.0;
      OccursAtIff(s, alts[0], p);
      assert s == s[..p] + s[p..p + |alts[0]|] + s[p + |alts[0]|..];
    }
  }

  /**
   * Rewriting into the first alternative settles the string, provided no
   * alternative can end inside the inserted text.
   */
  lemma ReplaceSettles(s: string, alts: seq<string>, r: string)
    requires 0 < |alts| && alts[0] == r
    requires forall j :: 0 <= j < |alts| ==> Blocked(alts[j], r, 1)
    ensures Settled(ReplaceFirst(s, alts, r), alts)
  {
    ReplaceFirstSpec(s, alts, r);
    if LeftmostFrom(s, alts, 0).Some? {
      var (p, k) := LeftmostFrom(s, alts, 0).value;
      var t := ReplaceFirst(s, alts, r);
      OccursAtIff(s, alts[k], p);
      assert t[..p] == s[..p];
      assert t[p..p + |r|] == r;
      OccursAtIff(t, r, p);
      forall p', q | 0 <= p' < p && 0 <= q < |alts| ensures !OccursAt(t, alts[q], p') {
        var a := alts[q];
        if p' + |a| <= p {
          assert t[p'..p' + |a|] == s[p'..p' + |a|] by {
            assert t[p'..p' + |a|] == t[..p][p'..p' + |a|];
            assert s[p'..p' + |a|] == s[..p][p'..p' + |a|];
          }
          OccursAtIff(t, a, p');
          OccursAtIff(s, a, p');
        } else {
          BlockedMiss(t, a, p', r, p, 1);
        }
      }
      LeftmostIs(t, alts, p);
    }
  }

  /** Before the replaced text, the string is unchanged. */
  lemma SpliceBefore(z: string, q: nat, b: string, r: string, x: nat, n: nat)
    requires q + |b| <= |z| && x + n <= q
    ensures (z[..q] + r + z[q + |b|..])[x..x + n] == z[x..x + n]
  {
    var w := z[..q] + r + z[q + |b|..];
    var u, v := w[x..x + n], z[x..x + n];
    forall k | 0 <= k < n ensures u[k] == v[k] {
      assert w[x + k] == z[..q][x + k];
    }
    assert u == v;
  }

  /** After the replaced text, the string is shifted by the change in length. */
  lemma SpliceAfter(z: string, q: nat, b: string, r: string, x: nat, n: nat)
    requires q + |b| <= |z| && q + |r| <= x && x + n <= |z| - |b| + |r|
    ensures (z[..q] + r + z[q + |b|..])[x..x + n] == z[x - |r| + |b|..x - |r| + |b| + n]
  {
    var w := z[..q] + r + z[q + |b|..];
    var x2 := x - |r| + |b|;
    var u, v := w[x..x + n], z[x2..x2 + n];
    forall k | 0 <= k < n ensures u[k] == v[k] {
      assert w[x + k] == z[q + |b|..][x + k - q - |r|];
    }
    assert u == v;
  }

  /**
   * An occurrence in `z` that does not overlap the replaced `b` at `q`
   * survives the replacement by `r`, shifted when it lies after it.
   */
  lemma OccurrenceForward(z: string, q: nat, b: string, r: string, a: string, p: nat)
    requires OccursAt(z, b, q) && OccursAt(z, a, p)
    requires Blocked(a, b, 0) && Blocked(b, a, 1)
    ensures var w := z[..q] + r + z[q + |b|..];
      (p + |a| <= q && OccursAt(w, a, p)) || (q + |b| <= p && OccursAt(w, a, p - |b| + |r|))
  {
    var w := z[..q] + r + z[q + |b|..];
    if p <= q < p + |a| {
      BlockedMiss(z, a, p, b, q, 0);
    }
    if q + 1 <= p < q + |b| {
      BlockedMiss(z, b, q, a, p, 1);
    }
    OccursAtIff(z, a, p);
    OccursAtIff(z, b, q);
    if p + |a| <= q {
      SpliceBefore(z, q, b, r, p, |a|);
      OccursAtIff(w, a, p);
    } else if q + |b| <= p {
      var p2 := p - |b| + |r|;
      SpliceAfter(z, q, b, r, p2, |a|);
      OccursAtIff(w, a, p2);
    }
  }

  /**
   * An occurrence after replacing `b` at `q` by `r` that cannot overlap `r`
   * was already in `z`, shifted back when it lies after `r`.
   */
  lemma OccurrenceBack(z: string, q: nat, b: string, r: string, a: string, x: nat)
    requires q + |b| <= |z|
    requires Blocked(a, r, 0) && Blocked(r, a, 1)
    ensures var w := z[..q] + r + z[q + |b|..];
      OccursAt(w, a, x) ==>
        (x + |a| <= q && OccursAt(z, a, x)) || (q + |r| <= x && OccursAt(z, a, x - |r| + |b|))
  {
    var w := z[..q] + r + z[q + |b|..];
    assert w[q..q + |r|] == r;
    OccursAtIff(w, r, q);
    if x <= q < x + |a| {
      BlockedMiss(w, a, x, r, q, 0);
    }
    if q + 1 <= x < q + |r| {
      BlockedMiss(w, r, q, a, x, 1);
    }
    OccursAtIff(w, a, x);
    if x + |a| <= q {
      SpliceBefore(z, q, b, r, x, |a|);
      OccursAtIff(z, a, x);
    } else if q + |r| <= x && x + |a| <= |w| {
      SpliceAfter(z, q, b, r, x, |a|);
      OccursAtIff(z, a, x - |r| + |b|);
    }
  }

  /**
   * A second rewrite, with alternatives `others` into `r`, keeps a string
   * settled for `alts` when neither rewrite's text can overlap the other's.
   */
  lemma ReplaceKeepsSettled(z: string, alts: seq<string>, others: seq<string>, r: string)
    requires 0 < |alts| && Settled(z, alts)
    requires forall j :: 0 <= j < |alts| ==> Blocked(alts[j], r, 0) && Blocked(r, alts[j], 1)
    requires forall j :: 0 <= j < |others| ==> Blocked(alts[0], others[j], 0) && Blocked(others[j], alts[0], 1)
    ensures Settled(ReplaceFirst(z, others, r), alts)
  {
    ReplaceFirstSpec(z, others, r);
    ReplaceFirstSpec(z, alts, alts[0]);
    if LeftmostFrom(z, others, 0).Some? {
      var (q, k) := LeftmostFrom(z, others, 0).value;
      var b := others[k];
      var w := ReplaceFirst(z, others, r);
      if LeftmostFrom(z, alts, 0).None? {
        forall x, j | 0 <= x <= |w| && 0 <= j < |alts| ensures !OccursAt(w, alts[j], x) {
          OccurrenceBack(z, q, b, r, alts[j], x);
        }
        NoLeftmost(w, alts);
      } else {
        var p := LeftmostFrom(z, alts, 0).value.0;
        OccurrenceForward(z, q, b, r, alts[0], p);
        var p2 := if p + |alts[0]| <= q then p else p - |b| + |r|;
        forall x, j | 0 <= x < p2 && 0 <= j < |alts| ensures !OccursAt(w, alts[j], x) {
          OccurrenceBack(z, q, b, r, alts[j], x);
        }
        LeftmostIs(w, alts, p2);
      }
    }
  }
}
