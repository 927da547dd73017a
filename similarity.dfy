/** The token-set similarity scorer (`tokens`, `jaccard`). */
module Similarity {
  import opened Text

  /** The pieces of the lower-cased header between characters outside [a-z0-9]. */
  function Pieces(h: string): seq<string> {
    SplitWhere(ToLower(h), IsNotLowerAlnum)
  }

  /**
   * tokens: the non-empty pieces of the lower-cased header. Splitting at
   * every separator character, rather than at each run of them, only adds
   * empty pieces, and those are dropped.
   */
  function Tokens(h: string): (r: set<string>)
    ensures forall t :: t in r ==> t != [] && AllLowerAlnum(t)
  {
    var ps := Pieces(h);
    SplitWhereSpec(ToLower(h), IsNotLowerAlnum);
    assert forall i :: 0 <= i < |ps| ==> AllLowerAlnum(ps[i]) by {
      forall i | 0 <= i < |ps| ensures AllLowerAlnum(ps[i]) {
        assert NoneWhere(ps[i], IsNotLowerAlnum);
      }
    }
    set p | p in ps && p != []
  }

  function Flatten(parts: seq<string>): string
    decreases |parts|
  {
    if parts == [] then "" else parts[0] + Flatten(parts[1..])
  }

  lemma {:induction false} FlattenSplitFrom(s: string, start: nat, i: nat)
    requires start <= i <= |s| && NoneWhere(s[start..i], IsNotLowerAlnum)
    ensures Flatten(SplitFrom(s, IsNotLowerAlnum, start, i)) == s[start..i] + KeepLowerAlnumFrom(s, i)
    decreases |s| - i
  {
    if i == |s| {
      assert s[start..i] == s[start..];
    } else if IsNotLowerAlnum(s[i]) {
      FlattenSplitFrom(s, i + 1, i + 1);
      FlattenAtSeparator(s, start, i);
    } else {
      NoneWhereGrow(s, start, i);
      FlattenSplitFrom(s, start, i + 1);
      FlattenAtKept(s, start, i);
    }
  }

  /** The step of FlattenSplitFrom at a separator, given the claim for the next piece. */
  lemma FlattenAtSeparator(s: string, start: nat, i: nat)
    requires start <= i < |s| && IsNotLowerAlnum(s[i])
    requires Flatten(SplitFrom(s, IsNotLowerAlnum, i + 1, i + 1)) == s[i + 1..i + 1] + KeepLowerAlnumFrom(s, i + 1)
    ensures Flatten(SplitFrom(s, IsNotLowerAlnum, start, i)) == s[start..i] + KeepLowerAlnumFrom(s, i)
  {
    var rest := SplitFrom(s, IsNotLowerAlnum, i + 1, i + 1);
    assert SplitFrom(s, IsNotLowerAlnum, start, i) == [s[start..i]] + rest;
    FlattenCons(s[start..i], rest);
    assert s[i + 1..i + 1] == [];
  }

  /** The step of FlattenSplitFrom at a kept character, given the claim one character on. */
  lemma FlattenAtKept(s: string, start: nat, i: nat)
    requires start <= i < |s| && !IsNotLowerAlnum(s[i])
    requires Flatten(SplitFrom(s, IsNotLowerAlnum, start, i + 1)) == s[start..i + 1] + KeepLowerAlnumFrom(s, i + 1)
    ensures Flatten(SplitFrom(s, IsNotLowerAlnum, start, i)) == s[start..i] + KeepLowerAlnumFrom(s, i)
  {
    assert SplitFrom(s, IsNotLowerAlnum, start, i) == SplitFrom(s, IsNotLowerAlnum, start, i + 1);
    assert KeepLowerAlnumFrom(s, i) == [s[i]] + KeepLowerAlnumFrom(s, i + 1);
    assert s[start..i + 1] == s[start..i] + [s[i]];
  }

  lemma FlattenCons(x: string, rest: seq<string>)
    ensures Flatten([x] + rest) == x + Flatten(rest)
  {
    assert ([x] + rest)[1..] == rest;
  }

  lemma NoneWhereGrow(s: string, start: nat, i: nat)
    requires start <= i < |s| && NoneWhere(s[start..i], IsNotLowerAlnum) && !IsNotLowerAlnum(s[i])
    ensures NoneWhere(s[start..i + 1], IsNotLowerAlnum)
  {
    var t := s[start..i + 1];
    forall k | 0 <= k < |t| ensures !IsNotLowerAlnum(t[k]) {
      if k < i - start { assert t[k] == s[start..i][k]; }
    }
  }

  /** Read in order, the pieces are exactly the header's characters in [a-z0-9]: only separators are lost. */
  lemma PiecesCoverStripped(s: string)
    ensures Flatten(SplitWhere(s, IsNotLowerAlnum)) == KeepLowerAlnum(s)
  {
    FlattenSplitFrom(s, 0, 0);
  }

  /** A non-empty header made only of ASCII letters and digits is a single token. */
  lemma TokensOfWord(h: string)
    requires h != [] && AllLowerAlnum(ToLower(h))
    ensures Tokens(h) == {ToLower(h)}
  {
    SplitWhereSpec(ToLower(h), IsNotLowerAlnum);
    assert NoneWhere(ToLower(h), IsNotLowerAlnum);
  }

  /** jaccard: |A ∩ B| / |A ∪ B|, and 0 when both sets are empty. */
  function Jaccard(a: set<string>, b: set<string>): (j: real)
    ensures 0.0 <= j <= 1.0
    ensures a == {} && b == {} ==> j == 0.0
  {
    if |a + b| == 0 then 0.0
    else
      var inter, union := |a * b| as real, |a + b| as real;
      assert |a - b| + |b - a| + |a * b| == |a + b|;
      assert inter <= union;
      assert inter / union <= 1.0 by {
        assert inter / union * union == inter;
      }
      inter / union
  }

  /** The score does not depend on the order of its arguments. */
  lemma JaccardSymmetric(a: set<string>, b: set<string>)
    ensures Jaccard(a, b) == Jaccard(b, a)
  {
    assert a * b == b * a && a + b == b + a;
  }

  /** The score is 1 exactly for two equal non-empty sets. */
  lemma JaccardOneIff(a: set<string>, b: set<string>)
    ensures Jaccard(a, b) == 1.0 <==> a == b && a != {}
  {
    if a == b && a != {} {
      assert a * b == a && a + b == a;
    }
    if Jaccard(a, b) == 1.0 {
      var inter, union := |a * b| as real, |a + b| as real;
      assert inter / union * union == inter;
      assert |a * b| == |a + b|;
      assert |a - b| + |b - a| + |a * b| == |a + b|;
      assert a - b == {} && b - a == {};
      assert a == b by {
        forall x | x in a ensures x in b { assert x !in a - b; }
        forall x | x in b ensures x in a { assert x !in b - a; }
      }
    }
  }

  /** The auto-mapper's `score >= 0.6` test, stated on the two set sizes. */
  lemma JaccardThreshold(a: set<string>, b: set<string>)
    ensures Jaccard(a, b) >= 0.6 <==> |a + b| > 0 && 5 * |a * b| >= 3 * |a + b|
  {
    if |a + b| > 0 {
      RatioAtLeast(|a * b| as real, |a + b| as real, 0.6);
    }
  }

  /** For a positive denominator, x / u >= c exactly when x >= c * u. */
  lemma RatioAtLeast(x: real, u: real, c: real)
    requires u > 0.0
    ensures x / u >= c <==> x >= c * u
  {
    var q := x / u;
    assert q * u == x;
    if q >= c {
      assert (q - c) * u >= 0.0;
    } else {
      assert (c - q) * u > 0.0;
    }
  }

  /** "Email" against "email_address": tokens {email} and {email, address} score 1/2. */
  lemma EmailAgainstEmailAddress()
    ensures Tokens("Email") == {"email"}
    ensures Tokens("email_address") == {"email", "address"}
    ensures Jaccard(Tokens("Email"), Tokens("email_address")) == 0.5
  {
    assert ToLower("Email") == "email";
    TokensOfWord("Email");
    TokensEmailAddress();
    var a, b := {"email"}, {"email", "address"};
    assert a * b == {"email"} && a + b == b;
    assert |b| == 2;
  }

  /** "email_address" splits at its underscore into two tokens. */
  lemma TokensEmailAddress()
    ensures Tokens("email_address") == {"email", "address"}
  {
    PiecesEmailAddress();
    var ps: seq<string> := ["email", "address"];
    assert forall p :: p in ps <==> p == "email" || p == "address";
  }

  lemma PiecesEmailAddress()
    ensures Pieces("email_address") == ["email", "address"]
  {
    var s := "email_address";
    LowerEmailAddress();
    assert s[0..5] == "email" && s[6..] == "address";
    WordHoldsNoSeparator("email");
    WordHoldsNoSeparator("address");
    SplitFromSep(s, IsNotLowerAlnum, 0, 0, 5);
    SplitFromNoSep(s, IsNotLowerAlnum, 6, 6);
  }

  lemma LowerEmailAddress()
    ensures ToLower("email_address") == "email_address"
  {
  }

  lemma WordHoldsNoSeparator(w: string)
    requires AllLowerAlnum(w)
    ensures NoneWhere(w, IsNotLowerAlnum)
  {
  }
}
