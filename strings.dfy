/**
 * The few pieces of Rust's `str`/`String` API that the tool relies on,
 * modelled over `seq<char>`: ASCII lowercasing, `trim_end_matches`,
 * `replace`, `split`, `{:<width$}` padding and decimal rendering.
 */
module Strings {

  datatype Option<+T> = None | Some(value: T)

  predicate IsUpper(c: char) { 'A' <= c <= 'Z' }

  /** No ASCII upper-case letter anywhere in `s`. */
  predicate NoUpper(s: string) { forall i :: 0 <= i < |s| ==> !IsUpper(s[i]) }

  function Lower(c: char): char {
    if IsUpper(c) then (c as int + 32) as char else c
  }

  /** `str::to_lowercase`, restricted to the ASCII letters. */
  function ToLower(s: string): (r: string)
    ensures |r| == |s|
    ensures NoUpper(r)
  {
    seq(|s|, i requires 0 <= i < |s| => Lower(s[i]))
  }

  lemma ToLowerOfLower(s: string)
    requires NoUpper(s)
    ensures ToLower(s) == s
  {
    assert forall i :: 0 <= i < |s| ==> ToLower(s)[i] == s[i];
  }

  predicate EndsWith(s: string, p: string) {
    |p| <= |s| && s[|s| - |p|..] == p
  }

  /** `str::trim_end_matches(p)`: strip `p` from the end as often as it occurs there. */
  function TrimEndMatches(s: string, p: string): string
    requires p != []
    decreases |s|
  {
    if EndsWith(s, p) then TrimEndMatches(s[..|s| - |p|], p) else s
  }

  /**
   * The result is the longest prefix of `s` reachable by cutting copies of
   * `p` off the end: a prefix of `s` that no longer ends in `p`, and `s`
   * itself when `s` does not end in `p`.
   */
  lemma {:induction false} TrimEndMatchesSpec(s: string, p: string)
    requires p != []
    ensures var r := TrimEndMatches(s, p);
      |r| <= |s| && r == s[..|r|] && !EndsWith(r, p) && (!EndsWith(s, p) ==> r == s)
    decreases |s|
  {
    if EndsWith(s, p) {
      var s' := s[..|s| - |p|];
      TrimEndMatchesSpec(s', p);
      var r := TrimEndMatches(s', p);
      assert r == s'[..|r|] == s[..|r|];
    }
  }

  lemma TrimEndMatchesIdempotent(s: string, p: string)
    requires p != []
    ensures TrimEndMatches(TrimEndMatches(s, p), p) == TrimEndMatches(s, p)
  {
    TrimEndMatchesSpec(s, p);
    TrimEndMatchesSpec(TrimEndMatches(s, p), p);
  }

  /** Stripping `p` from `s + p` is stripping it from `s`. */
  lemma TrimEndMatchesAppended(s: string, p: string)
    requires p != []
    ensures TrimEndMatches(s + p, p) == TrimEndMatches(s, p)
  {
    assert EndsWith(s + p, p) && (s + p)[..|s + p| - |p|] == s;
  }

  /** `p` occurs somewhere in `s` as a contiguous block. */
  predicate Contains(s: string, p: string)
    decreases |s|
  {
    |p| <= |s| && (s[..|p|] == p || Contains(s[1..], p))
  }

  /** A pattern holding a character that `s` lacks cannot occur in `s`. */
  lemma {:induction false} MissingCharNotContained(s: string, p: string, c: char)
    requires c in p && c !in s
    ensures !Contains(s, p)
    decreases |s|
  {
    if |p| <= |s| {
      assert s[..|p|] != p by {
        var k :| 0 <= k < |p| && p[k] == c;
        assert s[..|p|][k] == s[k];
      }
      MissingCharNotContained(s[1..], p, c);
    }
  }

  /**
   * `str::replace(p, rep)`: every leftmost, non-overlapping occurrence of
   * `p`, scanning left to right, is replaced by `rep`.
   */
  function ReplaceAll(s: string, p: string, rep: string): string
    requires p != []
    decreases |s|
  {
    if |s| < |p| then s
    else if s[..|p|] == p then rep + ReplaceAll(s[|p|..], p, rep)
    else [s[0]] + ReplaceAll(s[1..], p, rep)
  }

  /** One step of the scan when `p` does not start at the first character. */
  lemma ReplaceAllSkip(c: char, rest: string, p: string, rep: string, k: nat)
    requires k < |p| && (|p| > |[c] + rest| || ([c] + rest)[k] != p[k])
    ensures ReplaceAll([c] + rest, p, rep) == [c] + ReplaceAll(rest, p, rep)
  {
    if |p| <= |[c] + rest| {
      assert ([c] + rest)[..|p|][k] != p[k];
    }
    assert ([c] + rest)[1..] == rest;
  }

  /** One step of the scan when `p` starts at the first character. */
  lemma ReplaceAllHit(rest: string, p: string, rep: string)
    requires p != []
    ensures ReplaceAll(p + rest, p, rep) == rep + ReplaceAll(rest, p, rep)
  {
    assert (p + rest)[..|p|] == p;
    assert (p + rest)[|p|..] == rest;
  }

  lemma LastOfConcat(a: string, b: string)
    requires b != []
    ensures (a + b)[|a + b| - 1] == b[|b| - 1]
  {
  }

  /** `ToLower` works character by character. */
  lemma ToLowerConcat(a: string, b: string)
    ensures ToLower(a + b) == ToLower(a) + ToLower(b)
  {
  }

  /** Trimming `/` from a string that does not end in `/` changes nothing. */
  lemma TrimNoSlash(s: string)
    requires s == [] || s[|s| - 1] != '/'
    ensures TrimEndMatches(s, "/") == s
  {
    if s != [] { assert s[|s| - 1..] == [s[|s| - 1]]; }
    TrimEndMatchesSpec(s, "/");
  }

  /** Trimming `/` from a string that ends in one slash after a non-slash. */
  lemma TrimOneSlash(t: string)
    requires t != [] && t[|t| - 1] != '/'
    ensures TrimEndMatches(t + "/", "/") == t
  {
    TrimEndMatchesAppended(t, "/");
    TrimNoSlash(t);
  }

  /** `str::replace(p, "")`. */
  function RemoveAll(s: string, p: string): string
    requires p != []
  {
    ReplaceAll(s, p, "")
  }

  lemma {:induction false} ReplaceAllAbsent(s: string, p: string, rep: string)
    requires p != [] && !Contains(s, p)
    ensures ReplaceAll(s, p, rep) == s
    decreases |s|
  {
    if |s| >= |p| {
      ReplaceAllAbsent(s[1..], p, rep);
      assert [s[0]] + s[1..] == s;
    }
  }

  lemma {:induction false} RemoveAllNotLonger(s: string, p: string)
    requires p != []
    ensures |RemoveAll(s, p)| <= |s|
    decreases |s|
  {
    if |s| >= |p| {
      if s[..|p|] == p {
        RemoveAllNotLonger(s[|p|..], p);
      } else {
        RemoveAllNotLonger(s[1..], p);
      }
    }
  }

  /** Every character of the result comes from `s` or from `rep`. */
  lemma {:induction false} ReplaceAllChars(s: string, p: string, rep: string)
    requires p != []
    ensures forall c :: c in ReplaceAll(s, p, rep) ==> c in s || c in rep
    decreases |s|
  {
    if |s| >= |p| {
      if s[..|p|] == p {
        ReplaceAllChars(s[|p|..], p, rep);
        assert forall c :: c in s[|p|..] ==> c in s;
      } else {
        ReplaceAllChars(s[1..], p, rep);
        assert forall c :: c in s[1..] ==> c in s;
      }
    }
  }

  lemma NoUpperByChars(s: string, t: string)
    requires NoUpper(t)
    requires forall c :: c in s ==> c in t
    ensures NoUpper(s)
  {
    forall i | 0 <= i < |s| ensures !IsUpper(s[i]) {
      assert s[i] in t;
    }
  }

  /**
   * If `s` ends in a character other than the last one of `p`, no
   * replacement can reach the end: the result ends exactly as `s` does.
   */
  lemma {:induction false} ReplaceAllKeepsLast(s: string, p: string, rep: string)
    requires p != [] && s != [] && s[|s| - 1] != p[|p| - 1]
    ensures var r := ReplaceAll(s, p, rep); r != [] && r[|r| - 1] == s[|s| - 1]
    decreases |s|
  {
    if |s| >= |p| {
      if s[..|p|] == p {
        ReplaceAllKeepsLast(s[|p|..], p, rep);
      } else if |s| > 1 {
        ReplaceAllKeepsLast(s[1..], p, rep);
      }
    }
  }

  /** No occurrence of `p` can start in `a` and end in `b` when `p` lacks `b[0]`. */
  lemma NoOccurrenceAcrossSeam(a: string, b: string, p: string)
    requires b != [] && b[0] !in p && |a| < |p| <= |a + b|
    ensures (a + b)[..|p|] != p
  {
    assert (a + b)[..|p|][|a|] == b[0];
  }

  /**
   * Replacement distributes over `a + b` when `b` begins with a character
   * that `p` does not hold: no occurrence of `p` can straddle the seam.
   */
  lemma {:induction false} ReplaceAllConcat(a: string, b: string, p: string, rep: string)
    requires p != [] && b != [] && b[0] !in p
    ensures ReplaceAll(a + b, p, rep) == ReplaceAll(a, p, rep) + ReplaceAll(b, p, rep)
    decreases |a|
  {
    var s := a + b;
    if a == [] {
      assert s == b;
    } else if |s| < |p| {
      assert ReplaceAll(b, p, rep) == b;
    } else {
      if |a| < |p| {
        NoOccurrenceAcrossSeam(a, b, p);
      }
      if s[..|p|] == p {
        assert a[..|p|] == p;
        assert s[|p|..] == a[|p|..] + b;
        ReplaceAllConcat(a[|p|..], b, p, rep);
      } else {
        assert s[1..] == a[1..] + b;
        ReplaceAllConcat(a[1..], b, p, rep);
        if |a| < |p| {
          ReplaceAllAbsent(a[1..], p, rep);
          assert [a[0]] + a[1..] == a;
        } else {
          assert a[..|p|] == s[..|p|];
        }
      }
    }
  }

  /**
   * `str::split(sep)`: the pieces between separators, in order; a string
   * with `k` separators gives `k + 1` pieces.
   */
  function Split(s: string, sep: char): (parts: seq<string>)
    ensures |parts| >= 1
    decreases |s|
  {
    if s == [] then [""]
    else
      var init := Split(s[..|s| - 1], sep);
      if s[|s| - 1] == sep then init + [""]
      else init[..|init| - 1] + [init[|init| - 1] + [s[|s| - 1]]]
  }

  /** The text after the last `sep` of `s`, or all of `s` when it has none. */
  function LastPiece(s: string, sep: char): (r: string)
    ensures sep !in r && EndsWith(s, r)
    ensures sep in s ==> EndsWith(s, [sep] + r)
    ensures sep !in s ==> r == s
    decreases |s|
  {
    if s == [] then []
    else if s[|s| - 1] == sep then []
    else
      var init := s[..|s| - 1];
      var r := LastPiece(init, sep) + [s[|s| - 1]];
      assert s == init + [s[|s| - 1]];
      assert sep in s ==> sep in init;
      r
  }

  /**
   * `split` gives a single piece exactly when there is no separator, and
   * its last piece is the text after the last separator.
   */
  lemma SplitShape(s: string, sep: char)
    ensures |Split(s, sep)| == 1 <==> sep !in s
    ensures Split(s, sep)[|Split(s, sep)| - 1] == LastPiece(s, sep)
  {
    SplitSingle(s, sep);
    SplitLast(s, sep);
  }

  lemma {:induction false} SplitSingle(s: string, sep: char)
    ensures |Split(s, sep)| == 1 <==> sep !in s
    decreases |s|
  {
    if s != [] {
      var init, c := s[..|s| - 1], s[|s| - 1];
      SplitSingle(init, sep);
      assert s == init + [c];
      assert sep in s <==> sep in init || c == sep;
    }
  }

  lemma {:induction false} SplitLast(s: string, sep: char)
    ensures Split(s, sep)[|Split(s, sep)| - 1] == LastPiece(s, sep)
    decreases |s|
  {
    if s != [] {
      var init, c := s[..|s| - 1], s[|s| - 1];
      SplitLast(init, sep);
      if c != sep {
        assert LastPiece(s, sep) == LastPiece(init, sep) + [c];
      }
    }
  }

  /** The last piece of `a + [sep] + t` is `t` when `t` holds no separator. */
  lemma {:induction false} LastPieceAfter(a: string, sep: char, t: string)
    requires sep !in t
    ensures LastPiece(a + [sep] + t, sep) == t
    decreases |t|
  {
    var s := a + [sep] + t;
    if t == [] {
      assert s[|s| - 1] == sep;
    } else {
      var t', c := t[..|t| - 1], t[|t| - 1];
      assert s[..|s| - 1] == a + [sep] + t' && s[|s| - 1] == c;
      assert c != sep by { assert c in t; }
      assert LastPiece(s, sep) == LastPiece(a + [sep] + t', sep) + [c];
      LastPieceAfter(a, sep, t');
      assert t' + [c] == t;
    }
  }

  function Spaces(n: nat): (r: string)
    ensures |r| == n && forall i :: 0 <= i < n ==> r[i] == ' '
  {
    if n == 0 then "" else Spaces(n - 1) + " "
  }

  /** `format!("{:<w$}", s)`: left-aligned in a field of at least `w` characters. */
  function PadRight(s: string, w: nat): (r: string)
    ensures |r| == if |s| < w then w else |s|
    ensures r[..|s|] == s
    ensures forall i :: |s| <= i < |r| ==> r[i] == ' '
  {
    if |s| < w then s + Spaces(w - |s|) else s
  }

  function DigitChar(d: nat): char
    requires d < 10
  {
    ('0' as int + d) as char
  }

  /** `format!("{}", n)` for a non-negative integer. */
  function NatToString(n: nat): string
    decreases n
  {
    if n < 10 then [DigitChar(n)] else NatToString(n / 10) + [DigitChar(n % 10)]
  }

  /** `parts.join(", ")`. */
  function JoinComma(parts: seq<string>): string
  {
    if parts == [] then ""
    else if |parts| == 1 then parts[0]
    else parts[0] + ", " + JoinComma(parts[1..])
  }
}
