/** The handful of Python `str` operations that backend/main.py relies on,
    stated over `seq<char>`: `endswith`, the `in` operator on strings,
    `replace`, `split(":")[0]`, `strip("/")` and `lower()`. `StartsWith`
    is the store's prefix match for `list_objects(prefix=...)`. */
module PyStr {

  predicate StartsWith(s: string, p: string) {
    |p| <= |s| && s[..|p|] == p
  }

  predicate EndsWith(s: string, p: string) {
    |p| <= |s| && s[|s| - |p|..] == p
  }

  /** Python's `p in s` for strings: `p` occurs somewhere in `s`. */
  predicate Contains(s: string, p: string) {
    exists i :: 0 <= i <= |s| && StartsWith(s[i..], p)
  }

  /** Python's `s.replace(pat, rep)`: scan left to right and replace every
      non-overlapping occurrence of `pat`; an empty `pat` matches before
      every character and at the end. */
  function Replace(s: string, pat: string, rep: string): (r: string)
    ensures rep == [] ==> |r| <= |s|
    ensures pat != [] && |rep| == |pat| ==> |r| == |s|
    decreases |s|
  {
    if pat == [] then
      (if s == [] then rep else rep + [s[0]] + Replace(s[1..], pat, rep))
    else if |s| < |pat| then s
    else if s[..|pat|] == pat then rep + Replace(s[|pat|..], pat, rep)
    else [s[0]] + Replace(s[1..], pat, rep)
  }

  /** Python's `s.split(c)[0]`: everything before the first `c`. */
  function BeforeFirst(s: string, c: char): (r: string)
    ensures StartsWith(s, r)
    ensures c !in r
    ensures |r| < |s| ==> s[|r|] == c
  {
    if s == [] || s[0] == c then [] else [s[0]] + BeforeFirst(s[1..], c)
  }

  /** Python's `s.lstrip(c)` for a single character. */
  function StripLeading(s: string, c: char): (r: string)
    ensures EndsWith(s, r)
    ensures forall i :: 0 <= i < |s| - |r| ==> s[i] == c
    ensures r == [] || r[0] != c
  {
    if s != [] && s[0] == c then StripLeading(s[1..], c) else s
  }

  /** Python's `s.rstrip(c)` for a single character. */
  function StripTrailing(s: string, c: char): (r: string)
    ensures StartsWith(s, r)
    ensures forall i :: |r| <= i < |s| ==> s[i] == c
    ensures r == [] || r[|r| - 1] != c
  {
    if s != [] && s[|s| - 1] == c then StripTrailing(s[..|s| - 1], c) else s
  }

  /** Python's `s.strip(c)` for a single character: a piece of `s` that
      neither starts nor ends with `c`, and all of `s` when `c` is absent. */
  function Strip(s: string, c: char): (r: string)
    ensures r == [] || (r[0] != c && r[|r| - 1] != c)
    ensures Contains(s, r)
    ensures c !in s ==> r == s
    ensures exists i ::
              && 0 <= i <= |s| - |r|
              && s[i..][..|r|] == r
              && (forall j :: 0 <= j < i ==> s[j] == c)
              && (forall j :: i + |r| <= j < |s| ==> s[j] == c)
  {
    var t := StripLeading(s, c);
    var r := StripTrailing(t, c);
    var i := |s| - |t|;
    TrimmedPiece(s, t, r, c);
    assert s[i..][..|r|] == r;
    assert forall j :: 0 <= j < i ==> s[j] == c;
    ContainsAt(s, r, i);
    r
  }

  /** Dropping only `c`s in front of `s` to get `t`, then only `c`s behind
      `t` to get `r`, leaves `r` in `s` with only `c`s around it. */
  lemma TrimmedPiece(s: string, t: string, r: string, c: char)
    requires EndsWith(s, t) && forall i :: 0 <= i < |s| - |t| ==> s[i] == c
    requires StartsWith(t, r) && forall i :: |r| <= i < |t| ==> t[i] == c
    ensures s[|s| - |t|..|s| - |t| + |r|] == r
    ensures forall j :: |s| - |t| + |r| <= j < |s| ==> s[j] == c
  {
    var i := |s| - |t|;
    assert s[i..] == t;
    forall j | i + |r| <= j < |s| ensures s[j] == c {
      assert s[j] == t[j - i];
    }
  }

  /** `str.lower()` restricted to ASCII: 'A'..'Z' become 'a'..'z'. */
  function LowerChar(ch: char): char {
    if 'A' <= ch <= 'Z' then (ch as int + 32) as char else ch
  }

  function Lower(s: string): (r: string)
    ensures |r| == |s|
    ensures forall i :: 0 <= i < |r| ==> !('A' <= r[i] <= 'Z')
    ensures forall i :: 0 <= i < |s| && !('A' <= s[i] <= 'Z') ==> r[i] == s[i]
    ensures forall i :: 0 <= i < |s| && 'A' <= s[i] <= 'Z' ==> r[i] as int - 'a' as int == s[i] as int - 'A' as int
  {
    seq(|s|, i requires 0 <= i < |s| => LowerChar(s[i]))
  }

  /** Replacing a pattern that does not occur leaves the string as it is. */
  lemma {:induction false} ReplaceAbsent(s: string, pat: string, rep: string)
    requires pat != []
    requires !Contains(s, pat)
    ensures Replace(s, pat, rep) == s
    decreases |s|
  {
    if |s| >= |pat| {
      assert s[0..] == s;
      assert !StartsWith(s[0..], pat);
      forall i | 0 <= i <= |s[1..]| ensures !StartsWith(s[1..][i..], pat) {
        assert s[1..][i..] == s[i + 1..];
      }
      ReplaceAbsent(s[1..], pat, rep);
    }
  }

  /** Replacing a pattern by itself gives back the string: everything
      outside the occurrences stays in place. */
  lemma {:induction false} ReplaceBySelf(s: string, pat: string)
    requires pat != []
    ensures Replace(s, pat, pat) == s
    decreases |s|
  {
    if |s| >= |pat| {
      if s[..|pat|] == pat {
        ReplaceBySelf(s[|pat|..], pat);
        assert s == s[..|pat|] + s[|pat|..];
      } else {
        ReplaceBySelf(s[1..], pat);
        assert s == [s[0]] + s[1..];
      }
    }
  }

  /** A string that does not start with the pattern keeps its first
      character. */
  lemma ReplaceSkipsHead(s: string, pat: string, rep: string)
    requires pat != [] && s != [] && !StartsWith(s, pat)
    ensures Replace(s, pat, rep) == [s[0]] + Replace(s[1..], pat, rep)
  {
    if |s| < |pat| {
      assert s == [s[0]] + s[1..];
      ReplaceShort(s[1..], pat, rep);
    }
  }

  /** A string shorter than the pattern is left as it is. */
  lemma ReplaceShort(s: string, pat: string, rep: string)
    requires pat != [] && |s| < |pat|
    ensures Replace(s, pat, rep) == s
  {
  }

  /** The leftmost occurrence is the one replaced: the text before it is
      kept as it is, and replacing goes on after it. */
  lemma {:induction false} ReplaceLeftmost(x: string, pat: string, y: string, rep: string)
    requires pat != []
    requires forall i :: 0 <= i < |x| ==> !StartsWith((x + pat + y)[i..], pat)
    ensures Replace(x + pat + y, pat, rep) == x + rep + Replace(y, pat, rep)
    decreases |x|
  {
    var s := x + pat + y;
    if x == [] {
      assert s == pat + y;
      ReplaceLeading(pat, y, rep);
      assert x + rep == rep;
    } else {
      assert s[0..] == s;
      ReplaceSkipsHead(s, pat, rep);
      var x', s' := x[1..], s[1..];
      assert s' == x' + pat + y;
      forall i | 0 <= i < |x'| ensures !StartsWith(s'[i..], pat) {
        assert s'[i..] == s[i + 1..];
      }
      ReplaceLeftmost(x', pat, y, rep);
      var r' := Replace(y, pat, rep);
      calc {
        Replace(s, pat, rep);
        [s[0]] + Replace(s', pat, rep);
        [x[0]] + (x' + rep + r');
        { assert x == [x[0]] + x'; }
        x + rep + r';
      }
    }
  }

  /** Lower-casing twice is the same as lower-casing once. */
  lemma LowerIdempotent(s: string)
    ensures Lower(Lower(s)) == Lower(s)
  {
    var t := Lower(s);
    forall i | 0 <= i < |t| ensures Lower(t)[i] == t[i] {
      assert !('A' <= t[i] <= 'Z');
    }
  }

  /** Replacing the empty pattern by the empty string is the identity. */
  lemma {:induction false} ReplaceEmptyByEmpty(s: string)
    ensures Replace(s, "", "") == s
    decreases |s|
  {
    if s != [] {
      ReplaceEmptyByEmpty(s[1..]);
      assert [s[0]] + s[1..] == s;
    }
  }

  /** Replacing a leading occurrence removes it and goes on with the rest. */
  lemma ReplaceLeading(p: string, rest: string, rep: string)
    requires p != []
    ensures Replace(p + rest, p, rep) == rep + Replace(rest, p, rep)
  {
  }

  /** A substring occurring at some position is contained. */
  lemma ContainsAt(s: string, p: string, i: int)
    requires 0 <= i <= |s| && StartsWith(s[i..], p)
    ensures Contains(s, p)
  {
  }

  /** If `rep` never introduces a fresh start of `pat[k..]` (`rep` is
      non-empty and its first character is not in `pat[1..]`), then a
      replacement result that starts with a proper tail of `pat` comes from
      a source string that already started with it. */
  lemma {:induction false} ReplaceKeepsTailStart(s: string, pat: string, rep: string, k: nat)
    requires 1 <= k < |pat|
    requires rep != []
    requires forall j :: 1 <= j < |pat| ==> pat[j] != rep[0]
    ensures StartsWith(Replace(s, pat, rep), pat[k..]) ==> StartsWith(s, pat[k..])
    decreases |s|
  {
    var t := Replace(s, pat, rep);
    if |s| < |pat| {
    } else if s[..|pat|] == pat {
      assert t[0] == rep[0] != pat[k];
    } else {
      var t' := Replace(s[1..], pat, rep);
      assert t == [s[0]] + t';
      if k + 1 < |pat| {
        ReplaceKeepsTailStart(s[1..], pat, rep, k + 1);
        assert StartsWith(t, pat[k..]) ==> StartsWith(t', pat[k + 1..]) by {
          if StartsWith(t, pat[k..]) {
            assert t'[..|pat[k + 1..]|] == t[1..|pat[k..]|];
            assert pat[k..][1..] == pat[k + 1..];
          }
        }
        assert s[..|pat[k..]|] == [s[0]] + s[1..][..|pat[k + 1..]|];
        assert pat[k..] == [pat[k]] + pat[k + 1..];
      }
    }
  }

  /** Conditions on a replacement under which `replace` leaves no occurrence
      of the pattern behind: `rep` does not contain `pat`, no non-empty tail
      of `rep` is a proper head of `pat`, and `rep` starts with a character
      that `pat` has only at its start. */
  ghost predicate CleanReplacement(pat: string, rep: string) {
    && pat != []
    && rep != []
    && !Contains(rep, pat)
    && (forall j :: 1 <= j < |pat| ==> pat[j] != rep[0])
    && (forall i :: 0 <= i < |rep| && |rep| - i < |pat| ==> rep[i..] != pat[..|rep| - i])
  }

  /** Under a clean replacement, the result of `replace` no longer contains
      the pattern. */
  lemma {:induction false} ReplaceRemovesAll(s: string, pat: string, rep: string)
    requires CleanReplacement(pat, rep)
    ensures !Contains(Replace(s, pat, rep), pat)
    decreases |s|
  {
    var t := Replace(s, pat, rep);
    if |s| < |pat| {
    } else if s[..|pat|] == pat {
      var t' := Replace(s[|pat|..], pat, rep);
      ReplaceRemovesAll(s[|pat|..], pat, rep);
      assert t == rep + t';
      forall i | 0 <= i <= |t| ensures !StartsWith(t[i..], pat) {
        if i >= |rep| {
          assert t[i..] == t'[i - |rep|..];
        } else if i + |pat| <= |rep| {
          assert !StartsWith(rep[i..], pat);
          assert t[i..][..|pat|] == rep[i..][..|pat|];
        } else {
          assert rep[i..] != pat[..|rep| - i];
          assert t[i..][..|rep| - i] == rep[i..];
        }
      }
    } else {
      var t' := Replace(s[1..], pat, rep);
      ReplaceRemovesAll(s[1..], pat, rep);
      assert t == [s[0]] + t';
      forall i | 0 <= i <= |t| ensures !StartsWith(t[i..], pat) {
        if i > 0 {
          assert t[i..] == t'[i - 1..];
        } else if |pat| > 1 {
          ReplaceKeepsTailStart(s[1..], pat, rep, 1);
          assert StartsWith(t, pat) ==> StartsWith(t', pat[1..]) by {
            if StartsWith(t, pat) {
              assert t'[..|pat[1..]|] == t[1..|pat|];
            }
          }
          assert StartsWith(s[1..], pat[1..]) && s[0] == pat[0] ==> StartsWith(s, pat) by {
            assert s[..|pat|] == [s[0]] + s[1..][..|pat[1..]|];
            assert pat == [pat[0]] + pat[1..];
          }
          assert t[0..] == t;
        }
      }
    }
  }
}
