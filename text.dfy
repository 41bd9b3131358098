/** String facts shared by the book generator: Python's `str.replace`
    (replace every occurrence, scanning left to right) and `str.join`,
    together with the lemmas that say where things end up. */
module Text {

  /** `pat` occurs in `s` starting at index `i`. */
  predicate MatchAt(s: string, pat: string, i: int)
  {
    0 <= i && i + |pat| <= |s| && s[i..i + |pat|] == pat
  }

  predicate StartsWith(s: string, pat: string)
  {
    |pat| <= |s| && s[..|pat|] == pat
  }

  /** `s` contains no occurrence of `pat`. */
  predicate Free(s: string, pat: string)
  {
    forall i :: 0 <= i <= |s| ==> !MatchAt(s, pat, i)
  }

  /** `s` holds no character `c`. */
  predicate Lacks(s: string, c: char)
  {
    forall k :: 0 <= k < |s| ==> s[k] != c
  }

  /** Python's `s.replace(pat, rep)`: the leftmost occurrence is replaced
      first and scanning resumes after it, so occurrences never overlap. */
  function ReplaceAll(s: string, pat: string, rep: string): string
    requires |pat| > 0
    decreases |s|
  {
    if |s| < |pat| then s
    else if s[..|pat|] == pat then rep + ReplaceAll(s[|pat|..], pat, rep)
    else [s[0]] + ReplaceAll(s[1..], pat, rep)
  }

  /** Python's `sep.join(parts)`. */
  function Join(parts: seq<string>, sep: string): string
    decreases |parts|
  {
    if |parts| == 0 then ""
    else if |parts| == 1 then parts[0]
    else Join(parts[..|parts| - 1], sep) + sep + parts[|parts| - 1]
  }

  /** Where `parts[i]` starts inside `Join(parts, sep)`. */
  function JoinOffset(parts: seq<string>, sep: string, i: nat): nat
    requires i <= |parts|
  {
    if i == 0 then 0 else |Join(parts[..i], sep)| + |sep|
  }

  lemma MatchShift(x: string, y: string, pat: string, i: int)
    requires MatchAt(x + y, pat, i) && i >= |x|
    ensures MatchAt(y, pat, i - |x|)
  {
    assert (x + y)[i..i + |pat|] == y[i - |x|..i - |x| + |pat|];
  }

  /** A piece sits right after what precedes it. */
  lemma MatchAfter(a: string, b: string)
    ensures MatchAt(a + b, b, |a|)
  {
    assert (a + b)[|a|..|a| + |b|] == b;
  }

  lemma ConsAssociates<T>(c: T, y: seq<T>, z: seq<T>)
    ensures [c] + (y + z) == ([c] + y) + z
  {
  }

  /** Cutting inside the first part of a concatenation. */
  lemma SliceOfConcat<T>(a: seq<T>, b: seq<T>, n: nat)
    requires n <= |a|
    ensures (a + b)[..n] == a[..n]
    ensures (a + b)[n..] == a[n..] + b
  {
  }

  lemma StartsWithMatch(s: string, pat: string)
    requires StartsWith(s, pat)
    ensures MatchAt(s, pat, 0)
  {
    assert s[0..|pat|] == s[..|pat|];
  }

  /** Appending text keeps every occurrence where it was. */
  lemma MatchExtendRight(s: string, z: string, pat: string, i: int)
    requires MatchAt(s, pat, i)
    ensures MatchAt(s + z, pat, i)
  {
    assert (s + z)[i..i + |pat|] == s[i..i + |pat|];
  }

  /** Any slice of an occurrence is the matching slice of the pattern. */
  lemma MatchSlice(s: string, pat: string, i: int, a: int, b: int)
    requires MatchAt(s, pat, i) && 0 <= a <= b <= |pat|
    ensures s[i + a..i + b] == pat[a..b]
  {
    forall k | 0 <= k < b - a ensures s[i + a..i + b][k] == pat[a..b][k] {
      assert s[i + a + k] == s[i..i + |pat|][a + k];
    }
  }

  lemma SubstringOfConcat(a: string, b: string, c: string)
    ensures MatchAt(a + b + c, b, |a|)
  {
    assert (a + b + c)[|a|..|a| + |b|] == b;
  }

  lemma MatchExtend(x: string, y: string, pat: string, i: int)
    requires MatchAt(y, pat, i)
    ensures MatchAt(x + y, pat, i + |x|)
  {
    assert (x + y)[i + |x|..i + |x| + |pat|] == y[i..i + |pat|];
  }

  /** An occurrence inside a piece is an occurrence in any text that holds
      the piece at a known place. */
  lemma MatchInside(s: string, piece: string, at: int, pat: string, i: int)
    requires MatchAt(s, piece, at) && MatchAt(piece, pat, i)
    ensures MatchAt(s, pat, at + i)
  {
    forall k | 0 <= k < |pat| ensures s[at + i + k] == pat[k] {
      assert s[at + i + k] == s[at..at + |piece|][i + k];
      assert piece[i + k] == piece[i..i + |pat|][k];
    }
    assert s[at + i..at + i + |pat|] == pat;
  }

  /** Text free of the pattern passes the replacement unchanged. */
  lemma {:induction false} ReplaceAllFree(s: string, pat: string, rep: string)
    requires |pat| > 0 && Free(s, pat)
    ensures ReplaceAll(s, pat, rep) == s
    decreases |s|
  {
    if |s| >= |pat| {
      assert !MatchAt(s, pat, 0);
      assert s == s[..1] + s[1..];
      forall i ensures !MatchAt(s[1..], pat, i) {
        if MatchAt(s[1..], pat, i) {
          MatchExtend(s[..1], s[1..], pat, i);
        }
      }
      ReplaceAllFree(s[1..], pat, rep);
      assert s == [s[0]] + s[1..];
    }
  }

  /** A leading piece without the pattern's first character is copied as it is. */
  lemma {:induction false} ReplaceAllSkip(lit: string, x: string, pat: string, rep: string)
    requires |pat| > 0 && Lacks(lit, pat[0])
    ensures ReplaceAll(lit + x, pat, rep) == lit + ReplaceAll(x, pat, rep)
    decreases |lit|
  {
    if lit == [] {
      assert lit + x == x;
    } else {
      var s := lit + x;
      if |s| < |pat| {
        assert ReplaceAll(x, pat, rep) == x;
        assert ReplaceAll(s, pat, rep) == s;
      } else {
        assert s[..|pat|] != pat by { assert s[..|pat|][0] == lit[0]; }
        assert s[1..] == lit[1..] + x;
        assert ReplaceAll(s, pat, rep) == [lit[0]] + ReplaceAll(lit[1..] + x, pat, rep);
        ReplaceAllSkip(lit[1..], x, pat, rep);
        assert lit == [lit[0]] + lit[1..];
      }
    }
  }

  /** A leading piece that cannot start an occurrence (it differs from the
      pattern at its third character) and holds the pattern's first
      character only in front is copied as it is. */
  lemma ReplaceAllPassesOver(t: string, x: string, pat: string, rep: string)
    requires 3 <= |pat| && 3 <= |t| && t[2] != pat[2] && Lacks(t[1..], pat[0])
    ensures ReplaceAll(t + x, pat, rep) == t + ReplaceAll(x, pat, rep)
  {
    var s := t + x;
    SliceOfConcat(t, x, 1);
    if |s| >= |pat| {
      assert s[..|pat|] != pat by { assert s[..|pat|][2] == t[2]; }
      assert ReplaceAll(s, pat, rep) == [t[0]] + ReplaceAll(t[1..] + x, pat, rep);
    } else {
      assert ReplaceAll(x, pat, rep) == x;
      assert ReplaceAll(s, pat, rep) == s;
    }
    ReplaceAllSkip(t[1..], x, pat, rep);
    ConsAssociates(t[0], t[1..], ReplaceAll(x, pat, rep));
    assert t == [t[0]] + t[1..];
  }

  /** A text starting with the pattern has that occurrence replaced. */
  lemma ReplaceAllLeading(pat: string, x: string, rep: string)
    requires |pat| > 0
    ensures ReplaceAll(pat + x, pat, rep) == rep + ReplaceAll(x, pat, rep)
  {
    assert (pat + x)[..|pat|] == pat;
    assert (pat + x)[|pat|..] == x;
  }

  /** When every replacement starts with the pattern's first character, the
      output up to the first such character is the input unchanged. */
  lemma {:induction false} ReplaceAllKeepsPrefix(u: string, pat: string, rep: string, k: nat)
    requires |pat| > 0 && |rep| > 0 && rep[0] == pat[0]
    requires k <= |ReplaceAll(u, pat, rep)|
    requires forall j :: 0 <= j < k ==> ReplaceAll(u, pat, rep)[j] != pat[0]
    ensures k <= |u| && ReplaceAll(u, pat, rep)[..k] == u[..k]
    decreases |u|
  {
    var t := ReplaceAll(u, pat, rep);
    if |u| < |pat| {
    } else if u[..|pat|] == pat {
      assert k == 0 by { assert t[0] == rep[0]; }
    } else if k > 0 {
      var t' := ReplaceAll(u[1..], pat, rep);
      assert t == [u[0]] + t';
      forall j | 0 <= j < k - 1 ensures t'[j] != pat[0] {
        assert t[j + 1] == t'[j];
      }
      ReplaceAllKeepsPrefix(u[1..], pat, rep, k - 1);
      assert t[..k] == [u[0]] + t'[..k - 1];
    }
  }

  /** `Join(parts[..j])` is the beginning of `Join(parts)`. */
  lemma {:induction false} JoinPrefix(parts: seq<string>, sep: string, j: nat)
    requires 1 <= j <= |parts|
    ensures |Join(parts[..j], sep)| <= |Join(parts, sep)|
    ensures Join(parts, sep)[..|Join(parts[..j], sep)|] == Join(parts[..j], sep)
    decreases |parts|
  {
    if j < |parts| {
      var init := parts[..|parts| - 1];
      assert init[..j] == parts[..j];
      JoinPrefix(init, sep, j);
      assert Join(parts, sep) == Join(init, sep) + sep + parts[|parts| - 1];
    } else {
      assert parts[..j] == parts;
    }
  }

  /** Each part sits at its offset, and the offsets advance by the part's
      length plus the separator: the parts appear in order, without overlap. */
  lemma JoinAt(parts: seq<string>, sep: string, i: nat)
    requires i < |parts|
    ensures MatchAt(Join(parts, sep), parts[i], JoinOffset(parts, sep, i))
    ensures JoinOffset(parts, sep, i + 1) == JoinOffset(parts, sep, i) + |parts[i]| + |sep|
  {
    var pre := parts[..i + 1];
    JoinPrefix(parts, sep, i + 1);
    var whole := Join(parts, sep);
    var head := Join(pre, sep);
    if i == 0 {
      assert head == parts[0];
    } else {
      assert pre[..i] == parts[..i];
      assert head == Join(parts[..i], sep) + sep + parts[i];
    }
    assert whole[..|head|] == head;
    var off := JoinOffset(parts, sep, i);
    assert off + |parts[i]| == |head|;
    assert whole[off..off + |parts[i]|] == head[off..off + |parts[i]|];
  }
}
