/** The image-link rewrite that `convert_markdown_to_html` applies to a
    chapter's markdown before handing it to the markdown library: image
    references written relative to the book's `images` directory, either as
    `](../images/` (chapter one level below) or as `](images/` (chapter
    beside it), are pointed at the absolute `file://` location of that
    directory. */
module ImageLinks {
  import opened Text

  /** The spelling used by a chapter one directory below `images/`. */
  const ParentMarker: string := "](../images/"
  /** The spelling used by a chapter next to `images/`. */
  const SiblingMarker: string := "](images/"

  /** What both spellings become: `](` + the images directory URI + `/`. */
  function Target(imagesUri: string): string
  {
    "](" + imagesUri + "/"
  }

  /** The shape of `Path.as_uri()` for the images directory: it starts with
      `file://` and, being percent-encoded, holds no `]`. */
  predicate IsFileUri(uri: string)
  {
    StartsWith(uri, "file://") && Lacks(uri, ']')
  }

  /** The two replace-all passes, in the order the source runs them. */
  function RewriteImageLinks(md: string, imagesUri: string): string
  {
    var once := ReplaceAll(md, ParentMarker, Target(imagesUri));
    ReplaceAll(once, SiblingMarker, Target(imagesUri))
  }

  /** Reference reading of the rewrite: one left-to-right scan that
      recognises either spelling and copies every other character. */
  function Scan(md: string, imagesUri: string): string
    decreases |md|
  {
    if StartsWith(md, ParentMarker) then
      Target(imagesUri) + Scan(md[|ParentMarker|..], imagesUri)
    else if StartsWith(md, SiblingMarker) then
      Target(imagesUri) + Scan(md[|SiblingMarker|..], imagesUri)
    else if md == [] then []
    else [md[0]] + Scan(md[1..], imagesUri)
  }

  predicate IsMarker(pat: string)
  {
    pat == ParentMarker || pat == SiblingMarker
  }

  /** The target opens with the bracket, holds no other `]` and continues
      with `(f`, as in `](file://`. */
  lemma TargetShape(imagesUri: string)
    requires IsFileUri(imagesUri)
    ensures var t := Target(imagesUri);
      4 <= |t| && t[0] == ']' && t[2] == 'f' && Lacks(t[1..], ']')
  {
    var t := Target(imagesUri);
    assert imagesUri[..7][0] == 'f';
    forall k | 0 <= k < |t[1..]| ensures t[1..][k] != ']' {
      if 1 <= k < |t[1..]| - 1 {
        assert t[1..][k] == imagesUri[k - 1];
      }
    }
  }

  /** Both spellings open with the bracket, hold no other `]`, and
      differ from each other and from any target at the third character. */
  lemma MarkerShape(pat: string)
    requires IsMarker(pat)
    ensures 9 <= |pat| && pat[0] == ']' && pat[2] != 'f' && Lacks(pat[1..], ']')
    ensures pat == SiblingMarker ==> pat[2] != ParentMarker[2]
  {
  }

  /** Either pass steps over a freshly inserted target without touching it. */
  lemma PassOverTarget(x: string, pat: string, imagesUri: string)
    requires IsFileUri(imagesUri) && IsMarker(pat)
    ensures ReplaceAll(Target(imagesUri) + x, pat, Target(imagesUri))
         == Target(imagesUri) + ReplaceAll(x, pat, Target(imagesUri))
  {
    TargetShape(imagesUri);
    MarkerShape(pat);
    ReplaceAllPassesOver(Target(imagesUri), x, pat, Target(imagesUri));
  }

  /** The first pass copies a sibling-spelled link, whose bracket is the
      only `]` it holds. */
  lemma ParentPassOverSibling(x: string, rep: string)
    ensures ReplaceAll(SiblingMarker + x, ParentMarker, rep)
         == SiblingMarker + ReplaceAll(x, ParentMarker, rep)
  {
    MarkerShape(SiblingMarker);
    MarkerShape(ParentMarker);
    ReplaceAllPassesOver(SiblingMarker, x, ParentMarker, rep);
  }

  /** A link in the parent spelling is replaced by the first pass and left
      alone by the second. */
  lemma ParentFrontRewrites(rest: string, imagesUri: string)
    requires IsFileUri(imagesUri)
    ensures RewriteImageLinks(ParentMarker + rest, imagesUri)
         == Target(imagesUri) + RewriteImageLinks(rest, imagesUri)
  {
    var t := Target(imagesUri);
    ReplaceAllLeading(ParentMarker, rest, t);
    PassOverTarget(ReplaceAll(rest, ParentMarker, t), SiblingMarker, imagesUri);
  }

  /** A link in the sibling spelling is copied by the first pass and
      replaced by the second. */
  lemma SiblingFrontRewrites(rest: string, imagesUri: string)
    ensures RewriteImageLinks(SiblingMarker + rest, imagesUri)
         == Target(imagesUri) + RewriteImageLinks(rest, imagesUri)
  {
    var t := Target(imagesUri);
    ParentPassOverSibling(rest, t);
    ReplaceAllLeading(SiblingMarker, ReplaceAll(rest, ParentMarker, t), t);
  }

  /** A first character that starts neither spelling passes both passes. */
  lemma CopiedCharRewrites(md: string, imagesUri: string)
    requires md != [] && !StartsWith(md, ParentMarker) && !StartsWith(md, SiblingMarker)
    ensures RewriteImageLinks(md, imagesUri) == [md[0]] + RewriteImageLinks(md[1..], imagesUri)
  {
    var t := Target(imagesUri);
    var c, rest := md[0], md[1..];
    var x := ReplaceAll(rest, ParentMarker, t);
    assert ReplaceAll(md, ParentMarker, t) == [c] + x;
    var y := [c] + x;
    if |y| >= |SiblingMarker| {
      // Either a `]` follows the first character, or the first pass left
      // the next eight characters as they were and `md` would have begun
      // with the sibling spelling.
      var n := |SiblingMarker| - 1;
      assert y[..n + 1] != SiblingMarker by {
        if forall j :: 0 <= j < n ==> x[j] != ParentMarker[0] {
          ReplaceAllKeepsPrefix(rest, ParentMarker, t, n);
          assert md[..n + 1] == [c] + rest[..n];
          assert y[..n + 1] == [c] + x[..n];
        } else {
          var j :| 0 <= j < n && x[j] == ']';
          assert y[..n + 1][j + 1] == ']';
        }
      }
      assert y[1..] == x;
    } else {
      assert ReplaceAll(x, SiblingMarker, t) == x;
    }
  }

  /** The two passes of the source compute the single scan: for a file URI
      the second pass never sees a link made by the first, and no link is
      recognised twice or split between the passes. */
  lemma {:induction false} TwoPassesAreOneScan(md: string, imagesUri: string)
    requires IsFileUri(imagesUri)
    ensures RewriteImageLinks(md, imagesUri) == Scan(md, imagesUri)
    decreases |md|
  {
    if StartsWith(md, ParentMarker) {
      var rest := md[|ParentMarker|..];
      SliceOfConcat(ParentMarker, rest, |ParentMarker|);
      assert md == ParentMarker + rest;
      ParentFrontRewrites(rest, imagesUri);
      ScanMarkerFront(ParentMarker, rest, imagesUri);
      TwoPassesAreOneScan(rest, imagesUri);
    } else if StartsWith(md, SiblingMarker) {
      var rest := md[|SiblingMarker|..];
      assert md == SiblingMarker + rest;
      SiblingFrontRewrites(rest, imagesUri);
      ScanMarkerFront(SiblingMarker, rest, imagesUri);
      TwoPassesAreOneScan(rest, imagesUri);
    } else if md != [] {
      CopiedCharRewrites(md, imagesUri);
      ScanCopies(md, imagesUri);
      TwoPassesAreOneScan(md[1..], imagesUri);
    }
  }

  /** Every character the scan emits up to the first `]` is the input's. */
  lemma {:induction false} ScanKeepsPrefix(u: string, imagesUri: string, k: nat)
    requires k <= |Scan(u, imagesUri)|
    requires forall j :: 0 <= j < k ==> Scan(u, imagesUri)[j] != ']'
    ensures k <= |u| && Scan(u, imagesUri)[..k] == u[..k]
    decreases |u|
  {
    var s := Scan(u, imagesUri);
    if StartsWith(u, ParentMarker) || StartsWith(u, SiblingMarker) {
      assert k == 0 by { assert s[0] == ']'; }
    } else if u != [] && k > 0 {
      var s' := Scan(u[1..], imagesUri);
      assert s == [u[0]] + s';
      forall j | 0 <= j < k - 1 ensures s'[j] != ']' {
        assert s[j + 1] == s'[j];
      }
      ScanKeepsPrefix(u[1..], imagesUri, k - 1);
      assert s[..k] == [u[0]] + s'[..k - 1];
    }
  }

  /** An occurrence of a marker that starts with an emitted target is
      impossible: the target has its bracket only in front and continues
      with `(file:`. */
  lemma NoMarkerAtTarget(y: string, pat: string, imagesUri: string, i: int)
    requires IsFileUri(imagesUri) && IsMarker(pat)
    requires 0 <= i < |Target(imagesUri)|
    ensures !MatchAt(Target(imagesUri) + y, pat, i)
  {
    var t := Target(imagesUri);
    var s := t + y;
    if i + |pat| <= |s| {
      if i == 0 {
        assert s[..|pat|][2] == s[2] == 'f';
      } else if i == 1 || i == |t| - 1 {
        assert s[i..i + |pat|][0] == s[i] != ']';
      } else {
        assert s[i] == imagesUri[i - 2];
        assert s[i..i + |pat|][0] == s[i];
      }
    }
  }

  /** What the scan produces holds neither relative spelling any more. */
  lemma {:induction false} ScanLeavesNoMarkers(md: string, imagesUri: string, pat: string)
    requires IsFileUri(imagesUri) && IsMarker(pat)
    ensures Free(Scan(md, imagesUri), pat)
    decreases |md|
  {
    var out := Scan(md, imagesUri);
    var t := Target(imagesUri);
    if StartsWith(md, ParentMarker) || StartsWith(md, SiblingMarker) {
      var rest := if StartsWith(md, ParentMarker) then md[|ParentMarker|..] else md[|SiblingMarker|..];
      var y := Scan(rest, imagesUri);
      assert out == t + y;
      ScanLeavesNoMarkers(rest, imagesUri, pat);
      forall i | 0 <= i <= |out| ensures !MatchAt(out, pat, i) {
        if i < |t| {
          NoMarkerAtTarget(y, pat, imagesUri, i);
        } else if MatchAt(out, pat, i) {
          MatchShift(t, y, pat, i);
        }
      }
    } else if md != [] {
      var c, rest := md[0], md[1..];
      var y := Scan(rest, imagesUri);
      assert out == [c] + y;
      ScanLeavesNoMarkers(rest, imagesUri, pat);
      forall i | 0 <= i <= |out| ensures !MatchAt(out, pat, i) {
        if i == 0 && |pat| <= |out| {
          var n := |pat| - 1;
          if forall j :: 0 <= j < n ==> y[j] != ']' {
            ScanKeepsPrefix(rest, imagesUri, n);
            assert md[..n + 1] == [c] + rest[..n];
            assert out[..n + 1] == [c] + y[..n];
          } else {
            var j :| 0 <= j < n && y[j] == ']';
            assert out[..n + 1][j + 1] == ']';
          }
        } else if i > 0 && MatchAt(out, pat, i) {
          MatchShift([c], y, pat, i);
        }
      }
    }
  }

  /** A marker at the front of `a + b` cannot reach into `b` when `b`
      starts with `]`: the marker holds its bracket only in front. */
  lemma NoMarkerAcrossBracket(a: string, b: string, pat: string)
    requires IsMarker(pat) && a != [] && !StartsWith(a, pat)
    requires |b| > 0 && b[0] == ']'
    ensures !StartsWith(a + b, pat)
  {
    var s := a + b;
    if |s| >= |pat| {
      if |a| >= |pat| {
        assert s[..|pat|] == a[..|pat|];
      } else {
        assert s[..|pat|][|a|] == s[|a|] == ']';
      }
    }
  }

  /** A scan that starts with a spelling emits the target for it, whatever
      follows. */
  lemma ScanMarkerFront(pat: string, after: string, imagesUri: string)
    requires IsMarker(pat)
    ensures Scan(pat + after, imagesUri) == Target(imagesUri) + Scan(after, imagesUri)
  {
    var b := pat + after;
    assert b[..|pat|] == pat;
    assert b[|pat|..] == after;
    if pat == SiblingMarker && |b| >= |ParentMarker| {
      assert b[..|ParentMarker|][2] == b[2];
    }
  }

  /** One step of `ScanSplitsAtBracket` for a leading spelling `m`. */
  lemma ScanSplitMarkerStep(a: string, b: string, m: string, imagesUri: string)
    requires IsMarker(m) && StartsWith(a, m) && |b| > 0 && b[0] == ']'
    requires m == SiblingMarker ==> !StartsWith(a, ParentMarker)
    requires Scan(a[|m|..] + b, imagesUri) == Scan(a[|m|..], imagesUri) + Scan(b, imagesUri)
    ensures Scan(a + b, imagesUri) == Scan(a, imagesUri) + Scan(b, imagesUri)
  {
    var s := a + b;
    SliceOfConcat(a, b, |m|);
    if m == SiblingMarker {
      NoMarkerAcrossBracket(a, b, ParentMarker);
    }
  }

  /** Text that starts with neither spelling has its first character copied. */
  lemma ScanCopies(u: string, imagesUri: string)
    requires u != [] && !StartsWith(u, ParentMarker) && !StartsWith(u, SiblingMarker)
    ensures Scan(u, imagesUri) == [u[0]] + Scan(u[1..], imagesUri)
  {
  }

  /** One step of `ScanSplitsAtBracket` for a leading copied character. */
  lemma ScanSplitCopyStep(a: string, b: string, imagesUri: string)
    requires a != [] && !StartsWith(a, ParentMarker) && !StartsWith(a, SiblingMarker)
    requires |b| > 0 && b[0] == ']'
    requires Scan(a[1..] + b, imagesUri) == Scan(a[1..], imagesUri) + Scan(b, imagesUri)
    ensures Scan(a + b, imagesUri) == Scan(a, imagesUri) + Scan(b, imagesUri)
  {
    var s := a + b;
    NoMarkerAcrossBracket(a, b, ParentMarker);
    NoMarkerAcrossBracket(a, b, SiblingMarker);
    ScanCopies(s, imagesUri);
    ScanCopies(a, imagesUri);
    SliceOfConcat(a, b, 1);
    ConsAssociates(a[0], Scan(a[1..], imagesUri), Scan(b, imagesUri));
  }

  /** A `]` starts a fresh token, so scanning can be split in front of one. */
  lemma {:induction false} ScanSplitsAtBracket(a: string, b: string, imagesUri: string)
    requires |b| > 0 && b[0] == ']'
    ensures Scan(a + b, imagesUri) == Scan(a, imagesUri) + Scan(b, imagesUri)
    decreases |a|
  {
    if a == [] {
      assert a + b == b;
    } else if StartsWith(a, ParentMarker) {
      ScanSplitsAtBracket(a[|ParentMarker|..], b, imagesUri);
      ScanSplitMarkerStep(a, b, ParentMarker, imagesUri);
    } else if StartsWith(a, SiblingMarker) {
      ScanSplitsAtBracket(a[|SiblingMarker|..], b, imagesUri);
      ScanSplitMarkerStep(a, b, SiblingMarker, imagesUri);
    } else {
      ScanSplitsAtBracket(a[1..], b, imagesUri);
      ScanSplitCopyStep(a, b, imagesUri);
    }
  }

  /** Either spelling, wherever it stands, becomes the target. */
  lemma SpellingBecomesTarget(before: string, pat: string, after: string, imagesUri: string)
    requires IsMarker(pat)
    ensures Scan(before + pat + after, imagesUri)
         == Scan(before, imagesUri) + Target(imagesUri) + Scan(after, imagesUri)
  {
    var b := pat + after;
    assert before + pat + after == before + b;
    assert b[0] == ']';
    ScanSplitsAtBracket(before, b, imagesUri);
    ScanMarkerFront(pat, after, imagesUri);
  }

  /** Markdown holding neither spelling passes the rewrite unchanged, for any
      images URI; already absolute `](file:` links are such text. */
  lemma RewriteKeepsTextWithoutMarkers(md: string, imagesUri: string)
    requires Free(md, ParentMarker) && Free(md, SiblingMarker)
    ensures RewriteImageLinks(md, imagesUri) == md
  {
    ReplaceAllFree(md, ParentMarker, Target(imagesUri));
    ReplaceAllFree(md, SiblingMarker, Target(imagesUri));
  }

  /** After the rewrite no relative image link is left. */
  lemma RewriteLeavesNoRelativeLinks(md: string, imagesUri: string)
    requires IsFileUri(imagesUri)
    ensures Free(RewriteImageLinks(md, imagesUri), ParentMarker)
    ensures Free(RewriteImageLinks(md, imagesUri), SiblingMarker)
  {
    TwoPassesAreOneScan(md, imagesUri);
    ScanLeavesNoMarkers(md, imagesUri, ParentMarker);
    ScanLeavesNoMarkers(md, imagesUri, SiblingMarker);
  }

  /** Rewriting twice is rewriting once. */
  lemma RewriteIdempotent(md: string, imagesUri: string)
    requires IsFileUri(imagesUri)
    ensures RewriteImageLinks(RewriteImageLinks(md, imagesUri), imagesUri)
         == RewriteImageLinks(md, imagesUri)
  {
    RewriteLeavesNoRelativeLinks(md, imagesUri);
    RewriteKeepsTextWithoutMarkers(RewriteImageLinks(md, imagesUri), imagesUri);
  }

  /** `../images/x` and `images/x` give the same document, whatever text
      surrounds the link: each becomes the absolute target followed by `x`. */
  lemma BothSpellingsAgree(before: string, after: string, imagesUri: string)
    requires IsFileUri(imagesUri)
    ensures RewriteImageLinks(before + ParentMarker + after, imagesUri)
         == RewriteImageLinks(before, imagesUri) + Target(imagesUri) + RewriteImageLinks(after, imagesUri)
    ensures RewriteImageLinks(before + SiblingMarker + after, imagesUri)
         == RewriteImageLinks(before, imagesUri) + Target(imagesUri) + RewriteImageLinks(after, imagesUri)
  {
    TwoPassesAreOneScan(before, imagesUri);
    TwoPassesAreOneScan(after, imagesUri);
    TwoPassesAreOneScan(before + ParentMarker + after, imagesUri);
    TwoPassesAreOneScan(before + SiblingMarker + after, imagesUri);
    SpellingBecomesTarget(before, ParentMarker, after, imagesUri);
    SpellingBecomesTarget(before, SiblingMarker, after, imagesUri);
  }
}
