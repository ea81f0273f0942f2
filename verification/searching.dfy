/** Reasoning about a search through a text that is made of known pieces. */
module Searching {
  import opened Common
  import opened Text

  /** pat occurs nowhere in x. */
  predicate Clean(x: string, pat: string) {
    !Contains(x, pat)
  }

  /** No occurrence of pat can run on behind x. */
  predicate Stops(x: string, pat: string) {
    x != "" ==> x[|x| - 1] !in pat
  }

  /** A search steps over a piece that pat does not occur in. */
  lemma Skips(s: string, x: string, i: nat, pat: string)
    requires HasAt(s, x, i) && Clean(x, pat) && Stops(x, pat)
    ensures Find(s, pat, i) == Find(s, pat, i + |x|)
  {
    NoneWithin(s, x, i, pat);
    SkipsTo(s, pat, i, i + |x|);
  }

  lemma NoneWithin(s: string, x: string, i: nat, pat: string)
    requires HasAt(s, x, i) && Clean(x, pat) && Stops(x, pat)
    ensures forall k | i <= k < i + |x| :: !HasAt(s, pat, k)
  {
    OccursAt(s, x, i);
    forall k | i <= k < i + |x| ensures !HasAt(s, pat, k) {
      if k + |pat| <= i + |x| {
        Inside(s, x, i, pat, k - i);
      } else {
        assert s[i + (|x| - 1)] !in pat;
        Mismatch(s, pat, k, i + |x| - 1 - k);
      }
    }
  }

  lemma OccursAt(s: string, x: string, i: nat)
    requires HasAt(s, x, i)
    ensures forall j | 0 <= j < |x| :: s[i + j] == x[j]
  {
    forall j | 0 <= j < |x| ensures s[i + j] == x[j] {
      assert s[i..i + |x|][j] == s[i + j];
    }
  }

  lemma Mismatch(s: string, pat: string, i: nat, j: nat)
    requires j < |pat| && (i + |pat| <= |s| ==> s[i + j] != pat[j])
    ensures !HasAt(s, pat, i)
  {
    if i + |pat| <= |s| {
      assert s[i..i + |pat|][j] == s[i + j];
    }
  }

  /** Inside a piece the text has what the piece has. */
  lemma Inside(s: string, x: string, i: nat, pat: string, j: nat)
    requires HasAt(s, x, i) && j + |pat| <= |x|
    ensures HasAt(s, pat, i + j) == HasAt(x, pat, j)
  {
    OccursAt(s, x, i);
    assert s[i + j..i + j + |pat|] == x[j..j + |pat|];
  }

  lemma {:induction false} SkipsTo(s: string, pat: string, i: nat, j: nat)
    requires i <= j <= |s|
    requires forall k | i <= k < j :: !HasAt(s, pat, k)
    ensures Find(s, pat, i) == Find(s, pat, j)
    decreases j - i
  {
    if i < j {
      SkipsTo(s, pat, i + 1, j);
    }
  }

  /** A search ends no later than at an occurrence inside a piece. */
  lemma {:induction false} FindsNoLater(s: string, x: string, i: nat, pat: string, j: nat)
    requires HasAt(s, x, i) && HasAt(x, pat, j)
    ensures Find(s, pat, i).Some? && Find(s, pat, i).value <= i + j
  {
    Inside(s, x, i, pat, j);
    FindIsFirst(s, pat, i);
  }

  /** The next piece of a text. */
  lemma Piece(s: string, i: nat, a: string, b: string)
    requires i <= |s| && s[i..] == a + b
    ensures HasAt(s, a, i) && s[i + |a|..] == b
  {
    assert |s| == i + |a| + |b|;
    assert s[i..][..|a|] == a && s[i..][|a|..] == b;
  }

  lemma Glued(s: string, i: nat, a: string, b: string)
    requires HasAt(s, a, i) && HasAt(s, b, i + |a|)
    ensures HasAt(s, a + b, i)
  {
    assert s[i..i + |a| + |b|] == s[i..i + |a|] + s[i + |a|..i + |a| + |b|];
  }

  lemma LoweredPiece(s: string, x: string, i: nat)
    requires HasAt(s, x, i)
    ensures HasAt(Lower(s), Lower(x), i)
  {
    OccursAt(s, x, i);
    assert Lower(s)[i..i + |x|] == Lower(x);
  }

  /** A text without one of the pattern's characters. */
  lemma CleanWithout(x: string, pat: string, k: nat)
    requires k < |pat| && pat[k] !in x
    ensures Clean(x, pat)
  {
    forall i | 0 <= i <= |x| ensures !HasAt(x, pat, i) {
      Mismatch(x, pat, i, k);
    }
  }

  /** Pieces that no occurrence can straddle. */
  lemma CleanAppend(x: string, y: string, pat: string)
    requires Clean(x, pat) && Clean(y, pat) && (Stops(x, pat) || (y != "" && y[0] !in pat))
    ensures Clean(x + y, pat)
  {
    forall i | 0 <= i <= |x + y| ensures !HasAt(x + y, pat, i) {
      if i + |pat| <= |x| {
        assert !HasAt(x, pat, i);
        assert (x + y)[i..i + |pat|] == x[i..i + |pat|];
      } else if i >= |x| {
        assert i + |pat| <= |x + y| ==> (x + y)[i..i + |pat|] == y[i - |x|..i - |x| + |pat|];
        assert i - |x| <= |y| && !HasAt(y, pat, i - |x|);
      } else if Stops(x, pat) {
        Mismatch(x + y, pat, i, |x| - 1 - i);
      } else {
        Mismatch(x + y, pat, i, |x| - i);
      }
    }
  }
}
