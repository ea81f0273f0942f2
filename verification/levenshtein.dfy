/** The edit distance behind the lookalike-domain check. */
module Levenshtein {
  // ---- edit scripts ----

  // One single-character change of a text.
  datatype Edit =
    | Insert(at: nat, c: char)
    | Delete(at: nat)
    | Substitute(at: nat, c: char)

  predicate Applies(e: Edit, s: string) {
    if e.Insert? then e.at <= |s| else e.at < |s|
  }

  function Apply(e: Edit, s: string): string
    requires Applies(e, s)
  {
    match e
    case Insert(i, c) => s[..i] + [c] + s[i..]
    case Delete(i) => s[..i] + s[i + 1..]
    case Substitute(i, c) => s[i := c]
  }

  /** The edits, one after the other, turn a into b. */
  predicate Transforms(script: seq<Edit>, a: string, b: string)
    decreases |script|
  {
    if script == [] then a == b
    else Applies(script[0], a) && Transforms(script[1..], Apply(script[0], a), b)
  }

  // ---- the recurrence ----

  function Min(a: nat, b: nat): nat {
    if a <= b then a else b
  }

  /** The last characters are dropped, added or matched against each other. */
  function Distance(a: string, b: string): nat
    decreases |a| + |b|
  {
    if a == "" then |b|
    else if b == "" then |a|
    else
      var a', b' := a[..|a| - 1], b[..|b| - 1];
      var cost := if a[|a| - 1] != b[|b| - 1] then 1 else 0;
      Min(Min(Distance(a', b) + 1, Distance(a, b') + 1), Distance(a', b') + cost)
  }

  // ---- the distance is reached ----

  /** The edit that undoes e on s. */
  function Undo(e: Edit, s: string): Edit
    requires Applies(e, s)
  {
    match e
    case Insert(i, _) => Delete(i)
    case Delete(i) => Insert(i, s[i])
    case Substitute(i, _) => Substitute(i, s[i])
  }

  lemma UndoUndoes(e: Edit, s: string)
    requires Applies(e, s)
    ensures Applies(Undo(e, s), Apply(e, s)) && Apply(Undo(e, s), Apply(e, s)) == s
  {
  }

  lemma {:induction false} FirstEdit(e: Edit, script: seq<Edit>, a: string, b: string)
    requires Applies(e, a) && Transforms(script, Apply(e, a), b)
    ensures Transforms([e] + script, a, b)
  {
    assert ([e] + script)[1..] == script;
  }

  lemma {:induction false} Concatenates(s1: seq<Edit>, s2: seq<Edit>, a: string, b: string, c: string)
    requires Transforms(s1, a, b) && Transforms(s2, b, c)
    ensures Transforms(s1 + s2, a, c)
    decreases |s1|
  {
    hide Apply, Applies;
    if s1 == [] {
      assert s1 + s2 == s2;
    } else {
      assert s1 + s2 == [s1[0]] + (s1[1..] + s2);
      Concatenates(s1[1..], s2, Apply(s1[0], a), b, c);
      FirstEdit(s1[0], s1[1..] + s2, a, c);
    }
  }

  /** A script run on a prefix leaves the rest alone. */
  lemma {:induction false} OnPrefix(script: seq<Edit>, a: string, b: string, tail: string)
    requires Transforms(script, a, b)
    ensures Transforms(script, a + tail, b + tail)
    decreases |script|
  {
    if script != [] {
      var e := script[0];
      assert Apply(e, a + tail) == Apply(e, a) + tail;
      OnPrefix(script[1..], Apply(e, a), b, tail);
    }
  }

  lemma {:induction false} SingleEdit(e: Edit, a: string)
    requires Applies(e, a)
    ensures Transforms([e], a, Apply(e, a))
  {
  }

  lemma {:induction false} DeleteLast(script: seq<Edit>, a: string, c: char, b: string)
    requires Transforms(script, a, b)
    ensures Transforms([Delete(|a|)] + script, a + [c], b)
  {
    assert Apply(Delete(|a|), a + [c]) == a;
    FirstEdit(Delete(|a|), script, a + [c], b);
  }

  lemma {:induction false} EditLast(script: seq<Edit>, a: string, b: string, e: Edit)
    requires Transforms(script, a, b) && Applies(e, b)
    ensures Transforms(script + [e], a, Apply(e, b))
  {
    SingleEdit(e, b);
    Concatenates(script, [e], a, b, Apply(e, b));
  }

  lemma {:induction false} ChangeLast(script: seq<Edit>, a: string, c: char, b: string, d: char)
    requires Transforms(script, a, b)
    ensures Transforms(script + (if c == d then [] else [Substitute(|b|, d)]), a + [c], b + [d])
  {
    OnPrefix(script, a, b, [c]);
    if c == d {
      assert script + [] == script;
    } else {
      var e := Substitute(|b|, d);
      assert Apply(e, b + [c]) == b + [d];
      EditLast(script, a + [c], b + [c], e);
    }
  }

  /** The recurrence at two texts that are not empty. */
  lemma {:induction false} DistanceSnoc(a: string, c: char, b: string, d: char)
    ensures Distance(a + [c], b + [d])
         == Min(Min(Distance(a, b + [d]) + 1, Distance(a + [c], b) + 1), Distance(a, b) + if c == d then 0 else 1)
  {
    assert (a + [c])[..|a|] == a && (b + [d])[..|b|] == b;
  }

  /** There is a script of Distance(a, b) edits. */
  lemma {:induction false} DistanceIsReached(a: string, b: string) returns (script: seq<Edit>)
    ensures Transforms(script, a, b) && |script| == Distance(a, b)
    decreases |a| + |b|
  {
    if a == "" && b == "" {
      return [];
    }
    if a == "" || b == "" {
      script := ReachedFromEmpty(a, b);
      return;
    }
    var a', c, b', d := a[..|a| - 1], a[|a| - 1], b[..|b| - 1], b[|b| - 1];
    assert a == a' + [c] && b == b' + [d];
    DistanceSnoc(a', c, b', d);
    hide Transforms, Apply, Distance;
    if Distance(a, b) == Distance(a', b) + 1 {
      script := DistanceIsReached(a', b);
      DeleteLast(script, a', c, b);
      script := [Delete(|a'|)] + script;
    } else if Distance(a, b) == Distance(a, b') + 1 {
      script := DistanceIsReached(a, b');
      script := AppendChar(script, a, b', d);
    } else {
      script := DistanceIsReached(a', b');
      ChangeLast(script, a', c, b', d);
      script := script + if c == d then [] else [Substitute(|b'|, d)];
    }
  }

  lemma AppendChar(script: seq<Edit>, a: string, b: string, d: char) returns (longer: seq<Edit>)
    requires Transforms(script, a, b)
    ensures Transforms(longer, a, b + [d]) && |longer| == |script| + 1
  {
    var e := Insert(|b|, d);
    assert Apply(e, b) == b + [d];
    EditLast(script, a, b, e);
    longer := script + [e];
  }

  lemma NothingTransforms()
    ensures Transforms([], "", "")
  {
  }

  lemma {:induction false} ReachedFromEmpty(a: string, b: string) returns (script: seq<Edit>)
    requires a == "" || b == ""
    ensures Transforms(script, a, b) && |script| == Distance(a, b)
    decreases |a| + |b|
  {
    hide Transforms;
    NothingTransforms();
    if a != "" {
      script := ReachedFromEmpty(a[..|a| - 1], b);
      DeleteLast(script, a[..|a| - 1], a[|a| - 1], b);
      assert a == a[..|a| - 1] + [a[|a| - 1]];
      script := [Delete(|a| - 1)] + script;
    } else if b != "" {
      script := ReachedFromEmpty(a, b[..|b| - 1]);
      script := AppendChar(script, a, b[..|b| - 1], b[|b| - 1]);
      assert b == b[..|b| - 1] + [b[|b| - 1]];
    } else {
      script := [];
    }
  }

  // ---- no script is shorter ----

  /** Appending a character moves the distance by one at most. */
  lemma {:induction false} AppendMovesByOne(a: string, c: char, b: string)
    ensures Distance(a, b) <= Distance(a + [c], b) + 1 && Distance(a + [c], b) <= Distance(a, b) + 1
    decreases |b|
  {
    assert (a + [c])[..|a|] == a;
    if b != "" {
      AppendMovesByOne(a, c, b[..|b| - 1]);
      if a != "" {
        assert Distance(a, b) <= Distance(a, b[..|b| - 1]) + 1;
      }
    }
  }

  /** An edit at the last character or behind it. */
  lemma {:induction false} EditAtEnd(e: Edit, a: string, b: string)
    requires Applies(e, a) && (if e.Insert? then e.at == |a| else e.at == |a| - 1)
    ensures Distance(a, b) <= Distance(Apply(e, a), b) + 1
  {
    if e.Insert? {
      assert Apply(e, a) == a + [e.c];
      AppendMovesByOne(a, e.c, b);
    } else {
      var a', c := a[..|a| - 1], a[|a| - 1];
      assert a == a' + [c];
      if e.Delete? {
        assert Apply(e, a) == a';
        AppendMovesByOne(a', c, b);
      } else {
        assert Apply(e, a) == a' + [e.c];
        SubstituteLast(a', c, e.c, b);
      }
    }
  }

  lemma EditInside(e: Edit, a: string, c: char)
    requires Applies(e, a) && (e.Insert? ==> e.at < |a| + 1)
    ensures Applies(e, a + [c]) && Apply(e, a + [c]) == Apply(e, a) + [c]
  {
  }

  lemma {:induction false} EditInsideMoves(e: Edit, a: string, c: char, b: string, d: char)
    requires Applies(e, a)
    requires Distance(a, b + [d]) <= Distance(Apply(e, a), b + [d]) + 1
    requires Distance(a + [c], b) <= Distance(Apply(e, a) + [c], b) + 1
    requires Distance(a, b) <= Distance(Apply(e, a), b) + 1
    ensures Distance(a + [c], b + [d]) <= Distance(Apply(e, a) + [c], b + [d]) + 1
  {
    hide Apply, Distance;
    DistanceSnoc(a, c, b, d);
    DistanceSnoc(Apply(e, a), c, b, d);
  }

  lemma {:induction false} DistanceToEmpty(e: Edit, a: string)
    requires Applies(e, a)
    ensures Distance(a, "") <= Distance(Apply(e, a), "") + 1
  {
  }

  /** One edit of the first text moves the distance by one at most. */
  lemma {:induction false} EditMovesByOne(e: Edit, a: string, b: string)
    requires Applies(e, a)
    ensures Distance(a, b) <= Distance(Apply(e, a), b) + 1
    decreases |a| + |b|
  {
    hide Apply, Distance;
    if e.at >= |a| - (if e.Insert? then 0 else 1) {
      EditAtEnd(e, a, b);
    } else if b == "" {
      DistanceToEmpty(e, a);
    } else {
      var a', c, b', d := a[..|a| - 1], a[|a| - 1], b[..|b| - 1], b[|b| - 1];
      assert a == a' + [c] && b == b' + [d];
      EditInside(e, a', c);
      EditMovesByOne(e, a', b);
      EditMovesByOne(e, a, b');
      EditMovesByOne(e, a', b');
      EditInsideMoves(e, a', c, b', d);
    }
  }

  lemma {:induction false} SubstituteLast(s: string, c: char, d: char, b: string)
    ensures Distance(s + [c], b) <= Distance(s + [d], b) + 1
    decreases |b|
  {
    assert (s + [c])[..|s|] == s && (s + [d])[..|s|] == s;
    if b != "" {
      SubstituteLast(s, c, d, b[..|b| - 1]);
    }
  }

  lemma {:induction false} EmptyDistance(a: string)
    ensures Distance(a, a) == 0
  {
    if a != "" {
      EmptyDistance(a[..|a| - 1]);
    }
  }

  /** No script turns a into b with fewer edits than the distance. */
  lemma {:induction false} DistanceIsLeast(script: seq<Edit>, a: string, b: string)
    requires Transforms(script, a, b)
    ensures Distance(a, b) <= |script|
    decreases |script|
  {
    if script == [] {
      EmptyDistance(a);
    } else {
      DistanceIsLeast(script[1..], Apply(script[0], a), b);
      EditMovesByOne(script[0], a, b);
    }
  }

  // ---- a metric ----

  lemma {:induction false} Reverses(script: seq<Edit>, a: string, b: string) returns (back: seq<Edit>)
    requires Transforms(script, a, b)
    ensures Transforms(back, b, a) && |back| == |script|
    decreases |script|
  {
    if script == [] {
      back := [];
    } else {
      var a1 := Apply(script[0], a);
      var rest := Reverses(script[1..], a1, b);
      UndoUndoes(script[0], a);
      SingleEdit(Undo(script[0], a), a1);
      Concatenates(rest, [Undo(script[0], a)], b, a1, a);
      back := rest + [Undo(script[0], a)];
    }
  }

  lemma {:induction false} DistanceIsSymmetric(a: string, b: string)
    ensures Distance(a, b) == Distance(b, a)
  {
    var there := DistanceIsReached(a, b);
    var back := Reverses(there, a, b);
    DistanceIsLeast(back, b, a);
    there := DistanceIsReached(b, a);
    back := Reverses(there, b, a);
    DistanceIsLeast(back, a, b);
  }

  lemma {:induction false} TriangleInequality(a: string, b: string, c: string)
    ensures Distance(a, c) <= Distance(a, b) + Distance(b, c)
  {
    var first := DistanceIsReached(a, b);
    var second := DistanceIsReached(b, c);
    Concatenates(first, second, a, b, c);
    DistanceIsLeast(first + second, a, c);
  }

  lemma {:induction false} ZeroMeansEqual(a: string, b: string)
    ensures Distance(a, b) == 0 <==> a == b
  {
    EmptyDistance(a);
    var script := DistanceIsReached(a, b);
  }

  /** Distance is the least number of single-character edits that turn a into b. */
  lemma {:induction false} DistanceIsMinimum(a: string, b: string)
    ensures exists script :: Transforms(script, a, b) && |script| == Distance(a, b)
    ensures forall script :: Transforms(script, a, b) ==> Distance(a, b) <= |script|
  {
    var best := DistanceIsReached(a, b);
    forall script | Transforms(script, a, b) ensures Distance(a, b) <= |script| {
      DistanceIsLeast(script, a, b);
    }
  }

  /** There is no cap: texts without a common character are as far apart as the longer one is long. */
  lemma {:induction false} NothingInCommon(a: string, b: string)
    requires forall c | c in a :: c !in b
    ensures Distance(a, b) == if |a| <= |b| then |b| else |a|
    decreases |a| + |b|
  {
    if a != "" && b != "" {
      assert a[|a| - 1] in a && b[|b| - 1] in b;
      NothingInCommon(a[..|a| - 1], b);
      NothingInCommon(a, b[..|b| - 1]);
      NothingInCommon(a[..|a| - 1], b[..|b| - 1]);
    }
  }

  lemma DistanceIsNotCapped()
    ensures Distance("aaa", "bbb") == 3
  {
    NothingInCommon("aaa", "bbb");
  }

  // ---- the two-row loop ----

  lemma TakeNext(s: string, i: nat)
    requires i < |s|
    ensures s[..i + 1] == s[..i] + [s[i]]
  {
  }

  lemma RowStep(a: string, b: string, i: nat, j: nat)
    requires 1 <= i <= |a| && 1 <= j <= |b|
    ensures Distance(a[..i], b[..j])
         == Min(Min(Distance(a[..i - 1], b[..j]) + 1, Distance(a[..i], b[..j - 1]) + 1),
                Distance(a[..i - 1], b[..j - 1]) + if a[i - 1] != b[j - 1] then 1 else 0)
  {
    hide Distance;
    TakeNext(a, i - 1);
    TakeNext(b, j - 1);
    DistanceSnoc(a[..i - 1], a[i - 1], b[..j - 1], b[j - 1]);
  }

  lemma {:induction false} DistanceToNothing(a: string)
    ensures Distance(a, "") == |a|
  {
  }

  /** One row of the table from the row before it. */
  method FillRow(a: string, b: string, i: nat, prev: array<nat>, curr: array<nat>)
    requires 1 <= i <= |a| && prev != curr && prev.Length == curr.Length == |b| + 1
    requires forall j | 0 <= j <= |b| :: prev[j] == Distance(a[..i - 1], b[..j])
    modifies curr
    ensures forall j | 0 <= j <= |b| :: curr[j] == Distance(a[..i], b[..j])
  {
    hide Distance;
    DistanceToNothing(a[..i]);
    assert b[..0] == "";
    curr[0] := i;
    var j := 1;
    while j <= |b|
      invariant 1 <= j <= |b| + 1
      invariant forall k | 0 <= k < j :: curr[k] == Distance(a[..i], b[..k])
    {
      var cost := if a[i - 1] != b[j - 1] then 1 else 0;
      RowStep(a, b, i, j);
      curr[j] := Min(Min(prev[j] + 1, curr[j - 1] + 1), prev[j - 1] + cost);
      j := j + 1;
    }
  }

  method EditDistance(a: string, b: string) returns (d: nat)
    ensures d == Distance(a, b)
  {
    var n, m := |a|, |b|;
    if n == 0 {
      return m;
    }
    if m == 0 {
      return n;
    }
    var prev := new nat[m + 1](j => j);
    var curr := new nat[m + 1](_ => 0);
    var i := 1;
    while i <= n
      invariant 1 <= i <= n + 1 && prev != curr && prev.Length == curr.Length == m + 1
      invariant fresh(prev) && fresh(curr)
      invariant forall j | 0 <= j <= m :: prev[j] == Distance(a[..i - 1], b[..j])
    {
      FillRow(a, b, i, prev, curr);
      prev, curr := curr, prev;
      i := i + 1;
    }
    assert a[..n] == a && b[..m] == b;
    d := prev[m];
  }
}
