/** Parent links between containers, and the trees they form. */
module Forest {
  import opened Common

  datatype Id = Id(text: string)

  // The message_id and parent_id columns of thread_containers.
  type Links = map<Id, Option<Id>>

  ghost predicate IsRoot(p: Links, a: Id) {
    a in p && p[a].None?
  }

  /** The container n links above a; None when the climb leaves the table or passes a root. */
  ghost function Up(p: Links, a: Id, n: nat): Option<Id>
    decreases n
  {
    if a !in p then None
    else if n == 0 then Some(a)
    else match p[a]
      case None => None
      case Some(q) => Up(p, q, n - 1)
  }

  /** Some climb from a, possibly of no steps, reaches b. */
  ghost predicate Reaches(p: Links, a: Id, b: Id) {
    exists n: nat :: Up(p, a, n) == Some(b)
  }

  ghost predicate EndsAt(p: Links, a: Id, n: nat) {
    Up(p, a, n).Some? && IsRoot(p, Up(p, a, n).value)
  }

  ghost predicate Grounded(p: Links, a: Id) {
    exists n: nat :: EndsAt(p, a, n)
  }

  /** Every container climbs to a parentless one: no dangling parent, no cycle. */
  ghost predicate IsForest(p: Links) {
    forall a {:trigger Grounded(p, a)} | a in p :: Grounded(p, a)
  }

  ghost function RootOf(p: Links, a: Id): Id
    requires Grounded(p, a)
  {
    var n: nat :| EndsAt(p, a, n);
    Up(p, a, n).value
  }

  lemma {:induction false} UpStep(p: Links, a: Id, n: nat, m: nat)
    requires Up(p, a, n).Some?
    ensures Up(p, a, n + m) == Up(p, Up(p, a, n).value, m)
    decreases n
  {
    if n > 0 {
      UpStep(p, p[a].value, n - 1, m);
    }
  }

  /** Two climbs that end at parentless containers end at the same one, after as many steps. */
  lemma {:induction false} ClimbIsUnique(p: Links, a: Id, n: nat, m: nat)
    requires EndsAt(p, a, n) && EndsAt(p, a, m)
    ensures n == m
  {
    if n < m {
      UpStep(p, a, n, m - n);
    } else if m < n {
      UpStep(p, a, m, n - m);
    }
  }

  /** RootOf names the only parentless container above a. */
  lemma {:induction false} RootIsUnique(p: Links, a: Id, r: Id)
    requires Grounded(p, a)
    ensures r == RootOf(p, a) <==> Reaches(p, a, r) && IsRoot(p, r)
  {
    var n: nat :| EndsAt(p, a, n) && RootOf(p, a) == Up(p, a, n).value;
    if Reaches(p, a, r) && IsRoot(p, r) {
      var m: nat :| Up(p, a, m) == Some(r);
      ClimbIsUnique(p, a, n, m);
    }
  }

  /** Everything above a has the same root as a. */
  lemma {:induction false} RootAbove(p: Links, a: Id, n: nat)
    requires Grounded(p, a) && Up(p, a, n).Some?
    ensures Grounded(p, Up(p, a, n).value) && RootOf(p, a) == RootOf(p, Up(p, a, n).value)
  {
    var b := Up(p, a, n).value;
    var d: nat :| EndsAt(p, a, d);
    if d < n {
      UpStep(p, a, d, n - d);
    }
    UpStep(p, a, n, d - n);
    assert EndsAt(p, b, d - n);
    RootIsUnique(p, a, Up(p, a, d).value);
    RootIsUnique(p, b, Up(p, a, d).value);
  }

  /** In a forest no container is above itself, and every parent is in the table. */
  lemma {:induction false} ForestIsAcyclicAndClosed(p: Links)
    requires IsForest(p)
    ensures forall a, n: nat | n > 0 :: Up(p, a, n) != Some(a)
    ensures forall a | a in p && p[a].Some? :: p[a].value in p
  {
    forall a, n: nat | n > 0 && Up(p, a, n) == Some(a) ensures false {
      RootAbove(p, a, n);
      var d: nat :| EndsAt(p, a, d);
      UpStep(p, a, n, d);
      ClimbIsUnique(p, a, d, n + d);
    }
    forall a | a in p && p[a].Some? ensures p[a].value in p {
      assert Grounded(p, a);
      var d: nat :| EndsAt(p, a, d);
      assert d > 0 && Up(p, p[a].value, d - 1).Some?;
    }
  }

  /** Give the parentless c the parent q, unless that closes a cycle. */
  ghost function Link(p: Links, c: Id, q: Id): Links {
    if IsRoot(p, c) && !Reaches(p, q, c) then p[c := Some(q)] else p
  }

  /** p' has every container of p, and no parent that was set has changed. */
  ghost predicate Extends(p: Links, p': Links) {
    && p.Keys <= p'.Keys
    && forall a | a in p && p[a].Some? :: p'[a] == p[a]
  }

  lemma {:induction false} ExtendsKeepsClimb(p: Links, p': Links, a: Id, n: nat)
    requires Extends(p, p') && Up(p, a, n).Some?
    ensures Up(p', a, n) == Up(p, a, n)
    decreases n
  {
    if n > 0 {
      ExtendsKeepsClimb(p, p', p[a].value, n - 1);
    }
  }

  /** A container moves with its old root: its new root is the old root's new root. */
  lemma {:induction false} RootsMoveTogether(p: Links, p': Links, a: Id)
    requires Extends(p, p') && IsForest(p) && IsForest(p') && a in p
    ensures RootOf(p, a) in p' && RootOf(p', a) == RootOf(p', RootOf(p, a))
  {
    assert Grounded(p, a);
    var n: nat :| EndsAt(p, a, n) && RootOf(p, a) == Up(p, a, n).value;
    ExtendsKeepsClimb(p, p', a, n);
    RootAbove(p', a, n);
  }

  lemma {:induction false} LinkClimb(p: Links, c: Id, q: Id, a: Id, n: nat)
    requires IsForest(p) && q in p && IsRoot(p, c) && !Reaches(p, q, c)
    requires EndsAt(p, a, n)
    ensures Grounded(p[c := Some(q)], a)
    decreases Up(p, a, n) == Some(c), n
  {
    var p' := p[c := Some(q)];
    if n == 0 {
      if a == c {
        assert Grounded(p, q);
        var m: nat :| EndsAt(p, q, m);
        assert Up(p, q, m).value != c;
        LinkClimb(p, c, q, q, m);
        var k: nat :| EndsAt(p', q, k);
        assert Up(p', c, k + 1) == Up(p', q, k);
        assert EndsAt(p', c, k + 1);
      } else {
        assert EndsAt(p', a, 0);
      }
    } else {
      var b := p[a].value;
      LinkClimb(p, c, q, b, n - 1);
      var k: nat :| EndsAt(p', b, k);
      assert Up(p', a, k + 1) == Up(p', b, k);
      assert EndsAt(p', a, k + 1);
    }
  }

  lemma {:induction false} LinkGrounds(p: Links, c: Id, q: Id, a: Id)
    requires IsForest(p) && q in p && a in p
    ensures Grounded(Link(p, c, q), a)
  {
    if IsRoot(p, c) && !Reaches(p, q, c) {
      assert Grounded(p, a);
      var n: nat :| EndsAt(p, a, n);
      LinkClimb(p, c, q, a, n);
    }
  }

  /** Linking keeps the forest and every parent already set. */
  lemma {:induction false} LinkKeepsForest(p: Links, c: Id, q: Id)
    requires IsForest(p) && q in p
    ensures IsForest(Link(p, c, q)) && Extends(p, Link(p, c, q)) && Link(p, c, q).Keys == p.Keys
  {
    var p' := Link(p, c, q);
    forall a | a in p' ensures Grounded(p', a) {
      LinkGrounds(p, c, q, a);
    }
    assert IsForest(p');
  }

  /** A parentless c ends up in q's tree: linked below q, or already above it. */
  lemma {:induction false} LinkJoins(p: Links, c: Id, q: Id)
    requires IsForest(p) && q in p && IsRoot(p, c) && IsForest(Link(p, c, q))
    ensures RootOf(Link(p, c, q), c) == RootOf(Link(p, c, q), q)
  {
    var p' := Link(p, c, q);
    if Reaches(p, q, c) {
      RootIsUnique(p, q, c);
      assert Up(p, c, 0) == Some(c);
      RootIsUnique(p, c, c);
    } else {
      assert Up(p', c, 1) == Up(p', q, 0) == Some(q);
      RootAbove(p', c, 1);
    }
  }

  /** A container without parent, added to the table. */
  ghost function Plant(p: Links, a: Id): Links {
    if a in p then p else p[a := None]
  }

  lemma {:induction false} PlantKeepsRoot(p: Links, a: Id, b: Id)
    requires b in p && Grounded(p, b)
    ensures Grounded(Plant(p, a), b) && RootOf(Plant(p, a), b) == RootOf(p, b)
  {
    var p' := Plant(p, a);
    assert Extends(p, p');
    var n: nat :| EndsAt(p, b, n);
    var r := Up(p, b, n).value;
    ExtendsKeepsClimb(p, p', b, n);
    assert EndsAt(p', b, n);
    RootIsUnique(p, b, r);
    RootIsUnique(p', b, r);
  }

  lemma {:induction false} RootOfRoot(p: Links, a: Id)
    requires IsRoot(p, a)
    ensures Grounded(p, a) && RootOf(p, a) == a
  {
    assert Up(p, a, 0) == Some(a);
    assert EndsAt(p, a, 0);
    RootIsUnique(p, a, a);
  }

  lemma {:induction false} PlantKeepsForest(p: Links, a: Id)
    requires IsForest(p)
    ensures IsForest(Plant(p, a)) && Extends(p, Plant(p, a))
  {
    var p' := Plant(p, a);
    forall b | b in p' ensures Grounded(p', b) {
      if b in p {
        PlantKeepsRoot(p, a, b);
      } else {
        RootOfRoot(p', b);
      }
    }
  }
}
